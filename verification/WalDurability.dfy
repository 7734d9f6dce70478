/** Appends, direct file writes, materialize workers that may stop half way, and crashes,
    interleaved in any order: an acknowledged write is never lost. */
module WalDurability {
  import opened ByteCodec
  import opened Metadata
  import opened NeedleCodec
  import opened Segments
  import opened WalState
  import opened WalRecovery
  import opened WalRefinement
  import opened FileTier

  /** A volume: its log, its file tier, the materialize requests in flight, and (for the
      statement only) every append it has acknowledged. */
  datatype Volume = Volume(wal: State, files: Files, queue: set<(Key, Entry)>, acked: map<Key, Needle>)

  /** How a worker ends: both files written; neither; only the shard file, with these bytes in
      it; or only the metadata file. */
  datatype WorkEnd = Done | Refused | ShardOnly(left: bytes) | MetaOnly

  datatype Step =
    | Put(needle: Needle, now: nat, sent: bool)
    | Direct(needle: Needle)
    | Work(req: (Key, Entry), end: WorkEnd)
    | Crash(torn: bytes, now: nat)
    | Lost(needle: Needle, now: nat, torn: bytes, reopened: nat)

  /** An object as the write path records it: its metadata decodes to a live version of the
      same id. */
  predicate WellMade(env: Env, n: Needle)
  {
    && n.flags == FLAG_NORMAL
    && env.decodeMeta(n.meta).Some?
    && env.decodeMeta(n.meta).value.versionId == n.versionId
    && !env.decodeMeta(n.meta).value.isDeleteMarker
  }

  /** No object is written both with and without a version id. */
  ghost predicate Unmixed(acked: map<Key, Needle>)
  {
    forall a, b :: a in acked && b in acked && SameObject(a, b) ==> (a.versionId == [] <==> b.versionId == [])
  }

  /** An append interrupted before its header was stored leaves the header bytes zero. */
  predicate TornOk(st: State, torn: bytes)
  {
    && st.active.size + |torn| == |st.active.mmap|
    && (|torn| >= 4 ==> torn[..4] == Zeros(4))
  }

  /** A request for the key is in flight and its segment still lives. */
  ghost predicate Waiting(v: Volume, k: Key)
  {
    exists e :: (k, e) in v.queue && ReadData(v.wal, e).Some?
  }

  /** The metadata file lists this version. */
  predicate Listed(files: Files, k: Key, meta: ObjectMeta)
  {
    && Lookup(files, k).Some? && Lookup(files, k).value.versionId == k.versionId
    && SameVersion(Lookup(files, k).value, Latest(k, meta))
  }

  /** When a key may be appended, again or for the first time. */
  ghost predicate CanPut(v: Volume, k: Key)
  {
    k !in v.files.shards && !Waiting(v, k)
  }

  /** When it may be written to the files directly. */
  ghost predicate CanDirect(v: Volume, k: Key)
  {
    k !in v.wal.pending && !Waiting(v, k)
  }

  /** When a worker may stop like this. The metadata file is written together with the shard file,
      not after it, only for an object without versions. */
  predicate CanEnd(env: Env, v: Volume, k: Key, e: Entry, end: WorkEnd)
  {
    match end
    case Done => true
    case Refused => true
    case MetaOnly => k.versionId == []
    case ShardOnly(left) =>
      match (ReadData(v.wal, e), ReadMeta(env, v.wal, e))
      case (Some(data), Some(meta)) => left == data && Listed(v.files, k, meta)
      case _ => true
  }

  ghost predicate Enabled(env: Env, v: Volume, step: Step)
  {
    match step
    case Put(n, _, _) =>
      && Good(env, n) && WellMade(env, n) && CanPut(v, KeyOf(n)) && Unmixed(v.acked[KeyOf(n) := n])
      && v.wal.nextId < MAX_SEGMENTS
    case Direct(n) => WellMade(env, n) && CanDirect(v, KeyOf(n)) && Unmixed(v.acked[KeyOf(n) := n])
    case Work(req, end) => req in v.queue && CanEnd(env, v, req.0, req.1, end)
    case Crash(torn, _) => TornOk(v.wal, torn) && v.wal.nextId < MAX_SEGMENTS
    case Lost(n, now, torn, _) =>
      && Good(env, n) && WellMade(env, n) && Unmixed(v.acked[KeyOf(n) := n])
      && v.wal.nextId < MAX_SEGMENTS && v.wal.capacity >= SUPERBLOCK_SIZE
      && Crashable(PutStep(env, v, n, now, false).wal, torn)
  }

  predicate Crashable(st: State, torn: bytes)
  {
    && TornOk(st, torn) && st.nextId < MAX_SEGMENTS
    && st.capacity >= SUPERBLOCK_SIZE && st.active.size <= |st.active.mmap|
  }

  /** An append is acknowledged when the log accepts it; the request may be dropped when the
      channel is full. */
  function PutStep(env: Env, v: Volume, n: Needle, now: nat, sent: bool): (r: Volume)
    requires v.wal.capacity >= SUPERBLOCK_SIZE
  {
    match AppendWal(env, v.wal, n, now)
    case (st, Err(_)) => v.(wal := st)
    case (st, Ok(e)) =>
      v.(wal := st, acked := v.acked[KeyOf(n) := n],
         queue := if sent then v.queue + {(KeyOf(n), e)} else v.queue)
  }

  /** An object too large for the log goes straight to the file tier. */
  function DirectStep(env: Env, v: Volume, n: Needle): (r: Volume)
    requires env.decodeMeta(n.meta).Some?
  {
    v.(files := Materialize(v.files, KeyOf(n), n.data, MetaOf(env, n)), acked := v.acked[KeyOf(n) := n])
  }

  /** A worker takes a request, reads the segment, writes the files and marks the key. If the
      segment is gone or the metadata does not decode, the request fails and nothing changes; if
      a file cannot be written, the request is dropped and the key stays unmarked. */
  function WorkStep(env: Env, v: Volume, k: Key, e: Entry, end: WorkEnd): (r: Volume)
  {
    var rest := v.(queue := v.queue - {(k, e)});
    match (ReadData(v.wal, e), ReadMeta(env, v.wal, e))
    case (Some(data), Some(meta)) =>
      (match end
       case Done => rest.(files := Materialize(v.files, k, data, meta), wal := Mark(v.wal, k))
       case Refused => rest
       case ShardOnly(left) => rest.(files := v.files.(shards := v.files.shards[k := left]))
       case MetaOnly => rest.(files := v.files.(metas := Materialize(v.files, k, data, meta).metas)))
    case _ => rest
  }

  /** The segment files after a crash: a partial append may lie behind the write offset. */
  function CrashedDisk(st: State, torn: bytes): (d: map<nat, bytes>)
    requires st.active.size <= |st.active.mmap|
  {
    st.disk[st.active.id := st.active.mmap[..st.active.size] + torn]
  }

  /** Reopen from the files alone and send a request for everything pending. */
  function CrashStep(env: Env, v: Volume, torn: bytes, now: nat): (r: Volume)
    requires v.wal.capacity >= SUPERBLOCK_SIZE && v.wal.active.size <= |v.wal.active.mmap|
  {
    var st := OpenWal(env, CrashedDisk(v.wal, torn), v.files.shards.Keys, v.wal.capacity, now);
    v.(wal := st, queue := set k | k in st.pending :: (k, st.pending[k]))
  }

  /** The process dies after an append has stored its needle and before it acknowledges it. The
      write has happened, unless the key has a file: then recovery skips the needle. */
  function LostStep(env: Env, v: Volume, n: Needle, now: nat, torn: bytes, reopened: nat): (r: Volume)
    requires v.wal.capacity >= SUPERBLOCK_SIZE && Crashable(PutStep(env, v, n, now, false).wal, torn)
  {
    var v1 := PutStep(env, v, n, now, false);
    CrashStep(env, v1.(acked := if KeyOf(n) in v.files.shards then v.acked else v1.acked), torn, reopened)
  }

  ghost function Apply(env: Env, v: Volume, step: Step): (r: Volume)
    requires v.wal.capacity >= SUPERBLOCK_SIZE && v.wal.active.size <= |v.wal.active.mmap|
    requires Enabled(env, v, step)
  {
    match step
    case Put(n, now, sent) => PutStep(env, v, n, now, sent)
    case Direct(n) => DirectStep(env, v, n)
    case Work(req, end) => WorkStep(env, v, req.0, req.1, end)
    case Crash(torn, now) => CrashStep(env, v, torn, now)
    case Lost(n, now, torn, reopened) => LostStep(env, v, n, now, torn, reopened)
  }

  /** A read of the volume: the pending map first, then the file tier. */
  function ReadObject(env: Env, v: Volume, k: Key): (r: Option<(bytes, ObjectMeta)>)
  {
    if k in v.wal.pending then
      match (ReadData(v.wal, v.wal.pending[k]), ReadMeta(env, v.wal, v.wal.pending[k]))
      case (Some(data), Some(meta)) => Some((data, meta))
      case _ => ReadFile(v.files, k)
    else ReadFile(v.files, k)
  }

  function MetaOf(env: Env, n: Needle): (m: ObjectMeta)
    requires env.decodeMeta(n.meta).Some?
  {
    env.decodeMeta(n.meta).value
  }

  // The invariant

  /** Every needle on disk is of an acknowledged object. */
  ghost predicate LogOk(log: map<nat, seq<Needle>>, acked: map<Key, Needle>)
  {
    forall id, n :: id in log && n in log[id] ==> KeyOf(n) in acked && n.flags != FLAG_DELETE
  }

  /** The last needle of a key. */
  ghost function LastOf(ns: seq<Needle>, k: Key): (r: Option<Needle>)
  {
    if ns == [] then None
    else if KeyOf(ns[|ns| - 1]) == k then Some(ns[|ns| - 1])
    else LastOf(ns[..|ns| - 1], k)
  }

  /** Segment `id` is the last one that holds the key, and `n` its last needle of it. */
  ghost predicate Newest(log: map<nat, seq<Needle>>, id: nat, k: Key, n: Needle)
  {
    id in log && LastOf(log[id], k) == Some(n) && forall j :: j in log && j > id ==> LastOf(log[j], k) == None
  }

  /** The acknowledged needle of a key without a file is its newest on disk, and its entry is in
      that segment. */
  ghost predicate NewestOk(st: State, log: map<nat, seq<Needle>>, files: Files, acked: map<Key, Needle>)
  {
    forall k :: k in acked && k !in files.shards ==>
      k in st.pending && Newest(log, st.pending[k].segmentId, k, acked[k])
  }

  ghost predicate AckedOk(env: Env, acked: map<Key, Needle>)
  {
    && (forall k :: k in acked ==> KeyOf(acked[k]) == k && WellMade(env, acked[k]))
    && Unmixed(acked)
  }

  /** Every shard file is that of an acknowledged object, and serves it. */
  ghost predicate FilesOk(env: Env, files: Files, acked: map<Key, Needle>)
  {
    forall k :: k in files.shards ==>
      k in acked && env.decodeMeta(acked[k].meta).Some? && Serves(files, k, acked[k].data, MetaOf(env, acked[k]))
  }

  /** A request in flight points at its needle for as long as its segment lives. */
  ghost predicate QueueOk(queue: set<(Key, Entry)>, nextId: nat, log: map<nat, seq<Needle>>, acked: map<Key, Needle>)
  {
    forall k, e :: (k, e) in queue ==>
      && k in acked && e.segmentId < nextId
      && (e.segmentId in log ==> Points(log, e, acked[k]))
  }

  /** What is pending, and that together with the files it covers everything acknowledged. */
  ghost predicate Covered(files: Files, m: map<Key, Needle>, acked: map<Key, Needle>)
  {
    && (forall k :: k in m ==> k in acked && m[k] == acked[k])
    && (forall k :: k in acked ==> k in m || k in files.shards)
  }

  ghost predicate VolumeInv(env: Env, v: Volume, log: map<nat, seq<Needle>>, m: map<Key, Needle>)
  {
    && Inv(env, v.wal, log, m)
    && LogOk(log, v.acked)
    && AckedOk(env, v.acked)
    && FilesOk(env, v.files, v.acked)
    && QueueOk(v.queue, v.wal.nextId, log, v.acked)
    && Covered(v.files, m, v.acked)
    && NewestOk(v.wal, log, v.files, v.acked)
  }

  /** The volume serves an acknowledged append with its bytes and its version's metadata. */
  ghost predicate Durable(env: Env, v: Volume, k: Key)
  {
    && k in v.acked && env.decodeMeta(v.acked[k].meta).Some?
    && ReadObject(env, v, k).Some?
    && ReadObject(env, v, k).value.0 == v.acked[k].data
    && SameVersion(ReadObject(env, v, k).value.1, Latest(k, MetaOf(env, v.acked[k])))
  }

  lemma InvIsDurable(env: Env, v: Volume, log: map<nat, seq<Needle>>, m: map<Key, Needle>, k: Key)
    requires VolumeInv(env, v, log, m) && k in v.acked
    ensures Durable(env, v, k)
  {
    hide Inv, LogOk, QueueOk, Serves, ReadFile, Unmixed, ReadData, ReadMetaBytes, NewestOk;
    InvReads(env, v.wal, log, m);
    if k !in m {
      ServesReads(v.files, k, v.acked[k].data, MetaOf(env, v.acked[k]));
    }
  }

  // The last needle of a key

  lemma {:induction false} LastOfMember(ns: seq<Needle>, k: Key)
    ensures LastOf(ns, k) == None <==> forall n :: n in ns ==> KeyOf(n) != k
    ensures LastOf(ns, k).Some? ==> LastOf(ns, k).value in ns && KeyOf(LastOf(ns, k).value) == k
  {
    if ns != [] {
      LastOfMember(ns[..|ns| - 1], k);
      assert ns == ns[..|ns| - 1] + [ns[|ns| - 1]];
    }
  }

  lemma {:induction false} LastOfAppend(a: seq<Needle>, b: seq<Needle>, k: Key)
    ensures LastOf(a + b, k) == if LastOf(b, k).Some? then LastOf(b, k) else LastOf(a, k)
  {
    if b == [] {
      assert a + b == a;
    } else {
      LastOfAppend(a, b[..|b| - 1], k);
      assert (a + b)[..|a + b| - 1] == a + b[..|b| - 1];
    }
  }

  lemma {:induction false} NewestInOrder(log: map<nat, seq<Needle>>, id: nat, k: Key, n: Needle, hi: nat)
    requires Newest(log, id, k, n) && id < hi
    ensures LastOf(InOrder(log, hi), k) == Some(n)
  {
    if hi - 1 in log {
      LastOfAppend(InOrder(log, hi - 1), log[hi - 1], k);
    }
    if hi - 1 > id {
      NewestInOrder(log, id, k, n, hi - 1);
    }
  }

  /** Replaying a log leaves the last needle of each key without a file, unless that is a
      tombstone. */
  lemma {:induction false} ReplayIsLast(ns: seq<Needle>, dest: set<Key>, k: Key)
    ensures k in Replay(map[], ns, dest)
            <==> k !in dest && LastOf(ns, k).Some? && LastOf(ns, k).value.flags != FLAG_DELETE
    ensures k in Replay(map[], ns, dest) ==> Some(Replay(map[], ns, dest)[k]) == LastOf(ns, k)
  {
    if ns != [] {
      ReplayIsLast(ns[..|ns| - 1], dest, k);
    }
  }

  // Put

  lemma QueueGrows(env: Env, queue: set<(Key, Entry)>, nextId: nat, nextId': nat,
                   log: map<nat, seq<Needle>>, log': map<nat, seq<Needle>>, acked: map<Key, Needle>,
                   acked': map<Key, Needle>)
    requires QueueOk(queue, nextId, log, acked) && nextId <= nextId'
    requires acked.Keys <= acked'.Keys
    requires forall k, e :: (k, e) in queue && e.segmentId in log ==> acked'[k] == acked[k]
    requires forall id :: id in log' && id < nextId ==> id in log && log[id] <= log'[id]
    ensures QueueOk(queue, nextId', log', acked')
  {
    hide Points;
    forall k, e | (k, e) in queue
      ensures e.segmentId in log' ==> Points(log', e, acked'[k])
    {
      if e.segmentId in log' {
        PointsExtends(env, log, log', e, acked[k]);
      }
    }
  }

  /** Requests for a key that nobody waits for point at segments that are gone. */
  lemma NotWaiting(env: Env, v: Volume, log: map<nat, seq<Needle>>, k: Key, e: Entry)
    requires SegsOk(env, v.wal, log) && QueueOk(v.queue, v.wal.nextId, log, v.acked)
    requires !Waiting(v, k) && (k, e) in v.queue
    ensures e.segmentId !in log
  {
    hide SegsOk, Points, ReadData, ReadMetaBytes;
    if e.segmentId in log {
      PointsReads(env, v.wal, log, e, v.acked[k]);
    }
  }

  lemma LogAfterGrows(env: Env, st: State, log: map<nat, seq<Needle>>, m: map<Key, Needle>, n: Needle)
    requires Inv(env, st, log, m)
    ensures var log' := LogAfter(env, st, log, n);
            && (forall id :: id in log' && id < st.nextId ==> id in log && log[id] <= log'[id])
            && (forall id, x :: id in log' && x in log'[id] ==> (id in log && x in log[id]) || x == n)
            && (forall id :: id in log' && SUPERBLOCK_SIZE + SerializedSize(n) > st.capacity ==>
                  log'[id] == [] || (id in log && log'[id] == log[id]))
  {
    hide Holds, TailIsZero, SealedOk, DiskOk, PendingOk, CountsOk, Serialize, LocationOf;
    InvActive(env, st, log, m);
    assert st.nextId !in log;
  }

  lemma PutLog(env: Env, st: State, log: map<nat, seq<Needle>>, m: map<Key, Needle>, acked: map<Key, Needle>, n: Needle)
    requires Inv(env, st, log, m) && LogOk(log, acked)
    requires (KeyOf(n) in acked && n.flags != FLAG_DELETE) || SUPERBLOCK_SIZE + SerializedSize(n) > st.capacity
    ensures LogOk(LogAfter(env, st, log, n), acked)
  {
    hide Inv, LogAfter;
    InvActive(env, st, log, m);
    LogAfterGrows(env, st, log, m, n);
  }

  lemma PutAcked(env: Env, files: Files, acked: map<Key, Needle>, m: map<Key, Needle>, n: Needle)
    requires AckedOk(env, acked) && FilesOk(env, files, acked) && Covered(files, m, acked)
    requires WellMade(env, n) && KeyOf(n) !in files.shards && Unmixed(acked[KeyOf(n) := n])
    ensures var acked' := acked[KeyOf(n) := n];
            && AckedOk(env, acked') && FilesOk(env, files, acked')
            && Covered(files, m[KeyOf(n) := n], acked')
  {
    hide Good, Unmixed, Serves, AckedOk;
    AckedWiden(env, acked, n);
  }

  lemma LogOkWiden(log: map<nat, seq<Needle>>, acked: map<Key, Needle>, k: Key, n: Needle)
    requires LogOk(log, acked)
    ensures LogOk(log, acked[k := n])
  {
  }

  /** An accepted needle becomes the newest of its key; the others stay the newest of theirs. */
  lemma PutNewest(env: Env, v: Volume, log: map<nat, seq<Needle>>, m: map<Key, Needle>, n: Needle, now: nat)
    requires Inv(env, v.wal, log, m) && NewestOk(v.wal, log, v.files, v.acked)
    requires Good(env, n) && v.wal.nextId < MAX_SEGMENTS && v.wal.capacity >= SUPERBLOCK_SIZE
    ensures var (st, r) := AppendWal(env, v.wal, n, now);
            var log' := LogAfter(env, v.wal, log, n);
            && NewestOk(st, log', v.files, if r.Ok? then v.acked[KeyOf(n) := n] else v.acked)
            && (r.Ok? ==> KeyOf(n) in st.pending && Newest(log', st.pending[KeyOf(n)].segmentId, KeyOf(n), n))
  {
    hide Inv, Good, Newest, LogAfter, AppendWal, NewestOk;
    InvActive(env, v.wal, log, m);
    AppendedEntries(env, v.wal, log, m, n, now);
    var st, r := AppendWal(env, v.wal, n, now).0, AppendWal(env, v.wal, n, now).1;
    var log' := LogAfter(env, v.wal, log, n);
    OthersNewest(env, v, log, m, n, now);
    if r.Ok? {
      NewIsNewest(env, v.wal, log, m, n, now);
      NewestPut(v.wal.pending, st, log', v.files, v.acked, n, r.value);
    } else {
      NewestStay(v.wal, st, log', v.files, v.acked);
    }
  }

  /** The entries of all keys but one, or of all, are in the right segment. */
  ghost predicate NewestBut(pending: map<Key, Entry>, log: map<nat, seq<Needle>>, files: Files, acked: map<Key, Needle>,
                            but: Option<Key>)
  {
    forall k :: k in acked && k !in files.shards && Some(k) != but ==>
      k in pending && Newest(log, pending[k].segmentId, k, acked[k])
  }

  lemma OthersNewest(env: Env, v: Volume, log: map<nat, seq<Needle>>, m: map<Key, Needle>, n: Needle, now: nat)
    requires Inv(env, v.wal, log, m) && v.wal.active.id in log && NewestOk(v.wal, log, v.files, v.acked)
    ensures var but := if SUPERBLOCK_SIZE + SerializedSize(n) <= v.wal.capacity then Some(KeyOf(n)) else None;
            NewestBut(v.wal.pending, LogAfter(env, v.wal, log, n), v.files, v.acked, but)
  {
    hide Inv, Newest, LogAfter;
    var but := if SUPERBLOCK_SIZE + SerializedSize(n) <= v.wal.capacity then Some(KeyOf(n)) else None;
    forall k | k in v.acked && k !in v.files.shards && Some(k) != but
      ensures Newest(LogAfter(env, v.wal, log, n), v.wal.pending[k].segmentId, k, v.acked[k])
    {
      NewestAfter(env, v.wal, log, m, n, now, k, v.wal.pending[k].segmentId, v.acked[k]);
    }
  }

  lemma NewestPut(pending: map<Key, Entry>, st: State, log: map<nat, seq<Needle>>, files: Files,
                  acked: map<Key, Needle>, n: Needle, e: Entry)
    requires NewestBut(pending, log, files, acked, Some(KeyOf(n))) && st.pending == pending[KeyOf(n) := e]
    requires Newest(log, e.segmentId, KeyOf(n), n)
    ensures NewestOk(st, log, files, acked[KeyOf(n) := n])
  {
    hide Newest;
  }

  lemma NewestStay(was: State, st: State, log: map<nat, seq<Needle>>, files: Files, acked: map<Key, Needle>)
    requires NewestBut(was.pending, log, files, acked, None) && st.pending == was.pending
    ensures NewestOk(st, log, files, acked)
  {
    hide Newest;
  }

  lemma AppendedEntries(env: Env, st: State, log: map<nat, seq<Needle>>, m: map<Key, Needle>, n: Needle, now: nat)
    requires Inv(env, st, log, m) && Good(env, n) && st.capacity >= SUPERBLOCK_SIZE && st.nextId < MAX_SEGMENTS
    ensures var (st', r) := AppendWal(env, st, n, now);
            && (r.Err? ==> st'.pending == st.pending)
            && (r.Ok? ==> st'.pending == st.pending[KeyOf(n) := r.value] && r.value.segmentId == st'.active.id)
            && (r.Ok? <==> SUPERBLOCK_SIZE + SerializedSize(n) <= st.capacity)
  {
    hide Inv, Append, CreateFile, Good;
    AppendRefines(env, st, log, m, n, now);
  }

  lemma NewestAfter(env: Env, st: State, log: map<nat, seq<Needle>>, m: map<Key, Needle>, n: Needle, now: nat, k: Key,
                    id: nat, newest: Needle)
    requires Inv(env, st, log, m) && Newest(log, id, k, newest)
    requires k != KeyOf(n) || SUPERBLOCK_SIZE + SerializedSize(n) > st.capacity
    ensures Newest(LogAfter(env, st, log, n), id, k, newest)
  {
    hide Inv, Append;
    InvActive(env, st, log, m);
    FitsIfAppended(env, st.active, n);
    assert st.nextId !in log && id < st.nextId by { SegmentBound(env, st, log, m); }
    var a := st.active.id;
    LastOfAppend(log[a], [n], k);
    assert LastOf([n], k) == if k == KeyOf(n) then Some(n) else LastOf([n][..0], k);
    assert [n][..0] == [];
  }

  lemma FitsIfAppended(env: Env, s: Seg, n: Needle)
    ensures Append(env, s, n).Some? ==> s.size + SerializedSize(n) <= |s.mmap|
  {
    hide Serialize, LocationOf;
  }

  lemma SegmentBound(env: Env, st: State, log: map<nat, seq<Needle>>, m: map<Key, Needle>)
    requires Inv(env, st, log, m)
    ensures st.active.id in log && forall id :: id in log ==> id <= st.active.id < st.nextId
  {
    hide Holds, TailIsZero, SealedOk, DiskOk, PendingOk, CountsOk, Ids;
  }

  lemma AppendEnds(env: Env, st: State, log: map<nat, seq<Needle>>, m: map<Key, Needle>, n: Needle, now: nat)
    requires Inv(env, st, log, m) && st.capacity >= SUPERBLOCK_SIZE && AppendWal(env, st, n, now).1.Ok?
    requires SUPERBLOCK_SIZE + SerializedSize(n) <= st.capacity
    ensures var a, log' := AppendWal(env, st, n, now).0.active.id, LogAfter(env, st, log, n);
            a in log' && log'[a] != [] && log'[a][|log'[a]| - 1] == n
  {
    hide Inv, Append, CreateFile;
    InvActive(env, st, log, m);
    AppendId(env, st.active, n);
    AppendId(env, Rotate(st, now).active, n);
  }

  lemma AppendId(env: Env, s: Seg, n: Needle)
    ensures Append(env, s, n).Some? ==> Append(env, s, n).value.0.id == s.id
  {
  }

  lemma NewIsNewest(env: Env, st: State, log: map<nat, seq<Needle>>, m: map<Key, Needle>, n: Needle, now: nat)
    requires Inv(env, st, log, m) && Good(env, n) && st.nextId < MAX_SEGMENTS && st.capacity >= SUPERBLOCK_SIZE
    requires AppendWal(env, st, n, now).1.Ok?
    ensures Newest(LogAfter(env, st, log, n), AppendWal(env, st, n, now).1.value.segmentId, KeyOf(n), n)
  {
    hide Inv, Append, AppendWal, LogAfter;
    InvActive(env, st, log, m);
    AppendedEntries(env, st, log, m, n, now);
    AppendRefines(env, st, log, m, n, now);
    SegmentBound(env, AppendWal(env, st, n, now).0, LogAfter(env, st, log, n), m[KeyOf(n) := n]);
    AppendEnds(env, st, log, m, n, now);
  }

  lemma PutQueue(queue: set<(Key, Entry)>, nextId: nat, log: map<nat, seq<Needle>>, acked: map<Key, Needle>, k: Key,
                 e: Entry)
    requires QueueOk(queue, nextId, log, acked)
    requires k in acked && e.segmentId < nextId && Points(log, e, acked[k])
    ensures QueueOk(queue + {(k, e)}, nextId, log, acked)
  {
    hide Points;
  }

  lemma PutKeepsInv(env: Env, v: Volume, log: map<nat, seq<Needle>>, m: map<Key, Needle>, n: Needle, now: nat,
                    sent: bool)
    returns (log': map<nat, seq<Needle>>, m': map<Key, Needle>)
    requires VolumeInv(env, v, log, m) && Enabled(env, v, Put(n, now, sent))
    requires v.wal.capacity >= SUPERBLOCK_SIZE
    ensures VolumeInv(env, PutStep(env, v, n, now, sent), log', m')
  {
    hide Inv, Good, AppendWal, LogAfter, Points, Unmixed, LogOk, AckedOk, FilesOk, QueueOk, Covered, NewestOk, Waiting;
    InvActive(env, v.wal, log, m);
    AppendRefines(env, v.wal, log, m, n, now);
    LogAfterGrows(env, v.wal, log, m, n);
    NextIdGrows(env, v.wal, n, now);
    PutNewest(env, v, log, m, n, now);
    var st, r := AppendWal(env, v.wal, n, now).0, AppendWal(env, v.wal, n, now).1;
    log' := LogAfter(env, v.wal, log, n);
    if r.Ok? {
      m' := m[KeyOf(n) := n];
      var acked' := v.acked[KeyOf(n) := n];
      PutAcked(env, v.files, v.acked, m, n);
      LogOkWiden(log, v.acked, KeyOf(n), n);
      PutLog(env, v.wal, log, m, acked', n);
      OverwrittenQueue(env, v, log, n);
      QueueGrows(env, v.queue, v.wal.nextId, st.nextId, log, log', v.acked, acked');
      PendingPoints(env, st, log', m', KeyOf(n));
      PutQueue(v.queue, st.nextId, log', acked', KeyOf(n), r.value);
    } else {
      m' := m;
      PutLog(env, v.wal, log, m, v.acked, n);
      QueueKnown(v.queue, v.wal.nextId, log, v.acked);
      QueueGrows(env, v.queue, v.wal.nextId, st.nextId, log, log', v.acked, v.acked);
    }
  }

  lemma QueueKnown(queue: set<(Key, Entry)>, nextId: nat, log: map<nat, seq<Needle>>, acked: map<Key, Needle>)
    requires QueueOk(queue, nextId, log, acked)
    ensures forall k, e :: (k, e) in queue ==> k in acked
  {
    hide Points;
  }

  lemma OverwrittenQueue(env: Env, v: Volume, log: map<nat, seq<Needle>>, n: Needle)
    requires SegsOk(env, v.wal, log) && QueueOk(v.queue, v.wal.nextId, log, v.acked) && !Waiting(v, KeyOf(n))
    ensures forall k, e :: (k, e) in v.queue ==> k in v.acked
    ensures forall k, e :: (k, e) in v.queue && e.segmentId in log ==> v.acked[KeyOf(n) := n][k] == v.acked[k]
  {
    hide SegsOk, Points, Waiting;
    forall k, e | (k, e) in v.queue && e.segmentId in log
      ensures k != KeyOf(n)
    {
      if k == KeyOf(n) {
        NotWaiting(env, v, log, k, e);
      }
    }
  }

  lemma PendingPoints(env: Env, st: State, log: map<nat, seq<Needle>>, m: map<Key, Needle>, k: Key)
    requires Inv(env, st, log, m) && k in m
    ensures k in st.pending && Points(log, st.pending[k], m[k]) && st.pending[k].segmentId < st.nextId
  {
    hide Holds, TailIsZero, SealedOk, DiskOk, CountsOk, Ids, EntryAt;
  }

  // Direct writes

  lemma DirectKeepsInv(env: Env, v: Volume, log: map<nat, seq<Needle>>, m: map<Key, Needle>, n: Needle)
    requires VolumeInv(env, v, log, m) && Enabled(env, v, Direct(n))
    ensures VolumeInv(env, DirectStep(env, v, n), log, m)
  {
    hide Inv, Materialize, Unmixed, LogOk, AckedOk, FilesOk, QueueOk, Covered, NewestOk, Waiting;
    var acked' := v.acked[KeyOf(n) := n];
    InvActive(env, v.wal, log, m);
    InvReads(env, v.wal, log, m);
    LogOkWiden(log, v.acked, KeyOf(n), n);
    OverwrittenQueue(env, v, log, n);
    QueueGrows(env, v.queue, v.wal.nextId, v.wal.nextId, log, log, v.acked, acked');
    AckedWiden(env, v.acked, n);
    WrittenFiles(env, v.files, v.acked, n);
    DirectCovers(env, v, log, m, n);
  }

  lemma AckedWiden(env: Env, acked: map<Key, Needle>, n: Needle)
    requires AckedOk(env, acked) && WellMade(env, n) && Unmixed(acked[KeyOf(n) := n])
    ensures AckedOk(env, acked[KeyOf(n) := n])
  {
    hide Unmixed, WellMade;
  }

  lemma DirectCovers(env: Env, v: Volume, log: map<nat, seq<Needle>>, m: map<Key, Needle>, n: Needle)
    requires Covered(v.files, m, v.acked) && NewestOk(v.wal, log, v.files, v.acked)
    requires KeyOf(n) !in m && env.decodeMeta(n.meta).Some?
    ensures var files := Materialize(v.files, KeyOf(n), n.data, MetaOf(env, n));
            && Covered(files, m, v.acked[KeyOf(n) := n])
            && NewestOk(v.wal, log, files, v.acked[KeyOf(n) := n])
  {
    hide Materialize, Newest;
    MaterializedShards(v.files, KeyOf(n), n.data, MetaOf(env, n));
  }

  lemma MaterializedShards(files: Files, k: Key, data: bytes, meta: ObjectMeta)
    ensures Materialize(files, k, data, meta).shards == files.shards[k := data]
  {
  }

  // Work

  /** A request whose segment is gone reads nothing. */
  lemma DeadRequest(env: Env, st: State, log: map<nat, seq<Needle>>, e: Entry)
    requires SegsOk(env, st, log) && e.segmentId !in log
    ensures ReadData(st, e) == None
  {
    hide Holds, TailIsZero, SealedOk, Ids;
    FindInIds(st.sealed, e.segmentId);
  }

  /** The files after an object is written to them, with that object acknowledged. */
  lemma WrittenFiles(env: Env, files: Files, acked: map<Key, Needle>, n: Needle)
    requires FilesOk(env, files, acked) && AckedOk(env, acked) && WellMade(env, n) && Unmixed(acked[KeyOf(n) := n])
    ensures FilesOk(env, Materialize(files, KeyOf(n), n.data, MetaOf(env, n)), acked[KeyOf(n) := n])
  {
    hide Serves, Good;
    var k, acked' := KeyOf(n), acked[KeyOf(n) := n];
    var after := Materialize(files, k, n.data, MetaOf(env, n));
    MaterializeServes(files, k, n.data, MetaOf(env, n));
    forall o | o in after.shards
      ensures o in acked' && env.decodeMeta(acked'[o].meta).Some?
      ensures Serves(after, o, acked'[o].data, MetaOf(env, acked'[o]))
    {
      if o != k {
        assert o in files.shards;
        assert k in acked' && o in acked' && (SameObject(k, o) ==> (k.versionId == [] <==> o.versionId == []));
        MaterializeKeepsIff(files, k, n.data, MetaOf(env, n), o, acked[o].data, MetaOf(env, acked[o]));
      }
    }
  }

  /** A worker that writes only one of the two files, as it may, leaves the files in order. */
  lemma HalfFiles(env: Env, files: Files, acked: map<Key, Needle>, k: Key)
    requires FilesOk(env, files, acked) && AckedOk(env, acked) && k in acked
    ensures var n := acked[k];
            && (Listed(files, k, MetaOf(env, n)) ==> FilesOk(env, files.(shards := files.shards[k := n.data]), acked))
            && (k.versionId == [] ==>
                  FilesOk(env, files.(metas := Materialize(files, k, n.data, MetaOf(env, n)).metas), acked))
  {
    hide Good, Materialize, FirstLive, FindVersion, FilesOk, Listed, Unmixed;
    var n := acked[k];
    assert WellMade(env, n);
    if Listed(files, k, MetaOf(env, n)) {
      ShardAdded(env, files, acked, k);
    }
    if k.versionId == [] {
      assert acked[k := n] == acked;
      WrittenFiles(env, files, acked, n);
      MaterializedShards(files, k, n.data, MetaOf(env, n));
      MetasOnly(env, files, acked, k);
    }
  }

  lemma ShardAdded(env: Env, files: Files, acked: map<Key, Needle>, k: Key)
    requires k in acked && env.decodeMeta(acked[k].meta).Some? && FilesOk(env, files, acked)
    requires Listed(files, k, MetaOf(env, acked[k]))
    ensures FilesOk(env, files.(shards := files.shards[k := acked[k].data]), acked)
  {
    hide FirstLive, FindVersion, SameVersion, Latest;
    var more := files.(shards := files.shards[k := acked[k].data]);
    forall o | o in more.shards
      ensures o in acked && env.decodeMeta(acked[o].meta).Some? && Serves(more, o, acked[o].data, MetaOf(env, acked[o]))
    {
      assert Versions(more, o) == Versions(files, o);
    }
  }

  lemma MetasOnly(env: Env, files: Files, acked: map<Key, Needle>, k: Key)
    requires k in acked && env.decodeMeta(acked[k].meta).Some? && FilesOk(env, files, acked)
    requires var after := Materialize(files, k, acked[k].data, MetaOf(env, acked[k])); FilesOk(env, after, acked)
    ensures FilesOk(env, files.(metas := Materialize(files, k, acked[k].data, MetaOf(env, acked[k])).metas), acked)
  {
    hide Materialize, FirstLive, FindVersion;
    MaterializedShards(files, k, acked[k].data, MetaOf(env, acked[k]));
    var after := Materialize(files, k, acked[k].data, MetaOf(env, acked[k]));
    var half := files.(metas := after.metas);
    forall o | o in half.shards
      ensures Serves(half, o, acked[o].data, MetaOf(env, acked[o]))
    {
      assert o in after.shards && Versions(half, o) == Versions(after, o);
    }
  }

  lemma WorkKeepsInv(env: Env, v: Volume, log: map<nat, seq<Needle>>, m: map<Key, Needle>, k: Key, e: Entry,
                     end: WorkEnd)
    returns (log': map<nat, seq<Needle>>, m': map<Key, Needle>)
    requires VolumeInv(env, v, log, m) && Enabled(env, v, Work((k, e), end))
    ensures VolumeInv(env, WorkStep(env, v, k, e, end), log', m')
  {
    hide Inv, Points, Mark, LogAfterMark, ReadData, ReadMetaBytes, Materialize, LogOk, FilesOk, Covered, NewestOk,
      Listed, Unmixed;
    InvActive(env, v.wal, log, m);
    log', m' := log, m;
    if e.segmentId in log {
      PointsReads(env, v.wal, log, e, v.acked[k]);
      assert WellMade(env, v.acked[k]);
      if end.Done? {
        log', m' := LogAfterMark(v.wal, log, k), m - {k};
        DoneKeepsInv(env, v, log, m, k, e);
      } else {
        HalfFiles(env, v.files, v.acked, k);
        HalfCovers(env, v, log, m, k);
      }
    } else {
      DeadRequest(env, v.wal, log, e);
    }
  }

  /** More shard files leave less to be covered by the log. */
  lemma CoveredBy(files: Files, files': Files, st: State, log: map<nat, seq<Needle>>, m: map<Key, Needle>,
                  acked: map<Key, Needle>)
    requires files.shards.Keys <= files'.shards.Keys
    requires Covered(files, m, acked) && NewestOk(st, log, files, acked)
    ensures Covered(files', m, acked) && NewestOk(st, log, files', acked)
  {
    hide Newest;
  }

  lemma HalfCovers(env: Env, v: Volume, log: map<nat, seq<Needle>>, m: map<Key, Needle>, k: Key)
    requires Covered(v.files, m, v.acked) && NewestOk(v.wal, log, v.files, v.acked)
    requires k in v.acked && env.decodeMeta(v.acked[k].meta).Some?
    ensures var files := v.files.(shards := v.files.shards[k := v.acked[k].data]);
            Covered(files, m, v.acked) && NewestOk(v.wal, log, files, v.acked)
    ensures var files := v.files.(metas := Materialize(v.files, k, v.acked[k].data, MetaOf(env, v.acked[k])).metas);
            Covered(files, m, v.acked) && NewestOk(v.wal, log, files, v.acked)
  {
    hide Covered, NewestOk, Materialize;
    var n := v.acked[k];
    CoveredBy(v.files, v.files.(shards := v.files.shards[k := n.data]), v.wal, log, m, v.acked);
    var metas := Materialize(v.files, k, n.data, MetaOf(env, n)).metas;
    CoveredBy(v.files, v.files.(metas := metas), v.wal, log, m, v.acked);
  }

  lemma DoneKeepsInv(env: Env, v: Volume, log: map<nat, seq<Needle>>, m: map<Key, Needle>, k: Key, e: Entry)
    requires VolumeInv(env, v, log, m) && (k, e) in v.queue && e.segmentId in log
    ensures VolumeInv(env, WorkStep(env, v, k, e, Done), LogAfterMark(v.wal, log, k), m - {k})
  {
    hide Inv, Points, Mark, LogAfterMark, ReadData, ReadMetaBytes, Materialize, LogOk, FilesOk, Covered, NewestOk;
    InvActive(env, v.wal, log, m);
    PointsReads(env, v.wal, log, e, v.acked[k]);
    assert WellMade(env, v.acked[k]);
    assert v.acked[k := v.acked[k]] == v.acked;
    WrittenFiles(env, v.files, v.acked, v.acked[k]);
    MarkRefines(env, v.wal, log, m, k);
    MarkedLog(v.wal, log, v.acked, k);
    QueueKnown(v.queue, v.wal.nextId, log, v.acked);
    QueueGrows(env, v.queue - {(k, e)}, v.wal.nextId, v.wal.nextId, log, LogAfterMark(v.wal, log, k), v.acked, v.acked);
    WorkCovers(v.files, m, v.acked, k, v.acked[k].data, MetaOf(env, v.acked[k]));
    MarkNewest(env, v, log, m, k);
  }

  /** Marking a key keeps the newest needles of the others. */
  lemma MarkNewest(env: Env, v: Volume, log: map<nat, seq<Needle>>, m: map<Key, Needle>, k: Key)
    requires Inv(env, v.wal, log, m) && NewestOk(v.wal, log, v.files, v.acked)
    requires k in v.acked && env.decodeMeta(v.acked[k].meta).Some?
    ensures var files := Materialize(v.files, k, v.acked[k].data, MetaOf(env, v.acked[k]));
            NewestOk(Mark(v.wal, k), LogAfterMark(v.wal, log, k), files, v.acked)
  {
    hide Inv, Points, Mark, Materialize, LastOf;
    MaterializedShards(v.files, k, v.acked[k].data, MetaOf(env, v.acked[k]));
    MarkRefines(env, v.wal, log, m, k);
    InvReads(env, v.wal, log, m);
    var st, log' := Mark(v.wal, k), LogAfterMark(v.wal, log, k);
    MarkedPending(v.wal, k);
    forall o | o in v.acked && o !in v.files.shards && o != k
      ensures o in st.pending && Newest(log', st.pending[o].segmentId, o, v.acked[o])
    {
      assert Newest(log, v.wal.pending[o].segmentId, o, v.acked[o]);
      PendingPoints(env, st, log', m - {k}, o);
      PointsLive(log', st.pending[o], m[o]);
    }
  }

  lemma MarkedPending(st: State, k: Key)
    ensures Mark(st, k).pending == st.pending - {k}
  {
  }

  lemma WorkCovers(files: Files, m: map<Key, Needle>, acked: map<Key, Needle>, k: Key, data: bytes, meta: ObjectMeta)
    requires Covered(files, m, acked)
    ensures Covered(Materialize(files, k, data, meta), m - {k}, acked)
  {
  }

  lemma MarkedLog(st: State, log: map<nat, seq<Needle>>, acked: map<Key, Needle>, k: Key)
    requires LogOk(log, acked)
    ensures forall id :: id in LogAfterMark(st, log, k) ==> id in log && LogAfterMark(st, log, k)[id] == log[id]
    ensures LogOk(LogAfterMark(st, log, k), acked)
    ensures Mark(st, k).nextId == st.nextId
  {
    hide Mark;
    MarkKeepsNextId(st, k);
  }

  // Crash

  lemma ActiveIsLast(env: Env, st: State, log: map<nat, seq<Needle>>, m: map<Key, Needle>)
    requires Inv(env, st, log, m)
    ensures 0 < st.active.id < MAX_SEGMENTS && forall id :: id in log ==> id <= st.active.id
  {
    hide Holds, TailIsZero, SealedOk, DiskOk, PendingOk, CountsOk, Ids;
    IdsPositive(env, st, log, st.active.id);
  }

  /** What the directory holds, the placeholder included. */
  ghost function DiskLog(st: State, log: map<nat, seq<Needle>>): (r: map<nat, seq<Needle>>)
  {
    if 0 in st.disk then log[0 := []] else log
  }

  lemma TornHolds(env: Env, s: Seg, ns: seq<Needle>, torn: bytes)
    requires Holds(env, s, ns) && s.size + |torn| == |s.mmap|
    requires |torn| >= 4 ==> torn[..4] == Zeros(4)
    ensures Holds(env, s.(mmap := s.mmap[..s.size] + torn), ns)
  {
    hide ReadHeader, Serial, LeValue, Good;
    var t := s.mmap[..s.size] + torn;
    ZeroHeaderRejected(env, torn);
    assert t[s.size..] == torn;
    assert t[0..4] == s.mmap[0..4] && t[8..12] == s.mmap[8..12];
    assert t[SUPERBLOCK_SIZE..s.size] == s.mmap[SUPERBLOCK_SIZE..s.size];
  }

  lemma CrashedFile(env: Env, st: State, log: map<nat, seq<Needle>>, torn: bytes, id: nat)
    requires SegsOk(env, st, log) && DiskOk(env, st, log) && TornOk(st, torn) && id in st.disk
    requires st.active.size <= |st.active.mmap|
    ensures id in DiskLog(st, log) && FileOk(env, st.capacity, CrashedDisk(st, torn), DiskLog(st, log), id)
  {
    hide Holds, TailIsZero, TornOk;
    var disk, dlog := CrashedDisk(st, torn), DiskLog(st, log);
    if id == 0 {
      SerialNone(env);
    } else if id == st.active.id {
      TornActive(env, st, log, torn);
    } else {
      assert id in Ids(st.sealed);
      var s :| s in st.sealed && s.id == id;
      assert SegOk(env, st.capacity, s, log);
      HoldsSize(env, s, log[id]);
      assert SegAt(env, disk, dlog, id) == s;
    }
  }

  lemma TornActive(env: Env, st: State, log: map<nat, seq<Needle>>, torn: bytes)
    requires SegsOk(env, st, log) && TornOk(st, torn) && st.active.size <= |st.active.mmap|
    ensures var disk := CrashedDisk(st, torn);
            st.active.id in disk && FileOk(env, st.capacity, disk, DiskLog(st, log), st.active.id)
  {
    hide Holds, TailIsZero, SealedOk, Serial;
    TornHolds(env, st.active, log[st.active.id], torn);
    HoldsSize(env, st.active, log[st.active.id]);
  }

  lemma CrashedDir(env: Env, st: State, log: map<nat, seq<Needle>>, m: map<Key, Needle>, torn: bytes)
    requires Inv(env, st, log, m) && TornOk(st, torn) && st.nextId < MAX_SEGMENTS
    ensures st.active.size <= |st.active.mmap|
    ensures DirOk(env, st.capacity, CrashedDisk(st, torn), DiskLog(st, log))
  {
    hide Holds, TailIsZero, SealedOk, Ids, TornOk, FileOk, PlaceholderOk, CrashedDisk;
    InvActive(env, st, log, m);
    var disk := CrashedDisk(st, torn);
    assert disk.Keys == st.disk.Keys by { CrashedKeys(st, torn); }
    forall id | id in disk
      ensures id in DiskLog(st, log) && id + 2 <= MAX_SEGMENTS && FileOk(env, st.capacity, disk, DiskLog(st, log), id)
    {
      CrashedFile(env, st, log, torn, id);
      assert id == 0 || id in log;
    }
  }

  lemma CrashedKeys(st: State, torn: bytes)
    requires st.active.size <= |st.active.mmap| && st.active.id in st.disk
    ensures CrashedDisk(st, torn).Keys == st.disk.Keys
  {
  }

  lemma {:induction false} InOrderMember(log: map<nat, seq<Needle>>, hi: nat, n: Needle)
    ensures n in InOrder(log, hi) <==> exists id :: id in log && id < hi && n in log[id]
  {
    if hi > 0 {
      InOrderMember(log, hi - 1, n);
    }
  }

  /** After a crash the pending map is exactly the acknowledged needles without a file. */
  lemma CrashCovers(env: Env, st: State, log: map<nat, seq<Needle>>, m: map<Key, Needle>, files: Files,
                    acked: map<Key, Needle>)
    requires Inv(env, st, log, m) && LogOk(log, acked) && NewestOk(st, log, files, acked)
    ensures Covered(files, Replay(map[], InOrder(DiskLog(st, log), MAX_SEGMENTS), files.shards.Keys), acked)
  {
    hide Replay, InOrder, Inv, Newest, DiskLog;
    var ns := InOrder(DiskLog(st, log), MAX_SEGMENTS);
    NoTombstones(st, log, acked);
    var m' := Replay(map[], ns, files.shards.Keys);
    forall k
      ensures k in m' ==> k in acked && k !in files.shards
      ensures k in acked && k !in files.shards ==> k in m' && m'[k] == acked[k]
    {
      ReplayIsLast(ns, files.shards.Keys, k);
      LastOfMember(ns, k);
      if k in acked && k !in files.shards {
        NewestOnDisk(env, st, log, m, k, acked[k]);
      }
    }
  }

  lemma NoTombstones(st: State, log: map<nat, seq<Needle>>, acked: map<Key, Needle>)
    requires LogOk(log, acked)
    ensures forall n :: n in InOrder(DiskLog(st, log), MAX_SEGMENTS) ==> KeyOf(n) in acked && n.flags != FLAG_DELETE
  {
    hide InOrder;
    forall n | n in InOrder(DiskLog(st, log), MAX_SEGMENTS)
      ensures KeyOf(n) in acked && n.flags != FLAG_DELETE
    {
      InOrderMember(DiskLog(st, log), MAX_SEGMENTS, n);
      var id :| id in DiskLog(st, log) && id < MAX_SEGMENTS && n in DiskLog(st, log)[id];
      assert id in log && n in log[id];
    }
  }

  /** The newest needle of a key is the last one in the directory. */
  lemma NewestOnDisk(env: Env, st: State, log: map<nat, seq<Needle>>, m: map<Key, Needle>, k: Key, n: Needle)
    requires Inv(env, st, log, m) && k in st.pending && Newest(log, st.pending[k].segmentId, k, n)
    ensures LastOf(InOrder(DiskLog(st, log), MAX_SEGMENTS), k) == Some(n)
    ensures Newest(DiskLog(st, log), st.pending[k].segmentId, k, n)
  {
    hide Inv, InOrder, LastOf;
    var id := st.pending[k].segmentId;
    ActiveIsLast(env, st, log, m);
    InvActive(env, st, log, m);
    IdsPositive(env, st, log, id);
    assert LastOf([], k) == None by { LastOfMember([], k); }
    NewestInOrder(DiskLog(st, log), id, k, n, MAX_SEGMENTS);
  }

  /** Recovery finds the newest needle of every key again. */
  lemma StillNewest(log: map<nat, seq<Needle>>, log': map<nat, seq<Needle>>, id: nat, e: Entry, k: Key, n: Needle)
    requires Newest(log, id, k, n) && KeyOf(n) == k && Points(log', e, n)
    requires forall j :: j in log' ==> log'[j] == [] || (j in log && log'[j] == log[j])
    requires forall j, x :: j in log && x in log[j] && j > e.segmentId ==> KeyOf(x) != k
    ensures Newest(log', e.segmentId, k, n)
  {
    hide LastOf, Points;
    PointsMember(log', e, n);
    LastOfMember(log[e.segmentId], k);
    LastOfMember(log[id], k);
    LastOfMember([], k);
    assert e.segmentId == id;
  }

  lemma PointsMember(log: map<nat, seq<Needle>>, e: Entry, n: Needle)
    requires Points(log, e, n)
    ensures e.segmentId in log && n in log[e.segmentId]
  {
    var i: nat :| EntryAt(log[e.segmentId], i, e, n);
  }

  lemma CrashKeepsInv(env: Env, v: Volume, log: map<nat, seq<Needle>>, m: map<Key, Needle>, torn: bytes, now: nat)
    returns (log': map<nat, seq<Needle>>, m': map<Key, Needle>)
    requires Inv(env, v.wal, log, m) && LogOk(log, v.acked) && AckedOk(env, v.acked) && FilesOk(env, v.files, v.acked)
    requires NewestOk(v.wal, log, v.files, v.acked) && Crashable(v.wal, torn)
    ensures VolumeInv(env, CrashStep(env, v, torn, now), log', m')
  {
    hide Inv, DirOk, OpenWal, Points, FilesOk, Replay, InOrder, TornOk, CrashedDisk, Newest, Unmixed, WellMade;
    CrashedDir(env, v.wal, log, m, torn);
    CrashCovers(env, v.wal, log, m, v.files, v.acked);
    var dlog := DiskLog(v.wal, log);
    log' := RecoveryReplays(env, CrashedDisk(v.wal, torn), dlog, v.files.shards.Keys, v.wal.capacity, now);
    m' := Replay(map[], InOrder(dlog, MAX_SEGMENTS), v.files.shards.Keys);
    var v' := CrashStep(env, v, torn, now);
    forall k, e | (k, e) in v'.queue
      ensures k in v.acked && e.segmentId < v'.wal.nextId && Points(log', e, v.acked[k])
    {
      InvReads(env, v'.wal, log', m');
      PendingPoints(env, v'.wal, log', m', k);
    }
    RecoveryPins(env, CrashedDisk(v.wal, torn), dlog, v.files.shards.Keys, v.wal.capacity, now);
    forall k | k in v.acked && k !in v.files.shards
      ensures k in v'.wal.pending && Newest(log', v'.wal.pending[k].segmentId, k, v.acked[k])
    {
      NewestOnDisk(env, v.wal, log, m, k, v.acked[k]);
      PendingPoints(env, v'.wal, log', m', k);
      StillNewest(dlog, log', v.wal.pending[k].segmentId, v'.wal.pending[k], k, v.acked[k]);
    }
    assert LogOk(log', v.acked);
  }

  lemma LostKeepsInv(env: Env, v: Volume, log: map<nat, seq<Needle>>, m: map<Key, Needle>, n: Needle, now: nat,
                     torn: bytes, reopened: nat)
    returns (log': map<nat, seq<Needle>>, m': map<Key, Needle>)
    requires VolumeInv(env, v, log, m) && Enabled(env, v, Lost(n, now, torn, reopened))
    ensures VolumeInv(env, LostStep(env, v, n, now, torn, reopened), log', m')
  {
    hide Inv, Good, AppendWal, LogAfter, Unmixed, LogOk, AckedOk, FilesOk, QueueOk, Covered, NewestOk, Crashable,
      CrashStep, WellMade;
    InvActive(env, v.wal, log, m);
    AppendRefines(env, v.wal, log, m, n, now);
    LostAcked(env, v, log, m, n, now);
    LostNewest(env, v, log, m, n, now);
    var log1, v1, k := LogAfter(env, v.wal, log, n), PutStep(env, v, n, now, false), KeyOf(n);
    var m1 := if SUPERBLOCK_SIZE + SerializedSize(n) <= v.wal.capacity then m[k := n] else m;
    var lost := v1.(acked := if k in v.files.shards then v.acked else v1.acked);
    log', m' := CrashKeepsInv(env, lost, log1, m1, torn, reopened);
  }

  lemma LostNewest(env: Env, v: Volume, log: map<nat, seq<Needle>>, m: map<Key, Needle>, n: Needle, now: nat)
    requires Inv(env, v.wal, log, m) && NewestOk(v.wal, log, v.files, v.acked) && v.wal.active.id in log
    requires Good(env, n) && v.wal.nextId < MAX_SEGMENTS && v.wal.capacity >= SUPERBLOCK_SIZE
    ensures var v1 := PutStep(env, v, n, now, false);
            var acked' := if KeyOf(n) in v.files.shards then v.acked else v1.acked;
            NewestOk(v1.wal, LogAfter(env, v.wal, log, n), v.files, acked')
  {
    hide Inv, Good, AppendWal, LogAfter, Newest;
    PutNewest(env, v, log, m, n, now);
  }

  lemma LostAcked(env: Env, v: Volume, log: map<nat, seq<Needle>>, m: map<Key, Needle>, n: Needle, now: nat)
    requires VolumeInv(env, v, log, m) && WellMade(env, n) && Unmixed(v.acked[KeyOf(n) := n])
    requires Good(env, n) && v.wal.nextId < MAX_SEGMENTS && v.wal.capacity >= SUPERBLOCK_SIZE && v.wal.active.id in log
    ensures var v1 := PutStep(env, v, n, now, false);
            var acked' := if KeyOf(n) in v.files.shards then v.acked else v1.acked;
            && LogOk(LogAfter(env, v.wal, log, n), acked') && AckedOk(env, acked') && FilesOk(env, v.files, acked')
  {
    hide Inv, Good, AppendWal, LogAfter, Unmixed, LogOk, AckedOk, QueueOk, Covered, NewestOk, Serves;
    AppendRefines(env, v.wal, log, m, n, now);
    AckedWiden(env, v.acked, n);
    LogOkWiden(log, v.acked, KeyOf(n), n);
    var v1 := PutStep(env, v, n, now, false);
    if KeyOf(n) in v.files.shards {
      PutLog(env, v.wal, log, m, v.acked, n);
    } else {
      PutLog(env, v.wal, log, m, v1.acked, n);
    }
  }

  // Whole runs

  /** The volume after a list of steps, each enabled when it is taken. */
  ghost predicate Reaches(env: Env, v: Volume, steps: seq<Step>, v': Volume)
    decreases |steps|
  {
    if steps == [] then v' == v
    else
      && v.wal.capacity >= SUPERBLOCK_SIZE && v.wal.active.size <= |v.wal.active.mmap|
      && Enabled(env, v, steps[0])
      && Reaches(env, Apply(env, v, steps[0]), steps[1..], v')
  }

  lemma CrashInv(env: Env, v: Volume, log: map<nat, seq<Needle>>, m: map<Key, Needle>, torn: bytes, now: nat)
    returns (log': map<nat, seq<Needle>>, m': map<Key, Needle>)
    requires VolumeInv(env, v, log, m) && Enabled(env, v, Crash(torn, now))
    requires v.wal.capacity >= SUPERBLOCK_SIZE && v.wal.active.size <= |v.wal.active.mmap|
    ensures VolumeInv(env, CrashStep(env, v, torn, now), log', m')
  {
    hide Inv, LogOk, AckedOk, FilesOk, QueueOk, Covered, NewestOk, TornOk, CrashStep;
    log', m' := CrashKeepsInv(env, v, log, m, torn, now);
  }

  lemma StepKeepsInv(env: Env, v: Volume, log: map<nat, seq<Needle>>, m: map<Key, Needle>, step: Step)
    returns (log': map<nat, seq<Needle>>, m': map<Key, Needle>)
    requires VolumeInv(env, v, log, m) && Enabled(env, v, step)
    requires v.wal.capacity >= SUPERBLOCK_SIZE && v.wal.active.size <= |v.wal.active.mmap|
    ensures VolumeInv(env, Apply(env, v, step), log', m')
  {
    hide VolumeInv, PutStep, WorkStep, CrashStep, CanPut, CanDirect, CanEnd, LostStep, Good, TornOk, Unmixed, WellMade;
    match step {
      case Put(n, now, sent) => log', m' := PutKeepsInv(env, v, log, m, n, now, sent);
      case Direct(n) =>
        DirectKeepsInv(env, v, log, m, n);
        log', m' := log, m;
      case Work(req, end) => log', m' := WorkKeepsInv(env, v, log, m, req.0, req.1, end);
      case Crash(torn, now) => log', m' := CrashInv(env, v, log, m, torn, now);
      case Lost(n, now, torn, reopened) => log', m' := LostKeepsInv(env, v, log, m, n, now, torn, reopened);
    }
  }

  lemma {:induction false} ReachesKeepsInv(env: Env, v: Volume, log: map<nat, seq<Needle>>, m: map<Key, Needle>,
                                           steps: seq<Step>, v': Volume)
    returns (log': map<nat, seq<Needle>>, m': map<Key, Needle>)
    requires VolumeInv(env, v, log, m) && Reaches(env, v, steps, v')
    ensures VolumeInv(env, v', log', m')
    decreases |steps|
  {
    hide VolumeInv, Enabled, Apply;
    if steps == [] {
      log', m' := log, m;
    } else {
      var log1, m1 := StepKeepsInv(env, v, log, m, steps[0]);
      log', m' := ReachesKeepsInv(env, Apply(env, v, steps[0]), log1, m1, steps[1..], v');
    }
  }

  /** A new volume: an empty directory, opened. */
  function NewVolume(env: Env, capacity: nat, now: nat): (v: Volume)
    requires capacity >= SUPERBLOCK_SIZE
  {
    Volume(OpenWal(env, map[], {}, capacity, now), Files(map[], map[]), {}, map[])
  }

  /** Durability: from a new volume, after any interleaving of appends, direct writes, worker steps
      (half done ones included) and crashes (in the middle of an append included), with a key written again only
      when it may be and no object written both with and without a version, the last acknowledged
      or completed write of every key is served with its own bytes and its own version's metadata. */
  lemma AcknowledgedIsDurable(env: Env, capacity: nat, now: nat, steps: seq<Step>, v: Volume, k: Key)
    requires SUPERBLOCK_SIZE <= capacity < U32
    requires Reaches(env, NewVolume(env, capacity, now), steps, v)
    requires k in v.acked
    ensures Durable(env, v, k)
  {
    hide Inv, Reaches, OpenWal, Durable, VolumeInv;
    var log, m := ReachedInv(env, capacity, now, steps, v);
    InvIsDurable(env, v, log, m, k);
  }

  lemma ReachedInv(env: Env, capacity: nat, now: nat, steps: seq<Step>, v: Volume)
    returns (log: map<nat, seq<Needle>>, m: map<Key, Needle>)
    requires SUPERBLOCK_SIZE <= capacity < U32
    requires Reaches(env, NewVolume(env, capacity, now), steps, v)
    ensures VolumeInv(env, v, log, m)
  {
    hide Inv, Reaches, OpenWal;
    var v0 := NewVolume(env, capacity, now);
    var log0 := OpenedEmpty(env, capacity, now);
    assert VolumeInv(env, v0, log0, map[]);
    log, m := ReachesKeepsInv(env, v0, log0, map[], steps, v);
  }
}
