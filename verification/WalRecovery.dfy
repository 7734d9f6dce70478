/** Reopening the log: every segment file in the directory is scanned in id order and the
    needles whose object has no file yet become pending again. */
module WalRecovery {
  import opened ByteCodec
  import opened Metadata
  import opened NeedleCodec
  import opened Segments
  import opened WalState

  function VisitKey(v: Visit): (k: Key)
  {
    Key(v.bucket, v.key, v.versionId)
  }

  /** Creation time from the stored metadata, zero when it does not decode. */
  function CreatedAt(env: Env, s: Seg, v: Visit): (t: nat)
  {
    match Slice(s, v.metaOffset, v.metaLen)
    case None => 0
    case Some(b) =>
      match env.decodeMeta(b)
      case None => 0
      case Some(m) => m.createdAt % U32
  }

  function VisitEntry(env: Env, s: Seg, v: Visit): (e: Entry)
  {
    Entry(s.id, v.dataOffset % U32, v.dataLen % U32, v.metaOffset % U32, v.metaLen % 0x1_0000, CreatedAt(env, s, v))
  }

  /** One visit of recovery. A tombstone removes the key but leaves the counter of the segment
      it was in; a needle whose destination file exists (`dest`) is skipped. */
  function RecoverVisit(env: Env, st: State, s: Seg, v: Visit, dest: set<Key>): (r: State)
  {
    if v.flags == FLAG_DELETE then st.(pending := st.pending - {VisitKey(v)})
    else if VisitKey(v) in dest then st
    else st.(pending := st.pending[VisitKey(v) := VisitEntry(env, s, v)], counts := Bump(st.counts, s.id))
  }

  function RecoverVisits(env: Env, st: State, s: Seg, vs: seq<Visit>, dest: set<Key>): (r: State)
    ensures r.capacity == st.capacity
  {
    if vs == [] then st
    else RecoverVisit(env, RecoverVisits(env, st, s, vs[..|vs| - 1], dest), s, vs[|vs| - 1], dest)
  }

  function Max(a: nat, b: nat): (m: nat)
  {
    if a >= b then a else b
  }

  /** Open one segment file: a corrupt one is left alone, one without pending entries is
      deleted, the others are kept sealed. */
  function OpenOne(env: Env, st: State, id: nat, dest: set<Key>): (r: State)
    ensures r.capacity == st.capacity
  {
    if id !in st.disk then st
    else match Open(env, st.disk[id])
      case Err(_) => st
      case Ok(s) =>
        var st1 := RecoverVisits(env, st.(nextId := Max(st.nextId, s.id + 1)), s, Visits(env, s), dest);
        if Count(st1.counts, s.id) > 0 then st1.(sealed := st1.sealed + [s])
        else st1.(disk := st1.disk - {id})
  }

  function OpenAll(env: Env, st: State, order: seq<nat>, dest: set<Key>): (r: State)
    ensures r.capacity == st.capacity
  {
    if order == [] then st
    else OpenOne(env, OpenAll(env, st, order[..|order| - 1], dest), order[|order| - 1], dest)
  }

  /** The ids in `[0, hi)` that are in `ids`, ascending: the sorted directory listing. */
  function Ascending(ids: set<nat>, hi: nat): (r: seq<nat>)
    ensures forall id :: id in r <==> id in ids && id < hi
    ensures forall i, j :: 0 <= i < j < |r| ==> r[i] < r[j]
  {
    if hi == 0 then []
    else if hi - 1 in ids then
      var r := Ascending(ids, hi - 1);
      assert forall i :: 0 <= i < |r| ==> r[i] in r;
      r + [hi - 1]
    else Ascending(ids, hi - 1)
  }

  /** The state before any file is read: segment 1 gets a fresh superblock, keeping its needles. */
  function OpenStart(disk: map<nat, bytes>, capacity: nat, now: nat): (r: State)
    requires capacity >= SUPERBLOCK_SIZE
  {
    var first := Created(File(disk, 1), 1, capacity, now);
    State(capacity, first, [], map[], map[], 2, disk[1 := first.mmap])
  }

  /** Last step of opening: a new active segment behind all ids seen. */
  function OpenFinish(st: State, now: nat): (r: State)
    requires st.capacity >= SUPERBLOCK_SIZE
  {
    var blank := Created(File(st.disk, st.nextId), st.nextId, st.capacity, now);
    st.(active := blank, nextId := st.nextId + 1, disk := st.disk[st.nextId := blank.mmap])
  }

  function OpenWal(env: Env, disk: map<nat, bytes>, dest: set<Key>, capacity: nat, now: nat): (r: State)
    requires capacity >= SUPERBLOCK_SIZE
  {
    var st0 := OpenStart(disk, capacity, now);
    OpenFinish(OpenAll(env, st0, Ascending(st0.disk.Keys, MAX_SEGMENTS), dest), now)
  }

  // The specification: last-writer-wins replay

  function ReplayStep(m: map<Key, Needle>, n: Needle, dest: set<Key>): (r: map<Key, Needle>)
  {
    if n.flags == FLAG_DELETE then m - {KeyOf(n)}
    else if KeyOf(n) in dest then m
    else m[KeyOf(n) := n]
  }

  function Replay(m: map<Key, Needle>, ns: seq<Needle>, dest: set<Key>): (r: map<Key, Needle>)
  {
    if ns == [] then m else ReplayStep(Replay(m, ns[..|ns| - 1], dest), ns[|ns| - 1], dest)
  }

  /** All needles of the listed segments, in order. */
  ghost function AllNeedles(log: map<nat, seq<Needle>>, order: seq<nat>): (r: seq<Needle>)
    requires forall id :: id in order ==> id in log
  {
    if order == [] then [] else AllNeedles(log, order[..|order| - 1]) + log[order[|order| - 1]]
  }

  lemma {:induction false} ReplayAppend(m: map<Key, Needle>, a: seq<Needle>, b: seq<Needle>, dest: set<Key>)
    ensures Replay(m, a + b, dest) == Replay(Replay(m, a, dest), b, dest)
  {
    hide ReplayStep;
    if b == [] {
      assert a + b == a;
    } else {
      ReplayAppend(m, a, b[..|b| - 1], dest);
      assert (a + b)[..|a + b| - 1] == a + b[..|b| - 1];
    }
  }

  // Recovering one segment

  /** The pending map represents `m`, every entry in a segment of `live`. */
  ghost predicate RecInv(st: State, log: map<nat, seq<Needle>>, m: map<Key, Needle>, live: set<nat>)
  {
    && PendingOk(st, log, m) && CountsOk(st)
    && (forall k :: k in st.pending ==> st.pending[k].segmentId in live)
    && (forall id: nat :: Count(st.counts, id) > 0 ==> id in live)
  }

  /** An entry built from a visit has the offsets of the visited needle. */
  lemma VisitEntryExact(env: Env, s: Seg, ns: seq<Needle>, i: nat)
    requires Holds(env, s, ns) && i < |ns| && |s.mmap| < U32
    ensures EntryAt(ns, i, VisitEntry(env, s, VisitOf(ns[i], OffsetOf(ns, i, SUPERBLOCK_SIZE))), ns[i])
  {
    hide Holds, OffsetOf, CreatedAt, InfoOf, ReadAt, Slice, VisitOf;
    HoldsReads(env, s, ns, i);
    HoldsSize(env, s, ns);
    HoldsFits(env, s, ns, i);
    var v := VisitOf(ns[i], OffsetOf(ns, i, SUPERBLOCK_SIZE));
    VisitLens(ns[i], OffsetOf(ns, i, SUPERBLOCK_SIZE));
    Small(v.dataOffset, U32);
    Small(v.dataLen, U32);
    Small(v.metaOffset, U32);
    Small(v.metaLen, 0x1_0000);
  }

  lemma Small(x: nat, k: nat)
    requires x < k
    ensures x % k == x
  {
  }

  lemma HoldsFits(env: Env, s: Seg, ns: seq<Needle>, i: nat)
    requires Holds(env, s, ns) && i < |ns|
    ensures Fits(ns[i])
  {
    assert ns[i] in ns;
  }

  lemma VisitLens(n: Needle, at: nat)
    ensures VisitOf(n, at).metaLen == |n.meta| && VisitOf(n, at).dataLen == |n.data|
  {
  }

  lemma RecoverVisitReplays(env: Env, st: State, s: Seg, log: map<nat, seq<Needle>>, m: map<Key, Needle>,
                            i: nat, dest: set<Key>, live: set<nat>)
    requires RecInv(st, log, m, live) && s.id in log && s.id in live
    requires Holds(env, s, log[s.id]) && i < |log[s.id]| && |s.mmap| < U32
    ensures var v := VisitOf(log[s.id][i], OffsetOf(log[s.id], i, SUPERBLOCK_SIZE));
            RecInv(RecoverVisit(env, st, s, v, dest), log, ReplayStep(m, log[s.id][i], dest), live)
  {
    hide Holds, EntryAt, CountIn, OffsetOf;
    var n := log[s.id][i];
    var v := VisitOf(n, OffsetOf(log[s.id], i, SUPERBLOCK_SIZE));
    var st' := RecoverVisit(env, st, s, v, dest);
    if n.flags == FLAG_DELETE {
      forall id: nat
        ensures CountIn(st'.pending, id) <= Count(st'.counts, id)
      {
        if KeyOf(n) in st.pending {
          CountRemove(st.pending, KeyOf(n), id);
        } else {
          assert st'.pending == st.pending;
        }
      }
    } else if KeyOf(n) !in dest {
      VisitEntryExact(env, s, log[s.id], i);
      assert Points(log, VisitEntry(env, s, v), n);
      forall id: nat
        ensures CountIn(st'.pending, id) <= Count(st'.counts, id)
      {
        CountInsert(st.pending, KeyOf(n), VisitEntry(env, s, v), id);
      }
    }
  }

  /** Scanning a segment replays its needles on the abstract map. */
  lemma {:induction false} RecoverReplays(env: Env, st: State, s: Seg, log: map<nat, seq<Needle>>, m: map<Key, Needle>,
                                          c: nat, dest: set<Key>, live: set<nat>)
    requires RecInv(st, log, m, live) && s.id in log && s.id in live
    requires Holds(env, s, log[s.id]) && c <= |log[s.id]| && |s.mmap| < U32
    ensures RecInv(RecoverVisits(env, st, s, Layout(log[s.id], SUPERBLOCK_SIZE)[..c], dest), log,
                   Replay(m, log[s.id][..c], dest), live)
  {
    hide Holds, RecInv, RecoverVisit, ReplayStep;
    var ns, vs := log[s.id], Layout(log[s.id], SUPERBLOCK_SIZE);
    if c > 0 {
      RecoverReplays(env, st, s, log, m, c - 1, dest, live);
      LayoutAt(ns, c - 1, SUPERBLOCK_SIZE);
      assert vs[..c][..c - 1] == vs[..c - 1] && ns[..c][..c - 1] == ns[..c - 1];
      RecoverVisitReplays(env, RecoverVisits(env, st, s, vs[..c - 1], dest), s, log,
                          Replay(m, ns[..c - 1], dest), c - 1, dest, live);
    }
  }

  lemma {:induction false} RecoverKeeps(env: Env, st: State, s: Seg, vs: seq<Visit>, dest: set<Key>)
    ensures var r := RecoverVisits(env, st, s, vs, dest);
            && r == st.(pending := r.pending, counts := r.counts)
            && (vs == [] ==> r == st)
            && (forall id: nat :: id != s.id ==> Count(r.counts, id) == Count(st.counts, id))
  {
    if vs != [] {
      RecoverKeeps(env, st, s, vs[..|vs| - 1], dest);
    }
  }

  // Recovering the directory

  /** Every file is a segment holding the needles `log` says, under its own id. */
  ghost predicate DirOk(env: Env, capacity: nat, disk: map<nat, bytes>, log: map<nat, seq<Needle>>)
  {
    && SUPERBLOCK_SIZE <= capacity < U32
    && disk.Keys == log.Keys
    && (0 in log ==> log[0] == [])
    && (forall id :: id in disk ==> id + 2 <= MAX_SEGMENTS && FileOk(env, capacity, disk, log, id))
  }

  ghost predicate FileOk(env: Env, capacity: nat, disk: map<nat, bytes>, log: map<nat, seq<Needle>>, id: nat)
    requires id in disk && id in log
  {
    SizeOk(capacity, id, |disk[id]|) && Holds(env, SegAt(env, disk, log, id), log[id])
  }

  ghost function SegAt(env: Env, disk: map<nat, bytes>, log: map<nat, seq<Needle>>, id: nat): (s: Seg)
    requires id in disk && id in log
  {
    Seg(id, disk[id], SUPERBLOCK_SIZE + |Serial(env, log[id])|)
  }

  /** Half way through the listing: the first part is sealed or deleted, the rest untouched. */
  ghost predicate ListInv(env: Env, st: State, disk: map<nat, bytes>, log: map<nat, seq<Needle>>, order: seq<nat>,
                          c: nat)
    requires c <= |order|
  {
    && SealedOk(env, st.capacity, st.sealed, log)
    && (forall s :: s in st.sealed ==> s.id in order[..c] && s.id in disk && s.mmap == disk[s.id])
    && (forall id :: id in st.disk <==> id in Ids(st.sealed) || id in order[c..])
    && (forall id :: id in st.disk ==> id in disk && st.disk[id] == disk[id])
    && (forall id :: id in order[..c] ==> id < st.nextId)
    && 2 <= st.nextId < MAX_SEGMENTS
  }

  ghost predicate OpenInv(env: Env, st: State, disk: map<nat, bytes>, log: map<nat, seq<Needle>>,
                          order: seq<nat>, c: nat, m: map<Key, Needle>)
    requires c <= |order|
  {
    RecInv(st, log, m, Ids(st.sealed)) && ListInv(env, st, disk, log, order, c)
  }

  ghost predicate OrderOk(order: seq<nat>, disk: map<nat, bytes>)
  {
    && (forall id :: id in order ==> id in disk)
    && (forall i, j :: 0 <= i < j < |order| ==> order[i] < order[j])
  }

  lemma OrderSplit(order: seq<nat>, c: nat)
    requires forall i, j :: 0 <= i < j < |order| ==> order[i] < order[j]
    requires c < |order|
    ensures order[c] !in order[..c] && order[c] !in order[c + 1..]
    ensures forall id :: id in order[..c + 1] <==> id in order[..c] || id == order[c]
    ensures forall id :: id in order[c..] <==> id in order[c + 1..] || id == order[c]
  {
    assert order[..c + 1] == order[..c] + [order[c]];
    assert order[c..] == [order[c]] + order[c + 1..];
  }

  lemma RecInvWiden(st: State, log: map<nat, seq<Needle>>, m: map<Key, Needle>, a: set<nat>, b: set<nat>)
    requires RecInv(st, log, m, a) && a <= b
    ensures RecInv(st, log, m, b)
  {
    hide PendingOk, CountsOk;
  }

  /** Without a positive counter a segment has no pending entry. */
  lemma RecInvNarrow(st: State, log: map<nat, seq<Needle>>, m: map<Key, Needle>, live: set<nat>, id: nat)
    requires RecInv(st, log, m, live + {id}) && Count(st.counts, id) == 0
    ensures RecInv(st, log, m, live)
  {
    hide PendingOk, CountIn;
    forall k | k in st.pending
      ensures st.pending[k].segmentId in live
    {
      assert CountIn(st.pending, id) <= Count(st.counts, id);
      CountZero(st.pending, k, id);
    }
  }

  /** The state after scanning one file, before it is kept or deleted. */
  lemma OpenOneScan(env: Env, st: State, disk: map<nat, bytes>, log: map<nat, seq<Needle>>,
                    order: seq<nat>, c: nat, m: map<Key, Needle>, dest: set<Key>)
    requires DirOk(env, st.capacity, disk, log) && OrderOk(order, disk) && c < |order|
    requires OpenInv(env, st, disk, log, order, c, m)
    ensures order[c] in st.disk && order[c] in log
    ensures var id := order[c]; var s := SegAt(env, disk, log, id);
            && Open(env, st.disk[id]) == Ok(s)
            && SUPERBLOCK_SIZE <= s.size <= |s.mmap|
            && var r := RecoverVisits(env, st.(nextId := Max(st.nextId, id + 1)), s, Visits(env, s), dest);
               && RecInv(r, log, Replay(m, log[id], dest), Ids(st.sealed) + {id})
               && r == st.(nextId := Max(st.nextId, id + 1), pending := r.pending, counts := r.counts)
               && (log[id] == [] ==> r.counts == st.counts)
  {
    hide RecInv, SealedOk, Open, Visits, Replay, RecoverVisits, FileOk, SegAt;
    var id := order[c];
    assert id in order[c..];
    assert id in disk && FileOk(env, st.capacity, disk, log, id);
    FileOpens(env, st.capacity, disk, log, id);
    var s := SegAt(env, disk, log, id);
    var st1 := st.(nextId := Max(st.nextId, id + 1));
    RecInvFrame(st, st1, log, m, Ids(st.sealed));
    RecInvWiden(st1, log, m, Ids(st.sealed), Ids(st.sealed) + {id});
    RecoverReplays(env, st1, s, log, m, |log[id]|, dest, Ids(st.sealed) + {id});
    var vs := Layout(log[id], SUPERBLOCK_SIZE);
    assert vs[..|log[id]|] == vs && log[id][..|log[id]|] == log[id];
    RecoverKeeps(env, st1, s, vs, dest);
  }

  lemma FileOpens(env: Env, capacity: nat, disk: map<nat, bytes>, log: map<nat, seq<Needle>>, id: nat)
    requires id in disk && id in log && FileOk(env, capacity, disk, log, id)
    ensures var s := SegAt(env, disk, log, id);
            && s.id == id && s.mmap == disk[id] && |s.mmap| < U32
            && Holds(env, s, log[id]) && Open(env, disk[id]) == Ok(s)
            && SUPERBLOCK_SIZE <= s.size <= |s.mmap|
            && Visits(env, s) == Layout(log[id], SUPERBLOCK_SIZE)
  {
    hide Holds, Open, Visits;
    var s := SegAt(env, disk, log, id);
    HoldsSize(env, s, log[id]);
    OpenRecovers(env, s, log[id]);
  }

  lemma RecInvFrame(a: State, b: State, log: map<nat, seq<Needle>>, m: map<Key, Needle>, live: set<nat>)
    requires RecInv(a, log, m, live) && a.pending == b.pending && a.counts == b.counts
    ensures RecInv(b, log, m, live)
  {
    hide Points, CountIn;
    assert forall id: nat :: CountIn(a.pending, id) <= Count(a.counts, id);
  }

  lemma KeepFile(env: Env, st: State, disk: map<nat, bytes>, log: map<nat, seq<Needle>>, order: seq<nat>, c: nat,
                 r: State)
    requires OrderOk(order, disk) && c < |order| && order[c] in log
    requires ListInv(env, st, disk, log, order, c)
    requires order[c] + 2 <= MAX_SEGMENTS && order[c] >= 1 && FileOk(env, st.capacity, disk, log, order[c])
    requires r == st.(nextId := Max(st.nextId, order[c] + 1), pending := r.pending, counts := r.counts)
    ensures ListInv(env, r.(sealed := st.sealed + [SegAt(env, disk, log, order[c])]), disk, log, order, c + 1)
    ensures Ids(st.sealed + [SegAt(env, disk, log, order[c])]) == Ids(st.sealed) + {order[c]}
  {
    hide Holds, Ids, SealedOk;
    OrderSplit(order, c);
    NotSealedYet(st.sealed, order[..c], order[c]);
    var s := SegAt(env, disk, log, order[c]);
    IdsSnoc(st.sealed, s);
    SealedSnoc(env, st.capacity, st.sealed, log, s);
  }

  lemma DropFile(env: Env, st: State, disk: map<nat, bytes>, log: map<nat, seq<Needle>>, order: seq<nat>, c: nat,
                 r: State)
    requires OrderOk(order, disk) && c < |order|
    requires ListInv(env, st, disk, log, order, c)
    requires order[c] + 2 <= MAX_SEGMENTS
    requires r == st.(nextId := Max(st.nextId, order[c] + 1), pending := r.pending, counts := r.counts)
    ensures ListInv(env, r.(disk := st.disk - {order[c]}), disk, log, order, c + 1)
  {
    hide Ids, SealedOk;
    OrderSplit(order, c);
    NotSealedYet(st.sealed, order[..c], order[c]);
  }

  /** One file: its needles are replayed; it is kept exactly when its counter is positive. */
  lemma OpenOneStep(env: Env, st: State, disk: map<nat, bytes>, log: map<nat, seq<Needle>>,
                    order: seq<nat>, c: nat, m: map<Key, Needle>, dest: set<Key>)
    requires DirOk(env, st.capacity, disk, log) && OrderOk(order, disk) && c < |order|
    requires OpenInv(env, st, disk, log, order, c, m)
    ensures order[c] in log
    ensures OpenInv(env, OpenOne(env, st, order[c], dest), disk, log, order, c + 1, Replay(m, log[order[c]], dest))
    ensures OpenOne(env, st, order[c], dest).capacity == st.capacity
  {
    hide FileOk, RecInv, ListInv, Open, Visits, Replay, RecoverVisits, Ids, SegAt;
    OpenOneScan(env, st, disk, log, order, c, m, dest);
    var id := order[c];
    assert id in disk && FileOk(env, st.capacity, disk, log, id);
    var s := SegAt(env, disk, log, id);
    assert s.id == id by { SegAtId(env, disk, log, id); }
    var r := RecoverVisits(env, st.(nextId := Max(st.nextId, id + 1)), s, Visits(env, s), dest);
    var m' := Replay(m, log[id], dest);
    if Count(r.counts, id) > 0 {
      FreshCounter(env, st, disk, log, order, c, m);
      KeepFile(env, st, disk, log, order, c, r);
      var r' := r.(sealed := st.sealed + [s]);
      RecInvFrame(r, r', log, m', Ids(st.sealed) + {id});
    } else {
      RecInvNarrow(r, log, m', Ids(st.sealed), id);
      DropFile(env, st, disk, log, order, c, r);
      RecInvFrame(r, r.(disk := r.disk - {id}), log, m', Ids(st.sealed));
    }
  }

  lemma SegAtId(env: Env, disk: map<nat, bytes>, log: map<nat, seq<Needle>>, id: nat)
    requires id in disk && id in log
    ensures SegAt(env, disk, log, id).id == id
  {
  }

  lemma NotSealedYet(sealed: seq<Seg>, front: seq<nat>, id: nat)
    requires (forall s :: s in sealed ==> s.id in front) && id !in front
    ensures id !in Ids(sealed)
  {
  }

  lemma FreshCounter(env: Env, st: State, disk: map<nat, bytes>, log: map<nat, seq<Needle>>,
                     order: seq<nat>, c: nat, m: map<Key, Needle>)
    requires OrderOk(order, disk) && c < |order|
    requires OpenInv(env, st, disk, log, order, c, m)
    ensures Count(st.counts, order[c]) == 0
  {
    hide PendingOk, CountsOk, SealedOk;
    OrderSplit(order, c);
    NotSealedYet(st.sealed, order[..c], order[c]);
  }

  lemma SealedSnoc(env: Env, capacity: nat, sealed: seq<Seg>, log: map<nat, seq<Needle>>, s: Seg)
    requires SealedOk(env, capacity, sealed, log) && SegOk(env, capacity, s, log) && s.id !in Ids(sealed)
    ensures SealedOk(env, capacity, sealed + [s], log)
  {
    hide SegOk;
    forall i | 0 <= i < |sealed|
      ensures sealed[i].id != s.id
    {
      OtherIds(sealed, s.id, sealed[i]);
    }
  }

  // Where recovered entries are

  /** Every entry of `pending` is in the last of the listed segments that holds its key. */
  ghost predicate Pinned(pending: map<Key, Entry>, log: map<nat, seq<Needle>>, order: seq<nat>, dest: set<Key>)
  {
    && (forall k :: k in pending ==> k !in dest)
    && (forall k, id, n :: k in pending && id in order && id in log && n in log[id] && id > pending[k].segmentId ==>
          KeyOf(n) != k)
  }

  lemma {:induction false} RecoverPins(env: Env, st: State, s: Seg, ns: seq<Needle>, c: nat, dest: set<Key>, k: Key)
    requires c <= |ns| && (k in st.pending ==> k !in dest)
    ensures var r := RecoverVisits(env, st, s, Layout(ns, SUPERBLOCK_SIZE)[..c], dest);
            k in r.pending ==>
              && k !in dest
              && (|| r.pending[k].segmentId == s.id
                  || (k in st.pending && r.pending[k] == st.pending[k] && forall n :: n in ns[..c] ==> KeyOf(n) != k))
  {
    hide RecoverVisit, Layout;
    var vs := Layout(ns, SUPERBLOCK_SIZE);
    if c == 0 {
      assert vs[..c] == [];
    } else {
      RecoverPins(env, st, s, ns, c - 1, dest, k);
      LayoutAt(ns, c - 1, SUPERBLOCK_SIZE);
      assert vs[..c][..c - 1] == vs[..c - 1] && ns[..c] == ns[..c - 1] + [ns[c - 1]];
      RecoverVisitPins(env, RecoverVisits(env, st, s, vs[..c - 1], dest), s, ns[c - 1], vs[c - 1], dest, k);
    }
  }

  lemma RecoverVisitPins(env: Env, st: State, s: Seg, n: Needle, v: Visit, dest: set<Key>, k: Key)
    requires VisitKey(v) == KeyOf(n)
    ensures var r := RecoverVisit(env, st, s, v, dest);
            k in r.pending ==>
              || (k !in dest && r.pending[k].segmentId == s.id)
              || (k in st.pending && r.pending[k] == st.pending[k] && (KeyOf(n) != k || k in dest))
  {
    hide CreatedAt;
  }

  lemma OpenOnePins(env: Env, st: State, disk: map<nat, bytes>, log: map<nat, seq<Needle>>, order: seq<nat>, c: nat,
                    m: map<Key, Needle>, dest: set<Key>)
    requires DirOk(env, st.capacity, disk, log) && OrderOk(order, disk) && c < |order|
    requires OpenInv(env, st, disk, log, order, c, m) && Pinned(st.pending, log, order[..c], dest)
    ensures Pinned(OpenOne(env, st, order[c], dest).pending, log, order[..c + 1], dest)
  {
    hide RecInv, ListInv, Open, Visits, Replay, RecoverVisits, Ids, SegAt, FileOk;
    OpenOneScan(env, st, disk, log, order, c, m, dest);
    var id := order[c];
    assert id in disk && FileOk(env, st.capacity, disk, log, id);
    FileOpens(env, st.capacity, disk, log, id);
    var s, ns := SegAt(env, disk, log, id), log[id];
    var st1 := st.(nextId := Max(st.nextId, id + 1));
    var r := RecoverVisits(env, st1, s, Visits(env, s), dest);
    assert Layout(ns, SUPERBLOCK_SIZE)[..|ns|] == Visits(env, s) && ns[..|ns|] == ns;
    forall k | k in r.pending
      ensures k !in dest
      ensures forall j, n :: j in order[..c + 1] && j in log && n in log[j] && j > r.pending[k].segmentId ==>
                KeyOf(n) != k
    {
      RecoverPins(env, st1, s, ns, |ns|, dest, k);
      OrderSplit(order, c);
      assert order[..c + 1] == order[..c] + [id];
    }
  }

  lemma {:induction false} OpenAllPins(env: Env, st: State, log: map<nat, seq<Needle>>, order: seq<nat>, c: nat,
                                       dest: set<Key>)
    requires DirOk(env, st.capacity, st.disk, log) && OrderOk(order, st.disk) && c <= |order| && st.pending == map[]
    requires OpenInv(env, st, st.disk, log, order, 0, map[])
    ensures Pinned(OpenAll(env, st, order[..c], dest).pending, log, order[..c], dest)
  {
    hide DirOk, OpenInv, OpenOne, ReplayStep;
    assert log.Keys == st.disk.Keys by { DirKeys(env, st.capacity, st.disk, log); }
    if c > 0 {
      var front := order[..c - 1];
      assert order[..c][..c - 1] == front;
      OpenAllPins(env, st, log, order, c - 1, dest);
      OpenAllReplays(env, st, log, order, c - 1, dest);
      OpenOnePins(env, OpenAll(env, st, front, dest), st.disk, log, order, c - 1,
                  Replay(map[], AllNeedles(log, front), dest), dest);
    }
  }

  // The whole directory

  /** Every needle in the directory, segments in id order. */
  ghost function InOrder(log: map<nat, seq<Needle>>, hi: nat): (r: seq<Needle>)
  {
    if hi == 0 then []
    else if hi - 1 in log then InOrder(log, hi - 1) + log[hi - 1]
    else InOrder(log, hi - 1)
  }

  lemma {:induction false} ListingInOrder(log: map<nat, seq<Needle>>, hi: nat)
    ensures AllNeedles(log, Ascending(log.Keys, hi)) == InOrder(log, hi)
  {
    hide Ascending, AllNeedles;
    if hi == 0 {
      AscendingTop(log.Keys, 0);
      NoNeedles(log);
    } else {
      ListingInOrder(log, hi - 1);
      AscendingTop(log.Keys, hi);
      if hi - 1 in log {
        MoreNeedles(log, Ascending(log.Keys, hi - 1), hi - 1);
      }
    }
  }

  lemma AscendingTop(ids: set<nat>, hi: nat)
    ensures hi == 0 ==> Ascending(ids, hi) == []
    ensures hi > 0 && hi - 1 in ids ==> Ascending(ids, hi) == Ascending(ids, hi - 1) + [hi - 1]
    ensures hi > 0 && hi - 1 !in ids ==> Ascending(ids, hi) == Ascending(ids, hi - 1)
  {
  }

  lemma NoNeedles(log: map<nat, seq<Needle>>)
    ensures AllNeedles(log, []) == []
  {
  }

  lemma MoreNeedles(log: map<nat, seq<Needle>>, order: seq<nat>, id: nat)
    requires id in log && forall x :: x in order ==> x in log
    ensures AllNeedles(log, order + [id]) == AllNeedles(log, order) + log[id]
  {
    assert (order + [id])[..|order|] == order;
  }

  lemma {:induction false} EmptySegmentAddsNothing(log: map<nat, seq<Needle>>, id: nat, hi: nat)
    requires id !in log
    ensures InOrder(log[id := []], hi) == InOrder(log, hi)
  {
    if hi > 0 {
      EmptySegmentAddsNothing(log, id, hi - 1);
      if hi - 1 == id {
        assert InOrder(log, hi - 1) + [] == InOrder(log, hi - 1);
      }
    }
  }

  /** The contents of segment 1 once opening has made sure it exists. */
  ghost function WithFirst(log: map<nat, seq<Needle>>): (r: map<nat, seq<Needle>>)
  {
    if 1 in log then log else log[1 := []]
  }

  lemma StartOk(env: Env, disk: map<nat, bytes>, log: map<nat, seq<Needle>>, capacity: nat, now: nat)
    requires DirOk(env, capacity, disk, log)
    ensures DirOk(env, capacity, OpenStart(disk, capacity, now).disk, WithFirst(log))
  {
    hide FileOk, CreateFile, OpenStart;
    var disk1 := OpenStart(disk, capacity, now).disk;
    var log1 := WithFirst(log);
    StartFiles(disk, capacity, now);
    FirstFileOk(env, disk, log, capacity, now);
    forall id | id in disk1
      ensures id + 2 <= MAX_SEGMENTS && FileOk(env, capacity, disk1, log1, id)
    {
      if id != 1 {
        assert id in disk && FileOk(env, capacity, disk, log, id);
        SameFileOk(env, capacity, disk, log, disk1, log1, id);
      }
    }
  }

  lemma StartFiles(disk: map<nat, bytes>, capacity: nat, now: nat)
    requires capacity >= SUPERBLOCK_SIZE
    ensures var disk1 := OpenStart(disk, capacity, now).disk;
            disk1.Keys == disk.Keys + {1} && forall id :: id in disk && id != 1 ==> disk1[id] == disk[id]
  {
    hide CreateFile;
  }

  lemma SameFileOk(env: Env, capacity: nat, disk: map<nat, bytes>, log: map<nat, seq<Needle>>, disk1: map<nat, bytes>,
                   log1: map<nat, seq<Needle>>, id: nat)
    requires id in disk && id in log && id in disk1 && id in log1 && disk1[id] == disk[id] && log1[id] == log[id]
    requires FileOk(env, capacity, disk, log, id)
    ensures FileOk(env, capacity, disk1, log1, id)
  {
    hide Holds, Serial;
  }

  lemma FirstFileOk(env: Env, disk: map<nat, bytes>, log: map<nat, seq<Needle>>, capacity: nat, now: nat)
    requires DirOk(env, capacity, disk, log)
    ensures FileOk(env, capacity, OpenStart(disk, capacity, now).disk, WithFirst(log), 1)
  {
    hide Holds, CreateFile, Serial;
    if 1 in log {
      assert FileOk(env, capacity, disk, log, 1);
      RecreateKeeps(env, SegAt(env, disk, log, 1), log[1], now);
    } else {
      CreatedHoldsNothing(env, 1, capacity, now);
      SerialNone(env);
    }
  }

  lemma {:induction false} OpenAllReplays(env: Env, st: State, log: map<nat, seq<Needle>>, order: seq<nat>, c: nat,
                                          dest: set<Key>)
    requires DirOk(env, st.capacity, st.disk, log) && OrderOk(order, st.disk) && c <= |order|
    requires OpenInv(env, st, st.disk, log, order, 0, map[])
    ensures OpenInv(env, OpenAll(env, st, order[..c], dest), st.disk, log, order, c,
                    Replay(map[], AllNeedles(log, order[..c]), dest))
  {
    hide DirOk, OpenInv, OpenOne, ReplayStep;
    assert log.Keys == st.disk.Keys by { DirKeys(env, st.capacity, st.disk, log); }
    if c > 0 {
      var front := order[..c - 1];
      assert order[..c][..c - 1] == front;
      OpenAllReplays(env, st, log, order, c - 1, dest);
      OpenOneStep(env, OpenAll(env, st, front, dest), st.disk, log, order, c - 1,
                  Replay(map[], AllNeedles(log, front), dest), dest);
      ReplayAppend(map[], AllNeedles(log, front), log[order[c - 1]], dest);
    }
  }

  lemma DirKeys(env: Env, capacity: nat, disk: map<nat, bytes>, log: map<nat, seq<Needle>>)
    requires DirOk(env, capacity, disk, log)
    ensures disk.Keys == log.Keys && SUPERBLOCK_SIZE <= capacity < U32
  {
    hide FileOk;
  }

  lemma StartInv(env: Env, st: State, log: map<nat, seq<Needle>>, order: seq<nat>)
    requires st.sealed == [] && st.pending == map[] && st.counts == map[] && st.nextId == 2
    requires forall id :: id in order <==> id in st.disk
    ensures OpenInv(env, st, st.disk, log, order, 0, map[])
  {
    assert order[0..] == order;
    forall id: nat
      ensures CountIn(st.pending, id) == 0
    {
      CountAtMost(st.pending, id);
    }
  }

  lemma CountAtMost(p: map<Key, Entry>, id: nat)
    ensures CountIn(p, id) <= |p.Keys|
  {
    var a := set k | k in p && p[k].segmentId == id;
    SubsetSize(a, p.Keys);
  }

  /** The needles of the segments that stay. */
  ghost function Kept(log: map<nat, seq<Needle>>, sealed: seq<Seg>): (r: map<nat, seq<Needle>>)
  {
    map id | id in log && id in Ids(sealed) :: log[id]
  }

  lemma SealedOkKept(env: Env, capacity: nat, sealed: seq<Seg>, log: map<nat, seq<Needle>>)
    requires SealedOk(env, capacity, sealed, log)
    ensures SealedOk(env, capacity, sealed, Kept(log, sealed)) && Kept(log, sealed).Keys == Ids(sealed)
  {
    hide Holds;
    forall s | s in sealed
      ensures SegOk(env, capacity, s, Kept(log, sealed))
    {
      assert s.id in Ids(sealed);
    }
  }

  lemma FinishSegs(env: Env, st: State, disk: map<nat, bytes>, log: map<nat, seq<Needle>>, order: seq<nat>, now: nat)
    requires SUPERBLOCK_SIZE <= st.capacity < U32
    requires ListInv(env, st, disk, log, order, |order|)
    ensures var st' := OpenFinish(st, now); var log' := Kept(log, st.sealed)[st.nextId := []];
            && st.nextId !in Ids(st.sealed)
            && SegsOk(env, st', log') && DiskOk(env, st', log')
  {
    hide Holds, TailIsZero, CreateFile, SealedOk;
    var log' := Kept(log, st.sealed)[st.nextId := []];
    assert order[..|order|] == order && order[|order|..] == [];
    assert st.nextId !in Ids(st.sealed) && st.nextId !in st.disk;
    SealedOkKept(env, st.capacity, st.sealed, log);
    SealedOkExtends(env, st.capacity, st.sealed, Kept(log, st.sealed), st.nextId, []);
    CreatedHoldsNothing(env, st.nextId, st.capacity, now);
    assert 0 !in OpenFinish(st, now).disk by {
      forall s | s in st.sealed
        ensures s.id >= 1
      {
        SealedIdInLog(env, st.capacity, st.sealed, log, s);
      }
    }
    forall s | s in st.sealed
      ensures s.id != st.nextId
    {
      OtherIds(st.sealed, st.nextId, s);
    }
  }

  lemma FinishInv(env: Env, st: State, disk: map<nat, bytes>, log: map<nat, seq<Needle>>, order: seq<nat>,
                  m: map<Key, Needle>, now: nat)
    requires SUPERBLOCK_SIZE <= st.capacity < U32
    requires OpenInv(env, st, disk, log, order, |order|, m)
    ensures Inv(env, OpenFinish(st, now), Kept(log, st.sealed)[st.nextId := []], m)
  {
    hide ListInv, SegsOk, DiskOk, Points, CountIn, CreateFile, Ids;
    FinishSegs(env, st, disk, log, order, now);
    var log' := Kept(log, st.sealed)[st.nextId := []];
    forall k | k in m
      ensures Points(log', st.pending[k], m[k])
    {
      PointsLive(log, st.pending[k], m[k]);
      PointsExtends(env, log, log', st.pending[k], m[k]);
    }
    assert forall id: nat :: CountIn(st.pending, id) <= Count(st.counts, id);
  }

  /** Recovery: whatever the segment files hold and whichever object files exist, the
      reopened log represents exactly the last-writer-wins replay, in id order, of all
      needles whose destination file is absent, tombstones removing. */
  lemma RecoveryReplays(env: Env, disk: map<nat, bytes>, log: map<nat, seq<Needle>>, dest: set<Key>, capacity: nat,
                        now: nat)
    returns (log': map<nat, seq<Needle>>)
    requires DirOk(env, capacity, disk, log)
    ensures Inv(env, OpenWal(env, disk, dest, capacity, now), log', Replay(map[], InOrder(log, MAX_SEGMENTS), dest))
    ensures forall id :: id in log' ==> log'[id] == [] || (id in log && log'[id] == log[id])
  {
    hide Inv, DirOk, OpenInv, OpenAll, OpenFinish, Replay, InOrder, CreateFile, Ascending;
    DirKeys(env, capacity, disk, log);
    var st0 := OpenStart(disk, capacity, now);
    var log1 := WithFirst(log);
    StartOk(env, disk, log, capacity, now);
    DirKeys(env, capacity, st0.disk, log1);
    var order := Ascending(st0.disk.Keys, MAX_SEGMENTS);
    DirBound(env, capacity, st0.disk, log1);
    StartInv(env, st0, log1, order);
    OpenAllReplays(env, st0, log1, order, |order|, dest);
    assert order[..|order|] == order;
    var st1 := OpenAll(env, st0, order, dest);
    FinishInv(env, st1, st0.disk, log1, order, Replay(map[], AllNeedles(log1, order), dest), now);
    ListingInOrder(log1, MAX_SEGMENTS);
    if 1 !in log {
      EmptySegmentAddsNothing(log, 1, MAX_SEGMENTS);
    }
    log' := Kept(log1, st1.sealed)[st1.nextId := []];
  }

  /** Each recovered entry is in the last segment that holds its key. */
  lemma RecoveryPins(env: Env, disk: map<nat, bytes>, log: map<nat, seq<Needle>>, dest: set<Key>, capacity: nat,
                     now: nat)
    requires DirOk(env, capacity, disk, log)
    ensures capacity >= SUPERBLOCK_SIZE
    ensures var p := OpenWal(env, disk, dest, capacity, now).pending;
            forall k, id, n :: k in p && id in log && n in log[id] && id > p[k].segmentId ==> KeyOf(n) != k
  {
    hide Inv, DirOk, OpenInv, OpenAll, OpenWal, OpenStart, Pinned, Ascending;
    DirKeys(env, capacity, disk, log);
    var st0 := OpenStart(disk, capacity, now);
    var log1 := WithFirst(log);
    StartOk(env, disk, log, capacity, now);
    DirKeys(env, capacity, st0.disk, log1);
    var order := Ascending(st0.disk.Keys, MAX_SEGMENTS);
    DirBound(env, capacity, st0.disk, log1);
    StartsEmpty(disk, capacity, now);
    StartInv(env, st0, log1, order);
    OpenAllPins(env, st0, log1, order, |order|, dest);
    assert order[..|order|] == order;
    OpenedPending(env, disk, dest, capacity, now);
    PinnedAll(OpenAll(env, st0, order, dest).pending, log, order, dest);
  }

  lemma StartsEmpty(disk: map<nat, bytes>, capacity: nat, now: nat)
    requires capacity >= SUPERBLOCK_SIZE
    ensures var st := OpenStart(disk, capacity, now);
            && st.sealed == [] && st.pending == map[] && st.counts == map[] && st.nextId == 2
            && st.capacity == capacity
  {
    hide CreateFile;
  }

  lemma OpenedPending(env: Env, disk: map<nat, bytes>, dest: set<Key>, capacity: nat, now: nat)
    requires capacity >= SUPERBLOCK_SIZE
    ensures var st0 := OpenStart(disk, capacity, now);
            OpenWal(env, disk, dest, capacity, now).pending
            == OpenAll(env, st0, Ascending(st0.disk.Keys, MAX_SEGMENTS), dest).pending
  {
    hide OpenAll, Ascending, CreateFile, OpenStart;
  }

  lemma PinnedAll(p: map<Key, Entry>, log: map<nat, seq<Needle>>, order: seq<nat>, dest: set<Key>)
    requires Pinned(p, WithFirst(log), order, dest) && forall id :: id in log ==> id in order
    ensures forall k, id, n :: k in p && id in log && n in log[id] && id > p[k].segmentId ==> KeyOf(n) != k
  {
    forall k, id, n | k in p && id in log && n in log[id] && id > p[k].segmentId
      ensures KeyOf(n) != k
    {
      assert id in WithFirst(log) && n in WithFirst(log)[id];
    }
  }

  lemma DirBound(env: Env, capacity: nat, disk: map<nat, bytes>, log: map<nat, seq<Needle>>)
    requires DirOk(env, capacity, disk, log)
    ensures forall id :: id in disk ==> id < MAX_SEGMENTS
  {
    hide FileOk;
  }

  // A new directory

  lemma {:induction false} NothingToReplay(hi: nat)
    ensures InOrder(map[], hi) == []
  {
    if hi > 0 {
      NothingToReplay(hi - 1);
    }
  }

  /** Opening an empty directory gives an empty log. */
  lemma OpenedEmpty(env: Env, capacity: nat, now: nat) returns (log: map<nat, seq<Needle>>)
    requires SUPERBLOCK_SIZE <= capacity < U32
    ensures Inv(env, OpenWal(env, map[], {}, capacity, now), log, map[])
    ensures forall id :: id in log ==> log[id] == []
    ensures OpenWal(env, map[], {}, capacity, now).capacity == capacity
  {
    hide Inv, InOrder, OpenAll;
    log := RecoveryReplays(env, map[], map[], {}, capacity, now);
    NothingToReplay(MAX_SEGMENTS);
  }
}
