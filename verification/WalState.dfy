/** The write-ahead log as a state and its transitions: an active and some sealed segments,
    the map of entries not yet written to their own files, the per-segment counters that
    decide when a segment file goes, and the directory of segment files. */
module WalState {
  import opened ByteCodec
  import opened Metadata
  import opened NeedleCodec
  import opened Segments

  /** Segment ids below this bound have file names that sort like the ids. */
  const MAX_SEGMENTS: nat := 1_000_000

  /** Identity of an object version; the empty version id means unversioned. */
  datatype Key = Key(bucket: bytes, key: bytes, versionId: bytes)

  datatype Entry = Entry(
    segmentId: nat, dataOffset: nat, dataLen: nat, metaOffset: nat, metaLen: nat, createdAt: nat)

  datatype WalError = NeedleTooLarge

  datatype State = State(
    capacity: nat,
    active: Seg,
    sealed: seq<Seg>,
    pending: map<Key, Entry>,
    counts: map<nat, nat>,
    nextId: nat,
    disk: map<nat, bytes>)

  function KeyOf(n: Needle): (k: Key)
  {
    Key(n.bucket, n.key, n.versionId)
  }

  function EntryOf(id: nat, l: Location): (e: Entry)
  {
    Entry(id, l.dataOffset, l.dataLen, l.metaOffset, l.metaLen, l.createdAt)
  }

  function Count(counts: map<nat, nat>, id: nat): (c: nat)
  {
    if id in counts then counts[id] else 0
  }

  function Bump(counts: map<nat, nat>, id: nat): (c: map<nat, nat>)
  {
    counts[id := Count(counts, id) + 1]
  }

  function File(disk: map<nat, bytes>, id: nat): (b: bytes)
  {
    if id in disk then disk[id] else []
  }

  /** The position of the sealed segment with this id, or the number of segments. */
  function Find(sealed: seq<Seg>, id: nat): (i: nat)
    ensures i <= |sealed|
    ensures i < |sealed| ==> sealed[i].id == id
    ensures forall j :: 0 <= j < i ==> sealed[j].id != id
  {
    if sealed == [] then 0
    else if sealed[0].id == id then 0
    else
      var i := Find(sealed[1..], id) + 1;
      assert forall j :: 0 < j < i ==> sealed[j] == sealed[1..][j - 1];
      i
  }

  /** Bytes of a segment by id: the active segment first, then the sealed ones. */
  function Read(st: State, id: nat, offset: nat, len: nat): (r: Option<bytes>)
  {
    if id == st.active.id then ReadAt(st.active, offset, len)
    else
      var i := Find(st.sealed, id);
      if i < |st.sealed| then Slice(st.sealed[i], offset, len) else None
  }

  function ReadData(st: State, e: Entry): (r: Option<bytes>)
  {
    Read(st, e.segmentId, e.dataOffset, e.dataLen)
  }

  function ReadMetaBytes(st: State, e: Entry): (r: Option<bytes>)
  {
    Read(st, e.segmentId, e.metaOffset, e.metaLen)
  }

  function ReadMeta(env: Env, st: State, e: Entry): (r: Option<ObjectMeta>)
  {
    match ReadMetaBytes(st, e)
    case None => None
    case Some(b) => env.decodeMeta(b)
  }

  /** Record an append that the active segment accepted. */
  function Accept(st: State, n: Needle, seg: Seg, loc: Location): (r: State)
  {
    st.(active := seg,
        disk := st.disk[seg.id := seg.mmap],
        pending := st.pending[KeyOf(n) := EntryOf(seg.id, loc)],
        counts := Bump(st.counts, seg.id))
  }

  /** Seal the active segment and start a new one. The placeholder created under id 0
      stays in the directory. */
  function Rotate(st: State, now: nat): (r: State)
    requires st.capacity >= SUPERBLOCK_SIZE
  {
    var disk0 := st.disk[0 := CreateFile(File(st.disk, 0), 0, st.capacity, now)];
    var blank := Created(File(disk0, st.nextId), st.nextId, st.capacity, now);
    st.(active := blank,
        sealed := st.sealed + [st.active],
        nextId := st.nextId + 1,
        disk := disk0[st.nextId := blank.mmap])
  }

  /** Append, rotating once if the active segment is full. A needle too large for an empty
      segment is refused, but the rotation has happened. */
  function AppendWal(env: Env, st: State, n: Needle, now: nat): (r: (State, Result<Entry, WalError>))
    requires st.capacity >= SUPERBLOCK_SIZE
  {
    match Append(env, st.active, n)
    case Some((seg, loc)) => (Accept(st, n, seg, loc), Ok(EntryOf(seg.id, loc)))
    case None =>
      var rotated := Rotate(st, now);
      match Append(env, rotated.active, n)
      case Some((seg, loc)) => (Accept(rotated, n, seg, loc), Ok(EntryOf(seg.id, loc)))
      case None => (rotated, Err(NeedleTooLarge))
  }

  function RemoveAt<T>(s: seq<T>, i: nat): (r: seq<T>)
    requires i < |s|
    ensures |r| == |s| - 1 && (forall j :: 0 <= j < i ==> r[j] == s[j])
    ensures forall j :: i <= j < |r| ==> r[j] == s[j + 1]
  {
    s[..i] + s[i + 1..]
  }

  /** Drop a drained segment and its file, unless it is the active one. */
  function TryDelete(st: State, id: nat): (r: State)
  {
    if id == st.active.id then st
    else
      var i := Find(st.sealed, id);
      if i < |st.sealed| then st.(sealed := RemoveAt(st.sealed, i), disk := st.disk - {id}) else st
  }

  /** Forget an entry whose object has reached its own files. */
  function Mark(st: State, k: Key): (r: State)
  {
    if k !in st.pending then st
    else
      var id := st.pending[k].segmentId;
      var gone := st.(pending := st.pending - {k});
      if id !in st.counts then gone
      else
        var c := if st.counts[id] == 0 then 0 else st.counts[id] - 1;
        if c == 0 then TryDelete(gone.(counts := st.counts - {id}), id)
        else gone.(counts := st.counts[id := c])
  }

  // The invariant

  /** Number of pending entries that point into a segment. */
  ghost function CountIn(pending: map<Key, Entry>, id: nat): (c: nat)
  {
    |set k | k in pending && pending[k].segmentId == id|
  }

  /** Entry `e` has the offsets of the `i`-th needle of a segment, and that needle is `n`. */
  ghost predicate EntryAt(ns: seq<Needle>, i: nat, e: Entry, n: Needle)
  {
    && i < |ns| && ns[i] == n
    && var v := VisitOf(n, OffsetOf(ns, i, SUPERBLOCK_SIZE));
       && e.dataOffset == v.dataOffset && e.dataLen == v.dataLen
       && e.metaOffset == v.metaOffset && e.metaLen == v.metaLen
  }

  ghost predicate Points(log: map<nat, seq<Needle>>, e: Entry, n: Needle)
  {
    e.segmentId in log && exists i: nat :: EntryAt(log[e.segmentId], i, e, n)
  }

  /** Segment files may have any size that offsets can address, but the first one has the
      current capacity: opening sets its length. */
  ghost predicate SizeOk(capacity: nat, id: nat, size: nat)
  {
    size < U32 && (id == 1 ==> size == capacity)
  }

  ghost predicate SegOk(env: Env, capacity: nat, s: Seg, log: map<nat, seq<Needle>>)
  {
    && 1 <= s.id && s.id in log && SizeOk(capacity, s.id, |s.mmap|)
    && Holds(env, s, log[s.id])
  }

  /** Sealed segments: what they hold, and that their ids are distinct. */
  ghost predicate SealedOk(env: Env, capacity: nat, sealed: seq<Seg>, log: map<nat, seq<Needle>>)
  {
    && (forall s :: s in sealed ==> SegOk(env, capacity, s, log))
    && (forall i, j :: 0 <= i < j < |sealed| ==> sealed[i].id != sealed[j].id)
  }

  ghost function Ids(sealed: seq<Seg>): (r: set<nat>)
  {
    set s | s in sealed :: s.id
  }

  /** `log` says which needles each live segment holds. */
  ghost predicate SegsOk(env: Env, st: State, log: map<nat, seq<Needle>>)
  {
    && SUPERBLOCK_SIZE <= st.capacity < U32
    && SegOk(env, st.capacity, st.active, log) && TailIsZero(st.active) && |st.active.mmap| == st.capacity
    && SealedOk(env, st.capacity, st.sealed, log)
    && st.active.id !in Ids(st.sealed)
    && log.Keys == Ids(st.sealed) + {st.active.id}
    && (forall id :: id in log ==> id <= st.active.id < st.nextId)
    && 2 <= st.nextId <= MAX_SEGMENTS
  }

  /** The placeholder file of a rotation holds no needle. */
  ghost predicate PlaceholderOk(env: Env, capacity: nat, disk: map<nat, bytes>)
  {
    0 in disk ==> |disk[0]| == capacity && Holds(env, Seg(0, disk[0], SUPERBLOCK_SIZE), [])
  }

  /** The directory holds exactly the live segments, and maybe the placeholder. */
  ghost predicate DiskOk(env: Env, st: State, log: map<nat, seq<Needle>>)
  {
    && st.disk.Keys - {0} == log.Keys
    && (st.active.id in st.disk ==> st.disk[st.active.id] == st.active.mmap)
    && (forall s :: s in st.sealed && s.id in st.disk ==> st.disk[s.id] == s.mmap)
    && PlaceholderOk(env, st.capacity, st.disk)
  }

  /** The pending map points at the needles of the abstract map `m`. */
  ghost predicate PendingOk(st: State, log: map<nat, seq<Needle>>, m: map<Key, Needle>)
  {
    && st.pending.Keys == m.Keys
    && (forall k :: k in m ==> KeyOf(m[k]) == k && Points(log, st.pending[k], m[k]))
  }

  /** Each counter is at least the number of entries still in its segment. */
  ghost predicate CountsOk(st: State)
  {
    forall id: nat :: CountIn(st.pending, id) <= Count(st.counts, id)
  }

  /** The log state represents the abstract map `m` of un-materialized needles. */
  ghost predicate Inv(env: Env, st: State, log: map<nat, seq<Needle>>, m: map<Key, Needle>)
  {
    SegsOk(env, st, log) && DiskOk(env, st, log) && PendingOk(st, log, m) && CountsOk(st)
  }

  lemma FindSealed(env: Env, capacity: nat, sealed: seq<Seg>, log: map<nat, seq<Needle>>, s: Seg)
    requires SealedOk(env, capacity, sealed, log) && s in sealed
    ensures Find(sealed, s.id) < |sealed| && sealed[Find(sealed, s.id)] == s
  {
    hide SegOk;
    var j :| 0 <= j < |sealed| && sealed[j] == s;
    var i := Find(sealed, s.id);
    assert i <= j;
  }

  /** Reading a located entry returns exactly the bytes of its needle. */
  lemma PointsReads(env: Env, st: State, log: map<nat, seq<Needle>>, e: Entry, n: Needle)
    requires SegsOk(env, st, log) && Points(log, e, n)
    ensures ReadData(st, e) == Some(n.data)
    ensures ReadMetaBytes(st, e) == Some(n.meta)
  {
    hide Holds, TailIsZero, OffsetOf, VisitOf, ReadAt, Slice;
    var id := e.segmentId;
    var ns := log[id];
    var i: nat :| EntryAt(ns, i, e, n);
    if id == st.active.id {
      HoldsReads(env, st.active, ns, i);
    } else {
      assert id in Ids(st.sealed);
      var s :| s in st.sealed && s.id == id;
      FindSealed(env, st.capacity, st.sealed, log, s);
      HoldsReads(env, s, ns, i);
    }
  }

  lemma EntryAtExtends(env: Env, ns: seq<Needle>, more: seq<Needle>, i: nat, e: Entry, n: Needle)
    requires EntryAt(ns, i, e, n)
    ensures EntryAt(ns + more, i, e, n)
  {
    hide VisitOf;
    OffsetOfAppend(env, ns, more, i, SUPERBLOCK_SIZE);
  }

  /** Segments only grow while they live, so located entries stay located. */
  lemma PointsExtends(env: Env, log: map<nat, seq<Needle>>, log': map<nat, seq<Needle>>, e: Entry, n: Needle)
    requires Points(log, e, n)
    requires e.segmentId in log' && log[e.segmentId] <= log'[e.segmentId]
    ensures Points(log', e, n)
  {
    var ns, ns' := log[e.segmentId], log'[e.segmentId];
    var i: nat :| EntryAt(ns, i, e, n);
    assert ns' == ns + ns'[|ns|..];
    EntryAtExtends(env, ns, ns'[|ns|..], i, e, n);
  }

  // Counting

  lemma CountInsert(p: map<Key, Entry>, k: Key, e: Entry, id: nat)
    ensures CountIn(p[k := e], id) <= CountIn(p, id) + (if e.segmentId == id then 1 else 0)
  {
    var a := set x | x in p && p[x].segmentId == id;
    var q := p[k := e];
    var b := set x | x in q && q[x].segmentId == id;
    if e.segmentId == id {
      assert b <= a + {k};
      SubsetSize(b, a + {k});
    } else {
      assert b <= a;
      SubsetSize(b, a);
    }
  }

  lemma CountRemove(p: map<Key, Entry>, k: Key, id: nat)
    requires k in p
    ensures CountIn(p - {k}, id) == CountIn(p, id) - (if p[k].segmentId == id then 1 else 0)
  {
    var a := set x | x in p && p[x].segmentId == id;
    var q := p - {k};
    var b := set x | x in q && q[x].segmentId == id;
    if p[k].segmentId == id {
      assert a == b + {k};
    } else {
      assert a == b;
    }
  }

  lemma CountZero(p: map<Key, Entry>, k: Key, id: nat)
    requires CountIn(p, id) == 0 && k in p
    ensures p[k].segmentId != id
  {
    var a := set x | x in p && p[x].segmentId == id;
    assert k in a <==> p[k].segmentId == id;
  }

  // Append

  /** Offsets below 2^32 are recorded without truncation. */
  lemma EntryIsExact(env: Env, ns: seq<Needle>, n: Needle, id: nat)
    requires SUPERBLOCK_SIZE + |Serial(env, ns)| + SerializedSize(n) < U32 && Fits(n)
    ensures EntryAt(ns + [n], |ns|, EntryOf(id, LocationOf(id, n, SUPERBLOCK_SIZE + |Serial(env, ns)|)), n)
  {
    hide Serial, OffsetOf;
    OffsetOfAppend(env, ns, [n], |ns|, SUPERBLOCK_SIZE);
  }

  lemma SealedOkExtends(env: Env, capacity: nat, sealed: seq<Seg>, log: map<nat, seq<Needle>>, id: nat, ns: seq<Needle>)
    requires SealedOk(env, capacity, sealed, log) && id !in Ids(sealed)
    ensures SealedOk(env, capacity, sealed, log[id := ns])
  {
    hide Holds;
    forall s | s in sealed
      ensures SegOk(env, capacity, s, log[id := ns])
    {
      assert s.id in Ids(sealed);
    }
  }

  lemma OtherIds(sealed: seq<Seg>, id: nat, s: Seg)
    requires id !in Ids(sealed) && s in sealed
    ensures s.id != id
  {
    assert s.id in Ids(sealed);
  }

  lemma AcceptSegs(env: Env, st: State, log: map<nat, seq<Needle>>, n: Needle)
    requires SegsOk(env, st, log) && DiskOk(env, st, log) && Good(env, n) && Append(env, st.active, n).Some?
    ensures var (seg, loc) := Append(env, st.active, n).value;
            var log' := log[seg.id := log[seg.id] + [n]];
            SegsOk(env, Accept(st, n, seg, loc), log') && DiskOk(env, Accept(st, n, seg, loc), log')
  {
    hide Holds, TailIsZero, SealedOk, Good, LocationOf, Append, Ids;
    AppendHolds(env, st.active, log[st.active.id], n);
    SealedOkExtends(env, st.capacity, st.sealed, log, st.active.id, log[st.active.id] + [n]);
    forall s | s in st.sealed
      ensures s.id != st.active.id
    {
      OtherIds(st.sealed, st.active.id, s);
    }
  }

  /** The active segment accepts a needle: one more needle in the log, one more pending key. */
  lemma AcceptKeepsInv(env: Env, st: State, log: map<nat, seq<Needle>>, m: map<Key, Needle>, n: Needle)
    requires Inv(env, st, log, m) && Good(env, n) && Append(env, st.active, n).Some?
    ensures var (seg, loc) := Append(env, st.active, n).value;
            Inv(env, Accept(st, n, seg, loc), log[seg.id := log[seg.id] + [n]], m[KeyOf(n) := n])
  {
    hide EntryAt, Good, LocationOf, CountIn, DiskOk, SealedOk, Holds, TailIsZero, Append, Ids;
    var seg, loc := Append(env, st.active, n).value.0, Append(env, st.active, n).value.1;
    var id := st.active.id;
    AcceptSegs(env, st, log, n);
    AcceptedEntry(env, st, log, n);
    var log' := log[id := log[id] + [n]];
    var st' := Accept(st, n, seg, loc);
    forall k | k in m[KeyOf(n) := n]
      ensures Points(log', st'.pending[k], m[KeyOf(n) := n][k])
    {
      if k == KeyOf(n) {
        assert EntryAt(log'[id], |log[id]|, st'.pending[k], n);
      } else {
        PointsExtends(env, log, log', st.pending[k], m[k]);
      }
    }
    forall i: nat
      ensures CountIn(st'.pending, i) <= Count(st'.counts, i)
    {
      CountInsert(st.pending, KeyOf(n), EntryOf(id, loc), i);
    }
  }

  lemma AcceptedEntry(env: Env, st: State, log: map<nat, seq<Needle>>, n: Needle)
    requires SegsOk(env, st, log) && Good(env, n) && Append(env, st.active, n).Some?
    ensures var (seg, loc) := Append(env, st.active, n).value;
            seg.id == st.active.id && EntryAt(log[seg.id] + [n], |log[seg.id]|, EntryOf(seg.id, loc), n)
  {
    hide Holds, TailIsZero, LocationOf, EntryAt, Serialize, SealedOk;
    var ns := log[st.active.id];
    AppendHolds(env, st.active, ns, n);
    assert st.active.size == SUPERBLOCK_SIZE + |Serial(env, ns)| by { HoldsSize(env, st.active, ns); }
    EntryIsExact(env, ns, n, st.active.id);
  }

  lemma HoldsSize(env: Env, s: Seg, ns: seq<Needle>)
    requires Holds(env, s, ns)
    ensures SUPERBLOCK_SIZE <= s.size == SUPERBLOCK_SIZE + |Serial(env, ns)| <= |s.mmap|
  {
  }

  lemma SealActive(env: Env, st: State, log: map<nat, seq<Needle>>)
    requires SegsOk(env, st, log)
    ensures SealedOk(env, st.capacity, st.sealed + [st.active], log)
    ensures Ids(st.sealed + [st.active]) == log.Keys
  {
    hide Holds, TailIsZero;
    IdsSnoc(st.sealed, st.active);
    var r := st.sealed + [st.active];
    forall i, j | 0 <= i < j < |r|
      ensures r[i].id != r[j].id
    {
      assert st.sealed[i].id in Ids(st.sealed);
    }
  }

  lemma RotateSegs(env: Env, st: State, log: map<nat, seq<Needle>>, now: nat)
    requires SegsOk(env, st, log) && DiskOk(env, st, log) && st.nextId < MAX_SEGMENTS
    ensures SegsOk(env, Rotate(st, now), log[st.nextId := []])
    ensures Rotate(st, now).active.size == SUPERBLOCK_SIZE
  {
    hide Holds, TailIsZero, CreateFile, Ids, SealedOk, PlaceholderOk;
    assert st.nextId !in log && st.nextId !in st.disk;
    CreatedHoldsNothing(env, st.nextId, st.capacity, now);
    SealActive(env, st, log);
    SealedOkExtends(env, st.capacity, st.sealed + [st.active], log, st.nextId, []);
  }

  lemma RotateDisk(env: Env, st: State, log: map<nat, seq<Needle>>, now: nat)
    requires SegsOk(env, st, log) && DiskOk(env, st, log)
    ensures DiskOk(env, Rotate(st, now), log[st.nextId := []])
  {
    hide Holds, TailIsZero, CreateFile, Ids, SealedOk;
    var st' := Rotate(st, now);
    PlaceholderRecreated(env, st.capacity, st.disk, now);
    SealActive(env, st, log);
    forall s | s in st'.sealed
      ensures s.id in st'.disk ==> st'.disk[s.id] == s.mmap
    {
      SealedIdInLog(env, st.capacity, st.sealed + [st.active], log, s);
      assert s in st.sealed || s == st.active;
      assert s.id < st.nextId && s.id != 0;
    }
  }

  lemma SealedIdInLog(env: Env, capacity: nat, sealed: seq<Seg>, log: map<nat, seq<Needle>>, s: Seg)
    requires SealedOk(env, capacity, sealed, log) && s in sealed
    ensures s.id in log && s.id >= 1
  {
    hide Holds;
  }

  /** Rotation changes no pending entry and adds an empty segment. */
  lemma RotateKeepsInv(env: Env, st: State, log: map<nat, seq<Needle>>, m: map<Key, Needle>, now: nat)
    requires Inv(env, st, log, m) && st.nextId < MAX_SEGMENTS
    ensures Inv(env, Rotate(st, now), log[st.nextId := []], m)
    ensures Rotate(st, now).active.size == SUPERBLOCK_SIZE
  {
    hide Points, CountIn, CreateFile, DiskOk, SealedOk, SegOk, TailIsZero, Ids;
    RotateSegs(env, st, log, now);
    RotateDisk(env, st, log, now);
    var log' := log[st.nextId := []];
    forall k | k in m
      ensures Points(log', st.pending[k], m[k])
    {
      PointsLive(log, st.pending[k], m[k]);
      PointsExtends(env, log, log', st.pending[k], m[k]);
    }
  }

  lemma FindInIds(sealed: seq<Seg>, id: nat)
    ensures Find(sealed, id) < |sealed| ==> id in Ids(sealed)
  {
    var i := Find(sealed, id);
    if i < |sealed| {
      assert sealed[i] in sealed;
    }
  }

  /** Live segments have positive ids: id 0 is the placeholder's. */
  lemma IdsPositive(env: Env, st: State, log: map<nat, seq<Needle>>, id: nat)
    requires SegsOk(env, st, log) && id in log
    ensures id >= 1
  {
    hide Holds, TailIsZero, SealedOk;
    if id != st.active.id {
      var s :| s in st.sealed && s.id == id;
      SealedIdInLog(env, st.capacity, st.sealed, log, s);
    }
  }

  lemma IdsSnoc(sealed: seq<Seg>, s: Seg)
    ensures Ids(sealed + [s]) == Ids(sealed) + {s.id}
  {
    assert forall x :: x in sealed + [s] <==> x in sealed || x == s;
  }

  lemma PlaceholderRecreated(env: Env, capacity: nat, disk: map<nat, bytes>, now: nat)
    requires SUPERBLOCK_SIZE <= capacity && PlaceholderOk(env, capacity, disk)
    ensures Holds(env, Seg(0, CreateFile(File(disk, 0), 0, capacity, now), SUPERBLOCK_SIZE), [])
  {
    hide Holds;
    if 0 in disk {
      RecreateKeeps(env, Seg(0, disk[0], SUPERBLOCK_SIZE), [], now);
    } else {
      CreatedHoldsNothing(env, 0, capacity, now);
    }
  }

  /** What each segment holds after an append. */
  ghost function LogAfter(env: Env, st: State, log: map<nat, seq<Needle>>, n: Needle): (r: map<nat, seq<Needle>>)
    requires st.active.id in log
  {
    if Append(env, st.active, n).Some? then log[st.active.id := log[st.active.id] + [n]]
    else if SUPERBLOCK_SIZE + SerializedSize(n) <= st.capacity then log[st.nextId := [n]]
    else log[st.nextId := []]
  }

  /** An append takes the abstract map to itself with the needle under its key, unless the
      needle is larger than an empty segment: then it is refused and the map stays. */
  lemma AppendRefines(env: Env, st: State, log: map<nat, seq<Needle>>, m: map<Key, Needle>, n: Needle, now: nat)
    requires Inv(env, st, log, m) && Good(env, n) && st.nextId < MAX_SEGMENTS
    ensures var (st', r) := AppendWal(env, st, n, now);
            var fits := SUPERBLOCK_SIZE + SerializedSize(n) <= st.capacity;
            && (r.Ok? <==> fits)
            && Inv(env, st', LogAfter(env, st, log, n), if fits then m[KeyOf(n) := n] else m)
            && (r.Ok? ==> KeyOf(n) in st'.pending && st'.pending[KeyOf(n)] == r.value)
  {
    hide Inv, Good, Rotate, Append, Accept, SegsOk;
    InvActive(env, st, log, m);
    AppendFits(env, st.active, n);
    AcceptedKey(env, st, n);
    if Append(env, st.active, n).Some? {
      AcceptKeepsInv(env, st, log, m, n);
    } else {
      var rotated := Rotate(st, now);
      RotateKeepsInv(env, st, log, m, now);
      RotateIds(st, now);
      AppendFits(env, rotated.active, n);
      AcceptedKey(env, rotated, n);
      if Append(env, rotated.active, n).Some? {
        AcceptKeepsInv(env, rotated, log[st.nextId := []], m, n);
        assert [] + [n] == [n];
        assert log[st.nextId := []][st.nextId := [n]] == log[st.nextId := [n]];
      }
    }
  }

  lemma AppendFits(env: Env, s: Seg, n: Needle)
    ensures Append(env, s, n).Some? <==> s.size + SerializedSize(n) <= |s.mmap|
    ensures Append(env, s, n).Some? ==> Append(env, s, n).value.0.id == s.id
  {
    hide Serialize, LocationOf;
  }

  lemma AcceptedKey(env: Env, st: State, n: Needle)
    ensures Append(env, st.active, n).Some? ==>
              var (seg, loc) := Append(env, st.active, n).value;
              var p := Accept(st, n, seg, loc).pending;
              KeyOf(n) in p && p[KeyOf(n)] == EntryOf(seg.id, loc)
  {
    hide Append;
  }

  lemma RotateIds(st: State, now: nat)
    requires st.capacity >= SUPERBLOCK_SIZE
    ensures var r := Rotate(st, now);
            && r.active.id == st.nextId && r.capacity == st.capacity && r.nextId == st.nextId + 1
            && |r.active.mmap| == st.capacity && r.pending == st.pending
  {
    hide CreateFile;
  }

  lemma InvActive(env: Env, st: State, log: map<nat, seq<Needle>>, m: map<Key, Needle>)
    requires Inv(env, st, log, m)
    ensures SegsOk(env, st, log) && st.active.id in log
    ensures SUPERBLOCK_SIZE <= st.active.size <= |st.active.mmap| == st.capacity
  {
    HoldsSize(env, st.active, log[st.active.id]);
  }

  /** A state that represents `m` serves exactly its keys, each with its needle's bytes. */
  lemma InvReads(env: Env, st: State, log: map<nat, seq<Needle>>, m: map<Key, Needle>)
    requires Inv(env, st, log, m)
    ensures st.pending.Keys == m.Keys
    ensures forall k :: k in m ==> && ReadData(st, st.pending[k]) == Some(m[k].data)
                                   && ReadMetaBytes(st, st.pending[k]) == Some(m[k].meta)
  {
    hide SegsOk, DiskOk, Points, ReadData, ReadMetaBytes, CountsOk;
    forall k | k in m
      ensures ReadData(st, st.pending[k]) == Some(m[k].data) && ReadMetaBytes(st, st.pending[k]) == Some(m[k].meta)
    {
      PointsReads(env, st, log, st.pending[k], m[k]);
    }
  }

  // Mark

  lemma DeleteSegs(env: Env, st: State, log: map<nat, seq<Needle>>, id: nat)
    requires SegsOk(env, st, log) && DiskOk(env, st, log) && id in log && id != st.active.id
    ensures SegsOk(env, TryDelete(st, id), log - {id}) && DiskOk(env, TryDelete(st, id), log - {id})
  {
    hide Holds, TailIsZero, SealedOk, PlaceholderOk, RemoveAt;
    assert id in Ids(st.sealed);
    var s :| s in st.sealed && s.id == id;
    FindSealed(env, st.capacity, st.sealed, log, s);
    SealedIdInLog(env, st.capacity, st.sealed, log, s);
    RemoveSealed(env, st.capacity, st.sealed, log, Find(st.sealed, id));
    assert PlaceholderOk(env, st.capacity, st.disk - {id}) by {
      PlaceholderStays(env, st.capacity, st.disk, id);
    }
  }

  lemma PlaceholderStays(env: Env, capacity: nat, disk: map<nat, bytes>, id: nat)
    requires PlaceholderOk(env, capacity, disk)
    ensures PlaceholderOk(env, capacity, disk - {id})
  {
    hide Holds;
  }

  /** A segment is deleted only when no pending entry points into it. */
  lemma DeleteKeepsInv(env: Env, st: State, log: map<nat, seq<Needle>>, m: map<Key, Needle>, id: nat)
    requires Inv(env, st, log, m) && id in log && id != st.active.id
    requires CountIn(st.pending, id) == 0
    ensures Inv(env, TryDelete(st, id), log - {id}, m)
  {
    hide Points, CountIn, SegsOk, DiskOk, RemoveAt;
    DeleteSegs(env, st, log, id);
    forall k | k in m
      ensures Points(log - {id}, st.pending[k], m[k])
    {
      PointsLive(log, st.pending[k], m[k]);
      CountZero(st.pending, k, id);
      PointsExtends(env, log, log - {id}, st.pending[k], m[k]);
    }
  }

  /** Removing one of several segments with distinct ids. */
  lemma RemovedIds(sealed: seq<Seg>, i: nat)
    requires i < |sealed| && forall a, b :: 0 <= a < b < |sealed| ==> sealed[a].id != sealed[b].id
    ensures var r := RemoveAt(sealed, i);
            && (forall s :: s in r <==> s in sealed && s.id != sealed[i].id)
            && (forall a, b :: 0 <= a < b < |r| ==> r[a].id != r[b].id)
  {
    hide RemoveAt;
    var r := RemoveAt(sealed, i);
    forall s | s in r
      ensures s in sealed && s.id != sealed[i].id
    {
      var j :| 0 <= j < |r| && r[j] == s;
      assert s == sealed[if j < i then j else j + 1];
    }
    forall s | s in sealed && s.id != sealed[i].id
      ensures s in r
    {
      var j :| 0 <= j < |sealed| && sealed[j] == s;
      assert s == r[if j < i then j else j - 1];
    }
  }

  lemma SegOkLess(env: Env, capacity: nat, s: Seg, log: map<nat, seq<Needle>>, id: nat)
    requires SegOk(env, capacity, s, log) && s.id != id
    ensures SegOk(env, capacity, s, log - {id})
  {
    hide Holds;
  }

  lemma RemoveSealed(env: Env, capacity: nat, sealed: seq<Seg>, log: map<nat, seq<Needle>>, i: nat)
    requires SealedOk(env, capacity, sealed, log) && i < |sealed|
    ensures SealedOk(env, capacity, RemoveAt(sealed, i), log - {sealed[i].id})
    ensures Ids(RemoveAt(sealed, i)) == Ids(sealed) - {sealed[i].id}
    ensures forall s :: s in RemoveAt(sealed, i) ==> s in sealed
  {
    hide SegOk, RemoveAt;
    var r := RemoveAt(sealed, i);
    RemovedIds(sealed, i);
    forall s | s in r
      ensures SegOk(env, capacity, s, log - {sealed[i].id})
    {
      SegOkLess(env, capacity, s, log, sealed[i].id);
    }
  }

  /** What each segment holds after a mark: a drained sealed segment is gone. */
  ghost function LogAfterMark(st: State, log: map<nat, seq<Needle>>, k: Key): (r: map<nat, seq<Needle>>)
  {
    map id | id in log && id in Mark(st, k).disk :: log[id]
  }

  /** Marking removes the key from the abstract map, whatever it does to segments. */
  lemma MarkRefines(env: Env, st: State, log: map<nat, seq<Needle>>, m: map<Key, Needle>, k: Key)
    requires Inv(env, st, log, m)
    ensures Inv(env, Mark(st, k), LogAfterMark(st, log, k), m - {k})
  {
    hide Holds, TailIsZero, EntryAt, CountIn, SealedOk, PlaceholderOk, Points;
    if k !in st.pending {
      assert LogAfterMark(st, log, k) == log;
      assert m - {k} == m;
    } else {
      var id := st.pending[k].segmentId;
      assert Points(log, st.pending[k], m[k]);
      assert id in log by { PointsLive(log, st.pending[k], m[k]); }
      var gone := st.(pending := st.pending - {k});
      CountsPositive(st, k);
      var c := st.counts[id] - 1;
      var less := if c == 0 then gone.(counts := st.counts - {id}) else gone.(counts := st.counts[id := c]);
      forall i: nat
        ensures CountIn(less.pending, i) <= Count(less.counts, i)
      {
        CountRemove(st.pending, k, i);
      }
      assert Inv(env, less, log, m - {k});
      if c == 0 && id != st.active.id {
        DeleteKeepsInv(env, less, log, m - {k}, id);
        assert TryDelete(less, id).disk.Keys - {0} == log.Keys - {id} by {
          DeleteKeepsInv(env, less, log, m - {k}, id);
        }
        assert LogAfterMark(st, log, k) == log - {id};
      } else {
        assert LogAfterMark(st, log, k) == log;
      }
    }
  }

  lemma PointsLive(log: map<nat, seq<Needle>>, e: Entry, n: Needle)
    requires Points(log, e, n)
    ensures e.segmentId in log
  {
  }

  lemma CountsPositive(st: State, k: Key)
    requires CountsOk(st) && k in st.pending
    ensures st.pending[k].segmentId in st.counts && st.counts[st.pending[k].segmentId] >= 1
  {
    var id := st.pending[k].segmentId;
    if CountIn(st.pending, id) == 0 {
      CountZero(st.pending, k, id);
    }
  }
}
