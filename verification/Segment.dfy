/** Segment files: a superblock followed by needles, pre-allocated and appended in place.
    An active segment is mapped writable; a sealed one is mapped read-only and rediscovers
    its valid size by scanning. */
module Segments {
  import opened ByteCodec
  import opened Metadata
  import opened NeedleCodec

  const SUPERBLOCK_SIZE: nat := 32
  const SEGMENT_MAGIC: bytes := [65, 66, 88, 76]
  const U32: nat := 0x1_0000_0000

  datatype SegmentError = TooSmall | BadSegmentMagic

  /** A mapped segment: its id, all mapped bytes, and the end of its valid data. */
  datatype Seg = Seg(id: nat, mmap: bytes, size: nat)

  /** Where an appended needle was put. */
  datatype Location = Location(
    segmentId: nat, offset: nat, metaOffset: nat, metaLen: nat, dataOffset: nat, dataLen: nat, createdAt: nat)

  /** What `Scan` hands to its visitor; offsets are relative to the segment. */
  datatype Visit = Visit(
    flags: byte, bucket: bytes, key: bytes, versionId: bytes,
    metaOffset: nat, metaLen: nat, dataOffset: nat, dataLen: nat, needleOffset: nat)

  function Superblock(id: nat, createdAt: nat): (b: bytes)
    ensures |b| == SUPERBLOCK_SIZE
  {
    SEGMENT_MAGIC + Le(1, 4) + Le(id, 4) + Le(createdAt, 8) + Zeros(12)
  }

  /** `set_len`: cut, or extend with zeros. */
  function Resize(b: bytes, n: nat): (r: bytes)
    ensures |r| == n
  {
    if n <= |b| then b[..n] else b + Zeros(n - |b|)
  }

  /** The file after `create`: an existing file keeps everything behind the superblock. */
  function CreateFile(existing: bytes, id: nat, capacity: nat, now: nat): (b: bytes)
    requires capacity >= SUPERBLOCK_SIZE
    ensures |b| == capacity
  {
    Superblock(id, now) + Resize(existing, capacity)[SUPERBLOCK_SIZE..]
  }

  function Created(existing: bytes, id: nat, capacity: nat, now: nat): (s: Seg)
    requires capacity >= SUPERBLOCK_SIZE
  {
    Seg(id, CreateFile(existing, id, capacity, now), SUPERBLOCK_SIZE)
  }

  function LocationOf(id: nat, n: Needle, at: nat): (l: Location)
  {
    var i := InfoOf(n);
    Location(id, at % U32, (at + i.metaOffset) % U32, |n.meta| % 0x1_0000,
             (at + i.dataOffset) % U32, |n.data| % U32, 0)
  }

  /** Append at the write offset, or `None` when the needle does not fit. */
  function Append(env: Env, s: Seg, n: Needle): (r: Option<(Seg, Location)>)
  {
    var total := SerializedSize(n);
    if s.size + total > |s.mmap| then None
    else Some((Seg(s.id, s.mmap[..s.size] + Serialize(env, n) + s.mmap[s.size + total..], s.size + total),
               LocationOf(s.id, n, s.size)))
  }

  /** Bounded by the write offset on an active segment. */
  function ReadAt(s: Seg, offset: nat, len: nat): (r: Option<bytes>)
  {
    if offset + len > s.size || offset + len > |s.mmap| then None else Some(s.mmap[offset..offset + len])
  }

  /** Bounded only by the mapping on a sealed segment. */
  function Slice(s: Seg, offset: nat, len: nat): (r: Option<bytes>)
  {
    if offset + len <= |s.mmap| then Some(s.mmap[offset..offset + len]) else None
  }

  function VisitFrom(i: HeaderInfo, at: nat): (v: Visit)
  {
    Visit(i.flags, i.bucket, i.key, i.versionId, at + i.metaOffset, i.metaLen, at + i.dataOffset, i.dataLen, at)
  }

  /** The needles read from `off` on, while a header still fits below `limit`. */
  function ScanFrom(env: Env, mmap: bytes, off: nat, limit: nat): (vs: seq<Visit>)
    requires off <= |mmap| && limit <= |mmap|
    decreases |mmap| - off
  {
    if off + HEADER_SIZE > limit then []
    else match ReadHeader(env, mmap[off..])
      case Err(_) => []
      case Ok(i) => [VisitFrom(i, off)] + ScanFrom(env, mmap, off + i.total, limit)
  }

  /** Where scanning the whole mapping from `off` stops. */
  function EndFrom(env: Env, mmap: bytes, off: nat): (end: nat)
    requires off <= |mmap|
    ensures off <= end <= |mmap|
    decreases |mmap| - off
  {
    if off + HEADER_SIZE > |mmap| then off
    else match ReadHeader(env, mmap[off..])
      case Err(_) => off
      case Ok(i) => EndFrom(env, mmap, off + i.total)
  }

  function Open(env: Env, mmap: bytes): (r: Result<Seg, SegmentError>)
    ensures r.Ok? ==> r.value.mmap == mmap && SUPERBLOCK_SIZE <= r.value.size <= |mmap|
  {
    if |mmap| < SUPERBLOCK_SIZE then Err(TooSmall)
    else if mmap[0..4] != SEGMENT_MAGIC then Err(BadSegmentMagic)
    else Ok(Seg(LeValue(mmap[8..12]), mmap, EndFrom(env, mmap, SUPERBLOCK_SIZE)))
  }

  /** A file opens as a segment exactly when it has room for a superblock and starts with the
      letters ABXL. */
  lemma OpensIff(env: Env, mmap: bytes)
    ensures Open(env, mmap).Ok? <==> |mmap| >= 32 && mmap[..4] == [65, 66, 88, 76]
  {
    assert |mmap| >= 32 ==> mmap[0..4] == mmap[..4];
  }

  /** All visits of an opened segment. */
  function Visits(env: Env, s: Seg): (vs: seq<Visit>)
    requires SUPERBLOCK_SIZE <= s.size <= |s.mmap|
  {
    ScanFrom(env, s.mmap, SUPERBLOCK_SIZE, s.size)
  }

  /** Open a segment file: check the superblock, then walk the needles to find the end. */
  method OpenSealed(env: Env, mmap: bytes) returns (r: Result<Seg, SegmentError>)
    ensures r == Open(env, mmap)
  {
    hide ReadHeader;
    if |mmap| < SUPERBLOCK_SIZE { return Err(TooSmall); }
    if mmap[0..4] != SEGMENT_MAGIC { return Err(BadSegmentMagic); }
    var offset := SUPERBLOCK_SIZE;
    while offset + HEADER_SIZE <= |mmap|
      invariant offset <= |mmap|
      invariant EndFrom(env, mmap, SUPERBLOCK_SIZE) == EndFrom(env, mmap, offset)
      decreases |mmap| - offset
    {
      match ReadHeader(env, mmap[offset..]) {
        case Ok(i) => offset := offset + i.total;
        case Err(_) => break;
      }
    }
    r := Ok(Seg(LeValue(mmap[8..12]), mmap, offset));
  }

  /** Visit every needle of a segment in order. */
  method Scan(env: Env, s: Seg) returns (visits: seq<Visit>)
    requires SUPERBLOCK_SIZE <= s.size <= |s.mmap|
    ensures visits == Visits(env, s)
  {
    hide ReadHeader, VisitFrom;
    visits := [];
    var offset := SUPERBLOCK_SIZE;
    while offset + HEADER_SIZE <= s.size
      invariant offset <= |s.mmap|
      invariant Visits(env, s) == visits + ScanFrom(env, s.mmap, offset, s.size)
      decreases |s.mmap| - offset
    {
      match ReadHeader(env, s.mmap[offset..]) {
        case Ok(i) =>
          visits := visits + [VisitFrom(i, offset)];
          offset := offset + i.total;
        case Err(_) => break;
      }
    }
  }

  class ActiveSegment {
    const id: nat
    const mmap: array<byte>
    var writeOffset: nat

    ghost predicate Valid()
      reads this
    {
      SUPERBLOCK_SIZE <= writeOffset <= mmap.Length
    }

    function View(): (s: Seg)
      reads this, mmap
    {
      Seg(id, mmap[..], writeOffset)
    }

    /** Map the pre-allocated file `existing` and write a superblock into it. */
    constructor Create(existing: bytes, id: nat, capacity: nat, now: nat)
      requires capacity >= SUPERBLOCK_SIZE
      ensures Valid() && fresh(mmap)
      ensures View() == Created(existing, id, capacity, now)
    {
      var file := Resize(existing, capacity);
      this.id := id;
      mmap := new byte[capacity](i requires 0 <= i < capacity => file[i]);
      writeOffset := SUPERBLOCK_SIZE;
      new;
      assert mmap[..] == file;
      CopyInto(mmap, 0, Superblock(id, now));
      assert mmap[..] == CreateFile(existing, id, capacity, now);
    }

    method AppendNeedle(env: Env, n: Needle) returns (r: Option<Location>)
      requires Valid()
      modifies this`writeOffset, mmap
      ensures Valid()
      ensures match Append(env, old(View()), n)
              case None => r == None && View() == old(View())
              case Some((s, loc)) => r == Some(loc) && View() == s
    {
      var total := SerializedSize(n);
      if writeOffset + total > mmap.Length { return None; }
      ghost var before := mmap[..];
      var written := SerializeInto(env, n, mmap, writeOffset);
      var needleOffset := writeOffset;
      var metaOffset := needleOffset + HEADER_SIZE + |n.bucket| + |n.key| + |n.versionId|;
      var dataOffset := metaOffset + |n.meta|;
      r := Some(Location(id, needleOffset % U32, metaOffset % U32, |n.meta| % 0x1_0000,
                         dataOffset % U32, |n.data| % U32, 0));
      assert before[..writeOffset] == old(mmap[..writeOffset]);
      assert before[writeOffset + total..] == old(mmap[writeOffset + total..]);
      writeOffset := writeOffset + total;
    }

    method Read(offset: nat, len: nat) returns (r: Option<bytes>)
      requires Valid()
      ensures r == ReadAt(View(), offset, len)
    {
      if offset + len > writeOffset { return None; }
      r := Some(mmap[offset..offset + len]);
      assert mmap[..][offset..offset + len] == mmap[offset..offset + len];
    }
  }

  // What a segment holds

  ghost predicate AllGood(env: Env, ns: seq<Needle>)
  {
    forall n :: n in ns ==> Good(env, n)
  }

  /** The bytes of a run of needles. */
  function Serial(env: Env, ns: seq<Needle>): (b: bytes)
  {
    if ns == [] then [] else Serialize(env, ns[0]) + Serial(env, ns[1..])
  }

  function VisitOf(n: Needle, at: nat): (v: Visit)
  {
    VisitFrom(InfoOf(n), at)
  }

  /** The visits of needles stored back to back from `at` on. */
  function Layout(ns: seq<Needle>, at: nat): (vs: seq<Visit>)
    ensures |vs| == |ns|
  {
    if ns == [] then [] else [VisitOf(ns[0], at)] + Layout(ns[1..], at + SerializedSize(ns[0]))
  }

  function OffsetOf(ns: seq<Needle>, i: nat, at: nat): (o: nat)
    requires i <= |ns|
    ensures o >= at
  {
    if i == 0 then at else OffsetOf(ns[1..], i - 1, at + SerializedSize(ns[0]))
  }

  lemma {:induction false} LayoutAt(ns: seq<Needle>, i: nat, at: nat)
    requires i < |ns|
    ensures Layout(ns, at)[i] == VisitOf(ns[i], OffsetOf(ns, i, at))
  {
    if i > 0 {
      LayoutAt(ns[1..], i - 1, at + SerializedSize(ns[0]));
    }
  }

  lemma {:induction false} SerialAppend(env: Env, ns: seq<Needle>, ms: seq<Needle>)
    ensures Serial(env, ns + ms) == Serial(env, ns) + Serial(env, ms)
  {
    hide Serialize;
    if ns == [] {
      assert ns + ms == ms;
      assert [] + Serial(env, ms) == Serial(env, ms);
    } else {
      calc {
        Serial(env, ns + ms);
        { assert (ns + ms)[0] == ns[0] && (ns + ms)[1..] == ns[1..] + ms; }
        Serialize(env, ns[0]) + Serial(env, ns[1..] + ms);
        { SerialAppend(env, ns[1..], ms); }
        Serialize(env, ns[0]) + (Serial(env, ns[1..]) + Serial(env, ms));
        { Assoc(Serialize(env, ns[0]), Serial(env, ns[1..]), Serial(env, ms)); }
        Serial(env, ns) + Serial(env, ms);
      }
    }
  }

  lemma {:induction false} OffsetOfAppend(env: Env, ns: seq<Needle>, ms: seq<Needle>, i: nat, at: nat)
    requires i <= |ns|
    ensures OffsetOf(ns + ms, i, at) == OffsetOf(ns, i, at)
    ensures OffsetOf(ns, |ns|, at) == at + |Serial(env, ns)|
  {
    hide Serialize;
    if ns != [] {
      assert (ns + ms)[1..] == ns[1..] + ms;
      OffsetOfAppend(env, ns[1..], ms, if i == 0 then 0 else i - 1, at + SerializedSize(ns[0]));
    }
  }

  /** A segment holds `ns` when its valid data is the superblock followed by exactly those
      needles, and nothing after them reads as a needle. */
  ghost predicate Holds(env: Env, s: Seg, ns: seq<Needle>)
  {
    && s.size == SUPERBLOCK_SIZE + |Serial(env, ns)| <= |s.mmap|
    && s.mmap[0..4] == SEGMENT_MAGIC
    && LeValue(s.mmap[8..12]) == s.id
    && s.mmap[SUPERBLOCK_SIZE..s.size] == Serial(env, ns)
    && ReadHeader(env, s.mmap[s.size..]).Err?
    && AllGood(env, ns)
  }

  /** The free space of an active segment is still zero. */
  ghost predicate TailIsZero(s: Seg)
  {
    s.size <= |s.mmap| && s.mmap[s.size..] == Zeros(|s.mmap| - s.size)
  }

  lemma ZeroTailRejected(env: Env, b: bytes)
    requires b == Zeros(|b|)
    ensures ReadHeader(env, b).Err?
  {
    if |b| >= 4 {
      assert b[..4] == Zeros(4);
    }
    ZeroHeaderRejected(env, b);
  }

  lemma SuperblockFields(id: nat, now: nat, rest: bytes)
    requires id < U32
    ensures var m := Superblock(id, now) + rest;
            m[0..4] == SEGMENT_MAGIC && LeValue(m[8..12]) == id && m[SUPERBLOCK_SIZE..] == rest
  {
    var m := Superblock(id, now) + rest;
    assert m[0..4] == SEGMENT_MAGIC;
    assert m[8..12] == Le(id, 4);
    Widths();
    LeRoundTrip(id, 4);
  }

  lemma CreatedHoldsNothing(env: Env, id: nat, capacity: nat, now: nat)
    requires capacity >= SUPERBLOCK_SIZE && id < U32
    ensures Holds(env, Created([], id, capacity, now), [])
    ensures TailIsZero(Created([], id, capacity, now))
  {
    hide ReadHeader, Superblock, Le, LeValue;
    var rest := Zeros(capacity - SUPERBLOCK_SIZE);
    SuperblockFields(id, now, rest);
    assert [] + Zeros(capacity) == Zeros(capacity);
    assert Zeros(capacity)[SUPERBLOCK_SIZE..] == rest;
    ZeroTailRejected(env, rest);
    SerialNone(env);
  }

  /** Rewriting the superblock, as reopening does to segment 1, keeps what it holds. */
  lemma RecreateKeeps(env: Env, s: Seg, ns: seq<Needle>, now: nat)
    requires Holds(env, s, ns) && s.id < U32
    ensures Holds(env, Created(s.mmap, s.id, |s.mmap|, now).(size := s.size), ns)
  {
    hide ReadHeader, Superblock, Le, LeValue, Serial;
    var rest := s.mmap[SUPERBLOCK_SIZE..];
    SuperblockFields(s.id, now, rest);
    var t := Superblock(s.id, now) + rest;
    assert Resize(s.mmap, |s.mmap|) == s.mmap;
    SubSlice(t, SUPERBLOCK_SIZE, rest, 0, s.size - SUPERBLOCK_SIZE);
    SubSlice(t, SUPERBLOCK_SIZE, rest, s.size - SUPERBLOCK_SIZE, |rest|);
    SubSlice(s.mmap, SUPERBLOCK_SIZE, rest, 0, s.size - SUPERBLOCK_SIZE);
    SubSlice(s.mmap, SUPERBLOCK_SIZE, rest, s.size - SUPERBLOCK_SIZE, |rest|);
    assert Created(s.mmap, s.id, |s.mmap|, now).mmap == t;
    assert t[s.size..] == t[s.size..|t|] == s.mmap[s.size..|t|] == s.mmap[s.size..];
  }

  /** Overwriting `b` behind `size` leaves the front and the back of `m` as they are. */
  lemma Spliced(m: bytes, size: nat, b: bytes)
    requires SUPERBLOCK_SIZE <= size && size + |b| <= |m|
    ensures var m' := m[..size] + b + m[size + |b|..];
            && |m'| == |m|
            && m'[0..4] == m[0..4] && m'[8..12] == m[8..12]
            && m'[SUPERBLOCK_SIZE..size + |b|] == m[SUPERBLOCK_SIZE..size] + b
            && m'[size + |b|..] == m[size..][|b|..]
  {
  }

  /** One append adds one needle to what the segment holds. */
  lemma AppendHolds(env: Env, s: Seg, ns: seq<Needle>, n: Needle)
    requires Holds(env, s, ns) && TailIsZero(s) && Good(env, n)
    requires Append(env, s, n).Some?
    ensures var s' := Append(env, s, n).value.0;
            Holds(env, s', ns + [n]) && TailIsZero(s') && |s'.mmap| == |s.mmap| && s'.id == s.id
    ensures Append(env, s, n).value.1 == LocationOf(s.id, n, SUPERBLOCK_SIZE + |Serial(env, ns)|)
  {
    hide ReadHeader, Serialize, InfoOf, Good, LocationOf;
    var s' := Append(env, s, n).value.0;
    Spliced(s.mmap, s.size, Serialize(env, n));
    SerialAppend(env, ns, [n]);
    assert Serial(env, [n]) == Serialize(env, n) + Serial(env, []) == Serialize(env, n);
    assert s'.mmap[s'.size..] == Zeros(|s.mmap| - s.size)[SerializedSize(n)..] == Zeros(|s'.mmap| - s'.size);
    ZeroTailRejected(env, s'.mmap[s'.size..]);
  }

  /** For arbitrary bytes behind them, needles stored from `off` on are visited first,
      unchanged and in order, and scanning goes on behind them. */
  lemma {:induction false} ScanPrefix(env: Env, mmap: bytes, off: nat, ns: seq<Needle>, limit: nat)
    requires AllGood(env, ns)
    requires off + |Serial(env, ns)| <= limit <= |mmap|
    requires mmap[off..off + |Serial(env, ns)|] == Serial(env, ns)
    ensures ScanFrom(env, mmap, off, limit)
            == Layout(ns, off) + ScanFrom(env, mmap, off + |Serial(env, ns)|, limit)
    ensures EndFrom(env, mmap, off) == EndFrom(env, mmap, off + |Serial(env, ns)|)
    decreases |ns|
  {
    hide ReadHeader, Serialize, InfoOf, Good, VisitFrom, Serial;
    if ns == [] {
      SerialNone(env);
      assert [] + ScanFrom(env, mmap, off, limit) == ScanFrom(env, mmap, off, limit);
    } else {
      ScanStep(env, mmap, off, ns);
      var n, next := ns[0], off + SerializedSize(ns[0]);
      var rest := ScanFrom(env, mmap, off + |Serial(env, ns)|, limit);
      ScanPrefix(env, mmap, next, ns[1..], limit);
      calc {
        ScanFrom(env, mmap, off, limit);
        [VisitOf(n, off)] + (Layout(ns[1..], next) + rest);
        { Assoc([VisitOf(n, off)], Layout(ns[1..], next), rest); }
        Layout(ns, off) + rest;
      }
    }
  }

  lemma SerialNone(env: Env)
    ensures Serial(env, []) == []
  {
  }

  /** The first of several stored needles is what is read, and the others follow it. */
  lemma ScanStep(env: Env, mmap: bytes, off: nat, ns: seq<Needle>)
    requires AllGood(env, ns) && ns != []
    requires off + |Serial(env, ns)| <= |mmap|
    requires mmap[off..off + |Serial(env, ns)|] == Serial(env, ns)
    ensures ReadHeader(env, mmap[off..]) == Ok(InfoOf(ns[0]))
    ensures var next := off + SerializedSize(ns[0]);
            && next + |Serial(env, ns[1..])| == off + |Serial(env, ns)|
            && mmap[next..off + |Serial(env, ns)|] == Serial(env, ns[1..])
  {
    hide ReadHeader, Serialize, InfoOf, Good;
    var n := ns[0];
    assert n in ns;
    SliceSplit(mmap, off, Serialize(env, n), Serial(env, ns[1..]));
    HeaderRoundTrip(env, n, mmap[off + SerializedSize(n)..]);
  }

  /** Opening a segment recovers its write offset, and scanning it visits exactly the
      needles it holds, each at its offset. */
  lemma OpenRecovers(env: Env, s: Seg, ns: seq<Needle>)
    requires Holds(env, s, ns)
    ensures Open(env, s.mmap) == Ok(s)
    ensures Visits(env, s) == Layout(ns, SUPERBLOCK_SIZE)
  {
    ScanPrefix(env, s.mmap, SUPERBLOCK_SIZE, ns, s.size);
    assert ScanFrom(env, s.mmap, s.size, s.size) == [];
    assert EndFrom(env, s.mmap, s.size) == s.size;
  }

  /** The bytes of the `i`-th needle lie where its offset says. */
  lemma {:induction false} SerialSlice(env: Env, mmap: bytes, off: nat, ns: seq<Needle>, i: nat)
    requires i < |ns|
    requires off + |Serial(env, ns)| <= |mmap|
    requires mmap[off..off + |Serial(env, ns)|] == Serial(env, ns)
    ensures var o := OffsetOf(ns, i, off);
            && o + SerializedSize(ns[i]) <= off + |Serial(env, ns)|
            && mmap[o..o + SerializedSize(ns[i])] == Serialize(env, ns[i])
    decreases |ns|
  {
    hide Serialize;
    SliceSplit(mmap, off, Serialize(env, ns[0]), Serial(env, ns[1..]));
    if i > 0 {
      SerialSlice(env, mmap, off + SerializedSize(ns[0]), ns[1..], i - 1);
    }
  }

  /** The offsets of a visit select exactly the metadata and data of the needle. */
  lemma HoldsReads(env: Env, s: Seg, ns: seq<Needle>, i: nat)
    requires Holds(env, s, ns) && i < |ns|
    ensures var v := VisitOf(ns[i], OffsetOf(ns, i, SUPERBLOCK_SIZE));
            && v.dataOffset + v.dataLen <= s.size && v.metaOffset + v.metaLen <= s.size
            && Slice(s, v.metaOffset, v.metaLen) == ReadAt(s, v.metaOffset, v.metaLen) == Some(ns[i].meta)
            && Slice(s, v.dataOffset, v.dataLen) == ReadAt(s, v.dataOffset, v.dataLen) == Some(ns[i].data)
  {
    hide ReadHeader, Serialize, InfoOf, OffsetOf, Serial, Good;
    FieldsAt(env, s.mmap, SUPERBLOCK_SIZE, ns, i);
  }

  lemma FieldsAt(env: Env, mmap: bytes, off: nat, ns: seq<Needle>, i: nat)
    requires i < |ns|
    requires off + |Serial(env, ns)| <= |mmap|
    requires mmap[off..off + |Serial(env, ns)|] == Serial(env, ns)
    ensures var v := VisitOf(ns[i], OffsetOf(ns, i, off));
            && v.dataOffset + v.dataLen <= off + |Serial(env, ns)|
            && v.metaOffset + v.metaLen <= off + |Serial(env, ns)|
            && mmap[v.metaOffset..v.metaOffset + v.metaLen] == ns[i].meta
            && mmap[v.dataOffset..v.dataOffset + v.dataLen] == ns[i].data
  {
    hide Serialize, InfoOf, OffsetOf, Serial;
    var n, o := ns[i], OffsetOf(ns, i, off);
    SerialSlice(env, mmap, off, ns, i);
    var whole, info := Serialize(env, n), InfoOf(n);
    InfoSelects(env, n);
    SubSlice(mmap, o, whole, info.metaOffset, info.metaOffset + info.metaLen);
    SubSlice(mmap, o, whole, info.dataOffset, info.dataOffset + info.dataLen);
  }

  // Whole runs of appends

  /** The segment after appending a list of needles; those that no longer fit are refused. */
  function AppendRun(env: Env, s: Seg, ns: seq<Needle>): (t: Seg)
    decreases |ns|
  {
    if ns == [] then s
    else match Append(env, s, ns[0])
      case None => AppendRun(env, s, ns[1..])
      case Some(r) => AppendRun(env, r.0, ns[1..])
  }

  /** The needles such a run accepted, each with the location it was told. */
  function Accepted(env: Env, s: Seg, ns: seq<Needle>): (r: seq<(Needle, Location)>)
    decreases |ns|
  {
    if ns == [] then []
    else match Append(env, s, ns[0])
      case None => Accepted(env, s, ns[1..])
      case Some(r) => [(ns[0], r.1)] + Accepted(env, r.0, ns[1..])
  }

  function Needles(r: seq<(Needle, Location)>): (ns: seq<Needle>)
    ensures |ns| == |r|
    ensures forall i :: 0 <= i < |r| ==> ns[i] == r[i].0
  {
    if r == [] then [] else [r[0].0] + Needles(r[1..])
  }

  /** What a run accepted is what the segment then holds in addition. */
  lemma {:induction false} AppendRunHolds(env: Env, s: Seg, held: seq<Needle>, ns: seq<Needle>)
    requires Holds(env, s, held) && TailIsZero(s) && AllGood(env, ns)
    ensures Holds(env, AppendRun(env, s, ns), held + Needles(Accepted(env, s, ns)))
    ensures TailIsZero(AppendRun(env, s, ns))
    decreases |ns|
  {
    hide Good, TailIsZero, Holds, Append;
    if ns == [] {
      assert held + [] == held;
    } else {
      var step := Append(env, s, ns[0]);
      if step.None? {
        AppendRunHolds(env, s, held, ns[1..]);
      } else {
        assert ns[0] in ns;
        AppendHolds(env, s, held, ns[0]);
        AppendRunHolds(env, step.value.0, held + [ns[0]], ns[1..]);
        var more := Accepted(env, step.value.0, ns[1..]);
        assert ([(ns[0], step.value.1)] + more)[1..] == more;
        Assoc(held, [ns[0]], Needles(more));
      }
    }
  }

  /** Each accepted needle was told the location it has behind those accepted before it. */
  lemma {:induction false} AppendRunLocates(env: Env, s: Seg, ns: seq<Needle>, j: nat)
    requires j < |Accepted(env, s, ns)|
    ensures var kept := Accepted(env, s, ns);
            kept[j].1 == LocationOf(s.id, kept[j].0, OffsetOf(Needles(kept), j, s.size))
    decreases |ns|
  {
    hide LocationOf, Serialize;
    var step := Append(env, s, ns[0]);
    if step.None? {
      AppendRunLocates(env, s, ns[1..], j);
    } else if j > 0 {
      var more := Accepted(env, step.value.0, ns[1..]);
      assert ([(ns[0], step.value.1)] + more)[1..] == more;
      AppendRunLocates(env, step.value.0, ns[1..], j - 1);
    }
  }

  /** Scan inverts append: after any sequence of appends to a fresh segment, opening it
      finds the write offset, and scanning visits exactly the needles that were accepted,
      in order, each at the location its append returned. */
  lemma ScanInvertsAppend(env: Env, id: nat, capacity: nat, now: nat, ns: seq<Needle>)
    requires SUPERBLOCK_SIZE <= capacity && id < U32
    requires AllGood(env, ns)
    ensures var s0 := Created([], id, capacity, now);
            var s, kept := AppendRun(env, s0, ns), Accepted(env, s0, ns);
            && Open(env, s.mmap) == Ok(s)
            && |Visits(env, s)| == |kept|
            && forall j :: 0 <= j < |kept| ==>
                 var v := Visits(env, s)[j];
                 v == VisitOf(kept[j].0, v.needleOffset) && kept[j].1 == LocationOf(id, kept[j].0, v.needleOffset)
  {
    hide Holds, TailIsZero, Good, Visits, LocationOf, Append, Open, CreateFile, InfoOf;
    var s0 := Created([], id, capacity, now);
    CreatedHoldsNothing(env, id, capacity, now);
    AppendRunHolds(env, s0, [], ns);
    var s, kept := AppendRun(env, s0, ns), Accepted(env, s0, ns);
    assert [] + Needles(kept) == Needles(kept);
    OpenRecovers(env, s, Needles(kept));
    forall j | 0 <= j < |kept|
      ensures var v := Visits(env, s)[j];
              v == VisitOf(kept[j].0, v.needleOffset) && kept[j].1 == LocationOf(id, kept[j].0, v.needleOffset)
    {
      LayoutAt(Needles(kept), j, SUPERBLOCK_SIZE);
      AppendRunLocates(env, s0, ns, j);
    }
  }

  /** Damage behind the `k`-th needle of a segment, of any kind, leaves the first `k` needles
      visited as before. */
  lemma DamageKeepsPrefix(env: Env, s: Seg, ns: seq<Needle>, k: nat, junk: bytes)
    requires Holds(env, s, ns) && k <= |ns|
    ensures var cut := SUPERBLOCK_SIZE + |Serial(env, ns[..k])|;
            && cut <= |s.mmap|
            && Open(env, s.mmap[..cut] + junk).Ok?
            && Layout(ns[..k], SUPERBLOCK_SIZE) <= Visits(env, Open(env, s.mmap[..cut] + junk).value)
  {
    hide ReadHeader, Serialize, Serial, LeValue, Good;
    var front := Serial(env, ns[..k]);
    assert ns == ns[..k] + ns[k..];
    SerialAppend(env, ns[..k], ns[k..]);
    var cut := SUPERBLOCK_SIZE + |front|;
    var b := s.mmap[..cut] + junk;
    SliceSplit(s.mmap, SUPERBLOCK_SIZE, front, Serial(env, ns[k..]));
    assert b[SUPERBLOCK_SIZE..cut] == s.mmap[SUPERBLOCK_SIZE..cut];
    assert b[0..4] == s.mmap[0..4];
    var end := EndFrom(env, b, SUPERBLOCK_SIZE);
    ScanPrefix(env, b, SUPERBLOCK_SIZE, ns[..k], |b|);
    ScanPrefix(env, b, SUPERBLOCK_SIZE, ns[..k], end);
  }
}
