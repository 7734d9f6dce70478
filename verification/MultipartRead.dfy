/** Reading a multipart object, and the round trip through upload, completion and loss. */
module MultipartRead {
  import opened ByteCodec
  import opened Metadata
  import opened ReedSolomon
  import opened Striping
  import opened Decoder
  import opened BufferedDecoder
  import opened Shuffle
  import opened Multipart

  /** The shards of a part found on the disks, each at the index its metadata names. */
  function PartSlots(dirs: seq<Dir>, number: int, total: nat): (slots: seq<Option<bytes>>)
    ensures |slots| == total
  {
    if dirs == [] then seq(total, _ => None)
    else
      var slots, dir := PartSlots(dirs[..|dirs| - 1], number, total), dirs[|dirs| - 1];
      if HasPair(dir, number) && dir.metas[number].erasure.index < total
      then slots[dir.metas[number].erasure.index := Some(dir.shards[number])] else slots
  }

  function ReadPart(code: Code, dirs: seq<Dir>, e: PartEntry): (r: Option<bytes>)
    requires e.erasure.Shaped()
  {
    var d, p := e.erasure.Data(), e.erasure.Parity();
    var slots := PartSlots(dirs, e.number, d + p);
    if CountSome(slots) < d then None else Buffered(code, d, p, slots, e.size)
  }

  ghost predicate AllShaped(parts: seq<PartEntry>)
  {
    forall i :: 0 <= i < |parts| ==> parts[i].erasure.Shaped()
  }

  /** The parts joined in order; none if any of them cannot be read. */
  function ReadParts(code: Code, dirs: seq<Dir>, parts: seq<PartEntry>): (r: Option<bytes>)
    requires AllShaped(parts)
  {
    if parts == [] then Some([])
    else
      match ReadParts(code, dirs, parts[..|parts| - 1])
      case None => None
      case Some(front) =>
        match ReadPart(code, dirs, parts[|parts| - 1])
        case None => None
        case Some(last) => Some(front + last)
  }

  method GatherSlots(dirs: seq<Dir>, number: int, total: nat) returns (slots: seq<Option<bytes>>)
    ensures slots == PartSlots(dirs, number, total)
  {
    slots := seq(total, _ => None);
    for j := 0 to |dirs|
      invariant slots == PartSlots(dirs[..j], number, total)
    {
      assert dirs[..j + 1][..j] == dirs[..j];
      if number in dirs[j].metas && number in dirs[j].shards {
        var index := dirs[j].metas[number].erasure.index;
        if index < total { slots := slots[index := Some(dirs[j].shards[number])]; }
      }
    }
    assert dirs[..|dirs|] == dirs;
  }

  method DecodePart(code: Code, dirs: seq<Dir>, e: PartEntry) returns (r: Option<bytes>)
    requires e.erasure.Shaped()
    ensures r == ReadPart(code, dirs, e)
  {
    hide Reassemble, PartSlots;
    var data, parity := e.erasure.Data(), e.erasure.Parity();
    var slots := GatherSlots(dirs, e.number, data + parity);
    var goodCount := CountSome(slots);
    if goodCount < data { return None; }
    if parity > 0 && goodCount < data + parity {
      var full := code.reconstruct(data, parity, slots);
      if full == None { return None; }
      slots := AsFilled(full.value);
    }
    r := Some(Reassemble(slots, data, e.size));
  }

  method ReadAndDecodeMultipart(code: Code, dirs: seq<Dir>,
                                parts: seq<PartEntry>) returns (r: Result<bytes, DecodeError>)
    requires AllShaped(parts)
    ensures r == match ReadParts(code, dirs, parts) case None => Err(ReadQuorum) case Some(body) => Ok(body)
  {
    var result := [];
    for k := 0 to |parts|
      invariant ReadParts(code, dirs, parts[..k]) == Some(result)
    {
      hide ReadPart;
      assert parts[..k + 1][..k] == parts[..k];
      var part := DecodePart(code, dirs, parts[k]);
      if part == None {
        UnreadableStays(code, dirs, parts, k + 1);
        return Err(ReadQuorum);
      }
      result := result + part.value;
    }
    assert parts[..|parts|] == parts;
    r := Ok(result);
  }

  lemma {:induction false} UnreadableStays(code: Code, dirs: seq<Dir>, parts: seq<PartEntry>, k: nat)
    requires AllShaped(parts) && k <= |parts| && ReadParts(code, dirs, parts[..k]).None?
    ensures ReadParts(code, dirs, parts).None?
  {
    hide ReadPart;
    if k < |parts| {
      assert parts[..|parts| - 1][..k] == parts[..k];
      UnreadableStays(code, dirs, parts[..|parts| - 1], k);
    } else {
      assert parts[..k] == parts;
    }
  }

  // One part

  /** The shard indexes of which some disk holds the shard and its metadata. */
  function PairIndexes(dirs: seq<Dir>, number: int): (r: set<nat>)
  {
    set j | 0 <= j < |dirs| && HasPair(dirs[j], number) :: dirs[j].metas[number].erasure.index
  }

  ghost predicate AllConsistent(code: Code, d: nat, p: nat, dirs: seq<Dir>, number: int, body: bytes)
    requires d >= 1
  {
    forall j :: 0 <= j < |dirs| ==> Consistent(code, d, p, dirs[j], number, body)
  }

  lemma {:induction false} SlotsAgree(code: Code, d: nat, p: nat, dirs: seq<Dir>, number: int, body: bytes)
    requires d >= 1 && |EncodeBlock(code, d, p, body)| == d + p && AllConsistent(code, d, p, dirs, number, body)
    ensures var slots := PartSlots(dirs, number, d + p);
            && Agrees(slots, EncodeBlock(code, d, p, body))
            && forall i: nat :: i in PairIndexes(dirs, number) <==> i < d + p && slots[i].Some?
  {
    hide EncodeBlock;
    if dirs != [] {
      var n := |dirs| - 1;
      var front := dirs[..n];
      assert forall j :: 0 <= j < n ==> front[j] == dirs[j];
      SlotsAgree(code, d, p, front, number, body);
      PairsSnoc(dirs, number);
      assert Consistent(code, d, p, dirs[n], number, body);
    }
  }

  lemma PairsSnoc(dirs: seq<Dir>, number: int)
    requires dirs != []
    ensures var n := |dirs| - 1;
            PairIndexes(dirs, number)
            == PairIndexes(dirs[..n], number)
               + if HasPair(dirs[n], number) then {dirs[n].metas[number].erasure.index} else {}
  {
    var n := |dirs| - 1;
    assert forall j :: 0 <= j < n ==> dirs[..n][j] == dirs[j];
  }

  /** Joining any `d` shards of one block gives the block, padding cut off. */
  lemma WholePart(code: Code, d: nat, p: nat, slots: seq<Option<bytes>>, body: bytes)
    requires Shape(code, d, p) && Agrees(slots, EncodeBlock(code, d, p, body)) && CountSome(slots) >= d
    ensures Buffered(code, d, p, slots, |body|) == Some(body)
  {
    hide Lawful, Reassemble, EncodeBlock, Split;
    var shards, len := EncodeBlock(code, d, p, body), ShardSize(|body|, d);
    BlockUniform(code, d, p, body);
    forall i | 0 <= i < d
      ensures shards[i] == Split(body, d)[i]
    {
      assert shards[i] == shards[..d][i];
    }
    if p > 0 && CountSome(slots) < |slots| {
      EncodedPieces(code, d, p, body);
      ReconstructLaw(code, d, p, Split(body, d), len, slots);
      ReassembleBlock(AsFilled(shards), d, body);
    } else {
      CountAll(slots);
      ReassembleBlock(slots, d, body);
    }
  }

  /** A part is read exactly when `d` of its shards are found with their metadata, and then
      it is the part that was written. */
  lemma PartReads(code: Code, d: nat, p: nat, dirs: seq<Dir>, e: PartEntry, body: bytes)
    requires Shape(code, d, p) && AllConsistent(code, d, p, dirs, e.number, body)
    requires e.size == |body| && e.erasure.ftt == p && |e.erasure.volumeIds| == d + p
    ensures ReadPart(code, dirs, e) == if |PairIndexes(dirs, e.number)| >= d then Some(body) else None
  {
    hide Lawful, EncodeBlock, Buffered, PartSlots, PairIndexes;
    BlockUniform(code, d, p, body);
    SlotsAgree(code, d, p, dirs, e.number, body);
    var slots := PartSlots(dirs, e.number, d + p);
    CountIsSize(slots, PairIndexes(dirs, e.number));
    if CountSome(slots) >= d {
      WholePart(code, d, p, slots, body);
    }
  }

  // Shards that changed

  /** Shard by shard, the first `n` bytes of both are the same. */
  ghost predicate SameBytes(a: seq<bytes>, b: seq<bytes>, n: nat)
    requires |a| == |b|
  {
    a != [] ==>
      Truncate(a[0], n) == Truncate(b[0], n) && SameBytes(a[1..], b[1..], if n <= |a[0]| then 0 else n - |a[0]|)
  }

  lemma {:induction false} SameJoined(a: seq<bytes>, b: seq<bytes>, n: nat)
    requires |a| == |b| && forall i :: 0 <= i < |a| ==> |a[i]| == |b[i]|
    ensures |Flatten(a)| == |Flatten(b)|
    ensures Truncate(Flatten(a), n) == Truncate(Flatten(b), n) <==> SameBytes(a, b, n)
  {
    if a != [] {
      var rest := if n <= |a[0]| then 0 else n - |a[0]|;
      SameJoined(a[1..], b[1..], rest);
      CutJoin(a[0], Flatten(a[1..]), b[0], Flatten(b[1..]), n);
      assert n <= |a[0]| ==> Truncate(Flatten(a[1..]), 0) == [] == Truncate(Flatten(b[1..]), 0);
    }
  }

  lemma CutJoin(x: bytes, u: bytes, y: bytes, v: bytes, n: nat)
    requires |x| == |y| && |u| == |v|
    ensures Truncate(x + u, n) == Truncate(y + v, n)
            <==> Truncate(x, n) == Truncate(y, n) && (n > |x| ==> Truncate(u, n - |x|) == Truncate(v, n - |x|))
  {
    CutOne(x, u, n);
    CutOne(y, v, n);
    var a, b := Truncate(x + u, n), Truncate(y + v, n);
    if n > |x| && a == b {
      assert a[..|x|] == b[..|x|] && a[|x|..] == b[|x|..];
    }
  }

  lemma CutOne(x: bytes, u: bytes, n: nat)
    ensures n <= |x| ==> Truncate(x + u, n) == Truncate(x, n)
    ensures n > |x| ==> Truncate(x, n) == x && Truncate(x + u, n) == x + Truncate(u, n - |x|)
  {
    if n > |x| && n <= |x + u| {
      assert (x + u)[..n] == x + u[..n - |x|];
    }
  }

  predicate AllFound(slots: seq<Option<bytes>>, len: nat)
  {
    forall i :: 0 <= i < |slots| ==> slots[i].Some? && |slots[i].value| == len
  }

  /** The checksums of a part's shards are not looked at: with a shard found at every index, all of
      the right length, the part is always returned, and it is the part that was written exactly
      if no byte of a data shard changed but padding. */
  lemma ChangedPartIff(code: Code, d: nat, p: nat, dirs: seq<Dir>, e: PartEntry, body: bytes)
    requires Shape(code, d, p)
    requires e.size == |body| && e.erasure.ftt == p && |e.erasure.volumeIds| == d + p
    requires AllFound(PartSlots(dirs, e.number, d + p), ShardSize(|body|, d))
    ensures ReadPart(code, dirs, e).Some?
    ensures var data := FirstFilled(PartSlots(dirs, e.number, d + p), d);
            ReadPart(code, dirs, e) == Some(body) <==> SameBytes(data, Split(body, d), |body|)
  {
    hide Lawful, Split, ShardSize, Reassemble, SameBytes;
    var slots := PartSlots(dirs, e.number, d + p);
    CountAll(slots);
    assert CountSome(slots) == d + p;
    var data := FirstFilled(slots, d);
    ChangedJoin(slots, data, d, body);
  }

  lemma ChangedJoin(slots: seq<Option<bytes>>, data: seq<bytes>, d: nat, body: bytes)
    requires 1 <= d == |data| <= |slots| && forall i :: 0 <= i < d ==> slots[i] == Some(data[i])
    requires forall i :: 0 <= i < d ==> |data[i]| == ShardSize(|body|, d)
    ensures Reassemble(slots, d, |body|) == body <==> SameBytes(data, Split(body, d), |body|)
  {
    hide Split, ShardSize, Reassemble, SameBytes;
    FilledData(slots, data, d, |body|);
    JoinSplit(body, d);
    SameJoined(data, Split(body, d), |body|);
  }

  function FirstFilled(slots: seq<Option<bytes>>, d: nat): (r: seq<bytes>)
    requires d <= |slots| && exists len :: AllFound(slots, len)
    ensures |r| == d && forall i :: 0 <= i < d ==> r[i] == slots[i].value
  {
    seq(d, i requires 0 <= i < d => slots[i].value)
  }

  // What an acknowledged part is worth

  ghost predicate EntryFits(d: nat, p: nat, e: PartEntry, number: int, body: bytes)
  {
    e.number == number && e.size == |body| && e.erasure.ftt == p && |e.erasure.volumeIds| == d + p
  }

  /** The shards written with their metadata. */
  ghost function WithMeta(part: Part, disks: nat, order: seq<nat>): (r: set<nat>)
    requires |order| == |part.outcomes|
  {
    set i: nat | i < |order| && order[i] < disks && part.outcomes[i].Both?
  }

  lemma PutPairs(code: Code, h: Hashes, d: nat, p: nat, disks: seq<Dir>, part: Part)
    requires WellFormed(code, d, p, part) && forall j :: 0 <= j < |disks| ==> Blank(disks[j], part.number)
    ensures var after := PutShards(code, h, d, p, disks, part, d + p);
            && AllConsistent(code, d, p, after, part.number, part.body)
            && PairIndexes(after, part.number) == WithMeta(part, |disks|, Order(part.digest, d + p))
  {
    hide PutShards, Consistent, Order, EncodeBlock, WriteShard;
    var after, order := PutShards(code, h, d, p, disks, part, d + p), Order(part.digest, d + p);
    OrderIsPermutation(part.digest, d + p);
    forall j | 0 <= j < |disks|
      ensures Consistent(code, d, p, after[j], part.number, part.body)
      ensures HasPair(after[j], part.number) ==>
                var i := after[j].metas[part.number].erasure.index; i < d + p && order[i] == j && part.outcomes[i].Both?
    {
      PutIsConsistent(code, h, d, p, disks, part, j);
      PairComesFromPut(code, h, d, p, disks, part, j);
    }
    forall i | i in WithMeta(part, |disks|, order)
      ensures i in PairIndexes(after, part.number)
    {
      PutIsConsistent(code, h, d, p, disks, part, order[i]);
    }
  }

  lemma PairComesFromPut(code: Code, h: Hashes, d: nat, p: nat, disks: seq<Dir>, part: Part, j: nat)
    requires WellFormed(code, d, p, part) && j < |disks| && Blank(disks[j], part.number)
    ensures var after := PutShards(code, h, d, p, disks, part, d + p);
            HasPair(after[j], part.number) ==>
              var i := after[j].metas[part.number].erasure.index;
              i < d + p && Order(part.digest, d + p)[i] == j && part.outcomes[i].Both?
  {
    hide PutShards, Order, EncodeBlock, Decimal;
    PutAt(code, h, d, p, disks, part, d + p, j);
  }

  /** An uploaded part is readable exactly when at least `d` of its shards were written with
      their metadata; the acknowledgement counts those without it too. */
  lemma UploadedPartReadsIff(code: Code, h: Hashes, d: nat, p: nat, disks: seq<Dir>, part: Part, e: PartEntry)
    requires Shape(code, d, p) && WellFormed(code, d, p, part)
    requires forall j :: 0 <= j < |disks| ==> Blank(disks[j], part.number)
    requires EntryFits(d, p, e, part.number, part.body)
    ensures var after := PutShards(code, h, d, p, disks, part, d + p);
            var written := WithMeta(part, |disks|, Order(part.digest, d + p));
            ReadPart(code, after, e) == if |written| >= d then Some(part.body) else None
  {
    hide Lawful, PutShards, Order, WellFormed, Blank, ReadPart, PairIndexes, AllConsistent;
    PutPairs(code, h, d, p, disks, part);
    PartReads(code, d, p, PutShards(code, h, d, p, disks, part, d + p), e, part.body);
  }

  /** The two differ: a part all of whose metadata writes failed is acknowledged and unreadable. */
  lemma AcknowledgedUnreadable(code: Code, h: Hashes, d: nat, p: nat, disks: seq<Dir>, part: Part, e: PartEntry)
    requires Shape(code, d, p) && WellFormed(code, d, p, part) && |disks| >= d + p
    requires forall j :: 0 <= j < |disks| ==> Blank(disks[j], part.number)
    requires EntryFits(d, p, e, part.number, part.body) && forall i :: 0 <= i < d + p ==> part.outcomes[i].ShardOnly?
    ensures Successes(part, |disks|, Order(part.digest, d + p), d + p) >= WriteQuorumOf(d, p)
    ensures ReadPart(code, PutShards(code, h, d, p, disks, part, d + p), e) == None
  {
    hide Lawful, PutShards, Order, ReadPart, Successes;
    OrderIsPermutation(part.digest, d + p);
    AllSucceed(part, |disks|, Order(part.digest, d + p), d + p);
    UploadedPartReadsIff(code, h, d, p, disks, part, e);
    assert WithMeta(part, |disks|, Order(part.digest, d + p)) == {};
  }

  lemma {:induction false} AllSucceed(part: Part, disks: nat, order: seq<nat>, k: nat)
    requires k <= |part.outcomes| && k <= |order| && forall i :: 0 <= i < k ==> Counts(part, disks, order, i)
    ensures Successes(part, disks, order, k) == k
  {
    if k > 0 {
      AllSucceed(part, disks, order, k - 1);
    }
  }

  // The whole object

  /** The bodies of the requested parts, in that order. */
  function BodiesOf(bodies: map<int, bytes>, requested: seq<int>): (r: seq<bytes>)
    requires forall i :: 0 <= i < |requested| ==> requested[i] in bodies
    ensures |r| == |requested|
  {
    seq(|requested|, i requires 0 <= i < |requested| => bodies[requested[i]])
  }

  /** The disks hold nothing of a part but files of its body. */
  ghost predicate Readable(code: Code, d: nat, p: nat, dirs: seq<Dir>, parts: seq<PartEntry>, requested: seq<int>,
                           bodies: map<int, bytes>)
    requires d >= 1
  {
    && |parts| == |requested|
    && forall i :: 0 <= i < |requested| ==>
         && requested[i] in bodies
         && EntryFits(d, p, parts[i], requested[i], bodies[requested[i]])
         && AllConsistent(code, d, p, dirs, requested[i], bodies[requested[i]])
  }

  ghost predicate EnoughPairs(d: nat, dirs: seq<Dir>, requested: seq<int>)
  {
    forall i :: 0 <= i < |requested| ==> |PairIndexes(dirs, requested[i])| >= d
  }

  lemma {:induction false} PartsRead(code: Code, d: nat, p: nat, dirs: seq<Dir>, parts: seq<PartEntry>,
                                     requested: seq<int>, bodies: map<int, bytes>)
    requires Shape(code, d, p) && Readable(code, d, p, dirs, parts, requested, bodies)
    ensures AllShaped(parts)
    ensures ReadParts(code, dirs, parts)
            == if EnoughPairs(d, dirs, requested) then Some(Flatten(BodiesOf(bodies, requested))) else None
  {
    hide Lawful, ReadPart, PairIndexes, AllConsistent;
    if parts != [] {
      var n := |parts| - 1;
      var front := requested[..n];
      PartsRead(code, d, p, dirs, parts[..n], front, bodies);
      PartReads(code, d, p, dirs, parts[n], bodies[requested[n]]);
      assert BodiesOf(bodies, requested) == BodiesOf(bodies, front) + [bodies[requested[n]]];
      FlattenSnoc(BodiesOf(bodies, front), bodies[requested[n]]);
      assert EnoughPairs(d, dirs, requested) <==> EnoughPairs(d, dirs, front) && |PairIndexes(dirs, requested[n])| >= d;
    }
  }

  /** `left` is what remains of `dir` after files were lost. */
  ghost predicate Remains(left: Dir, dir: Dir)
  {
    && (forall n :: n in left.shards ==> n in dir.shards && left.shards[n] == dir.shards[n])
    && (forall n :: n in left.metas ==> n in dir.metas && left.metas[n] == dir.metas[n])
  }

  /** The staging area holds only files of these bodies, and the object holds none yet. */
  ghost predicate ReadyToComplete(code: Code, d: nat, p: nat, t: Tree, requested: seq<int>, bodies: map<int, bytes>)
    requires d >= 1
  {
    && |t.stages| == |t.finals|
    && forall i :: 0 <= i < |requested| ==>
         && requested[i] in bodies
         && AllConsistent(code, d, p, t.stages, requested[i], bodies[requested[i]])
         && AllBlank(t.finals, requested[i])
  }

  ghost predicate AllBlank(dirs: seq<Dir>, number: int)
  {
    forall j :: 0 <= j < |dirs| ==> Blank(dirs[j], number)
  }

  lemma MovedIsConsistent(code: Code, d: nat, p: nat, t: Tree, requested: seq<int>, moves: Moves, j: nat, number: int,
                          body: bytes, left: Dir)
    requires d >= 1 && |t.stages| == |t.finals| && j < |t.stages| && number in requested
    requires MoveParts(t, requested, moves).1.Ok? && Remains(left, MoveParts(t, requested, moves).0.finals[j])
    requires Consistent(code, d, p, t.stages[j], number, body) && Blank(t.finals[j], number)
    ensures Consistent(code, d, p, left, number, body)
  {
    hide MoveParts, EncodeBlock;
    MovedFiles(t, requested, moves, j, number);
  }

  lemma StagedFits(code: Code, d: nat, p: nat, t: Tree, e: PartEntry, number: int, body: bytes)
    requires d >= 1 && EntryStaged(t, e, number) && AllConsistent(code, d, p, t.stages, number, body)
    ensures EntryFits(d, p, e, number, body)
  {
    hide EncodeBlock;
    var j :| 0 <= j < |t.stages| && number in t.stages[j].metas && e == EntryOf(t.stages[j].metas[number], number);
    assert Consistent(code, d, p, t.stages[j], number, body);
  }

  /** The multipart round trip: once an upload is completed, and whatever files are lost after
      that, reading gives the bodies of the requested parts joined in the requested order if
      `d` shards of each are left with their metadata, and fails if not. */
  lemma MultipartRoundTrip(code: Code, d: nat, p: nat, t: Tree, requested: seq<int>, moves: Moves, metaSuccesses: nat,
                           bodies: map<int, bytes>, left: seq<Dir>)
    requires Shape(code, d, p) && ReadyToComplete(code, d, p, t, requested, bodies)
    requires Complete(t, requested, moves, metaSuccesses).1.Ok?
    requires |left| == |t.finals|
    requires forall j :: 0 <= j < |left| ==> Remains(left[j], Complete(t, requested, moves, metaSuccesses).0.finals[j])
    ensures var parts := Complete(t, requested, moves, metaSuccesses).1.value;
            && AllShaped(parts)
            && ReadParts(code, left, parts)
               == if EnoughPairs(d, left, requested) then Some(Flatten(BodiesOf(bodies, requested))) else None
  {
    hide Lawful, MoveParts, EncodeBlock, Consistent, ReadParts, EnoughPairs, Remains, Listed, EntryStaged, EntryFits;
    var parts := Complete(t, requested, moves, metaSuccesses).1.value;
    MovedEntries(t, requested, moves);
    forall i | 0 <= i < |requested|
      ensures EntryFits(d, p, parts[i], requested[i], bodies[requested[i]])
      ensures AllConsistent(code, d, p, left, requested[i], bodies[requested[i]])
    {
      StagedFits(code, d, p, t, parts[i], requested[i], bodies[requested[i]]);
      forall j | 0 <= j < |left|
        ensures Consistent(code, d, p, left[j], requested[i], bodies[requested[i]])
      {
        MovedIsConsistent(code, d, p, t, requested, moves, j, requested[i], bodies[requested[i]], left[j]);
      }
    }
    PartsRead(code, d, p, left, parts, requested, bodies);
  }

  // From the first part on

  /** The staging directories after uploading parts one after another. */
  function PutAll(code: Code, h: Hashes, d: nat, p: nat, disks: seq<Dir>, parts: seq<Part>): (r: seq<Dir>)
    requires forall i :: 0 <= i < |parts| ==> WellFormed(code, d, p, parts[i])
    ensures |r| == |disks|
  {
    if parts == [] then disks
    else PutShards(code, h, d, p, PutAll(code, h, d, p, disks, parts[..|parts| - 1]), parts[|parts| - 1], d + p)
  }

  /** A part number is used again only by an upload that succeeds on every disk. */
  ghost predicate Replaceable(parts: seq<Part>)
  {
    forall i, j :: 0 <= i < j < |parts| && parts[i].number == parts[j].number ==> WholePut(parts[j])
  }

  /** Every shard and its metadata were written. */
  ghost predicate WholePut(part: Part)
  {
    forall i :: 0 <= i < |part.outcomes| ==> part.outcomes[i].Both?
  }

  function BodyMap(parts: seq<Part>): (m: map<int, bytes>)
    ensures forall n :: n in m <==> exists i :: 0 <= i < |parts| && parts[i].number == n
  {
    if parts == [] then map[] else
      assert parts == parts[..|parts| - 1] + [parts[|parts| - 1]];
      BodyMap(parts[..|parts| - 1])[parts[|parts| - 1].number := parts[|parts| - 1].body]
  }

  /** What disk `j` may hold of a part when these bodies were uploaded. */
  ghost predicate Expected(code: Code, h: Hashes, d: nat, p: nat, dir: Dir, j: nat, bodies: map<int, bytes>,
                           number: int)
    requires d >= 1
  {
    if number in bodies && j < d + p then
      Consistent(code, d, p, dir, number, bodies[number]) && Described(code, h, d, p, dir, number, bodies[number])
    else Blank(dir, number)
  }

  /** Uploading parts into fresh directories, some again if that succeeds everywhere, leaves each
      disk with files of the last bodies only, and with none of any other part. */
  lemma {:induction false} UploadsAreConsistent(code: Code, h: Hashes, d: nat, p: nat, disks: seq<Dir>,
                                                parts: seq<Part>, j: nat,
                                                number: int)
    requires d >= 1 && Replaceable(parts) && j < |disks| && Blank(disks[j], number)
    requires forall i :: 0 <= i < |parts| ==> WellFormed(code, d, p, parts[i])
    ensures Expected(code, h, d, p, PutAll(code, h, d, p, disks, parts)[j], j, BodyMap(parts), number)
  {
    hide PutShards, Consistent, Described, WellFormed, Blank, Replaceable;
    if parts != [] {
      var n := |parts| - 1;
      var front, last := parts[..n], parts[n];
      LastMayReplace(parts);
      UploadsAreConsistent(code, h, d, p, disks, front, j, number);
      UploadStep(code, h, d, p, PutAll(code, h, d, p, disks, front), last, j, BodyMap(front), number);
    }
  }

  lemma LastMayReplace(parts: seq<Part>)
    requires parts != [] && Replaceable(parts)
    ensures var n := |parts| - 1;
            Replaceable(parts[..n]) && (parts[n].number in BodyMap(parts[..n]) ==> WholePut(parts[n]))
  {
  }

  lemma UploadStep(code: Code, h: Hashes, d: nat, p: nat, disks: seq<Dir>, part: Part, j: nat,
                   bodies: map<int, bytes>, number: int)
    requires WellFormed(code, d, p, part) && j < |disks| && (part.number in bodies ==> WholePut(part))
    requires Expected(code, h, d, p, disks[j], j, bodies, number)
    ensures var after := PutShards(code, h, d, p, disks, part, d + p);
            Expected(code, h, d, p, after[j], j, bodies[part.number := part.body], number)
  {
    hide PutShards, Consistent, Described, EncodeBlock, Order;
    if number != part.number {
      PutSparesOthers(code, h, d, p, disks, part, j, number);
      if number in bodies {
        var after := PutShards(code, h, d, p, disks, part, d + p)[j];
        SameIsConsistent(code, h, d, p, after, disks[j], number, bodies[number]);
      }
    } else {
      OrderIsPermutation(part.digest, d + p);
      var order := Order(part.digest, d + p);
      if j < d + p {
        assert j in order;
        var i :| 0 <= i < |order| && order[i] == j;
        assert part.number in bodies ==> part.outcomes[i].Both?;
        PutIsConsistent(code, h, d, p, disks, part, j);
      } else {
        PutAt(code, h, d, p, disks, part, d + p, j);
      }
    }
  }

  lemma SameIsConsistent(code: Code, h: Hashes, d: nat, p: nat, a: Dir, b: Dir, number: int, body: bytes)
    requires d >= 1 && SameFiles(a, b, number)
    ensures Consistent(code, d, p, a, number, body) <==> Consistent(code, d, p, b, number, body)
    ensures Described(code, h, d, p, a, number, body) <==> Described(code, h, d, p, b, number, body)
  {
    hide EncodeBlock;
  }

  lemma BlankIsConsistent(code: Code, d: nat, p: nat, dir: Dir, number: int, bodies: map<int, bytes>)
    requires d >= 1
    ensures Blank(dir, number) && number in bodies ==> Consistent(code, d, p, dir, number, bodies[number])
  {
  }

  lemma EntryDescribes(code: Code, h: Hashes, d: nat, p: nat, t: Tree, e: PartEntry, bodies: map<int, bytes>,
                       number: int)
    requires d >= 1 && EntryStaged(t, e, number)
    requires forall j :: 0 <= j < |t.stages| ==> Expected(code, h, d, p, t.stages[j], j, bodies, number)
    ensures number in bodies
    ensures e.number == number && e.size == |bodies[number]| && e.etag == h.md5(bodies[number])
  {
    hide EncodeBlock;
    var j :| 0 <= j < |t.stages| && number in t.stages[j].metas && e == EntryOf(t.stages[j].metas[number], number);
    assert Expected(code, h, d, p, t.stages[j], j, bodies, number);
  }

  /** End to end: parts uploaded in any order, completed in any other, read after any loss. The
      entries recorded have the size and the hash of the bodies. */
  lemma UploadRoundTrip(code: Code, h: Hashes, d: nat, p: nat, disks: seq<Dir>, finals: seq<Dir>, parts: seq<Part>,
                        requested: seq<int>, moves: Moves, metaSuccesses: nat, left: seq<Dir>)
    requires Shape(code, d, p) && Replaceable(parts) && |disks| == |finals| == |left|
    requires forall i :: 0 <= i < |parts| ==> WellFormed(code, d, p, parts[i])
    requires forall i :: 0 <= i < |requested| ==> AllBlank(disks, requested[i]) && AllBlank(finals, requested[i])
    requires var done := Complete(Tree(PutAll(code, h, d, p, disks, parts), finals), requested, moves, metaSuccesses);
             done.1.Ok? && forall j :: 0 <= j < |left| ==> Remains(left[j], done.0.finals[j])
    ensures forall i :: 0 <= i < |requested| ==> requested[i] in BodyMap(parts)
    ensures var t := Tree(PutAll(code, h, d, p, disks, parts), finals);
            var done := Complete(t, requested, moves, metaSuccesses).1.value;
            && AllShaped(done) && |done| == |requested|
            && (forall i :: 0 <= i < |requested| ==>
                  && done[i].number == requested[i] && done[i].size == |BodyMap(parts)[requested[i]]|
                  && done[i].etag == h.md5(BodyMap(parts)[requested[i]]))
            && ReadParts(code, left, done)
               == if EnoughPairs(d, left, requested) then Some(Flatten(BodiesOf(BodyMap(parts), requested))) else None
  {
    hide Lawful, PutAll, MoveParts, EncodeBlock, Consistent, Described, ReadParts, EnoughPairs, Remains, Listed,
      WellFormed, Replaceable, BodyMap;
    var stages := PutAll(code, h, d, p, disks, parts);
    var t := Tree(stages, finals);
    MovedEntries(t, requested, moves);
    forall i | 0 <= i < |requested|
      ensures requested[i] in BodyMap(parts)
      ensures AllConsistent(code, d, p, stages, requested[i], BodyMap(parts)[requested[i]])
      ensures var e, body := MoveParts(t, requested, moves).1.value[i], BodyMap(parts)[requested[i]];
              e.number == requested[i] && e.size == |body| && e.etag == h.md5(body)
    {
      forall j | 0 <= j < |stages|
        ensures Expected(code, h, d, p, stages[j], j, BodyMap(parts), requested[i])
      {
        UploadsAreConsistent(code, h, d, p, disks, parts, j, requested[i]);
      }
      assert EntryStaged(t, MoveParts(t, requested, moves).1.value[i], requested[i]);
      EntryDescribes(code, h, d, p, t, MoveParts(t, requested, moves).1.value[i], BodyMap(parts), requested[i]);
      forall j | 0 <= j < |stages|
        ensures requested[i] in BodyMap(parts) ==>
                  Consistent(code, d, p, stages[j], requested[i], BodyMap(parts)[requested[i]])
      {
        BlankIsConsistent(code, d, p, stages[j], requested[i], BodyMap(parts));
      }
    }
    MultipartRoundTrip(code, d, p, t, requested, moves, metaSuccesses, BodyMap(parts), left);
  }

  /** The size recorded for the object: that of its parts together. */
  function ObjectSize(parts: seq<PartEntry>): (n: nat)
  {
    if parts == [] then 0 else ObjectSize(parts[..|parts| - 1]) + parts[|parts| - 1].size
  }

  /** An object that can be read has as many bytes as its parts say. */
  lemma {:induction false} SizeIsLength(code: Code, d: nat, p: nat, dirs: seq<Dir>, parts: seq<PartEntry>,
                                        requested: seq<int>, bodies: map<int, bytes>)
    requires Shape(code, d, p) && Readable(code, d, p, dirs, parts, requested, bodies)
    ensures AllShaped(parts)
    ensures ReadParts(code, dirs, parts).Some? ==> |ReadParts(code, dirs, parts).value| == ObjectSize(parts)
  {
    hide Lawful, ReadPart, PairIndexes, AllConsistent;
    if parts != [] {
      var n := |parts| - 1;
      SizeIsLength(code, d, p, dirs, parts[..n], requested[..n], bodies);
      PartReads(code, d, p, dirs, parts[n], bodies[requested[n]]);
    }
  }
}
