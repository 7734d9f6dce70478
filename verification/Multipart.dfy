/** Multipart uploads: parts are encoded one by one into a staging directory on each disk,
    and completing the upload moves the requested parts into the object. */
module Multipart {
  import opened ByteCodec
  import opened Metadata
  import opened ReedSolomon
  import opened Striping
  import opened Shuffle

  datatype PartFileMeta = PartFileMeta(number: int, size: nat, etag: string, erasure: ErasureMeta, checksum: string)

  /** One directory on one disk: the shard file and the metadata file of each part. */
  datatype Dir = Dir(present: bool, shards: map<int, bytes>, metas: map<int, PartFileMeta>)

  datatype UploadError = ObjectNotFound | WriteQuorum

  /** How far the writes for one shard got. */
  datatype Outcome = NoDirectory | DirectoryOnly | ShardOnly | Both

  /** The hashes the upload records, left uninterpreted. */
  datatype Hashes = Hashes(md5: bytes -> string, blake3: bytes -> string)

  // Writing a part

  function VolumeNames(total: nat): (r: seq<string>)
    ensures |r| == total
  {
    seq(total, i requires i >= 0 => "vol-" + Decimal(i))
  }

  /** The metadata file of shard `i` of a part. */
  function MetaOf(h: Hashes, d: nat, p: nat, number: int, body: bytes, shards: seq<bytes>, i: nat): (m: PartFileMeta)
    requires i < |shards|
  {
    PartFileMeta(number, |body|, h.md5(body), ErasureMeta(p, i, 1, VolumeNames(d + p)), h.blake3(shards[i]))
  }

  /** A directory after the attempt to write one shard and its metadata. */
  function Wrote(dir: Dir, number: int, shard: bytes, meta: PartFileMeta, outcome: Outcome): (r: Dir)
  {
    match outcome
    case NoDirectory => dir
    case DirectoryOnly => dir.(present := true)
    case ShardOnly => dir.(present := true, shards := dir.shards[number := shard])
    case Both => Dir(true, dir.shards[number := shard], dir.metas[number := meta])
  }

  /** A part being written: its number and body, the digest that deals its shards, and how
      the write of each shard ends. */
  datatype Part = Part(number: int, body: bytes, digest: bytes, outcomes: seq<Outcome>)

  function ShardsOf(code: Code, d: nat, p: nat, part: Part): (r: seq<bytes>)
    requires d >= 1
  {
    EncodeBlock(code, d, p, part.body)
  }

  predicate WellFormed(code: Code, d: nat, p: nat, part: Part)
  {
    d >= 1 && part.digest != [] && |part.outcomes| == d + p && |ShardsOf(code, d, p, part)| == d + p
  }

  /** The disks after the first `k` shards. */
  function PutShards(code: Code, h: Hashes, d: nat, p: nat, disks: seq<Dir>, part: Part, k: nat): (r: seq<Dir>)
    requires WellFormed(code, d, p, part) && k <= d + p
    ensures |r| == |disks|
  {
    if k == 0 then disks
    else
      var before := PutShards(code, h, d, p, disks, part, k - 1);
      var j := Order(part.digest, d + p)[k - 1];
      if j < |disks| then before[j := WriteShard(code, h, d, p, before[j], part, k - 1)] else before
  }

  function WriteShard(code: Code, h: Hashes, d: nat, p: nat, dir: Dir, part: Part, i: nat): (r: Dir)
    requires WellFormed(code, d, p, part) && i < d + p
  {
    var shards := ShardsOf(code, d, p, part);
    Wrote(dir, part.number, shards[i], MetaOf(h, d, p, part.number, part.body, shards, i), part.outcomes[i])
  }

  predicate Counts(part: Part, disks: nat, order: seq<nat>, i: nat)
    requires i < |part.outcomes| && i < |order|
  {
    order[i] < disks && (part.outcomes[i].ShardOnly? || part.outcomes[i].Both?)
  }

  /** How many of the first `k` shards were written. */
  function Successes(part: Part, disks: nat, order: seq<nat>, k: nat): (n: nat)
    requires k <= |part.outcomes| && k <= |order|
    ensures n <= k
  {
    if k == 0 then 0 else Successes(part, disks, order, k - 1) + if Counts(part, disks, order, k - 1) then 1 else 0
  }

  method PutPart(code: Code, h: Hashes, d: nat, p: nat, disks: array<Dir>,
                 part: Part) returns (r: Result<nat, UploadError>)
    requires WellFormed(code, d, p, part)
    modifies disks
    ensures disks[..] == PutShards(code, h, d, p, old(disks[..]), part, d + p)
    ensures var n := Successes(part, disks.Length, Order(part.digest, d + p), d + p);
            r == if n < WriteQuorumOf(d, p) then Err(WriteQuorum) else Ok(|part.body|)
  {
    var distribution := HashOrder(part.digest, d + p);
    var shards := SplitData(part.body, d);
    if p > 0 { shards := code.encode(d, p, shards); }
    var successes := 0;
    ghost var was := disks[..];
    for i := 0 to d + p
      invariant disks[..] == PutShards(code, h, d, p, was, part, i)
      invariant successes == Successes(part, disks.Length, distribution, i)
    {
      hide EncodeBlock, Order, MetaOf;
      var j := distribution[i];
      if j < disks.Length {
        var outcome := part.outcomes[i];
        var meta := MetaOf(h, d, p, part.number, part.body, shards, i);
        ghost var before := disks[..];
        disks[j] := Wrote(disks[j], part.number, shards[i], meta, outcome);
        assert disks[..] == before[j := WriteShard(code, h, d, p, before[j], part, i)];
        if outcome.ShardOnly? || outcome.Both? { successes := successes + 1; }
      }
    }
    if successes < WriteQuorumOf(d, p) { return Err(WriteQuorum); }
    r := Ok(|part.body|);
  }

  /** Each disk receives at most the one shard dealt to it, since the deal is a permutation. */
  lemma {:induction false} PutAt(code: Code, h: Hashes, d: nat, p: nat, disks: seq<Dir>, part: Part, k: nat, j: nat)
    requires WellFormed(code, d, p, part) && k <= d + p && j < |disks|
    ensures var order := Order(part.digest, d + p);
            var after := PutShards(code, h, d, p, disks, part, k);
            && (forall i :: 0 <= i < k && order[i] == j ==> after[j] == WriteShard(code, h, d, p, disks[j], part, i))
            && ((forall i :: 0 <= i < k ==> order[i] != j) ==> after[j] == disks[j])
  {
    hide WriteShard, Order;
    OrderIsPermutation(part.digest, d + p);
    if k > 0 {
      PutAt(code, h, d, p, disks, part, k - 1, j);
      var order := Order(part.digest, d + p);
      if order[k - 1] == j {
        assert forall i :: 0 <= i < k - 1 ==> order[i] != j;
      }
    }
  }

  // What the disks hold of a part

  /** Whatever a directory holds of a part belongs to this body: metadata of one of its
      shards, and beside it the shard of that index. */
  ghost predicate Consistent(code: Code, d: nat, p: nat, dir: Dir, number: int, body: bytes)
    requires d >= 1
  {
    var shards := EncodeBlock(code, d, p, body);
    number in dir.metas ==>
      var m := dir.metas[number];
      && m.size == |body| && m.erasure.ftt == p && |m.erasure.volumeIds| == d + p && m.erasure.index < |shards|
      && (number in dir.shards ==> dir.shards[number] == shards[m.erasure.index])
  }

  /** Metadata of the part says what it is: its number, the hash of its body, and the hash of the
      shard beside it. */
  ghost predicate Described(code: Code, h: Hashes, d: nat, p: nat, dir: Dir, number: int, body: bytes)
    requires d >= 1
  {
    var shards := EncodeBlock(code, d, p, body);
    number in dir.metas ==>
      var m := dir.metas[number];
      && m.number == number && m.etag == h.md5(body) && m.erasure.index < |shards|
      && m.checksum == h.blake3(shards[m.erasure.index])
  }

  predicate Blank(dir: Dir, number: int)
  {
    number !in dir.shards && number !in dir.metas
  }

  /** Both files of the part are there. */
  predicate HasPair(dir: Dir, number: int)
  {
    number in dir.shards && number in dir.metas
  }

  /** The directory held nothing of the part, or is overwritten completely. */
  ghost predicate Overwritten(d: nat, p: nat, disks: seq<Dir>, part: Part, j: nat)
    requires part.digest != [] && |part.outcomes| == d + p && j < |disks|
  {
    || Blank(disks[j], part.number)
    || exists i :: 0 <= i < d + p && Order(part.digest, d + p)[i] == j && part.outcomes[i].Both?
  }

  /** After a part is written every disk is consistent with its body and describes it, and the disk dealt
      shard `i` holds that shard and its metadata if both writes succeeded. */
  lemma PutIsConsistent(code: Code, h: Hashes, d: nat, p: nat, disks: seq<Dir>, part: Part, j: nat)
    requires WellFormed(code, d, p, part) && j < |disks| && Overwritten(d, p, disks, part, j)
    ensures var after := PutShards(code, h, d, p, disks, part, d + p);
            && Consistent(code, d, p, after[j], part.number, part.body)
            && Described(code, h, d, p, after[j], part.number, part.body)
            && (forall i :: 0 <= i < d + p && Order(part.digest, d + p)[i] == j && part.outcomes[i].Both? ==>
                  HasPair(after[j], part.number) && after[j].metas[part.number].erasure.index == i)
  {
    hide EncodeBlock, Order, PutShards, Decimal;
    PutAt(code, h, d, p, disks, part, d + p, j);
    OrderIsPermutation(part.digest, d + p);
  }

  /** Writing one part leaves the files of all others alone. */
  lemma PutSparesOthers(code: Code, h: Hashes, d: nat, p: nat, disks: seq<Dir>, part: Part, j: nat, other: int)
    requires WellFormed(code, d, p, part) && j < |disks| && other != part.number
    ensures SameFiles(PutShards(code, h, d, p, disks, part, d + p)[j], disks[j], other)
  {
    hide EncodeBlock, Order, PutShards, Decimal;
    PutAt(code, h, d, p, disks, part, d + p, j);
  }

  ghost predicate SameFiles(a: Dir, b: Dir, number: int)
  {
    && (number in a.shards <==> number in b.shards)
    && (number in a.shards ==> a.shards[number] == b.shards[number])
    && (number in a.metas <==> number in b.metas)
    && (number in a.metas ==> a.metas[number] == b.metas[number])
  }

  // Completing the upload

  datatype Tree = Tree(stages: seq<Dir>, finals: seq<Dir>)

  /** The part numbers listed: those of the first disk that has the upload directory. */
  function Listed(stages: seq<Dir>): (r: set<int>)
  {
    if stages == [] then {} else if stages[0].present then stages[0].metas.Keys else Listed(stages[1..])
  }

  function FirstMeta(stages: seq<Dir>, number: int): (r: Option<PartFileMeta>)
    ensures r.Some? <==> exists j :: 0 <= j < |stages| && number in stages[j].metas
    ensures r.Some? ==> exists j :: 0 <= j < |stages| && number in stages[j].metas && stages[j].metas[number] == r.value
  {
    if stages == [] then None
    else if number in stages[0].metas then Some(stages[0].metas[number])
    else
      assert forall j :: 1 <= j < |stages| ==> stages[j] == stages[1..][j - 1];
      FirstMeta(stages[1..], number)
  }

  /** How the move of one file ends: whether it reached the object directory, and whether it is
      gone from the staging directory. A move is a rename or, failing that, a copy. */
  datatype Move = Move(arrived: bool, gone: bool)

  /** The moves of a completion: by turn, disk, and whether the file is the metadata. */
  type Moves = (nat, nat, bool) -> Move

  function LeftIn<V>(stage: map<int, V>, number: int, o: Move): (r: map<int, V>)
  {
    if o.gone then stage - {number} else stage
  }

  function MovedTo<V>(final: map<int, V>, stage: map<int, V>, number: int, o: Move): (r: map<int, V>)
  {
    if number in stage && o.arrived then final[number := stage[number]] else final
  }

  function StageLeft(stage: Dir, number: int, shard: Move, meta: Move): (r: Dir)
  {
    stage.(shards := LeftIn(stage.shards, number, shard), metas := LeftIn(stage.metas, number, meta))
  }

  /** The object directory of a disk after the staged files of a part are moved into it. */
  function MovedInto(final: Dir, stage: Dir, number: int, shard: Move, meta: Move): (r: Dir)
  {
    Dir(true, MovedTo(final.shards, stage.shards, number, shard), MovedTo(final.metas, stage.metas, number, meta))
  }

  function MoveAll(t: Tree, number: int, moves: Moves, turn: nat): (r: Tree)
    requires |t.stages| == |t.finals|
    ensures |r.stages| == |r.finals| == |t.finals|
    ensures forall j :: 0 <= j < |t.stages| ==>
              r.stages[j] == StageLeft(t.stages[j], number, moves(turn, j, false), moves(turn, j, true))
    ensures forall j :: 0 <= j < |t.stages| ==>
              r.finals[j] == MovedInto(t.finals[j], t.stages[j], number, moves(turn, j, false), moves(turn, j, true))
  {
    Tree(seq(|t.stages|, j requires 0 <= j < |t.stages| =>
           StageLeft(t.stages[j], number, moves(turn, j, false), moves(turn, j, true))),
         seq(|t.stages|, j requires 0 <= j < |t.stages| =>
           MovedInto(t.finals[j], t.stages[j], number, moves(turn, j, false), moves(turn, j, true))))
  }

  function EntryOf(m: PartFileMeta, number: int): (e: PartEntry)
  {
    PartEntry(number, m.size, m.etag, m.erasure, m.checksum)
  }

  /** Moving the requested parts in order, stopping at one that has no metadata left. */
  function MoveParts(t: Tree, requested: seq<int>, moves: Moves): (r: (Tree, Result<seq<PartEntry>, UploadError>))
    requires |t.stages| == |t.finals|
    ensures |r.0.stages| == |r.0.finals| == |t.stages|
  {
    if requested == [] then (t, Ok([]))
    else
      var n := |requested| - 1;
      var (before, done) := MoveParts(t, requested[..n], moves);
      if done.Err? then (before, done)
      else match FirstMeta(before.stages, requested[n])
        case None => (before, Err(ObjectNotFound))
        case Some(m) => (MoveAll(before, requested[n], moves, n), Ok(done.value + [EntryOf(m, requested[n])]))
  }

  /** Completing, where `metaSuccesses` disks accept the object's metadata. */
  function Complete(t: Tree, requested: seq<int>, moves: Moves, metaSuccesses: nat)
    : (r: (Tree, Result<seq<PartEntry>, UploadError>))
    requires |t.stages| == |t.finals|
    ensures |r.0.stages| == |r.0.finals| == |t.stages|
  {
    if exists i :: 0 <= i < |requested| && requested[i] !in Listed(t.stages) then (t, Err(ObjectNotFound))
    else
      var (after, parts) := MoveParts(t, requested, moves);
      if parts.Err? then (after, parts)
      else if metaSuccesses == 0 then (after, Err(WriteQuorum))
      else (after, parts)
  }

  method CompleteUpload(stages: array<Dir>, finals: array<Dir>, requested: seq<int>, moves: Moves, metaSuccesses: nat)
    returns (r: Result<seq<PartEntry>, UploadError>)
    requires stages.Length == finals.Length && stages != finals
    modifies stages, finals
    ensures (Tree(stages[..], finals[..]), r)
            == Complete(old(Tree(stages[..], finals[..])), requested, moves, metaSuccesses)
  {
    hide FirstMeta;
    var available := Listed(stages[..]);
    if exists i :: 0 <= i < |requested| && requested[i] !in available { return Err(ObjectNotFound); }
    ghost var was := Tree(stages[..], finals[..]);
    var parts := [];
    for k := 0 to |requested|
      invariant MoveParts(was, requested[..k], moves) == (Tree(stages[..], finals[..]), Ok(parts))
    {
      var number := requested[k];
      assert requested[..k + 1][..k] == requested[..k];
      var meta := FirstMeta(stages[..], number);
      if meta == None {
        FailureStays(was, requested, moves, k + 1);
        return Err(ObjectNotFound);
      }
      ghost var t := Tree(stages[..], finals[..]);
      MoveFiles(stages, finals, number, moves, k);
      assert Tree(stages[..], finals[..]) == MoveAll(t, number, moves, k);
      parts := parts + [EntryOf(meta.value, number)];
    }
    assert requested[..|requested|] == requested;
    if metaSuccesses == 0 { return Err(WriteQuorum); }
    r := Ok(parts);
  }

  method MoveFiles(stages: array<Dir>, finals: array<Dir>, number: int, moves: Moves, turn: nat)
    requires stages.Length == finals.Length && stages != finals
    modifies stages, finals
    ensures Tree(stages[..], finals[..]) == MoveAll(old(Tree(stages[..], finals[..])), number, moves, turn)
  {
    for j := 0 to stages.Length
      invariant forall i :: j <= i < stages.Length ==> stages[i] == old(stages[i]) && finals[i] == old(finals[i])
      invariant forall i :: 0 <= i < j ==>
                  stages[i] == StageLeft(old(stages[i]), number, moves(turn, i, false), moves(turn, i, true))
      invariant forall i :: 0 <= i < j ==>
                  finals[i]
                    == MovedInto(old(finals[i]), old(stages[i]), number, moves(turn, i, false), moves(turn, i, true))
    {
      hide StageLeft, MovedInto;
      var shard, meta := moves(turn, j, false), moves(turn, j, true);
      finals[j] := MovedInto(finals[j], stages[j], number, shard, meta);
      stages[j] := StageLeft(stages[j], number, shard, meta);
    }
  }

  lemma {:induction false} FailureStays(t: Tree, requested: seq<int>, moves: Moves, k: nat)
    requires |t.stages| == |t.finals| && k <= |requested| && MoveParts(t, requested[..k], moves).1.Err?
    ensures MoveParts(t, requested, moves) == MoveParts(t, requested[..k], moves)
  {
    hide FirstMeta, MoveAll, MoveParts;
    if k < |requested| {
      var n := |requested| - 1;
      assert requested[..n][..k] == requested[..k];
      FailureStays(t, requested[..n], moves, k);
      LastMove(t, requested, moves);
    } else {
      assert requested[..k] == requested;
    }
  }

  lemma NothingMoved(t: Tree, moves: Moves)
    requires |t.stages| == |t.finals|
    ensures MoveParts(t, [], moves) == (t, Ok([]))
  {
  }

  lemma LastMove(t: Tree, requested: seq<int>, moves: Moves)
    requires |t.stages| == |t.finals| && requested != []
    ensures var n := |requested| - 1;
            var (before, done) := MoveParts(t, requested[..n], moves);
            var (after, result) := MoveParts(t, requested, moves);
            && (result.Ok? <==> done.Ok? && FirstMeta(before.stages, requested[n]).Some?)
            && (done.Err? ==> after == before && result == done)
            && (result.Ok? ==>
                  && after == MoveAll(before, requested[n], moves, n)
                  && result.value == done.value + [EntryOf(FirstMeta(before.stages, requested[n]).value, requested[n])])
  {
    hide FirstMeta, MoveAll;
  }

  // Where the files of one part are

  /** No turn so far has taken the file out of its staging directory. */
  predicate Still(requested: seq<int>, moves: Moves, number: int, j: nat, meta: bool)
  {
    requested == [] ||
    var n := |requested| - 1;
    Still(requested[..n], moves, number, j, meta) && !(requested[n] == number && moves(n, j, meta).gone)
  }

  /** Some turn that found the file staged has brought it to the object. */
  predicate Arrived(requested: seq<int>, moves: Moves, number: int, j: nat, meta: bool)
  {
    requested != [] &&
    var n := |requested| - 1;
    || Arrived(requested[..n], moves, number, j, meta)
    || (requested[n] == number && Still(requested[..n], moves, number, j, meta) && moves(n, j, meta).arrived)
  }

  /** The file of one number: staged while it is still there, and in the object once it arrived,
      with what was staged; otherwise the object has what it had. */
  ghost predicate Tracks<V(!new)>(stage0: map<int, V>, final0: map<int, V>, stage: map<int, V>, final: map<int, V>,
                                  number: int, still: bool, arrived: bool)
  {
    && (number in stage <==> number in stage0 && still)
    && (number in stage ==> stage[number] == stage0[number])
    && (if number in stage0 && arrived then number in final && final[number] == stage0[number]
        else (number in final <==> number in final0) && (number in final ==> final[number] == final0[number]))
  }

  lemma OneMove<V(!new)>(stage0: map<int, V>, final0: map<int, V>, stage: map<int, V>, final: map<int, V>, number: int,
                         still: bool, arrived: bool, moved: int, o: Move)
    requires Tracks(stage0, final0, stage, final, number, still, arrived)
    ensures Tracks(stage0, final0, LeftIn(stage, moved, o), MovedTo(final, stage, moved, o), number,
                   still && !(moved == number && o.gone), arrived || (moved == number && still && o.arrived))
  {
  }

  /** Where completion leaves every file of every part, whichever moves fail. */
  lemma {:induction false} MovedFiles(t: Tree, requested: seq<int>, moves: Moves, j: nat, number: int)
    requires |t.stages| == |t.finals| && j < |t.stages|
    requires MoveParts(t, requested, moves).1.Ok?
    ensures var after := MoveParts(t, requested, moves).0;
            && Tracks(t.stages[j].shards, t.finals[j].shards, after.stages[j].shards, after.finals[j].shards, number,
                      Still(requested, moves, number, j, false), Arrived(requested, moves, number, j, false))
            && Tracks(t.stages[j].metas, t.finals[j].metas, after.stages[j].metas, after.finals[j].metas, number,
                      Still(requested, moves, number, j, true), Arrived(requested, moves, number, j, true))
  {
    hide MoveParts, LeftIn, MovedTo, FirstMeta;
    if requested == [] {
      NothingMoved(t, moves);
    } else {
      hide Tracks;
      var n := |requested| - 1;
      LastMove(t, requested, moves);
      MovedFiles(t, requested[..n], moves, j, number);
      var before := MoveParts(t, requested[..n], moves).0;
      OneMove(t.stages[j].shards, t.finals[j].shards, before.stages[j].shards, before.finals[j].shards, number,
              Still(requested[..n], moves, number, j, false), Arrived(requested[..n], moves, number, j, false),
              requested[n], moves(n, j, false));
      OneMove(t.stages[j].metas, t.finals[j].metas, before.stages[j].metas, before.finals[j].metas, number,
              Still(requested[..n], moves, number, j, true), Arrived(requested[..n], moves, number, j, true),
              requested[n], moves(n, j, true));
    }
  }

  /** The parts recorded are the requested ones, each with metadata that was staged. */
  lemma {:induction false} MovedEntries(t: Tree, requested: seq<int>, moves: Moves)
    requires |t.stages| == |t.finals|
    ensures var r := MoveParts(t, requested, moves).1;
            r.Ok? ==> EntriesStaged(t, r.value, requested)
  {
    hide FirstMeta, MoveParts;
    if requested == [] {
      NothingMoved(t, moves);
    } else {
      var n := |requested| - 1;
      var front := requested[..n];
      MovedEntries(t, front, moves);
      LastMove(t, requested, moves);
      if MoveParts(t, requested, moves).1.Ok? {
        StagedLater(t, front, moves, requested[n]);
      }
    }
  }

  ghost predicate EntriesStaged(t: Tree, entries: seq<PartEntry>, requested: seq<int>)
  {
    && |entries| == |requested|
    && forall i :: 0 <= i < |requested| ==> EntryStaged(t, entries[i], requested[i])
  }

  ghost predicate EntryStaged(t: Tree, e: PartEntry, number: int)
  {
    exists j :: 0 <= j < |t.stages| && number in t.stages[j].metas && e == EntryOf(t.stages[j].metas[number], number)
  }

  lemma StagedLater(t: Tree, front: seq<int>, moves: Moves, number: int)
    requires |t.stages| == |t.finals| && MoveParts(t, front, moves).1.Ok?
    requires FirstMeta(MoveParts(t, front, moves).0.stages, number).Some?
    ensures EntryStaged(t, EntryOf(FirstMeta(MoveParts(t, front, moves).0.stages, number).value, number), number)
  {
    var stages := MoveParts(t, front, moves).0.stages;
    var m := FirstMeta(stages, number).value;
    var j :| 0 <= j < |stages| && number in stages[j].metas && stages[j].metas[number] == m;
    hide MoveParts, FirstMeta;
    MovedFiles(t, front, moves, j, number);
  }

  // When completion succeeds

  /** At turn `i` some disk still has staged metadata of the requested part. */
  ghost predicate Findable(t: Tree, requested: seq<int>, moves: Moves, i: nat)
    requires i < |requested|
  {
    exists j :: 0 <= j < |t.stages| && requested[i] in t.stages[j].metas
                && Still(requested[..i], moves, requested[i], j, true)
  }

  lemma {:induction false} MoveSucceedsIff(t: Tree, requested: seq<int>, moves: Moves)
    requires |t.stages| == |t.finals|
    ensures MoveParts(t, requested, moves).1.Ok? <==>
            forall i :: 0 <= i < |requested| ==> Findable(t, requested, moves, i)
  {
    hide FirstMeta, MoveParts, Findable;
    if requested == [] {
      NothingMoved(t, moves);
    } else {
      var n := |requested| - 1;
      var front := requested[..n];
      MoveSucceedsIff(t, front, moves);
      LastMove(t, requested, moves);
      forall i | 0 <= i < n
        ensures Findable(t, front, moves, i) <==> Findable(t, requested, moves, i)
      {
        FindableFront(t, requested, moves, n, i);
      }
      if MoveParts(t, front, moves).1.Ok? {
        LastFound(t, requested, moves);
      }
    }
  }

  lemma FindableFront(t: Tree, requested: seq<int>, moves: Moves, n: nat, i: nat)
    requires i < n <= |requested|
    ensures Findable(t, requested[..n], moves, i) <==> Findable(t, requested, moves, i)
  {
    assert requested[..n][..i] == requested[..i];
  }

  lemma LastFound(t: Tree, requested: seq<int>, moves: Moves)
    requires |t.stages| == |t.finals| && requested != [] && MoveParts(t, requested[..|requested| - 1], moves).1.Ok?
    ensures var n := |requested| - 1;
            FirstMeta(MoveParts(t, requested[..n], moves).0.stages, requested[n]).Some?
            <==> Findable(t, requested, moves, n)
  {
    hide MoveParts, Still;
    var n := |requested| - 1;
    var stages := MoveParts(t, requested[..n], moves).0.stages;
    forall j | 0 <= j < |stages|
      ensures requested[n] in stages[j].metas <==>
              requested[n] in t.stages[j].metas && Still(requested[..n], moves, requested[n], j, true)
    {
      MovedFiles(t, requested[..n], moves, j, requested[n]);
    }
  }

  /** The first disk that has the upload has metadata of the part. */
  ghost predicate OnFirst(stages: seq<Dir>, number: int)
  {
    exists j: nat :: j < |stages| && IsFirstPresent(stages, j) && number in stages[j].metas
  }

  ghost predicate IsFirstPresent(stages: seq<Dir>, j: nat)
    requires j < |stages|
  {
    stages[j].present && forall k :: 0 <= k < j ==> !stages[k].present
  }

  lemma {:induction false} ListedIff(stages: seq<Dir>, number: int)
    ensures number in Listed(stages) <==> OnFirst(stages, number)
  {
    if stages != [] {
      var rest := stages[1..];
      assert forall j :: 0 <= j < |rest| ==> rest[j] == stages[j + 1];
      if stages[0].present {
        if number in stages[0].metas { assert IsFirstPresent(stages, 0); }
      } else {
        ListedIff(rest, number);
        if j: nat :| j < |rest| && IsFirstPresent(rest, j) && number in rest[j].metas {
          assert IsFirstPresent(stages, j + 1);
        }
        if j: nat :| j < |stages| && IsFirstPresent(stages, j) && number in stages[j].metas {
          assert IsFirstPresent(rest, j - 1);
        }
      }
    }
  }

  /** Completing succeeds exactly when every requested part is listed by the first disk that has
      the upload, its metadata is still staged somewhere when its turn comes, and some disk takes
      the object's metadata. */
  lemma CompleteSucceedsIff(t: Tree, requested: seq<int>, moves: Moves, metaSuccesses: nat)
    requires |t.stages| == |t.finals|
    ensures Complete(t, requested, moves, metaSuccesses).1.Ok? <==>
            && (forall i :: 0 <= i < |requested| ==>
                  OnFirst(t.stages, requested[i]) && Findable(t, requested, moves, i))
            && metaSuccesses > 0
  {
    hide MoveParts, FirstMeta, Listed, Findable, OnFirst;
    MoveSucceedsIff(t, requested, moves);
    forall i | 0 <= i < |requested|
      ensures requested[i] in Listed(t.stages) <==> OnFirst(t.stages, requested[i])
    {
      ListedIff(t.stages, requested[i]);
    }
  }

  ghost predicate Distinct(s: seq<int>)
  {
    forall i, j :: 0 <= i < j < |s| ==> s[i] != s[j]
  }

  /** Every metadata file that is moved leaves its staging directory. */
  ghost predicate AllGo(moves: Moves)
  {
    forall k: nat, j: nat :: moves(k, j, true).gone
  }

  lemma {:induction false} StillIffNew(requested: seq<int>, moves: Moves, number: int, j: nat)
    requires AllGo(moves)
    ensures Still(requested, moves, number, j, true) <==> number !in requested
  {
    if requested != [] {
      var n := |requested| - 1;
      StillIffNew(requested[..n], moves, number, j);
      assert requested == requested[..n] + [requested[n]];
    }
  }

  /** When the moves work, that means: every requested part is listed, and none twice. */
  lemma MovedOnce(t: Tree, requested: seq<int>, moves: Moves, metaSuccesses: nat)
    requires |t.stages| == |t.finals| && AllGo(moves)
    ensures Complete(t, requested, moves, metaSuccesses).1.Ok? <==>
            && (forall i :: 0 <= i < |requested| ==> OnFirst(t.stages, requested[i]))
            && Distinct(requested) && metaSuccesses > 0
  {
    hide Complete, Listed, Still, AllGo;
    CompleteSucceedsIff(t, requested, moves, metaSuccesses);
    forall i | 0 <= i < |requested| && OnFirst(t.stages, requested[i])
      ensures Findable(t, requested, moves, i) <==> requested[i] !in requested[..i]
    {
      forall j: nat
        ensures Still(requested[..i], moves, requested[i], j, true) <==> requested[i] !in requested[..i]
      {
        StillIffNew(requested[..i], moves, requested[i], j);
      }
    }
    DistinctIff(requested);
  }

  lemma DistinctIff(s: seq<int>)
    ensures Distinct(s) <==> forall i :: 0 <= i < |s| ==> s[i] !in s[..i]
  {
    if forall i :: 0 <= i < |s| ==> s[i] !in s[..i] {
      forall i, j | 0 <= i < j < |s|
        ensures s[i] != s[j]
      {
        assert s[..j][i] == s[i];
      }
    }
  }
}
