/** Healing an object: find the metadata most disks agree on, reconstruct the shards that are
    missing, corrupt or of another write, and write them back to their disks. */
module Heal {
  import opened ByteCodec
  import opened Metadata
  import opened ReedSolomon
  import opened Decoder
  import opened ShardVolume

  datatype HealResult = Healthy | Repaired(shardsFixed: nat) | Unrecoverable

  datatype HealError = NotFound | NoQuorum

  function Replies(disks: seq<Disk>): (r: seq<ShardRead>)
    ensures |r| == |disks|
    ensures forall j :: 0 <= j < |disks| ==> r[j] == disks[j].ReadShard()
  {
    seq(|disks|, j requires 0 <= j < |disks| => disks[j].ReadShard())
  }

  // Consensus

  /** Reads `i` and `j` carry compatible metadata. */
  predicate Alike(replies: seq<ShardRead>, i: nat, j: nat)
    requires i < |replies| && j < |replies|
  {
    replies[i].Some? && replies[j].Some? && replies[i].value.1.QuorumEq(replies[j].value.1)
  }

  lemma AlikeIsEquivalence(replies: seq<ShardRead>, i: nat, j: nat, k: nat)
    requires i < |replies| && j < |replies| && k < |replies|
    ensures Alike(replies, i, i) <==> replies[i].Some?
    ensures Alike(replies, i, j) ==> Alike(replies, j, i)
    ensures Alike(replies, i, j) && Alike(replies, j, k) ==> Alike(replies, i, k)
  {
  }

  /** How many of the first `n` reads are compatible with read `i`. */
  function ClassSize(replies: seq<ShardRead>, i: nat, n: nat): (c: nat)
    requires i < |replies| && n <= |replies|
  {
    if n == 0 then 0 else ClassSize(replies, i, n - 1) + if Alike(replies, i, n - 1) then 1 else 0
  }

  /** A group of compatible metadata: the read it was first seen in, and its size. */
  datatype Group = Group(first: nat, count: nat)

  /** Every group was first seen in one of the first `n` reads. */
  predicate SeenBefore(replies: seq<ShardRead>, groups: seq<Group>, n: nat)
    requires n <= |replies|
  {
    forall k :: 0 <= k < |groups| ==> groups[k].first < n && replies[groups[k].first].Some?
  }

  function FindGroup(replies: seq<ShardRead>, groups: seq<Group>, j: nat): (g: nat)
    requires j < |replies| && SeenBefore(replies, groups, j)
    ensures g <= |groups|
    ensures g < |groups| ==> Alike(replies, groups[g].first, j)
    ensures forall k :: 0 <= k < g ==> !Alike(replies, groups[k].first, j)
  {
    if groups == [] then 0
    else if Alike(replies, groups[0].first, j) then 0
    else
      assert forall k :: 0 < k < |groups| ==> groups[k] == groups[1..][k - 1];
      FindGroup(replies, groups[1..], j) + 1
  }

  /** The groups of the first `n` reads, in order of first appearance. */
  function GroupsOf(replies: seq<ShardRead>, n: nat): (groups: seq<Group>)
    requires n <= |replies|
    ensures SeenBefore(replies, groups, n)
  {
    if n == 0 then []
    else
      var groups := GroupsOf(replies, n - 1);
      if replies[n - 1].None? then groups
      else
        var g := FindGroup(replies, groups, n - 1);
        if g < |groups| then groups[g := groups[g].(count := groups[g].count + 1)]
        else groups + [Group(n - 1, 1)]
  }

  /** The first group of maximal size: the head of a stable sort by descending size. */
  function Best(groups: seq<Group>): (g: nat)
    requires groups != []
    ensures g < |groups|
    ensures forall k :: 0 <= k < |groups| ==> groups[k].count <= groups[g].count
    ensures forall k :: 0 <= k < g ==> groups[k].count < groups[g].count
  {
    if |groups| == 1 then 0
    else
      var n := |groups| - 1;
      var g := Best(groups[..n]);
      assert forall k :: 0 <= k < n ==> groups[..n][k] == groups[k];
      if groups[n].count > groups[g].count then n else g
  }

  function FindConsensus(replies: seq<ShardRead>, dataN: nat): (r: Result<ObjectMeta, HealError>)
  {
    var groups := GroupsOf(replies, |replies|);
    if groups == [] then Err(NotFound)
    else
      var best := groups[Best(groups)];
      if best.count < dataN then Err(NoQuorum) else Ok(replies[best.first].value.1)
  }

  method FindConsensusMeta(replies: seq<ShardRead>, dataN: nat) returns (r: Result<ObjectMeta, HealError>)
    ensures r == FindConsensus(replies, dataN)
  {
    hide Alike;
    var groups: seq<Group> := [];
    for i := 0 to |replies|
      invariant groups == GroupsOf(replies, i)
    {
      if replies[i].Some? {
        var g := FindGroup(replies, groups, i);
        if g < |groups| {
          groups := groups[g := groups[g].(count := groups[g].count + 1)];
        } else {
          groups := groups + [Group(i, 1)];
        }
      }
    }
    if groups == [] { return Err(NotFound); }
    var best := groups[Best(groups)];
    if best.count < dataN { return Err(NoQuorum); }
    r := Ok(replies[best.first].value.1);
  }

  /** Reference definition: read `i` has the largest class, and no earlier read has one as
      large. */
  ghost predicate Plurality(replies: seq<ShardRead>, i: nat)
  {
    && i < |replies| && replies[i].Some?
    && (forall j :: 0 <= j < |replies| && replies[j].Some? ==>
          ClassSize(replies, j, |replies|) <= ClassSize(replies, i, |replies|))
    && (forall j :: 0 <= j < i && replies[j].Some? ==>
          ClassSize(replies, j, |replies|) < ClassSize(replies, i, |replies|))
  }

  /** Groups are listed by first member, and no two are compatible. */
  ghost predicate Apart(replies: seq<ShardRead>, groups: seq<Group>, n: nat)
    requires n <= |replies| && SeenBefore(replies, groups, n)
  {
    forall k, l :: 0 <= k < l < |groups| ==>
      groups[k].first < groups[l].first && !Alike(replies, groups[k].first, groups[l].first)
  }

  ghost predicate Counted(replies: seq<ShardRead>, groups: seq<Group>, n: nat)
    requires n <= |replies| && SeenBefore(replies, groups, n)
  {
    forall k :: 0 <= k < |groups| ==> groups[k].count == ClassSize(replies, groups[k].first, n)
  }

  /** Read `j` belongs to group `k`, which was first seen no later. */
  ghost predicate Member(replies: seq<ShardRead>, groups: seq<Group>, j: nat, k: nat)
  {
    && j < |replies| && k < |groups| && groups[k].first < |replies|
    && groups[k].first <= j && Alike(replies, groups[k].first, j)
  }

  ghost predicate Covers(replies: seq<ShardRead>, groups: seq<Group>, n: nat)
    requires n <= |replies|
  {
    forall j :: 0 <= j < n && replies[j].Some? ==> exists k: nat :: Member(replies, groups, j, k)
  }

  lemma {:induction false} EmptyClass(replies: seq<ShardRead>, i: nat, n: nat)
    requires i < |replies| && n <= |replies| && forall j :: 0 <= j < n ==> !Alike(replies, i, j)
    ensures ClassSize(replies, i, n) == 0
  {
    if n > 0 {
      EmptyClass(replies, i, n - 1);
    }
  }

  lemma JoinCounts(replies: seq<ShardRead>, groups: seq<Group>, n: nat, g: nat, k: nat)
    requires n < |replies| && SeenBefore(replies, groups, n) && g < |groups| && Alike(replies, groups[g].first, n)
    requires Apart(replies, groups, n) && Counted(replies, groups, n) && k < |groups|
    ensures ClassSize(replies, groups[k].first, n + 1) == groups[k].count + if k == g then 1 else 0
  {
    hide Alike;
    var f := groups[k].first;
    assert groups[k].count == ClassSize(replies, f, n);
    if k != g {
      assert !Alike(replies, if k < g then f else groups[g].first, if k < g then groups[g].first else f);
      AlikeIsEquivalence(replies, f, groups[g].first, n);
      NotAlsoAlike(replies, f, groups[g].first, n);
    }
  }

  lemma JoinCovers(replies: seq<ShardRead>, groups: seq<Group>, r: seq<Group>, n: nat, g: nat)
    requires n < |replies| && SeenBefore(replies, groups, n) && g < |groups| && Alike(replies, groups[g].first, n)
    requires Covers(replies, groups, n)
    requires |r| == |groups| && forall k :: 0 <= k < |r| ==> r[k].first == groups[k].first
    ensures Covers(replies, r, n + 1)
  {
    hide Alike;
    forall j | 0 <= j < n + 1 && replies[j].Some?
      ensures exists k: nat :: Member(replies, r, j, k)
    {
      if j == n {
        assert Member(replies, r, j, g);
      } else {
        var k: nat :| Member(replies, groups, j, k);
        assert Member(replies, r, j, k);
      }
    }
  }

  lemma JoinGroup(replies: seq<ShardRead>, groups: seq<Group>, n: nat, g: nat)
    requires n < |replies| && SeenBefore(replies, groups, n) && g < |groups| && Alike(replies, groups[g].first, n)
    requires Apart(replies, groups, n) && Counted(replies, groups, n) && Covers(replies, groups, n)
    ensures var r := groups[g := groups[g].(count := groups[g].count + 1)];
            && SeenBefore(replies, r, n + 1)
            && Apart(replies, r, n + 1) && Counted(replies, r, n + 1) && Covers(replies, r, n + 1)
  {
    hide Alike, ClassSize, Covers;
    var r := groups[g := groups[g].(count := groups[g].count + 1)];
    assert forall k :: 0 <= k < |r| ==> r[k].first == groups[k].first;
    forall k | 0 <= k < |r|
      ensures r[k].count == ClassSize(replies, r[k].first, n + 1)
    {
      JoinCounts(replies, groups, n, g, k);
    }
    JoinCovers(replies, groups, r, n, g);
  }

  lemma NotAlsoAlike(replies: seq<ShardRead>, i: nat, j: nat, n: nat)
    requires i < |replies| && j < |replies| && n < |replies| && Alike(replies, j, n)
    ensures Alike(replies, i, n) ==> Alike(replies, i, j)
  {
  }

  lemma NewGroup(replies: seq<ShardRead>, groups: seq<Group>, n: nat)
    requires n < |replies| && SeenBefore(replies, groups, n) && replies[n].Some?
    requires forall k :: 0 <= k < |groups| ==> !Alike(replies, groups[k].first, n)
    requires Apart(replies, groups, n) && Counted(replies, groups, n) && Covers(replies, groups, n)
    ensures var r := groups + [Group(n, 1)];
            && SeenBefore(replies, r, n + 1)
            && Apart(replies, r, n + 1) && Counted(replies, r, n + 1) && Covers(replies, r, n + 1)
  {
    hide Alike;
    var r := groups + [Group(n, 1)];
    AlikeIsEquivalence(replies, n, n, n);
    forall j | 0 <= j < n
      ensures !Alike(replies, n, j)
    {
      if replies[j].Some? {
        var k: nat :| Member(replies, groups, j, k);
        AlikeIsEquivalence(replies, n, j, j);
        AlikeIsEquivalence(replies, groups[k].first, j, n);
      } else {
        AlikeIsSome(replies, n, j);
      }
    }
    EmptyClass(replies, n, n);
    forall k | 0 <= k < |r|
      ensures r[k].count == ClassSize(replies, r[k].first, n + 1)
    {
    }
    forall j | 0 <= j < n + 1 && replies[j].Some?
      ensures exists k: nat :: Member(replies, r, j, k)
    {
      if j == n {
        assert Member(replies, r, j, |groups|);
      } else {
        var k: nat :| Member(replies, groups, j, k);
        assert Member(replies, r, j, k);
      }
    }
  }

  lemma AlikeIsSome(replies: seq<ShardRead>, i: nat, j: nat)
    requires i < |replies| && j < |replies|
    ensures Alike(replies, i, j) ==> replies[i].Some? && replies[j].Some?
  {
  }

  lemma {:induction false} GroupsAreClasses(replies: seq<ShardRead>, n: nat)
    requires n <= |replies|
    ensures var groups := GroupsOf(replies, n);
            Apart(replies, groups, n) && Counted(replies, groups, n) && Covers(replies, groups, n)
  {
    hide Alike, Apart, Counted, Covers, SeenBefore, FindGroup;
    if n == 0 {
      NoGroups(replies);
    }
    if n > 0 {
      var groups := GroupsOf(replies, n - 1);
      GroupsAreClasses(replies, n - 1);
      if replies[n - 1].Some? {
        var g := FindGroup(replies, groups, n - 1);
        if g < |groups| {
          JoinGroup(replies, groups, n - 1, g);
        } else {
          NewGroup(replies, groups, n - 1);
        }
      } else {
        SkipNone(replies, groups, n - 1);
      }
    }
  }

  lemma NoGroups(replies: seq<ShardRead>)
    ensures Apart(replies, [], 0) && Counted(replies, [], 0) && Covers(replies, [], 0)
  {
  }

  lemma SkipNone(replies: seq<ShardRead>, groups: seq<Group>, n: nat)
    requires n < |replies| && SeenBefore(replies, groups, n) && replies[n].None?
    requires Apart(replies, groups, n) && Counted(replies, groups, n) && Covers(replies, groups, n)
    ensures Apart(replies, groups, n + 1) && Counted(replies, groups, n + 1) && Covers(replies, groups, n + 1)
  {
    hide Alike;
    forall k | 0 <= k < |groups|
      ensures groups[k].count == ClassSize(replies, groups[k].first, n + 1)
    {
      AlikeIsSome(replies, groups[k].first, n);
    }
  }

  lemma {:induction false} SameClassSize(replies: seq<ShardRead>, i: nat, j: nat, n: nat)
    requires i < |replies| && j < |replies| && n <= |replies| && Alike(replies, i, j)
    ensures ClassSize(replies, i, n) == ClassSize(replies, j, n)
  {
    hide Alike;
    if n > 0 {
      SameClassSize(replies, i, j, n - 1);
      AlikeIsEquivalence(replies, i, j, n - 1);
      AlikeIsEquivalence(replies, j, i, n - 1);
    }
  }

  /** What consensus is: the metadata of the first read whose class is largest. It is refused
      exactly when there is no read, or no class reaches the quorum. */
  ghost predicate ConsensusOk(replies: seq<ShardRead>, dataN: nat, r: Result<ObjectMeta, HealError>)
  {
    match r
    case Ok(m) =>
      exists i: nat :: Plurality(replies, i) && replies[i].value.1 == m && ClassSize(replies, i, |replies|) >= dataN
    case Err(NotFound) => NothingRead(replies)
    case Err(NoQuorum) =>
      && !NothingRead(replies)
      && forall j :: 0 <= j < |replies| && replies[j].Some? ==> ClassSize(replies, j, |replies|) < dataN
  }

  lemma ConsensusIsPlurality(replies: seq<ShardRead>, dataN: nat)
    ensures ConsensusOk(replies, dataN, FindConsensus(replies, dataN))
  {
    hide Alike, ClassSize, GroupsOf, Apart, Counted, Covers, Best, Plurality;
    var n := |replies|;
    var groups := GroupsOf(replies, n);
    GroupsAreClasses(replies, n);
    if groups == [] {
      NothingCovered(replies, n);
    } else {
      BestIsPlurality(replies, groups);
    }
  }

  lemma NothingCovered(replies: seq<ShardRead>, n: nat)
    requires n == |replies| && Covers(replies, [], n)
    ensures NothingRead(replies)
  {
    hide Alike;
  }

  lemma BestIsPlurality(replies: seq<ShardRead>, groups: seq<Group>)
    requires var n := |replies|;
             && SeenBefore(replies, groups, n) && groups != []
             && Apart(replies, groups, n) && Counted(replies, groups, n) && Covers(replies, groups, n)
    ensures var n, best := |replies|, groups[Best(groups)];
            && Plurality(replies, best.first) && best.count == ClassSize(replies, best.first, n)
            && forall j :: 0 <= j < n && replies[j].Some? ==> ClassSize(replies, j, n) <= best.count
  {
    hide Alike, ClassSize, Apart, Covers;
    var n, g := |replies|, Best(groups);
    forall j | 0 <= j < n && replies[j].Some?
      ensures ClassSize(replies, j, n) <= groups[g].count
      ensures j < groups[g].first ==> ClassSize(replies, j, n) < groups[g].count
    {
      MemberSize(replies, groups, n, g, j);
    }
  }

  lemma MemberSize(replies: seq<ShardRead>, groups: seq<Group>, n: nat, g: nat, j: nat)
    requires n == |replies| && SeenBefore(replies, groups, n)
    requires Apart(replies, groups, n) && Counted(replies, groups, n) && Covers(replies, groups, n)
    requires g < |groups| && (forall k :: 0 <= k < |groups| ==> groups[k].count <= groups[g].count)
    requires forall k :: 0 <= k < g ==> groups[k].count < groups[g].count
    requires j < n && replies[j].Some?
    ensures ClassSize(replies, j, n) <= groups[g].count
    ensures j < groups[g].first ==> ClassSize(replies, j, n) < groups[g].count
  {
    hide Alike, ClassSize;
    var k: nat :| Member(replies, groups, j, k);
    SameClassSize(replies, groups[k].first, j, n);
    assert groups[k].count == ClassSize(replies, groups[k].first, n);
    assert g < k ==> groups[g].first < groups[k].first;
  }

  lemma PluralityUnique(replies: seq<ShardRead>, i: nat, j: nat)
    requires Plurality(replies, i) && Plurality(replies, j)
    ensures i == j
  {
    hide ClassSize;
  }

  // Classify, reconstruct, write back

  predicate GoodRead(verify: (bytes, string) -> bool, total: nat, m: ObjectMeta, reply: ShardRead)
  {
    && reply.Some? && reply.value.1.erasure.index < total
    && reply.value.1.QuorumEq(m) && verify(reply.value.0, reply.value.1.checksum)
  }

  /** The good shards by index, after the first `n` reads. */
  function Classified(verify: (bytes, string) -> bool, total: nat, m: ObjectMeta, replies: seq<ShardRead>, n: nat)
    : (slots: seq<Option<bytes>>)
    requires n <= |replies|
    ensures |slots| == total
  {
    if n == 0 then seq(total, _ => None)
    else
      var slots := Classified(verify, total, m, replies, n - 1);
      var reply := replies[n - 1];
      if GoodRead(verify, total, m, reply) then slots[reply.value.1.erasure.index := Some(reply.value.0)] else slots
  }

  /** The disk with a volume id; the last one if several claim it. */
  function DiskWith(disks: seq<Disk>, id: string): (r: Option<nat>)
    ensures r.Some? ==> r.value < |disks| && disks[r.value].volumeId == id
    ensures r.None? ==> forall j :: 0 <= j < |disks| ==> disks[j].volumeId != id
  {
    if disks == [] then None
    else
      var n := |disks| - 1;
      if disks[n].volumeId == id then Some(n) else DiskWith(disks[..n], id)
  }

  /** Where shard `i` belongs: the disk named by the metadata, or disk `i` if there is none. */
  function Target(disks: seq<Disk>, m: ObjectMeta, i: nat): (j: nat)
  {
    if i < |m.erasure.volumeIds| && DiskWith(disks, m.erasure.volumeIds[i]).Some?
    then DiskWith(disks, m.erasure.volumeIds[i]).value else i
  }

  /** It is the last disk of that name, if one has it. */
  lemma {:induction false} LastOfName(disks: seq<Disk>, id: string, j: nat)
    ensures DiskWith(disks, id) == Some(j)
            <==> j < |disks| && disks[j].volumeId == id && forall k :: j < k < |disks| ==> disks[k].volumeId != id
  {
    if disks != [] {
      LastOfName(disks[..|disks| - 1], id, j);
    }
  }

  /** The disk a repaired shard goes to: the last one with the volume id that the metadata names for
      it; without such a disk, the one at the position of the shard. */
  lemma TargetIs(disks: seq<Disk>, m: ObjectMeta, i: nat)
    ensures var j := Target(disks, m, i);
            if i < |m.erasure.volumeIds| && exists k :: 0 <= k < |disks| && disks[k].volumeId == m.erasure.volumeIds[i]
            then && j < |disks| && disks[j].volumeId == m.erasure.volumeIds[i]
                 && forall k :: j < k < |disks| ==> disks[k].volumeId != m.erasure.volumeIds[i]
            else j == i
  {
    hide DiskWith;
    if i < |m.erasure.volumeIds| && DiskWith(disks, m.erasure.volumeIds[i]).Some? {
      LastOfName(disks, m.erasure.volumeIds[i], DiskWith(disks, m.erasure.volumeIds[i]).value);
    }
  }

  function HealedMeta(m: ObjectMeta, hash: bytes -> string, shard: bytes, i: nat): (r: ObjectMeta)
  {
    m.(erasure := m.erasure.(index := i), checksum := hash(shard))
  }

  /** The disks and the number of repaired shards after the first `n` positions. `fate` says how
      each write-back ends. */
  function WrittenBack(disks: seq<Disk>, m: ObjectMeta, hash: bytes -> string, good: seq<Option<bytes>>,
                       full: seq<Option<bytes>>, fate: nat -> Fate, n: nat): (r: (seq<Disk>, nat))
    requires |good| == |full| && n <= |good|
    ensures |r.0| == |disks|
  {
    if n == 0 then (disks, 0)
    else
      var (prev, fixed) := WrittenBack(disks, m, hash, good, full, fate, n - 1);
      var i := n - 1;
      var j := Target(disks, m, i);
      if good[i].Some? || j >= |disks| || full[i].None? || fate(i).Failed? then (prev, fixed)
      else (prev[j := prev[j].Write(full[i].value, HealedMeta(m, hash, full[i].value, i), fate(i))], fixed + 1)
  }

  function FirstReply(replies: seq<ShardRead>): (m: Option<ObjectMeta>)
  {
    if replies == [] then None
    else if replies[0].Some? then Some(replies[0].value.1)
    else FirstReply(replies[1..])
  }

  predicate AllShaped(disks: seq<Disk>)
  {
    forall j :: 0 <= j < |disks| && disks[j].Stat().Some? ==> disks[j].Stat().value.erasure.Shaped()
  }

  lemma {:induction false} FirstReplyIsRead(replies: seq<ShardRead>)
    ensures FirstReply(replies).None? <==> NothingRead(replies)
    ensures FirstReply(replies).Some? ==>
              exists i :: 0 <= i < |replies| && replies[i].Some? && replies[i].value.1 == FirstReply(replies).value
  {
    if replies != [] {
      FirstReplyIsRead(replies[1..]);
      assert forall i :: 0 <= i < |replies| - 1 ==> replies[1..][i] == replies[i + 1];
    }
  }

  lemma FirstReplyShaped(disks: seq<Disk>)
    requires AllShaped(disks) && FirstReply(Replies(disks)).Some?
    ensures FirstReply(Replies(disks)).value.erasure.Shaped()
  {
    FirstReplyIsRead(Replies(disks));
  }

  function HealObject(code: Code, verify: (bytes, string) -> bool, hash: bytes -> string, disks: seq<Disk>,
                      fate: nat -> Fate)
    : (r: (seq<Disk>, Result<HealResult, HealError>))
    requires AllShaped(disks)
    ensures |r.0| == |disks|
  {
    var replies := Replies(disks);
    match FirstReply(replies)
    case None => (disks, Err(NotFound))
    case Some(first) =>
      FirstReplyShaped(disks);
      var d, p := first.erasure.Data(), first.erasure.Parity();
      match FindConsensus(replies, d)
      case Err(e) => (disks, Err(e))
      case Ok(m) =>
        var good := Classified(verify, d + p, m, replies, |replies|);
        if CountSome(good) == d + p then (disks, Ok(Healthy))
        else if CountSome(good) < d then (disks, Ok(Unrecoverable))
        else
          match RepairAll(code, d, p, good)
          case None => (disks, Err(NoQuorum))
          case Some(full) =>
            var (after, fixed) := WrittenBack(disks, m, hash, good, full, fate, d + p);
            (after, Ok(Repaired(fixed)))
  }

  /** Reconstruction as the heal worker calls it; a result of the wrong arity counts as failure. */
  function RepairAll(code: Code, d: nat, p: nat, good: seq<Option<bytes>>): (r: Option<seq<Option<bytes>>>)
    ensures r.Some? ==> |r.value| == |good|
  {
    match Repair(code, d, p, good)
    case None => None
    case Some(full) => if |full| == |good| then Some(full) else None
  }

  method HealObjectOn(code: Code, verify: (bytes, string) -> bool, hash: bytes -> string, disks: array<Disk>,
                      fate: nat -> Fate)
    returns (r: Result<HealResult, HealError>)
    requires AllShaped(disks[..])
    modifies disks
    ensures (disks[..], r) == HealObject(code, verify, hash, old(disks[..]), fate)
  {
    hide FindConsensus, Repair, HealedMeta, Target;
    ghost var before := disks[..];
    var replies: seq<ShardRead> := [];
    for i := 0 to disks.Length
      invariant disks[..] == before
      invariant replies == Replies(before)[..i]
    {
      assert disks[i] == before[i];
      replies := replies + [disks[i].ReadShard()];
    }
    assert replies == Replies(before);
    var first := FirstReply(replies);
    if first == None { return Err(NotFound); }
    FirstReplyShaped(before);
    var d, p := first.value.erasure.Data(), first.value.erasure.Parity();
    var consensus := FindConsensusMeta(replies, d);
    if consensus.Err? { return Err(consensus.error); }
    var m := consensus.value;
    var good: seq<Option<bytes>> := seq(d + p, _ => None);
    for i := 0 to |replies|
      invariant good == Classified(verify, d + p, m, replies, i)
    {
      if GoodRead(verify, d + p, m, replies[i]) {
        good := good[replies[i].value.1.erasure.index := Some(replies[i].value.0)];
      }
    }
    if CountSome(good) == d + p { return Ok(Healthy); }
    if CountSome(good) < d { return Ok(Unrecoverable); }
    var full := RepairAll(code, d, p, good);
    if full == None { return Err(NoQuorum); }
    var fixed := WriteBack(disks, m, hash, good, full.value, fate);
    r := Ok(Repaired(fixed));
  }

  /** Write every shard that was not good to its disk. */
  method WriteBack(disks: array<Disk>, m: ObjectMeta, hash: bytes -> string, good: seq<Option<bytes>>,
                   full: seq<Option<bytes>>, fate: nat -> Fate) returns (fixed: nat)
    requires |good| == |full|
    modifies disks
    ensures (disks[..], fixed) == WrittenBack(old(disks[..]), m, hash, good, full, fate, |good|)
  {
    hide HealedMeta, Target;
    ghost var before := disks[..];
    var listing := disks[..];
    fixed := 0;
    for i := 0 to |good|
      invariant (disks[..], fixed) == WrittenBack(before, m, hash, good, full, fate, i)
    {
      var j := Target(listing, m, i);
      if good[i].None? && j < disks.Length && full[i].Some? && !fate(i).Failed? {
        disks[j] := disks[j].Write(full[i].value, HealedMeta(m, hash, full[i].value, i), fate(i));
        fixed := fixed + 1;
      }
    }
  }
}
