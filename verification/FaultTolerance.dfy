/** The commit of an erasure-coded write with its quorum and rollback, and what an
    acknowledged write survives. */
module FaultTolerance {
  import opened ByteCodec
  import opened Metadata
  import opened ReedSolomon
  import opened Striping
  import opened Decoder
  import Placement
  import PlacementPlan

  datatype WriteError = WriteQuorum

  /** The metadata stored with shard `i`. */
  function MetaFor(base: ObjectMeta, shard: bytes, hash: bytes -> string, i: nat): (m: ObjectMeta)
  {
    base.(erasure := base.erasure.(index := i), checksum := hash(shard))
  }

  function StoredShard(base: ObjectMeta, shards: seq<bytes>, hash: bytes -> string, i: nat): (r: ShardRead)
    requires i < |shards|
  {
    Some((shards[i], MetaFor(base, shards[i], hash, i)))
  }

  /** Shard `i` goes to disk `dist[i]`; every target exists. */
  predicate InRange(dist: seq<nat>, disks: nat)
  {
    forall i :: 0 <= i < |dist| ==> dist[i] < disks
  }

  /** The disks after finalizing the first `n` writers; a writer that fails leaves its disk
      without the new shard. */
  function Finalized(disks: seq<ShardRead>, dist: seq<nat>, base: ObjectMeta, shards: seq<bytes>, hash: bytes -> string,
                     ok: seq<bool>, n: nat): (r: seq<ShardRead>)
    requires |dist| == |ok| == |shards| && n <= |ok| && InRange(dist, |disks|)
    ensures |r| == |disks|
  {
    if n == 0 then disks
    else
      var prev := Finalized(disks, dist, base, shards, hash, ok, n - 1);
      if ok[n - 1] then prev[dist[n - 1] := StoredShard(base, shards, hash, n - 1)] else prev
  }

  /** The disks after deleting the object from the first `n` disks that took a shard; a delete
      may fail, which is not noticed. */
  function RolledBack(disks: seq<ShardRead>, dist: seq<nat>, ok: seq<bool>, erased: nat -> bool,
                      n: nat): (r: seq<ShardRead>)
    requires |dist| == |ok| && n <= |ok| && InRange(dist, |disks|)
    ensures |r| == |disks|
  {
    if n == 0 then disks
    else
      var prev := RolledBack(disks, dist, ok, erased, n - 1);
      if ok[n - 1] && erased(n - 1) then prev[dist[n - 1] := None] else prev
  }

  function CountTrue(ok: seq<bool>): (c: nat)
  {
    if ok == [] then 0 else CountTrue(ok[..|ok| - 1]) + if ok[|ok| - 1] then 1 else 0
  }

  /** The whole commit: finalize all, and undo it when too few succeeded. */
  function Commit(d: nat, p: nat, disks: seq<ShardRead>, dist: seq<nat>, base: ObjectMeta, shards: seq<bytes>,
                  hash: bytes -> string, ok: seq<bool>,
                  erased: nat -> bool): (r: (seq<ShardRead>, Result<nat, WriteError>))
    requires |dist| == |ok| == |shards| && InRange(dist, |disks|)
    ensures |r.0| == |disks|
  {
    var after := Finalized(disks, dist, base, shards, hash, ok, |ok|);
    if CountTrue(ok) < WriteQuorumOf(d, p) then (RolledBack(after, dist, ok, erased, |ok|), Err(WriteQuorum))
    else (after, Ok(CountTrue(ok)))
  }

  function TrueSet(ok: seq<bool>): (r: set<nat>)
  {
    set i | 0 <= i < |ok| && ok[i]
  }

  lemma {:induction false} TrueSetSize(ok: seq<bool>)
    ensures |TrueSet(ok)| == CountTrue(ok)
  {
    if ok == [] {
      assert TrueSet(ok) == {};
    } else {
      var n := |ok| - 1;
      TrueSetSize(ok[..n]);
      assert TrueSet(ok) == TrueSet(ok[..n]) + if ok[n] then {n} else {};
    }
  }

  method CommitWrite(d: nat, p: nat, disks: array<ShardRead>, dist: seq<nat>, base: ObjectMeta, shards: seq<bytes>,
                     hash: bytes -> string, ok: seq<bool>, erased: nat -> bool) returns (r: Result<nat, WriteError>)
    requires |dist| == |ok| == |shards| && InRange(dist, disks.Length)
    modifies disks
    ensures (disks[..], r) == Commit(d, p, old(disks[..]), dist, base, shards, hash, ok, erased)
  {
    hide StoredShard;
    var successes: nat := 0;
    for i := 0 to |ok|
      invariant disks[..] == Finalized(old(disks[..]), dist, base, shards, hash, ok, i)
      invariant successes == CountTrue(ok[..i])
    {
      assert ok[..i + 1][..i] == ok[..i];
      if ok[i] {
        disks[dist[i]] := StoredShard(base, shards, hash, i);
        successes := successes + 1;
      }
    }
    assert ok[..|ok|] == ok;
    if successes < WriteQuorumOf(d, p) {
      ghost var after := disks[..];
      for i := 0 to |ok|
        invariant disks[..] == RolledBack(after, dist, ok, erased, i)
      {
        if ok[i] && erased(i) {
          disks[dist[i]] := None;
        }
      }
      return Err(WriteQuorum);
    }
    r := Ok(successes);
  }

  ghost predicate Injective(dist: seq<nat>)
  {
    forall i, j :: 0 <= i < j < |dist| ==> dist[i] != dist[j]
  }

  lemma {:induction false} FinalizedAt(disks: seq<ShardRead>, dist: seq<nat>, base: ObjectMeta, shards: seq<bytes>,
                                       hash: bytes -> string, ok: seq<bool>, n: nat)
    requires |dist| == |ok| == |shards| && n <= |ok| && InRange(dist, |disks|) && Injective(dist)
    ensures var r := Finalized(disks, dist, base, shards, hash, ok, n);
            && (forall i :: 0 <= i < n && ok[i] ==> r[dist[i]] == StoredShard(base, shards, hash, i))
            && (forall j :: 0 <= j < |disks| && (forall i :: 0 <= i < n && ok[i] ==> dist[i] != j) ==> r[j] == disks[j])
  {
    hide StoredShard;
    if n > 0 {
      FinalizedAt(disks, dist, base, shards, hash, ok, n - 1);
    }
  }

  lemma {:induction false} RolledBackAt(disks: seq<ShardRead>, dist: seq<nat>, ok: seq<bool>, erased: nat -> bool,
                                        n: nat)
    requires |dist| == |ok| && n <= |ok| && InRange(dist, |disks|)
    ensures var r := RolledBack(disks, dist, ok, erased, n);
            && (forall i :: 0 <= i < n && ok[i] && erased(i) ==> r[dist[i]] == None)
            && (forall j :: 0 <= j < |disks| && (forall i :: 0 <= i < n && ok[i] && erased(i) ==> dist[i] != j) ==>
                  r[j] == disks[j])
  {
    if n > 0 {
      RolledBackAt(disks, dist, ok, erased, n - 1);
    }
  }

  /** No disk holds the object yet. */
  predicate Absent(disks: seq<ShardRead>)
  {
    NothingRead(disks)
  }

  /** A write is refused exactly when fewer than `d` shards are finalized, or `d + 1` with parity;
      otherwise it reports how many were. A refused write of a new object leaves a shard
      behind exactly where the rollback's delete fails, so it leaves no trace exactly when all
      deletes succeed. */
  lemma RefusedWriteLeaves(d: nat, p: nat, disks: seq<ShardRead>, dist: seq<nat>, base: ObjectMeta, shards: seq<bytes>,
                           hash: bytes -> string, ok: seq<bool>, erased: nat -> bool)
    requires |dist| == |ok| == |shards| && InRange(dist, |disks|) && Injective(dist) && Absent(disks)
    ensures var (after, r) := Commit(d, p, disks, dist, base, shards, hash, ok, erased);
            && (r.Err? <==> |TrueSet(ok)| < if p == 0 then d else d + 1)
            && (r.Ok? ==> r.value == |TrueSet(ok)|)
            && (r.Err? ==> forall i :: 0 <= i < |ok| ==>
                  after[dist[i]] == if ok[i] && !erased(i) then StoredShard(base, shards, hash, i) else None)
            && (r.Err? ==> (Absent(after) <==> forall i :: 0 <= i < |ok| && ok[i] ==> erased(i)))
  {
    hide Finalized, RolledBack, CountTrue;
    TrueSetSize(ok);
    var full := Finalized(disks, dist, base, shards, hash, ok, |ok|);
    FinalizedAt(disks, dist, base, shards, hash, ok, |ok|);
    RolledBackAt(full, dist, ok, erased, |ok|);
    var back := RolledBack(full, dist, ok, erased, |ok|);
    forall i | 0 <= i < |ok|
      ensures back[dist[i]] == if ok[i] && !erased(i) then StoredShard(base, shards, hash, i) else None
    {
      assert !ok[i] ==> full[dist[i]] == disks[dist[i]];
      assert disks[dist[i]].None?;
    }
    forall j | 0 <= j < |back|
      ensures back[j].None? || exists i :: 0 <= i < |ok| && dist[i] == j && ok[i] && !erased(i)
    {
      assert disks[j].None?;
    }
  }

  // What survives

  /** A freshly computed checksum verifies. */
  ghost predicate Honest(verify: (bytes, string) -> bool, hash: bytes -> string)
  {
    forall x: bytes :: verify(x, hash(x))
  }

  /** What is read later: each disk as it was left, or not usable any more. */
  ghost predicate Damaged(verify: (bytes, string) -> bool, total: nat, left: seq<ShardRead>, replies: seq<ShardRead>)
  {
    |replies| == |left| && forall j :: 0 <= j < |left| ==> replies[j] == left[j] || !Usable(verify, total, replies[j])
  }

  /** The shards that were finalized and are still usable. */
  function Survivors(verify: (bytes, string) -> bool, dist: seq<nat>, ok: seq<bool>,
                     replies: seq<ShardRead>): (r: set<nat>)
    requires |dist| == |ok| && InRange(dist, |replies|)
  {
    set i | 0 <= i < |ok| && ok[i] && Usable(verify, |ok|, replies[dist[i]])
  }

  lemma LeftShards(verify: (bytes, string) -> bool, disks: seq<ShardRead>, dist: seq<nat>, base: ObjectMeta,
                   shards: seq<bytes>,
                   hash: bytes -> string, ok: seq<bool>, replies: seq<ShardRead>, j: nat) returns (i: nat)
    requires |dist| == |ok| == |shards| && InRange(dist, |disks|) && Injective(dist) && Absent(disks)
    requires Damaged(verify, |ok|, Finalized(disks, dist, base, shards, hash, ok, |ok|), replies)
    requires j < |replies| && Usable(verify, |ok|, replies[j])
    ensures i < |ok| && ok[i] && dist[i] == j && replies[j] == StoredShard(base, shards, hash, i)
  {
    hide Finalized, StoredShard;
    var left := Finalized(disks, dist, base, shards, hash, ok, |ok|);
    FinalizedAt(disks, dist, base, shards, hash, ok, |ok|);
    assert replies[j] == left[j];
    assert disks[j].None?;
    i :| 0 <= i < |ok| && ok[i] && dist[i] == j;
  }

  /** Later reads see only shards of this write, and their indexes are the survivors. */
  lemma RepliesAreOneWrite(verify: (bytes, string) -> bool, disks: seq<ShardRead>, dist: seq<nat>, base: ObjectMeta,
                           shards: seq<bytes>, hash: bytes -> string, ok: seq<bool>, replies: seq<ShardRead>)
    requires |dist| == |ok| == |shards| && InRange(dist, |disks|) && Injective(dist) && Absent(disks)
    requires Damaged(verify, |ok|, Finalized(disks, dist, base, shards, hash, ok, |ok|), replies)
    ensures OneWrite(verify, replies, shards, base.size)
    ensures UsableIndexes(verify, |ok|, replies) == Survivors(verify, dist, ok, replies)
  {
    hide Finalized, Usable;
    forall j | 0 <= j < |replies| && Usable(verify, |ok|, replies[j])
      ensures replies[j].Some? && replies[j].value.1.erasure.index < |shards|
      ensures replies[j].value.0 == shards[replies[j].value.1.erasure.index] && replies[j].value.1.size == base.size
      ensures replies[j].value.1.erasure.index in Survivors(verify, dist, ok, replies)
    {
      var i := LeftShards(verify, disks, dist, base, shards, hash, ok, replies, j);
    }
    forall i | i in Survivors(verify, dist, ok, replies)
      ensures i in UsableIndexes(verify, |ok|, replies)
    {
      var k := LeftShards(verify, disks, dist, base, shards, hash, ok, replies, dist[i]);
      assert k == i;
      UsableIsSome(verify, |ok|, replies[dist[i]]);
      assert replies[dist[i]].value.1.erasure.index == i;
    }
  }

  lemma UsableIsSome(verify: (bytes, string) -> bool, total: nat, reply: ShardRead)
    requires Usable(verify, total, reply)
    ensures reply.Some?
  {
  }

  /** The metadata of one object, up to what differs from shard to shard. */
  predicate SameObject(a: ObjectMeta, b: ObjectMeta)
  {
    a.(erasure := a.erasure.(index := 0), checksum := "") == b.(erasure := b.erasure.(index := 0), checksum := "")
  }

  /** The metadata a read returns is that of the write. */
  lemma FirstIsOfWrite(verify: (bytes, string) -> bool, disks: seq<ShardRead>, dist: seq<nat>, base: ObjectMeta,
                       shards: seq<bytes>, hash: bytes -> string, ok: seq<bool>, replies: seq<ShardRead>, m: ObjectMeta)
    requires |dist| == |ok| == |shards| && InRange(dist, |disks|) && Injective(dist) && Absent(disks)
    requires Damaged(verify, |ok|, Finalized(disks, dist, base, shards, hash, ok, |ok|), replies)
    requires OfFirstUsable(verify, |ok|, replies, m)
    ensures SameObject(m, base)
  {
    hide Finalized, Damaged;
    var j: nat :| IsFirstUsable(verify, |ok|, replies, j) && m == replies[j].value.1;
    var i := LeftShards(verify, disks, dist, base, shards, hash, ok, replies, j);
  }

  /** After any damage to an acknowledged write of a new object, the body is read back, with the
      metadata it was written with, exactly when `d` of the finalized shards are still usable, and
      otherwise the read fails. */
  lemma AcknowledgedReadsIff(code: Code, verify: (bytes, string) -> bool, hash: bytes -> string, d: nat, p: nat, b: nat,
                             body: bytes, base: ObjectMeta, disks: seq<ShardRead>, dist: seq<nat>, ok: seq<bool>,
                             erased: nat -> bool, replies: seq<ShardRead>)
    requires Shape(code, d, p) && b >= 1 && base.size == |body|
    requires |dist| == |ok| == d + p == |Stripe(code, d, p, b, body)|
    requires InRange(dist, |disks|) && Injective(dist) && Absent(disks)
    requires Commit(d, p, disks, dist, base, Stripe(code, d, p, b, body), hash, ok, erased).1.Ok?
    requires var left := Commit(d, p, disks, dist, base, Stripe(code, d, p, b, body), hash, ok, erased).0;
             Damaged(verify, d + p, left, replies)
    ensures var r := DecodeObject(code, verify, d, p, b, replies);
            if |Survivors(verify, dist, ok, replies)| >= d then
              r.Ok? && r.value.1 == body && !r.value.2 && SameObject(r.value.0, base)
            else r.Err?
  {
    hide Lawful, Stripe, Finalized, DecodeObject, Usable, UsableIndexes, Survivors, Damaged, OfFirstUsable, SameObject;
    var shards := Stripe(code, d, p, b, body);
    RepliesAreOneWrite(verify, disks, dist, base, shards, hash, ok, replies);
    ReadBack(code, verify, d, p, b, replies, body);
    if NothingRead(replies) {
      NothingUsable(verify, d + p, replies);
    } else if DecodeObject(code, verify, d, p, b, replies).Ok? {
      var m := DecodeObject(code, verify, d, p, b, replies).value.0;
      FirstIsOfWrite(verify, disks, dist, base, shards, hash, ok, replies, m);
    }
  }

  // Counting losses

  /** Right after the commit every finalized shard is usable. */
  lemma NothingLostYet(verify: (bytes, string) -> bool, hash: bytes -> string, disks: seq<ShardRead>, dist: seq<nat>,
                       base: ObjectMeta, shards: seq<bytes>, ok: seq<bool>)
    requires |dist| == |ok| == |shards| && InRange(dist, |disks|) && Injective(dist) && Honest(verify, hash)
    ensures Survivors(verify, dist, ok, Finalized(disks, dist, base, shards, hash, ok, |ok|)) == TrueSet(ok)
  {
    hide Finalized;
    FinalizedAt(disks, dist, base, shards, hash, ok, |ok|);
  }

  /** An acknowledged write with `s` finalized shards is read back after losing any `s - d` of
      them; the quorum makes that at least one whenever there is parity. */
  lemma AcknowledgedSurvives(code: Code, verify: (bytes, string) -> bool, hash: bytes -> string, d: nat, p: nat, b: nat,
                             body: bytes, base: ObjectMeta, disks: seq<ShardRead>, dist: seq<nat>, ok: seq<bool>,
                             erased: nat -> bool, replies: seq<ShardRead>, lost: set<nat>)
    requires Shape(code, d, p) && b >= 1 && base.size == |body| && Honest(verify, hash)
    requires |dist| == |ok| == d + p == |Stripe(code, d, p, b, body)|
    requires InRange(dist, |disks|) && Injective(dist) && Absent(disks)
    requires Commit(d, p, disks, dist, base, Stripe(code, d, p, b, body), hash, ok, erased).1.Ok?
    requires var left := Commit(d, p, disks, dist, base, Stripe(code, d, p, b, body), hash, ok, erased).0;
             Damaged(verify, d + p, left, replies)
    requires var left := Commit(d, p, disks, dist, base, Stripe(code, d, p, b, body), hash, ok, erased).0;
             forall i :: 0 <= i < d + p && i !in lost ==> replies[dist[i]] == left[dist[i]]
    requires |lost * TrueSet(ok)| <= CountTrue(ok) - d
    ensures var r := DecodeObject(code, verify, d, p, b, replies);
            r.Ok? && r.value.1 == body && !r.value.2 && SameObject(r.value.0, base)
    ensures p >= 1 ==> CountTrue(ok) - d >= 1
  {
    hide Lawful, Stripe, Finalized, DecodeObject, Usable, CountTrue;
    var shards := Stripe(code, d, p, b, body);
    var left := Finalized(disks, dist, base, shards, hash, ok, |ok|);
    AcknowledgedReadsIff(code, verify, hash, d, p, b, body, base, disks, dist, ok, erased, replies);
    NothingLostYet(verify, hash, disks, dist, base, shards, ok);
    TrueSetSize(ok);
    var all, s := TrueSet(ok), Survivors(verify, dist, ok, replies);
    forall i | i in all - lost
      ensures i in s
    {
      assert i in Survivors(verify, dist, ok, left);
    }
    SubsetSize(all - lost, s);
    assert all == (all - lost) + (lost * all);
  }

  // Losing whole nodes

  /** Which shards were placed on lost nodes. */
  function OnNodes(chosen: seq<Placement.Shard>, nodes: set<string>): (r: set<nat>)
  {
    set i | 0 <= i < |chosen| && chosen[i].nodeId in nodes
  }

  /** With one shard a node, lost shards are at most lost nodes. */
  lemma {:induction false} LostAtMost(chosen: seq<Placement.Shard>, nodes: set<string>)
    requires forall i, j :: 0 <= i < j < |chosen| ==> chosen[i].nodeId != chosen[j].nodeId
    ensures |OnNodes(chosen, nodes)| <= |nodes|
    decreases |nodes|
  {
    var lost := OnNodes(chosen, nodes);
    if i :| i in lost {
      var rest := nodes - {chosen[i].nodeId};
      LostAtMost(chosen, rest);
      assert lost == OnNodes(chosen, rest) + {i};
    }
  }

  /** Shard `i` goes to the backend that the plan names for it. */
  predicate Follows(dist: seq<nat>, plan: seq<Placement.Shard>)
  {
    |dist| == |plan| && forall i :: 0 <= i < |plan| ==> dist[i] == plan[i].backendIndex
  }

  /** The shards on other nodes are read as they were left. */
  predicate Spared(plan: seq<Placement.Shard>, dist: seq<nat>, nodes: set<string>, left: seq<ShardRead>,
                   replies: seq<ShardRead>)
    requires |plan| == |dist| && |left| == |replies| && InRange(dist, |left|)
  {
    forall i :: 0 <= i < |plan| && plan[i].nodeId !in nodes ==> replies[dist[i]] == left[dist[i]]
  }

  /** Planned placement on at least `d + p` nodes, every shard finalized: the body is read back
      after losing any `p` whole nodes. */
  lemma NodeLossSurvives(code: Code, verify: (bytes, string) -> bool, hash: bytes -> string, place: Placement.Hash,
                         pl: Placement.Planner, bucket: string, key: string, d: nat, p: nat, b: nat,
                         body: bytes, base: ObjectMeta, disks: seq<ShardRead>, dist: seq<nat>, erased: nat -> bool,
                         replies: seq<ShardRead>, nodes: set<string>)
    requires Shape(code, d, p) && b >= 1 && base.size == |body| && Honest(verify, hash)
    requires d + p <= |PlacementPlan.NodeSet(pl.disks)| && Placement.PlanOf(place, pl, bucket, key, d, p).Ok?
    requires |dist| == d + p == |Stripe(code, d, p, b, body)|
    requires Follows(dist, Placement.PlanOf(place, pl, bucket, key, d, p).value.shards)
    requires InRange(dist, |disks|) && Injective(dist) && Absent(disks)
    requires var all := seq(d + p, _ => true);
             var left := Commit(d, p, disks, dist, base, Stripe(code, d, p, b, body), hash, all, erased).0;
             && Damaged(verify, d + p, left, replies)
             && Spared(Placement.PlanOf(place, pl, bucket, key, d, p).value.shards, dist, nodes, left, replies)
    requires |nodes| <= p
    ensures var r := DecodeObject(code, verify, d, p, b, replies);
            r.Ok? && r.value.1 == body && !r.value.2 && SameObject(r.value.0, base)
  {
    hide Lawful, Stripe, DecodeObject, Damaged, Finalized, Placement.PlanOf, PlacementPlan.NodeSet;
    var chosen := Placement.PlanOf(place, pl, bucket, key, d, p).value.shards;
    var ok: seq<bool> := seq(d + p, _ => true);
    PlacementPlan.PlanSpreads(place, pl, bucket, key, d, p);
    LostAtMost(chosen, nodes);
    var lost := OnNodes(chosen, nodes);
    AllTrue(ok);
    assert lost * TrueSet(ok) == lost;
    AcknowledgedSurvives(code, verify, hash, d, p, b, body, base, disks, dist, ok, erased, replies, lost);
  }

  lemma {:induction false} AllTrue(ok: seq<bool>)
    requires forall i :: 0 <= i < |ok| ==> ok[i]
    ensures CountTrue(ok) == |ok|
  {
    if ok != [] {
      AllTrue(ok[..|ok| - 1]);
    }
  }
}
