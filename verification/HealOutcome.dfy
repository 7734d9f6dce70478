/** What a heal answers, for any disks at all. */
module HealOutcome {
  import opened ByteCodec
  import opened Metadata
  import opened ReedSolomon
  import opened Decoder
  import opened ShardVolume
  import opened Heal
  import opened HealConvergence

  /** The indexes, inside the stripe, of the reads that are of the same write as `m` and whose bytes
      pass their checksum. */
  ghost function GoodIndexes(verify: (bytes, string) -> bool, total: nat, m: ObjectMeta,
                             replies: seq<ShardRead>): (r: set<nat>)
  {
    set i: nat | i < total && HasGood(verify, m, replies, i)
  }

  ghost predicate HasGood(verify: (bytes, string) -> bool, m: ObjectMeta, replies: seq<ShardRead>, i: nat)
  {
    exists j: nat :: j < |replies| && IsGood(verify, m, replies[j], i)
  }

  predicate IsGood(verify: (bytes, string) -> bool, m: ObjectMeta, reply: ShardRead, i: nat)
  {
    && reply.Some? && reply.value.1.erasure.index == i
    && reply.value.1.QuorumEq(m) && verify(reply.value.0, reply.value.1.checksum)
  }

  lemma GoodCount(verify: (bytes, string) -> bool, total: nat, m: ObjectMeta, replies: seq<ShardRead>)
    ensures CountSome(Classified(verify, total, m, replies, |replies|)) == |GoodIndexes(verify, total, m, replies)|
  {
    hide Classified, CountSome, ObjectMeta.QuorumEq;
    var slots, good := Classified(verify, total, m, replies, |replies|), GoodIndexes(verify, total, m, replies);
    forall i: nat | i < total
      ensures slots[i].Some? <==> i in good
    {
      ClassifiedSlots(verify, m, replies, total, |replies|, i);
      if j :| 0 <= j < |replies| && GoodRead(verify, total, m, replies[j]) && replies[j].value.1.erasure.index == i {
        assert IsGood(verify, m, replies[j], i);
      }
      if j: nat :| j < |replies| && IsGood(verify, m, replies[j], i) {
        assert GoodRead(verify, total, m, replies[j]);
      }
    }
    CountIsSize(slots, good);
  }

  /** A heal finds nothing exactly when no disk shows a shard, and then changes nothing. */
  lemma NotFoundIff(code: Code, verify: (bytes, string) -> bool, hash: bytes -> string, disks: seq<Disk>,
                    fate: nat -> Fate)
    requires AllShaped(disks)
    ensures var r := HealObject(code, verify, hash, disks, fate);
            && (r.1 == Err(NotFound) <==> forall j :: 0 <= j < |disks| ==> disks[j].ReadShard().None?)
            && (r.1.Err? ==> r.0 == disks)
  {
    hide FindConsensus, Classified, RepairAll, WrittenBack, Disk.ReadShard, FirstReply;
    var replies := Replies(disks);
    FirstReplyIsRead(replies);
    assert forall j :: 0 <= j < |disks| ==> replies[j] == disks[j].ReadShard();
    if FirstReply(replies).Some? {
      FirstReplyShaped(disks);
      ConsensusIsPlurality(replies, FirstReply(replies).value.erasure.Data());
    }
  }

  /** Read `i` is the first that any disk answers. */
  ghost predicate IsFirstRead(replies: seq<ShardRead>, i: nat)
  {
    i < |replies| && replies[i].Some? && forall j :: 0 <= j < i ==> replies[j].None?
  }

  lemma {:induction false} FirstReplyAt(replies: seq<ShardRead>, i: nat)
    requires IsFirstRead(replies, i)
    ensures FirstReply(replies) == Some(replies[i].value.1)
    decreases i
  {
    if i > 0 {
      assert forall j :: 0 <= j < |replies| - 1 ==> replies[1..][j] == replies[j + 1];
      FirstReplyAt(replies[1..], i - 1);
    }
  }

  /** The first read always has the shape that is asked for below. */
  lemma FirstIsShaped(disks: seq<Disk>, i: nat)
    requires AllShaped(disks) && IsFirstRead(Replies(disks), i)
    ensures Replies(disks)[i].value.1.erasure.Shaped()
  {
    hide Disk.ReadShard, FirstReply;
    FirstReplyAt(Replies(disks), i);
    FirstReplyShaped(disks);
  }

  /** The shape is that of the first read. Without `d` reads of one write there is no quorum. */
  lemma NoClass(code: Code, verify: (bytes, string) -> bool, hash: bytes -> string, disks: seq<Disk>,
                fate: nat -> Fate, i: nat)
    requires AllShaped(disks) && IsFirstRead(Replies(disks), i) && Replies(disks)[i].value.1.erasure.Shaped()
    requires var replies := Replies(disks);
             forall k :: 0 <= k < |replies| && replies[k].Some? ==>
               ClassSize(replies, k, |replies|) < replies[i].value.1.erasure.Data()
    ensures HealObject(code, verify, hash, disks, fate) == (disks, Err(NoQuorum))
  {
    hide FindConsensus, Classified, WrittenBack, Disk.ReadShard, FirstReply, ClassSize, RepairAll;
    FirstReplyAt(Replies(disks), i);
    FirstReplyShaped(disks);
    ConsensusIsPlurality(Replies(disks), Replies(disks)[i].value.1.erasure.Data());
  }

  ghost predicate Answers(disks: seq<Disk>, d: nat, total: nat, good: set<nat>,
                          r: (seq<Disk>, Result<HealResult, HealError>))
  {
    && (r.1 == Ok(Healthy) <==> |good| == total)
    && (r.1 == Ok(Unrecoverable) <==> |good| < d)
    && (|good| == total || |good| < d ==> r.0 == disks)
    && (d <= |good| < total ==> (r.1.Ok? && r.1.value.Repaired?) || r == (disks, Err(NoQuorum)))
  }

  lemma ConsensusAt(replies: seq<ShardRead>, d: nat, k: nat)
    requires Plurality(replies, k) && ClassSize(replies, k, |replies|) >= d
    ensures FindConsensus(replies, d) == Ok(replies[k].value.1)
  {
    hide FindConsensus, ClassSize;
    ConsensusIsPlurality(replies, d);
    if FindConsensus(replies, d).Ok? {
      var j: nat :| Plurality(replies, j) && replies[j].value.1 == FindConsensus(replies, d).value;
      PluralityUnique(replies, j, k);
    }
  }

  /** Otherwise the write of the first read of a largest class decides: the object is healthy
      exactly when every index has a good shard, and unrecoverable exactly when fewer than `d` have;
      both change nothing. */
  lemma HealAnswers(code: Code, verify: (bytes, string) -> bool, hash: bytes -> string, disks: seq<Disk>,
                    fate: nat -> Fate, i: nat, k: nat)
    requires AllShaped(disks) && IsFirstRead(Replies(disks), i) && Replies(disks)[i].value.1.erasure.Shaped()
    requires var replies := Replies(disks);
             Plurality(replies, k) && ClassSize(replies, k, |replies|) >= replies[i].value.1.erasure.Data()
    ensures var replies := Replies(disks);
            var e := replies[i].value.1.erasure;
            var d, total := e.Data(), e.Data() + e.Parity();
            Answers(disks, d, total, GoodIndexes(verify, total, replies[k].value.1, replies),
                    HealObject(code, verify, hash, disks, fate))
  {
    hide FindConsensus, HealObject, FirstReply, GoodIndexes, ClassSize, Replies, AllShaped, Answers, Plurality,
      IsFirstRead;
    var replies := Replies(disks);
    FirstReplyAt(replies, i);
    var e := FirstReply(replies).value.erasure;
    ConsensusAt(replies, e.Data(), k);
    AnswersOf(code, verify, hash, disks, fate, e, FindConsensus(replies, e.Data()).value);
  }

  lemma AnswersOf(code: Code, verify: (bytes, string) -> bool, hash: bytes -> string, disks: seq<Disk>,
                  fate: nat -> Fate, e: ErasureMeta, m: ObjectMeta)
    requires AllShaped(disks) && e.Shaped() && FindConsensus(Replies(disks), e.Data()) == Ok(m)
    requires FirstReply(Replies(disks)).Some? && FirstReply(Replies(disks)).value.erasure == e
    ensures var d, total := e.Data(), e.Data() + e.Parity();
            Answers(disks, d, total, GoodIndexes(verify, total, m, Replies(disks)),
                    HealObject(code, verify, hash, disks, fate))
  {
    hide FindConsensus, Classified, WrittenBack, FirstReply, CountSome, GoodIndexes, RepairAll, Replies, AllShaped;
    FirstReplyShaped(disks);
    GoodCount(verify, e.Data() + e.Parity(), m, Replies(disks));
  }
}
