/** One heal repairs everything, harms nothing, and leaves nothing to do. */
module HealConvergence {
  import opened ByteCodec
  import opened Metadata
  import opened ReedSolomon
  import opened Decoder
  import opened ShardVolume
  import opened Heal
  import opened FaultTolerance
  import opened Striping
  import opened BufferedDecoder

  /** The disk that shard `i` belongs on. */
  function Home(disks: seq<Disk>, m: ObjectMeta, i: nat): (j: nat)
  {
    Target(disks, m, i)
  }

  ghost predicate DistinctIds(ids: seq<string>)
  {
    forall i, j :: 0 <= i < j < |ids| ==> ids[i] != ids[j]
  }

  ghost predicate DistinctVolumes(disks: seq<Disk>)
  {
    forall i, j :: 0 <= i < j < |disks| ==> disks[i].volumeId != disks[j].volumeId
  }

  /** The metadata names one existing disk per shard. */
  ghost predicate WellNamed(disks: seq<Disk>, m: ObjectMeta, total: nat)
  {
    && DistinctVolumes(disks) && DistinctIds(m.erasure.volumeIds) && |m.erasure.volumeIds| == total
    && forall i :: 0 <= i < total ==> DiskWith(disks, m.erasure.volumeIds[i]).Some?
  }

  /** All metadata on the disks has the same erasure shape. */
  ghost predicate SameShape(disks: seq<Disk>, d: nat, p: nat)
  {
    forall j :: 0 <= j < |disks| && disks[j].Stat().Some? ==>
      var e := disks[j].Stat().value.erasure; e.Shaped() && e.Data() == d && e.Parity() == p
  }

  /** `shards` is the code word of some data shards. */
  ghost predicate Codeword(code: Code, d: nat, p: nat, data: seq<bytes>, len: nat, shards: seq<bytes>)
  {
    && d >= 1 && len >= 1 && Uniform(data, d, len) && |shards| == d + p
    && if p == 0 then shards == data else Lawful(code, d, p) && shards == code.encode(d, p, data)
  }

  /** The shards the streaming writer stores are such a code word, over all blocks at once. */
  lemma StripesAreCodewords(code: Code, d: nat, p: nat, b: nat, body: bytes)
    requires Shape(code, d, p) && b >= 1 && body != []
    ensures Codeword(code, d, p, DataStripe(code, d, b, body), StripeLen(d, b, |body|), Stripe(code, d, p, b, body))
  {
    hide Lawful, Stripe;
    DataUniform(code, d, b, body);
    StripeLength(code, d, p, b, body);
    if p >= 1 {
      StripeIsCodeword(code, d, p, b, body);
    }
  }

  /** Every good shard of the consensus write has the bytes of that write, on its own disk. */
  ghost predicate WellPlaced(verify: (bytes, string) -> bool, disks: seq<Disk>, m: ObjectMeta, shards: seq<bytes>)
  {
    forall j :: 0 <= j < |disks| && GoodRead(verify, |shards|, m, disks[j].ReadShard()) ==>
      var i := disks[j].ReadShard().value.1.erasure.index;
      disks[j].ReadShard().value.0 == shards[i] && j == Home(disks, m, i)
  }

  ghost predicate Ready(code: Code, verify: (bytes, string) -> bool, hash: bytes -> string, disks: seq<Disk>, d: nat,
                        p: nat, m: ObjectMeta, data: seq<bytes>, len: nat, shards: seq<bytes>)
  {
    && Codeword(code, d, p, data, len, shards) && Honest(verify, hash)
    && SameShape(disks, d, p) && WellNamed(disks, m, d + p) && WellPlaced(verify, disks, m, shards)
    && FindConsensus(Replies(disks), d) == Ok(m) && !m.isDeleteMarker
    && CountSome(Classified(verify, d + p, m, Replies(disks), |disks|)) >= d
  }

  lemma HomeIsNamed(disks: seq<Disk>, m: ObjectMeta, total: nat, i: nat)
    requires WellNamed(disks, m, total) && i < total
    ensures Home(disks, m, i) < |disks| && disks[Home(disks, m, i)].volumeId == m.erasure.volumeIds[i]
  {
  }

  lemma HomesDiffer(disks: seq<Disk>, m: ObjectMeta, total: nat, i: nat, k: nat)
    requires WellNamed(disks, m, total) && i < total && k < total && i != k
    ensures Home(disks, m, i) != Home(disks, m, k)
  {
    hide Target, DiskWith;
    HomeIsNamed(disks, m, total, i);
    HomeIsNamed(disks, m, total, k);
    assert m.erasure.volumeIds[i] != m.erasure.volumeIds[k];
  }

  // Classification

  lemma {:induction false} ClassifiedSlots(verify: (bytes, string) -> bool, m: ObjectMeta, replies: seq<ShardRead>,
                                           total: nat, n: nat, i: nat)
    requires n <= |replies| && i < total
    ensures Classified(verify, total, m, replies, n)[i].Some? <==>
              exists j :: 0 <= j < n && GoodRead(verify, total, m, replies[j]) && replies[j].value.1.erasure.index == i
  {
    if n > 0 {
      ClassifiedSlots(verify, m, replies, total, n - 1, i);
      var x := replies[n - 1];
      if GoodRead(verify, total, m, x) && x.value.1.erasure.index == i {
        assert Classified(verify, total, m, replies, n)[i].Some?;
      } else if j :| 0 <= j < n - 1 && GoodRead(verify, total, m, replies[j]) && replies[j].value.1.erasure.index == i {
        assert 0 <= j < n;
      }
    }
  }

  lemma {:induction false} ClassifiedAgrees(verify: (bytes, string) -> bool, disks: seq<Disk>, m: ObjectMeta,
                                            shards: seq<bytes>, n: nat)
    requires n <= |disks| && WellPlaced(verify, disks, m, shards)
    ensures Agrees(Classified(verify, |shards|, m, Replies(disks), n), shards)
  {
    hide Target;
    if n > 0 {
      ClassifiedAgrees(verify, disks, m, shards, n - 1);
    }
  }

  /** A slot is good exactly when the shard on its own disk is. */
  lemma GoodAtHome(verify: (bytes, string) -> bool, disks: seq<Disk>, m: ObjectMeta, shards: seq<bytes>, i: nat)
    requires WellNamed(disks, m, |shards|) && WellPlaced(verify, disks, m, shards) && i < |shards|
    ensures Home(disks, m, i) < |disks|
    ensures var x := disks[Home(disks, m, i)];
            Classified(verify, |shards|, m, Replies(disks), |disks|)[i].Some? <==>
            GoodRead(verify, |shards|, m, x.ReadShard()) && x.ReadShard().value.1.erasure.index == i
  {
    hide Target, Classified;
    HomeIsNamed(disks, m, |shards|, i);
    ClassifiedSlots(verify, m, Replies(disks), |shards|, |disks|, i);
    var h := Home(disks, m, i);
    assert Replies(disks)[h] == disks[h].ReadShard();
    if Classified(verify, |shards|, m, Replies(disks), |disks|)[i].Some? {
      var j :| 0 <= j < |disks| && GoodRead(verify, |shards|, m, Replies(disks)[j])
               && Replies(disks)[j].value.1.erasure.index == i;
      assert j == h;
    }
  }

  // Writing back

  /** What disk `Home(i)` becomes. */
  function Rewritten(disks: seq<Disk>, m: ObjectMeta, hash: bytes -> string, good: seq<Option<bytes>>,
                     shards: seq<bytes>, fate: nat -> Fate, i: nat): (r: Disk)
    requires |good| == |shards| && i < |good| && Home(disks, m, i) < |disks|
  {
    var h := Home(disks, m, i);
    if good[i].Some? then disks[h] else disks[h].Write(shards[i], HealedMeta(m, hash, shards[i], i), fate(i))
  }

  /** Disk contents after write-back, disk by disk. */
  ghost predicate BackAt(disks: seq<Disk>, m: ObjectMeta, hash: bytes -> string, good: seq<Option<bytes>>,
                         shards: seq<bytes>, fate: nat -> Fate, after: seq<Disk>, n: nat)
    requires |good| == |shards| && n <= |good|
  {
    && |after| == |disks|
    && (forall i :: 0 <= i < n && Home(disks, m, i) < |disks| ==>
          after[Home(disks, m, i)] == Rewritten(disks, m, hash, good, shards, fate, i))
    && (forall j :: 0 <= j < |disks| && (forall i :: 0 <= i < n ==> Home(disks, m, i) != j) ==> after[j] == disks[j])
  }

  /** How many of the first `n` positions were bad and their write was not refused. */
  function CountFixed(good: seq<Option<bytes>>, fate: nat -> Fate, n: nat): (c: nat)
    requires n <= |good|
  {
    if n == 0 then 0
    else CountFixed(good, fate, n - 1) + if good[n - 1].None? && !fate(n - 1).Failed? then 1 else 0
  }

  lemma BackStep(disks: seq<Disk>, m: ObjectMeta, hash: bytes -> string, good: seq<Option<bytes>>, shards: seq<bytes>,
                 fate: nat -> Fate, prev: seq<Disk>, k: nat)
    requires WellNamed(disks, m, |shards|) && |good| == |shards| && k < |good|
    requires BackAt(disks, m, hash, good, shards, fate, prev, k)
    ensures Home(disks, m, k) < |disks| && prev[Home(disks, m, k)] == disks[Home(disks, m, k)]
    ensures var next := prev[Home(disks, m, k) := Rewritten(disks, m, hash, good, shards, fate, k)];
            BackAt(disks, m, hash, good, shards, fate, next, k + 1)
  {
    hide Target, Rewritten, WellNamed;
    HomeIsNamed(disks, m, |shards|, k);
    forall i | 0 <= i < k
      ensures Home(disks, m, i) != Home(disks, m, k)
    {
      HomesDiffer(disks, m, |shards|, i, k);
    }
  }

  lemma {:induction false} WriteBackAt(disks: seq<Disk>, m: ObjectMeta, hash: bytes -> string, good: seq<Option<bytes>>,
                                       shards: seq<bytes>, fate: nat -> Fate, n: nat)
    requires WellNamed(disks, m, |shards|) && |good| == |shards| && n <= |good|
    ensures var r := WrittenBack(disks, m, hash, good, AsFilled(shards), fate, n);
            BackAt(disks, m, hash, good, shards, fate, r.0, n) && r.1 == CountFixed(good, fate, n)
  {
    hide Target, HealedMeta, WellNamed, BackAt, Disk.WriteShard, Disk.Materialize;
    if n == 0 {
      BackNone(disks, m, hash, good, shards, fate);
    } else {
      WriteBackAt(disks, m, hash, good, shards, fate, n - 1);
      var prev := WrittenBack(disks, m, hash, good, AsFilled(shards), fate, n - 1).0;
      BackStep(disks, m, hash, good, shards, fate, prev, n - 1);
      var h := Home(disks, m, n - 1);
      assert prev[h := prev[h]] == prev;
    }
  }

  lemma BackNone(disks: seq<Disk>, m: ObjectMeta, hash: bytes -> string, good: seq<Option<bytes>>, shards: seq<bytes>,
                 fate: nat -> Fate)
    requires |good| == |shards|
    ensures BackAt(disks, m, hash, good, shards, fate, disks, 0)
  {
  }

  lemma {:induction false} CountsAdd(good: seq<Option<bytes>>, fate: nat -> Fate, n: nat)
    requires n <= |good| && forall i: nat :: i < n && good[i].None? ==> !fate(i).Failed?
    ensures CountFixed(good, fate, n) + CountSome(good[..n]) == n
  {
    if n > 0 {
      CountsAdd(good, fate, n - 1);
      assert good[..n] == good[..n - 1] + [good[n - 1]];
      CountSnoc(good[..n - 1], good[n - 1]);
    }
  }

  // One heal

  /** The disk of shard `i` shows the shard's original bytes, verified, under its index. */
  ghost predicate HoldsShard(verify: (bytes, string) -> bool, disks: seq<Disk>, m: ObjectMeta, shards: seq<bytes>,
                             i: nat)
    requires i < |shards|
  {
    var h := Home(disks, m, i);
    && h < |disks|
    && GoodRead(verify, |shards|, m, disks[h].ReadShard())
    && disks[h].ReadShard().value.1.erasure.index == i && disks[h].ReadShard().value.0 == shards[i]
  }

  /** Every disk that should hold a shard does. */
  ghost predicate Restored(verify: (bytes, string) -> bool, disks: seq<Disk>, m: ObjectMeta, shards: seq<bytes>)
  {
    forall i :: 0 <= i < |shards| ==> HoldsShard(verify, disks, m, shards, i)
  }

  /** The disk of shard `i` can be read back after the shard is written to it. */
  ghost predicate TakesShard(disks: seq<Disk>, m: ObjectMeta, hash: bytes -> string, shards: seq<bytes>,
                             fate: nat -> Fate, i: nat)
    requires i < |shards|
  {
    var h := Home(disks, m, i);
    h < |disks| && disks[h].Takes(shards[i], HealedMeta(m, hash, shards[i], i), fate(i))
  }

  /** Every disk that has to be rewritten can be read back. */
  ghost predicate AllTake(verify: (bytes, string) -> bool, disks: seq<Disk>, m: ObjectMeta, hash: bytes -> string,
                          shards: seq<bytes>, fate: nat -> Fate)
  {
    forall i: nat :: i < |shards| && !HoldsShard(verify, disks, m, shards, i) ==>
      TakesShard(disks, m, hash, shards, fate, i)
  }

  lemma {:induction false} SameNames(a: seq<Disk>, b: seq<Disk>, id: string)
    requires |a| == |b| && forall j :: 0 <= j < |a| ==> a[j].volumeId == b[j].volumeId
    ensures DiskWith(a, id) == DiskWith(b, id)
  {
    if a != [] {
      SameNames(a[..|a| - 1], b[..|b| - 1], id);
    }
  }

  lemma ConsensusHasShape(disks: seq<Disk>, d: nat, p: nat, m: ObjectMeta)
    requires SameShape(disks, d, p) && FindConsensus(Replies(disks), d) == Ok(m)
    ensures m.erasure.Shaped() && m.erasure.Data() == d && m.erasure.Parity() == p
    ensures FirstReply(Replies(disks)).Some?
    ensures var f := FirstReply(Replies(disks)).value.erasure; f.Shaped() && f.Data() == d && f.Parity() == p
  {
    hide FindConsensus, ClassSize, Disk.Stat, Disk.ReadShard;
    ConsensusIsPlurality(Replies(disks), d);
    FirstReplyIsRead(Replies(disks));
  }

  /** The first heal, spelled out, however its writes end. */
  lemma HealOnce(code: Code, verify: (bytes, string) -> bool, hash: bytes -> string, disks: seq<Disk>, d: nat, p: nat,
                 m: ObjectMeta, data: seq<bytes>, len: nat, shards: seq<bytes>, fate: nat -> Fate)
    requires Ready(code, verify, hash, disks, d, p, m, data, len, shards) && AllShaped(disks)
    ensures var good := Classified(verify, d + p, m, Replies(disks), |disks|);
            var r := HealObject(code, verify, hash, disks, fate);
            && BackAt(disks, m, hash, good, shards, fate, r.0, d + p)
            && r.1 == Ok(if CountSome(good) == d + p then Healthy else Repaired(CountFixed(good, fate, d + p)))
  {
    hide Target, Classified, FindConsensus, WrittenBack, HealedMeta, Lawful, FirstReply, Disk.Write, Disk.ReadShard,
      Disk.Stat;
    var good := Classified(verify, d + p, m, Replies(disks), |disks|);
    ConsensusHasShape(disks, d, p, m);
    ClassifiedAgrees(verify, disks, m, shards, |disks|);
    CountAll(good);
    if CountSome(good) < d + p {
      ReconstructLaw(code, d, p, data, len, good);
      assert RepairAll(code, d, p, good) == Some(AsFilled(shards));
      WriteBackAt(disks, m, hash, good, shards, fate, d + p);
    }
  }

  /** A slot is good exactly when its disk holds the shard. */
  lemma GoodIsHeld(verify: (bytes, string) -> bool, disks: seq<Disk>, m: ObjectMeta, shards: seq<bytes>, i: nat)
    requires WellNamed(disks, m, |shards|) && WellPlaced(verify, disks, m, shards) && i < |shards|
    ensures Classified(verify, |shards|, m, Replies(disks), |disks|)[i].Some?
            <==> HoldsShard(verify, disks, m, shards, i)
  {
    hide Target, Classified, GoodRead, WellNamed, Disk.ReadShard;
    GoodAtHome(verify, disks, m, shards, i);
  }

  /** A shard that is written and shown is good. */
  lemma ShownIsGood(verify: (bytes, string) -> bool, hash: bytes -> string, m: ObjectMeta, disk: Disk, shard: bytes,
                    i: nat, total: nat)
    requires Honest(verify, hash) && i < total && disk.Shows(shard, HealedMeta(m, hash, shard, i))
    ensures var r := disk.ReadShard();
            && GoodRead(verify, total, m, r) && r.value.1.erasure.index == i && r.value.0 == shard
            && r.value.1.erasure == m.erasure.(index := i)
  {
    hide Disk.ReadShard;
    var r := disk.ReadShard().value.1;
    assert r == r.(isLatest := true).(isLatest := r.isLatest);
  }

  /** After the write of a shard its disk holds it exactly if the disk takes it; a disk that does
      not take it shows what it showed before, or no good shard at this index. */
  lemma WrittenHoldsIff(verify: (bytes, string) -> bool, hash: bytes -> string, m: ObjectMeta, disk: Disk, shard: bytes,
                        i: nat, total: nat, fate: Fate)
    requires Honest(verify, hash) && i < total && !m.isDeleteMarker
    ensures var after, meta := disk.Write(shard, HealedMeta(m, hash, shard, i), fate), HealedMeta(m, hash, shard, i);
            && (disk.Takes(shard, meta, fate) ==> after.Shows(shard, meta))
            && (!disk.Takes(shard, meta, fate) ==>
                  || after.ReadShard() == disk.ReadShard()
                  || after.ReadShard().None? || after.ReadShard().value.0 != shard)
  {
    var meta := HealedMeta(m, hash, shard, i);
    if disk.Takes(shard, meta, fate) {
      ReadBackIff(disk, shard, meta, fate);
    } else {
      NotTakenReads(disk, shard, meta, fate);
    }
  }

  lemma SameHomes(code: Code, verify: (bytes, string) -> bool, hash: bytes -> string, disks: seq<Disk>, d: nat, p: nat,
                  m: ObjectMeta, data: seq<bytes>, len: nat, shards: seq<bytes>, fate: nat -> Fate)
    requires Ready(code, verify, hash, disks, d, p, m, data, len, shards) && AllShaped(disks)
    ensures var after := HealObject(code, verify, hash, disks, fate).0;
            && (forall j :: 0 <= j < |disks| ==> after[j].volumeId == disks[j].volumeId)
            && (forall i: nat :: Home(after, m, i) == Home(disks, m, i))
  {
    hide Classified, HealedMeta, HealObject, FindConsensus, Honest, GoodRead, Disk.Write, Disk.ReadShard, Disk.Stat;
    HealOnce(code, verify, hash, disks, d, p, m, data, len, shards, fate);
    var after := HealObject(code, verify, hash, disks, fate).0;
    forall j | 0 <= j < |disks|
      ensures after[j].volumeId == disks[j].volumeId
    {
      hide Target;
      if i :| 0 <= i < d + p && Home(disks, m, i) == j {
        assert after[Home(disks, m, i)].volumeId == disks[j].volumeId;
      }
    }
    forall i: nat
      ensures Home(after, m, i) == Home(disks, m, i)
    {
      if i < |m.erasure.volumeIds| {
        SameNames(after, disks, m.erasure.volumeIds[i]);
      }
    }
  }

  /** Exactly what a heal repairs: afterwards a disk holds its shard if and only if it did before
      or it takes the shard that is written to it. */
  lemma HealRepairsIff(code: Code, verify: (bytes, string) -> bool, hash: bytes -> string, disks: seq<Disk>, d: nat,
                       p: nat, m: ObjectMeta, data: seq<bytes>, len: nat, shards: seq<bytes>, fate: nat -> Fate, i: nat)
    requires Ready(code, verify, hash, disks, d, p, m, data, len, shards) && AllShaped(disks)
    requires i < |shards|
    ensures HoldsShard(verify, HealObject(code, verify, hash, disks, fate).0, m, shards, i)
            <==> HoldsShard(verify, disks, m, shards, i) || TakesShard(disks, m, hash, shards, fate, i)
  {
    hide Target, Classified, HealedMeta, HealObject, FindConsensus, Honest, GoodRead, Disk.Write, Disk.ReadShard,
      Disk.Stat, Disk.Takes, WellPlaced, WellNamed, Disk.Shows;
    HealOnce(code, verify, hash, disks, d, p, m, data, len, shards, fate);
    SameHomes(code, verify, hash, disks, d, p, m, data, len, shards, fate);
    GoodIsHeld(verify, disks, m, shards, i);
    var h := Home(disks, m, i);
    HomeIsNamed(disks, m, |shards|, i);
    if !HoldsShard(verify, disks, m, shards, i) {
      WrittenHoldsIff(verify, hash, m, disks[h], shards[i], i, |shards|, fate(i));
      var after := HealObject(code, verify, hash, disks, fate).0[h];
      if disks[h].Takes(shards[i], HealedMeta(m, hash, shards[i], i), fate(i)) {
        ShownIsGood(verify, hash, m, after, shards[i], i, |shards|);
      } else {
        GoodIsSome(verify, |shards|, m, after);
      }
    }
  }

  lemma HealSparesGood(code: Code, verify: (bytes, string) -> bool, hash: bytes -> string, disks: seq<Disk>, d: nat,
                       p: nat, m: ObjectMeta, data: seq<bytes>, len: nat, shards: seq<bytes>, fate: nat -> Fate, j: nat)
    requires Ready(code, verify, hash, disks, d, p, m, data, len, shards) && AllShaped(disks)
    requires j < |disks| && GoodRead(verify, d + p, m, disks[j].ReadShard())
    ensures HealObject(code, verify, hash, disks, fate).0[j] == disks[j]
  {
    hide Target, Classified, HealedMeta, HealObject, FindConsensus, Honest, GoodRead, Disk.ReadShard, Disk.Stat,
      Disk.Write;
    HealOnce(code, verify, hash, disks, d, p, m, data, len, shards, fate);
    GoodIsSome(verify, d + p, m, disks[j]);
    var i := disks[j].ReadShard().value.1.erasure.index;
    assert j == Home(disks, m, i);
    GoodAtHome(verify, disks, m, shards, i);
  }

  /** Healing makes the object whole exactly when every disk it rewrites can be read back. No good
      shard is touched, and no other disk changed, in any case. */
  lemma HealRepairs(code: Code, verify: (bytes, string) -> bool, hash: bytes -> string, disks: seq<Disk>, d: nat,
                    p: nat, m: ObjectMeta, data: seq<bytes>, len: nat, shards: seq<bytes>, fate: nat -> Fate)
    requires Ready(code, verify, hash, disks, d, p, m, data, len, shards) && AllShaped(disks)
    ensures var after := HealObject(code, verify, hash, disks, fate).0;
            && (Restored(verify, after, m, shards) <==> AllTake(verify, disks, m, hash, shards, fate))
            && (forall j :: 0 <= j < |disks| && GoodRead(verify, d + p, m, disks[j].ReadShard()) ==>
                  after[j] == disks[j])
            && (forall j :: 0 <= j < |disks| && (forall i :: 0 <= i < d + p ==> Home(disks, m, i) != j) ==>
                  after[j] == disks[j])
  {
    hide Target, Classified, HealedMeta, HealObject, HoldsShard, TakesShard, GoodRead, Ready, Disk.ReadShard;
    ReadyParts(code, verify, hash, disks, d, p, m, data, len, shards);
    HealOnce(code, verify, hash, disks, d, p, m, data, len, shards, fate);
    var after := HealObject(code, verify, hash, disks, fate).0;
    forall i: nat | i < |shards|
      ensures HoldsShard(verify, after, m, shards, i)
              <==> HoldsShard(verify, disks, m, shards, i) || TakesShard(disks, m, hash, shards, fate, i)
    {
      HealRepairsIff(code, verify, hash, disks, d, p, m, data, len, shards, fate, i);
    }
    forall j | 0 <= j < |disks| && GoodRead(verify, d + p, m, disks[j].ReadShard())
      ensures after[j] == disks[j]
    {
      HealSparesGood(code, verify, hash, disks, d, p, m, data, len, shards, fate, j);
    }
  }

  lemma GoodIsSome(verify: (bytes, string) -> bool, total: nat, m: ObjectMeta, disk: Disk)
    ensures GoodRead(verify, total, m, disk.ReadShard()) ==>
              var r := disk.ReadShard();
              r.Some? && r.value.1.erasure.index < total && r.value.1.QuorumEq(m) && disk.Stat() == Some(r.value.1)
  {
    hide Disk.ReadShard, Disk.Stat;
  }

  // Consensus after a heal

  /** Each read is as before, or now carries metadata compatible with `m`. */
  ghost predicate Converted(before: seq<ShardRead>, after: seq<ShardRead>, m: ObjectMeta)
  {
    |before| == |after| && forall j :: 0 <= j < |before| ==>
      after[j] == before[j] || (after[j].Some? && after[j].value.1.QuorumEq(m))
  }

  lemma {:induction false} OwnClassGrows(before: seq<ShardRead>, after: seq<ShardRead>, m: ObjectMeta, i: nat, n: nat)
    requires Converted(before, after, m) && i < |before| && n <= |before|
    requires before[i].Some? && before[i].value.1.QuorumEq(m)
    ensures after[i].Some? && after[i].value.1.QuorumEq(m)
    ensures ClassSize(after, i, n) >= ClassSize(before, i, n)
  {
    if n > 0 {
      OwnClassGrows(before, after, m, i, n - 1);
    }
  }

  lemma {:induction false} OtherClassShrinks(before: seq<ShardRead>, after: seq<ShardRead>, m: ObjectMeta, i: nat,
                                             n: nat)
    requires Converted(before, after, m) && i < |before| && n <= |before|
    requires after[i].Some? && !after[i].value.1.QuorumEq(m)
    ensures after[i] == before[i]
    ensures ClassSize(after, i, n) <= ClassSize(before, i, n)
  {
    if n > 0 {
      OtherClassShrinks(before, after, m, i, n - 1);
    }
  }

  /** Repairing disks toward the consensus keeps the consensus, ties included. */
  lemma ConsensusStays(before: seq<ShardRead>, after: seq<ShardRead>, d: nat, m: ObjectMeta)
    requires Converted(before, after, m) && FindConsensus(before, d) == Ok(m)
    ensures FindConsensus(after, d).Ok? && FindConsensus(after, d).value.QuorumEq(m)
  {
    hide FindConsensus, ClassSize;
    ConsensusIsPlurality(before, d);
    ConsensusIsPlurality(after, d);
    var i: nat :| Plurality(before, i) && before[i].value.1 == m && ClassSize(before, i, |before|) >= d;
    OwnClassGrows(before, after, m, i, |before|);
    if FindConsensus(after, d).Ok? {
      var k: nat :| Plurality(after, k) && after[k].value.1 == FindConsensus(after, d).value;
      if !after[k].value.1.QuorumEq(m) {
        OtherClassShrinks(before, after, m, k, |before|);
      }
    }
  }

  lemma HealConverts(code: Code, verify: (bytes, string) -> bool, hash: bytes -> string, disks: seq<Disk>, d: nat,
                     p: nat, m: ObjectMeta, data: seq<bytes>, len: nat, shards: seq<bytes>, fate: nat -> Fate)
    requires Ready(code, verify, hash, disks, d, p, m, data, len, shards) && AllShaped(disks)
    requires AllTake(verify, disks, m, hash, shards, fate)
    ensures var after := HealObject(code, verify, hash, disks, fate).0;
            && Converted(Replies(disks), Replies(after), m)
            && SameShape(after, d, p) && AllShaped(after)
  {
    hide Target, Classified, HealedMeta, HealObject, FindConsensus, GoodRead, Honest, HoldsShard, Disk.ReadShard,
      Disk.Stat, Disk.Takes, Disk.Write, WellPlaced, WellNamed, Disk.Shows;
    HealOnce(code, verify, hash, disks, d, p, m, data, len, shards, fate);
    ConsensusHasShape(disks, d, p, m);
    var after := HealObject(code, verify, hash, disks, fate).0;
    forall j | 0 <= j < |disks|
      ensures after[j] == disks[j] || OfWrite(after[j], m)
    {
      if i :| 0 <= i < d + p && Home(disks, m, i) == j {
        GoodIsHeld(verify, disks, m, shards, i);
        if !HoldsShard(verify, disks, m, shards, i) {
          assert TakesShard(disks, m, hash, shards, fate, i);
          WrittenHoldsIff(verify, hash, m, disks[j], shards[i], i, d + p, fate(i));
          ShownIsGood(verify, hash, m, after[j], shards[i], i, d + p);
          GoodIsSome(verify, d + p, m, after[j]);
        }
      }
    }
  }

  /** The disk shows a shard of the write that `m` is of. */
  ghost predicate OfWrite(disk: Disk, m: ObjectMeta)
  {
    var r := disk.ReadShard();
    && r.Some? && disk.Stat() == Some(r.value.1) && r.value.1.QuorumEq(m)
    && r.value.1.erasure.(index := 0) == m.erasure.(index := 0)
  }

  /** Convergence: after a heal whose disks can be read back, a second heal finds the object
      healthy and changes nothing. */
  lemma SecondHealIsHealthy(code: Code, verify: (bytes, string) -> bool, hash: bytes -> string, disks: seq<Disk>,
                            d: nat, p: nat, m: ObjectMeta, data: seq<bytes>, len: nat, shards: seq<bytes>,
                            fate: nat -> Fate, fate': nat -> Fate)
    requires Ready(code, verify, hash, disks, d, p, m, data, len, shards) && AllShaped(disks)
    requires AllTake(verify, disks, m, hash, shards, fate)
    ensures var after := HealObject(code, verify, hash, disks, fate).0;
            AllShaped(after) && HealObject(code, verify, hash, after, fate') == (after, Ok(Healthy))
  {
    hide Target, Classified, FindConsensus, FirstReply, WrittenBack, Ready, RepairAll, Disk.ReadShard, Disk.Stat,
      AllTake;
    var after := HealObject(code, verify, hash, disks, fate).0;
    HealConverts(code, verify, hash, disks, d, p, m, data, len, shards, fate);
    HealRepairs(code, verify, hash, disks, d, p, m, data, len, shards, fate);
    ReadyParts(code, verify, hash, disks, d, p, m, data, len, shards);
    ConsensusStays(Replies(disks), Replies(after), d, m);
    var m2 := FindConsensus(Replies(after), d).value;
    ConsensusHasShape(after, d, p, m2);
    var good := Classified(verify, d + p, m2, Replies(after), |after|);
    forall i | 0 <= i < d + p
      ensures good[i].Some?
    {
      var h := Home(after, m, i);
      assert HoldsShard(verify, after, m, shards, i);
      ClassifiedSlots(verify, m2, Replies(after), d + p, |after|, i);
      assert Replies(after)[h] == after[h].ReadShard();
      assert GoodRead(verify, d + p, m2, Replies(after)[h]);
    }
    CountAll(good);
  }

  lemma ReadyParts(code: Code, verify: (bytes, string) -> bool, hash: bytes -> string, disks: seq<Disk>, d: nat, p: nat,
                   m: ObjectMeta, data: seq<bytes>, len: nat, shards: seq<bytes>)
    requires Ready(code, verify, hash, disks, d, p, m, data, len, shards)
    ensures FindConsensus(Replies(disks), d) == Ok(m) && |shards| == d + p && d >= 1
    ensures WellNamed(disks, m, d + p) && SameShape(disks, d, p)
  {
    hide FindConsensus, Classified;
  }
}
