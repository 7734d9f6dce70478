/** Healing undoes damage: an object stored by a complete write, with shards lost or corrupted
    on up to `p` disks, is put back exactly as it was, if and only if each damaged disk can be
    read back after a write to it. */
module HealRoundTrip {
  import opened ByteCodec
  import opened Metadata
  import opened ReedSolomon
  import opened Decoder
  import opened FaultTolerance
  import opened ShardVolume
  import opened Heal
  import opened HealConvergence
  import opened HealScanner

  /** The disks show exactly the shards of one write, each on the disk its metadata names. */
  ghost predicate StoredOn(disks: seq<Disk>, base: ObjectMeta, hash: bytes -> string, d: nat, p: nat,
                           shards: seq<bytes>)
  {
    && |shards| == d + p && d >= 1 && base.isLatest && !base.isDeleteMarker && base.erasure.ftt == p
    && |base.erasure.volumeIds| == d + p && WellNamed(disks, base, d + p)
    && (forall i :: 0 <= i < d + p ==> Home(disks, base, i) < |disks|)
    && (forall i :: 0 <= i < d + p ==> ShowsShard(disks[Home(disks, base, i)], base, hash, shards, i))
    && (forall j :: 0 <= j < |disks| ==>
          disks[j].Stat().None? || exists i :: 0 <= i < d + p && Home(disks, base, i) == j)
  }

  predicate ShowsShard(disk: Disk, base: ObjectMeta, hash: bytes -> string, shards: seq<bytes>, i: nat)
    requires i < |shards|
  {
    disk.ReadShard() == Some((shards[i], HealedMeta(base, hash, shards[i], i)))
  }

  /** The disk answers as before. */
  predicate Same(was: Disk, now: Disk)
  {
    now.volumeId == was.volumeId && now.Stat() == was.Stat() && now.ReadShard() == was.ReadShard()
  }

  /** What may have become of one disk: nothing that a read notices; or, if it held a shard, that
      the metadata or the data is gone, or the data no longer passes its checksum. */
  ghost predicate Harmed(verify: (bytes, string) -> bool, was: Disk, now: Disk)
  {
    || Same(was, now)
    || (&& was.Stat().Some? && now.volumeId == was.volumeId && (now.Stat().None? || now.Stat() == was.Stat())
        && (now.ReadShard().Some? ==> !verify(now.ReadShard().value.0, now.ReadShard().value.1.checksum)))
  }

  ghost predicate AllHarmed(verify: (bytes, string) -> bool, full: seq<Disk>, left: seq<Disk>)
  {
    |left| == |full| && forall j :: 0 <= j < |full| ==> Harmed(verify, full[j], left[j])
  }

  /** The shards whose disks answer as they did. */
  ghost function Unharmed(full: seq<Disk>, base: ObjectMeta, left: seq<Disk>, total: nat): (r: set<nat>)
    requires |left| == |full| && forall i :: 0 <= i < total ==> Home(full, base, i) < |full|
  {
    set i: nat | i < total && Same(full[Home(full, base, i)], left[Home(full, base, i)])
  }

  ghost predicate NoneHarmed(full: seq<Disk>, base: ObjectMeta, left: seq<Disk>, total: nat)
    requires |left| == |full| && forall i :: 0 <= i < total ==> Home(full, base, i) < |full|
  {
    forall i: nat :: i < total ==> Same(full[Home(full, base, i)], left[Home(full, base, i)])
  }

  /** The disks are named as before, so every shard keeps its home. */
  lemma HomesStay(verify: (bytes, string) -> bool, full: seq<Disk>, left: seq<Disk>, base: ObjectMeta, m: ObjectMeta,
                  i: nat)
    requires AllHarmed(verify, full, left) && m.erasure.volumeIds == base.erasure.volumeIds
    ensures Home(left, m, i) == Home(full, base, i)
  {
    hide DiskWith;
    if i < |base.erasure.volumeIds| {
      SameNames(left, full, base.erasure.volumeIds[i]);
    }
  }

  /** Whatever metadata is left belongs to the write, and to the shard of its disk. */
  lemma MetaLeft(verify: (bytes, string) -> bool, hash: bytes -> string, full: seq<Disk>, left: seq<Disk>,
                 base: ObjectMeta, d: nat, p: nat,
                 shards: seq<bytes>, j: nat) returns (i: nat)
    requires StoredOn(full, base, hash, d, p, shards) && AllHarmed(verify, full, left)
    requires j < |left| && left[j].Stat().Some?
    ensures i < d + p && Home(full, base, i) == j && left[j].Stat() == Some(HealedMeta(base, hash, shards[i], i))
    ensures Same(full[j], left[j]) || !GoodRead(verify, d + p, base, left[j].ReadShard())
  {
    hide Target, WellNamed;
    assert Harmed(verify, full[j], left[j]);
    i :| 0 <= i < d + p && Home(full, base, i) == j;
    assert ShowsShard(full[j], base, hash, shards, i);
  }

  lemma {:induction false} ClassCovers(replies: seq<ShardRead>, i: nat, n: nat, s: set<nat>)
    requires i < |replies| && n <= |replies|
    requires forall j :: j in s ==> j < n && Alike(replies, i, j)
    ensures |s| <= ClassSize(replies, i, n)
  {
    hide Alike;
    if n == 0 {
      assert s == {};
    } else {
      var t := s - {n - 1};
      ClassCovers(replies, i, n - 1, t);
      if n - 1 in s {
        assert s == t + {n - 1};
      } else {
        assert s == t;
      }
    }
  }

  lemma {:induction false} ImageSize(s: set<nat>, f: nat -> nat)
    requires forall a, b :: a in s && b in s && a != b ==> f(a) != f(b)
    ensures |set a | a in s :: f(a)| == |s|
  {
    var image := set a | a in s :: f(a);
    if s == {} {
      assert image == {};
    } else {
      var x :| x in s;
      var t := s - {x};
      ImageSize(t, f);
      assert image == (set a | a in t :: f(a)) + {f(x)};
    }
  }

  /** The disks of the unharmed shards, as many as there are such shards. */
  lemma UnharmedDisks(full: seq<Disk>, base: ObjectMeta, left: seq<Disk>, total: nat) returns (s: set<nat>)
    requires WellNamed(full, base, total) && |left| == |full|
    requires forall i :: 0 <= i < total ==> Home(full, base, i) < |full|
    ensures |s| == |Unharmed(full, base, left, total)|
    ensures forall j :: j in s ==> exists i :: 0 <= i < total && j == Home(full, base, i) && Same(full[j], left[j])
  {
    hide Target, WellNamed;
    var kept := Unharmed(full, base, left, total);
    var f := (i: nat) => Home(full, base, i);
    forall a, b | a in kept && b in kept && a != b
      ensures f(a) != f(b)
    {
      HomesDiffer(full, base, total, a, b);
    }
    ImageSize(kept, f);
    s := set a | a in kept :: f(a);
  }

  /** The metadata still agrees, with a quorum. */
  lemma ConsensusIsTheWrite(verify: (bytes, string) -> bool, hash: bytes -> string, full: seq<Disk>, left: seq<Disk>,
                            base: ObjectMeta,
                            d: nat, p: nat, shards: seq<bytes>) returns (k: nat)
    requires StoredOn(full, base, hash, d, p, shards) && AllHarmed(verify, full, left)
    requires |Unharmed(full, base, left, d + p)| >= d
    ensures k < d + p && FindConsensus(Replies(left), d) == Ok(HealedMeta(base, hash, shards[k], k))
  {
    hide Target, WellNamed, FindConsensus, ClassSize, Plurality;
    var replies := Replies(left);
    var s := UnharmedDisks(full, base, left, d + p);
    ConsensusIsPlurality(replies, d);
    var j0 :| j0 in s;
    forall j | j in s
      ensures j < |replies| && Alike(replies, j0, j)
    {
      BothAlike(verify, hash, full, left, base, d, p, shards, j0, j);
    }
    ClassCovers(replies, j0, |replies|, s);
    assert replies[j0].Some?;
    var i := AgreedRead(replies, d);
    k := MetaLeft(verify, hash, full, left, base, d, p, shards, i);
  }

  /** The consensus is the metadata of one of the reads. */
  lemma AgreedRead(replies: seq<ShardRead>, d: nat) returns (i: nat)
    requires FindConsensus(replies, d).Ok?
    ensures i < |replies| && replies[i].Some? && FindConsensus(replies, d) == Ok(replies[i].value.1)
  {
    hide FindConsensus, ClassSize;
    ConsensusIsPlurality(replies, d);
    i :| Plurality(replies, i) && Ok(replies[i].value.1) == FindConsensus(replies, d)
         && ClassSize(replies, i, |replies|) >= d;
  }

  lemma BothAlike(verify: (bytes, string) -> bool, hash: bytes -> string, full: seq<Disk>, left: seq<Disk>,
                  base: ObjectMeta, d: nat, p: nat,
                  shards: seq<bytes>, a: nat, b: nat)
    requires StoredOn(full, base, hash, d, p, shards) && AllHarmed(verify, full, left)
    requires exists i :: 0 <= i < d + p && a == Home(full, base, i) && Same(full[a], left[a])
    requires exists i :: 0 <= i < d + p && b == Home(full, base, i) && Same(full[b], left[b])
    ensures Alike(Replies(left), a, b)
  {
    hide Target, WellNamed;
    var i :| 0 <= i < d + p && a == Home(full, base, i) && Same(full[a], left[a]);
    var k :| 0 <= k < d + p && b == Home(full, base, k) && Same(full[b], left[b]);
    assert ShowsShard(full[a], base, hash, shards, i) && ShowsShard(full[b], base, hash, shards, k);
  }

  /** A damaged object with `d` shards unharmed meets the conditions of the heal theorems. */
  lemma DamagedIsReady(code: Code, verify: (bytes, string) -> bool, hash: bytes -> string, full: seq<Disk>,
                       left: seq<Disk>,
                       base: ObjectMeta, d: nat, p: nat, data: seq<bytes>, len: nat,
                       shards: seq<bytes>) returns (m: ObjectMeta)
    requires StoredOn(full, base, hash, d, p, shards) && Codeword(code, d, p, data, len, shards) && Honest(verify, hash)
    requires AllHarmed(verify, full, left) && |Unharmed(full, base, left, d + p)| >= d
    ensures AllShaped(left) && Ready(code, verify, hash, left, d, p, m, data, len, shards)
    ensures exists k: nat :: k < d + p && m == HealedMeta(base, hash, shards[k], k)
  {
    hide Codeword, Honest, FindConsensus, Classified, Home, Harmed;
    var k := ConsensusIsTheWrite(verify, hash, full, left, base, d, p, shards);
    m := HealedMeta(base, hash, shards[k], k);
    ShapesLeft(verify, hash, full, left, base, d, p, shards);
    NamesLeft(verify, full, left, base, m, d + p);
    PlacedLeft(verify, hash, full, left, base, d, p, shards, m, k);
    GoodLeft(verify, hash, full, left, base, d, p, shards, m, k);
  }

  lemma ShapesLeft(verify: (bytes, string) -> bool, hash: bytes -> string, full: seq<Disk>, left: seq<Disk>,
                   base: ObjectMeta, d: nat, p: nat,
                   shards: seq<bytes>)
    requires StoredOn(full, base, hash, d, p, shards) && AllHarmed(verify, full, left)
    ensures AllShaped(left) && SameShape(left, d, p)
  {
    hide StoredOn, AllHarmed;
    forall j | 0 <= j < |left| && left[j].Stat().Some?
      ensures var e := left[j].Stat().value.erasure; e.Shaped() && e.Data() == d && e.Parity() == p
    {
      var i := MetaLeft(verify, hash, full, left, base, d, p, shards, j);
      StoredShape(full, base, hash, d, p, shards);
    }
  }

  lemma StoredShape(full: seq<Disk>, base: ObjectMeta, hash: bytes -> string, d: nat, p: nat, shards: seq<bytes>)
    requires StoredOn(full, base, hash, d, p, shards)
    ensures |base.erasure.volumeIds| == d + p && base.erasure.ftt == p && base.isLatest && |shards| == d + p && d >= 1
    ensures WellNamed(full, base, d + p) && forall i: nat :: i < d + p ==> Home(full, base, i) < |full|
  {
    hide Disk.ReadShard, Disk.Stat, Home;
  }

  lemma NamesLeft(verify: (bytes, string) -> bool, full: seq<Disk>, left: seq<Disk>, base: ObjectMeta, m: ObjectMeta,
                  total: nat)
    requires AllHarmed(verify, full, left) && WellNamed(full, base, total)
    requires m.erasure.volumeIds == base.erasure.volumeIds
    ensures WellNamed(left, m, total)
  {
    hide DiskWith;
    forall i | 0 <= i < total
      ensures DiskWith(left, m.erasure.volumeIds[i]).Some?
    {
      SameNames(left, full, m.erasure.volumeIds[i]);
    }
  }

  lemma PlacedLeft(verify: (bytes, string) -> bool, hash: bytes -> string, full: seq<Disk>, left: seq<Disk>,
                   base: ObjectMeta, d: nat, p: nat,
                   shards: seq<bytes>, m: ObjectMeta, k: nat)
    requires StoredOn(full, base, hash, d, p, shards) && AllHarmed(verify, full, left)
    requires k < d + p && m == HealedMeta(base, hash, shards[k], k)
    ensures WellPlaced(verify, left, m, shards)
  {
    hide Home, WellNamed, Harmed;
    forall j | 0 <= j < |left| && GoodRead(verify, |shards|, m, left[j].ReadShard())
      ensures var i := left[j].ReadShard().value.1.erasure.index;
              left[j].ReadShard().value.0 == shards[i] && j == Home(left, m, i)
    {
      var i := MetaLeft(verify, hash, full, left, base, d, p, shards, j);
      HomesStay(verify, full, left, base, m, i);
      assert ShowsShard(full[j], base, hash, shards, i);
    }
  }

  lemma GoodLeft(verify: (bytes, string) -> bool, hash: bytes -> string, full: seq<Disk>, left: seq<Disk>,
                 base: ObjectMeta, d: nat, p: nat,
                 shards: seq<bytes>, m: ObjectMeta, k: nat)
    requires StoredOn(full, base, hash, d, p, shards) && AllHarmed(verify, full, left) && Honest(verify, hash)
    requires k < d + p && m == HealedMeta(base, hash, shards[k], k) && |Unharmed(full, base, left, d + p)| >= d
    ensures CountSome(Classified(verify, d + p, m, Replies(left), |left|)) >= d
  {
    hide Home, WellNamed, Harmed, Classified, Disk.ReadShard, Disk.Stat;
    var slots := Classified(verify, d + p, m, Replies(left), |left|);
    var good := set i: nat | i < d + p && slots[i].Some?;
    CountIsSize(slots, good);
    forall i | i in Unharmed(full, base, left, d + p)
      ensures i in good
    {
      var h := Home(full, base, i);
      assert ShowsShard(full[h], base, hash, shards, i);
      assert Replies(left)[h] == left[h].ReadShard();
      assert GoodRead(verify, d + p, m, Replies(left)[h]);
      ClassifiedSlots(verify, m, Replies(left), d + p, |left|, i);
    }
    SubsetSize(Unharmed(full, base, left, d + p), good);
  }

  /** A damaged disk does not hold its shard, an undamaged one does. */
  lemma SameIsHeld(verify: (bytes, string) -> bool, hash: bytes -> string, full: seq<Disk>, left: seq<Disk>,
                   base: ObjectMeta, d: nat, p: nat, shards: seq<bytes>, m: ObjectMeta, k: nat, i: nat)
    requires StoredOn(full, base, hash, d, p, shards) && AllHarmed(verify, full, left) && Honest(verify, hash)
    requires k < d + p && m == HealedMeta(base, hash, shards[k], k) && i < d + p
    ensures var h := Home(full, base, i);
            && h < |full| && Home(left, m, i) == h
            && (HoldsShard(verify, left, m, shards, i) <==> Same(full[h], left[h]))
  {
    hide Home, WellNamed, Disk.ReadShard, Disk.Stat;
    HomesStay(verify, full, left, base, m, i);
    var h := Home(full, base, i);
    assert ShowsShard(full[h], base, hash, shards, i);
    assert Harmed(verify, full[h], left[h]);
  }

  /** Every damaged disk can be read back after its shard is written to it. */
  ghost predicate DamageTaken(full: seq<Disk>, left: seq<Disk>, base: ObjectMeta, hash: bytes -> string,
                              shards: seq<bytes>, fate: nat -> Fate)
    requires |left| == |full|
  {
    forall i: nat :: i < |shards| ==>
      Home(full, base, i) < |full|
      && (Same(full[Home(full, base, i)], left[Home(full, base, i)]) || TakesShard(left, base, hash, shards, fate, i))
  }

  lemma SameTake(verify: (bytes, string) -> bool, hash: bytes -> string, full: seq<Disk>, left: seq<Disk>,
                 base: ObjectMeta, m: ObjectMeta, shards: seq<bytes>, k: nat, fate: nat -> Fate, i: nat)
    requires AllHarmed(verify, full, left) && k < |shards| && m == HealedMeta(base, hash, shards[k], k) && i < |shards|
    ensures TakesShard(left, m, hash, shards, fate, i) <==> TakesShard(left, base, hash, shards, fate, i)
    ensures HealedMeta(m, hash, shards[i], i) == HealedMeta(base, hash, shards[i], i)
  {
    hide Target, Disk.Takes, Harmed;
    HomesStay(verify, full, left, base, m, i);
    HomesStay(verify, full, left, base, base, i);
  }

  /** The checksum tells apart all bodies. */
  ghost predicate Discerning(verify: (bytes, string) -> bool, hash: bytes -> string)
  {
    forall x: bytes, y: bytes :: verify(x, hash(y)) ==> x == y
  }

  /** What a write makes of the damaged disk of a shard: it answers as before the damage exactly if
      the disk takes the shard; otherwise it is still damaged. */
  lemma WriteToDamaged(verify: (bytes, string) -> bool, hash: bytes -> string, was: Disk, now: Disk, base: ObjectMeta,
                       shards: seq<bytes>, i: nat, fate: Fate)
    requires i < |shards| && ShowsShard(was, base, hash, shards, i) && base.isLatest && !base.isDeleteMarker
    requires Harmed(verify, was, now) && !Same(was, now) && Honest(verify, hash)
    ensures var meta := HealedMeta(base, hash, shards[i], i);
            var after := now.Write(shards[i], meta, fate);
            && (Same(was, after) <==> now.Takes(shards[i], meta, fate))
            && (Discerning(verify, hash) ==> Harmed(verify, was, after))
  {
    hide Disk.ReadShard, Disk.Stat, Disk.Takes, Disk.Write;
    var meta := HealedMeta(base, hash, shards[i], i);
    assert meta.(isLatest := true) == meta;
    if now.Takes(shards[i], meta, fate) {
      assert !now.Shows(shards[i], meta);
      TakenReads(now, shards[i], meta, fate);
    } else {
      NotTakenReads(now, shards[i], meta, fate);
    }
  }

  /** What a heal leaves on one disk. */
  lemma DiskAfter(verify: (bytes, string) -> bool, hash: bytes -> string, full: seq<Disk>, left: seq<Disk>,
                  base: ObjectMeta, d: nat, p: nat, shards: seq<bytes>, m: ObjectMeta, k: nat, fate: nat -> Fate,
                  after: seq<Disk>, j: nat)
    requires StoredOn(full, base, hash, d, p, shards) && AllHarmed(verify, full, left) && Honest(verify, hash)
    requires k < d + p && m == HealedMeta(base, hash, shards[k], k)
    requires WellNamed(left, m, d + p) && WellPlaced(verify, left, m, shards)
    requires BackAt(left, m, hash, Classified(verify, d + p, m, Replies(left), |left|), shards, fate, after, d + p)
    requires j < |full|
    ensures Same(full[j], left[j]) ==> after[j] == left[j]
    ensures Discerning(verify, hash) ==> Harmed(verify, full[j], after[j])
    ensures forall i: nat :: i < d + p && Home(full, base, i) == j ==>
              (Same(full[j], after[j]) <==> Same(full[j], left[j]) || TakesShard(left, base, hash, shards, fate, i))
  {
    hide Home, WellNamed, Classified, WellPlaced, Disk.ReadShard, Disk.Stat, Disk.Takes, Disk.Write, HealedMeta, Harmed,
      Discerning, Same, HoldsShard, Honest;
    assert Harmed(verify, full[j], left[j]);
    if i: nat :| i < d + p && Home(full, base, i) == j {
      SameIsHeld(verify, hash, full, left, base, d, p, shards, m, k, i);
      GoodIsHeld(verify, left, m, shards, i);
      SameTake(verify, hash, full, left, base, m, shards, k, fate, i);
      HomesStay(verify, full, left, base, base, i);
      if !Same(full[j], left[j]) {
        WriteToDamaged(verify, hash, full[j], left[j], base, shards, i, fate(i));
      }
      forall i': nat | i' < d + p && Home(full, base, i') == j
        ensures i' == i
      {
        if i' != i {
          HomesDiffer(full, base, d + p, i, i');
        }
      }
    } else {
      SameIds(base, hash, shards[k], k);
      forall i | 0 <= i < d + p
        ensures Home(left, m, i) != j
      {
        HomesStay(verify, full, left, base, m, i);
      }
    }
  }

  /** What a heal leaves on all disks. */
  lemma HealAfter(code: Code, verify: (bytes, string) -> bool, hash: bytes -> string, full: seq<Disk>, left: seq<Disk>,
                  base: ObjectMeta, d: nat, p: nat, data: seq<bytes>, len: nat, shards: seq<bytes>, fate: nat -> Fate)
    requires StoredOn(full, base, hash, d, p, shards) && Codeword(code, d, p, data, len, shards) && Honest(verify, hash)
    requires AllHarmed(verify, full, left) && |Unharmed(full, base, left, d + p)| >= d
    ensures AllShaped(left)
    ensures var after := HealObject(code, verify, hash, left, fate).0;
            && (forall j :: 0 <= j < |full| && Same(full[j], left[j]) ==> after[j] == left[j])
            && (Discerning(verify, hash) ==> AllHarmed(verify, full, after))
            && (forall i: nat :: i < d + p ==>
                  var h := Home(full, base, i);
                  Same(full[h], after[h]) <==> Same(full[h], left[h]) || TakesShard(left, base, hash, shards, fate, i))
  {
    hide Codeword, Honest, Classified, Home, Harmed, HealObject, Ready, BackAt, StoredOn, Same, TakesShard, Discerning,
      HealedMeta;
    var m := DamagedIsReady(code, verify, hash, full, left, base, d, p, data, len, shards);
    StoredShape(full, base, hash, d, p, shards);
    HealOnce(code, verify, hash, left, d, p, m, data, len, shards, fate);
    var after := HealObject(code, verify, hash, left, fate).0;
    var k: nat :| k < d + p && m == HealedMeta(base, hash, shards[k], k);
    PlacedLeft(verify, hash, full, left, base, d, p, shards, m, k);
    SameIds(base, hash, shards[k], k);
    NamesLeft(verify, full, left, base, m, d + p);
    forall j | 0 <= j < |full|
      ensures Same(full[j], left[j]) ==> after[j] == left[j]
      ensures Discerning(verify, hash) ==> Harmed(verify, full[j], after[j])
      ensures forall i: nat :: i < d + p && Home(full, base, i) == j ==>
                (Same(full[j], after[j]) <==> Same(full[j], left[j]) || TakesShard(left, base, hash, shards, fate, i))
    {
      DiskAfter(verify, hash, full, left, base, d, p, shards, m, k, fate, after, j);
    }
  }

  lemma SameIds(base: ObjectMeta, hash: bytes -> string, shard: bytes, i: nat)
    ensures HealedMeta(base, hash, shard, i).erasure.volumeIds == base.erasure.volumeIds
    ensures HealedMeta(base, hash, shard, i).versionId == base.versionId
  {
  }

  /** Healing is the inverse of damage: whatever was lost or corrupted on the disks of all but `d`
      shards, after a heal every disk answers exactly as it did before the damage, if and only if
      the damaged disks take what is written to them. */
  lemma HealUndoesDamage(code: Code, verify: (bytes, string) -> bool, hash: bytes -> string, full: seq<Disk>,
                         left: seq<Disk>, base: ObjectMeta, d: nat, p: nat, data: seq<bytes>, len: nat,
                         shards: seq<bytes>, fate: nat -> Fate)
    requires StoredOn(full, base, hash, d, p, shards) && Codeword(code, d, p, data, len, shards) && Honest(verify, hash)
    requires AllHarmed(verify, full, left) && |Unharmed(full, base, left, d + p)| >= d
    ensures AllShaped(left)
    ensures var after := HealObject(code, verify, hash, left, fate).0;
            (forall j :: 0 <= j < |full| ==> Same(full[j], after[j]))
            <==> DamageTaken(full, left, base, hash, shards, fate)
  {
    hide Codeword, Honest, Home, HealObject, StoredOn, Same, TakesShard, Discerning, Unharmed;
    HealAfter(code, verify, hash, full, left, base, d, p, data, len, shards, fate);
    StoredShape(full, base, hash, d, p, shards);
    var after := HealObject(code, verify, hash, left, fate).0;
    if DamageTaken(full, left, base, hash, shards, fate) {
      forall j | 0 <= j < |full|
        ensures Same(full[j], after[j])
      {
        assert Harmed(verify, full[j], left[j]);
        if !Same(full[j], left[j]) {
          var i := StoredHome(full, base, hash, d, p, shards, j);
        }
      }
    }
  }

  lemma StoredHome(full: seq<Disk>, base: ObjectMeta, hash: bytes -> string, d: nat, p: nat, shards: seq<bytes>, j: nat)
    returns (i: nat)
    requires StoredOn(full, base, hash, d, p, shards) && j < |full| && full[j].Stat().Some?
    ensures i < d + p && Home(full, base, i) == j
  {
    hide Home, WellNamed, Disk.Stat;
    i :| 0 <= i < d + p && Home(full, base, i) == j;
  }

  /** A heal of a damaged object finds it healthy exactly if no shard is damaged; otherwise, if no
      write is refused, it reports as many repairs as there are damaged shards. */
  lemma HealReports(code: Code, verify: (bytes, string) -> bool, hash: bytes -> string, full: seq<Disk>,
                    left: seq<Disk>, base: ObjectMeta, d: nat, p: nat, data: seq<bytes>, len: nat, shards: seq<bytes>,
                    fate: nat -> Fate)
    requires StoredOn(full, base, hash, d, p, shards) && Codeword(code, d, p, data, len, shards) && Honest(verify, hash)
    requires AllHarmed(verify, full, left) && |Unharmed(full, base, left, d + p)| >= d
    ensures AllShaped(left)
    ensures var r := HealObject(code, verify, hash, left, fate).1;
            && (r == Ok(Healthy) <==> NoneHarmed(full, base, left, d + p))
            && (r != Ok(Healthy) && (forall i: nat :: !fate(i).Failed?) ==>
                  var bad := d + p - |Unharmed(full, base, left, d + p)|; bad >= 1 && r == Ok(Repaired(bad)))
  {
    hide Codeword, Honest, Classified, Home, AllHarmed, HealObject, Ready, BackAt, StoredOn, Same, HealedMeta,
      NoneHarmed, Unharmed, CountFixed, CountSome;
    var m := DamagedIsReady(code, verify, hash, full, left, base, d, p, data, len, shards);
    StoredShape(full, base, hash, d, p, shards);
    HealOnce(code, verify, hash, left, d, p, m, data, len, shards, fate);
    var k: nat :| k < d + p && m == HealedMeta(base, hash, shards[k], k);
    var good := Classified(verify, d + p, m, Replies(left), |left|);
    SlotsLeft(verify, hash, full, left, base, d, p, shards, m, k);
    if forall i: nat :: !fate(i).Failed? {
      CountsAdd(good, fate, d + p);
      assert good[..d + p] == good;
    }
  }

  /** The good slots are those of the unharmed shards. */
  lemma SlotsLeft(verify: (bytes, string) -> bool, hash: bytes -> string, full: seq<Disk>, left: seq<Disk>,
                  base: ObjectMeta, d: nat, p: nat, shards: seq<bytes>, m: ObjectMeta, k: nat)
    requires StoredOn(full, base, hash, d, p, shards) && AllHarmed(verify, full, left) && Honest(verify, hash)
    requires k < d + p && m == HealedMeta(base, hash, shards[k], k)
    ensures var good := Classified(verify, d + p, m, Replies(left), |left|);
            && CountSome(good) == |Unharmed(full, base, left, d + p)|
            && (CountSome(good) == d + p <==> NoneHarmed(full, base, left, d + p))
  {
    hide Honest, Classified, Home, Harmed, StoredOn, Same, HealedMeta, HoldsShard, CountSome;
    StoredShape(full, base, hash, d, p, shards);
    PlacedLeft(verify, hash, full, left, base, d, p, shards, m, k);
    SameIds(base, hash, shards[k], k);
    NamesLeft(verify, full, left, base, m, d + p);
    var good := Classified(verify, d + p, m, Replies(left), |left|);
    forall i: nat | i < d + p
      ensures good[i].Some? <==> Same(full[Home(full, base, i)], left[Home(full, base, i)])
    {
      SameIsHeld(verify, hash, full, left, base, d, p, shards, m, k, i);
      GoodIsHeld(verify, left, m, shards, i);
    }
    CountIsSize(good, Unharmed(full, base, left, d + p));
    CountAll(good);
  }

  /** The scanner complains about a damaged object exactly if some shard is damaged. */
  lemma QuietIff(verify: (bytes, string) -> bool, hash: bytes -> string, full: seq<Disk>, left: seq<Disk>,
                 base: ObjectMeta, d: nat, p: nat, shards: seq<bytes>)
    requires StoredOn(full, base, hash, d, p, shards) && Honest(verify, hash)
    requires AllHarmed(verify, full, left) && |Unharmed(full, base, left, d + p)| >= d
    ensures AllShaped(left)
    ensures !NeedsHealing(verify, left) <==> NoneHarmed(full, base, left, d + p)
  {
    hide Honest, StoredOn, NeedsHealing, Harmed, Home, Same, GoodDisks, FirstStat, GoodRead, Disk.Stat,
      Disk.ReadShard;
    ShapesLeft(verify, hash, full, left, base, d, p, shards);
    StoredShape(full, base, hash, d, p, shards);
    NamesLeft(verify, full, left, base, base, d + p);
    var f := FirstIsOfWrite(verify, hash, full, left, base, d, p, shards);
    if NoneHarmed(full, base, left, d + p) {
      forall i: nat | i < d + p
        ensures HoldsShard(verify, left, base, shards, i)
      {
        HeldAsBase(verify, hash, full, left, base, d, p, shards, i);
      }
      HomesAreGood(verify, left, d, p, base, f, shards);
      assert !NeedsHealing(verify, left) by { ScannerSays(verify, left, f, d, p); }
    } else {
      var i: nat :| i < d + p && !Same(full[Home(full, base, i)], left[Home(full, base, i)]);
      FewGood(verify, hash, full, left, base, d, p, shards, f, i);
      assert NeedsHealing(verify, left) by { ScannerSays(verify, left, f, d, p); }
    }
  }

  lemma ScannerSays(verify: (bytes, string) -> bool, disks: seq<Disk>, f: ObjectMeta, d: nat, p: nat)
    requires AllShaped(disks) && SameShape(disks, d, p) && FirstStat(disks) == Some(f)
    ensures NeedsHealing(verify, disks) <==> GoodDisks(verify, disks, f, d + p, |disks|) < d + p
  {
    hide GoodDisks, Disk.Stat, FirstStat;
    FirstStatIsMeta(disks);
  }

  lemma HeldAsBase(verify: (bytes, string) -> bool, hash: bytes -> string, full: seq<Disk>, left: seq<Disk>,
                   base: ObjectMeta, d: nat, p: nat, shards: seq<bytes>, i: nat)
    requires StoredOn(full, base, hash, d, p, shards) && AllHarmed(verify, full, left) && Honest(verify, hash)
    requires i < d + p && Home(full, base, i) < |full|
    requires Same(full[Home(full, base, i)], left[Home(full, base, i)])
    ensures HoldsShard(verify, left, base, shards, i)
  {
    hide Home, WellNamed, Disk.ReadShard, Disk.Stat, Harmed;
    HomesStay(verify, full, left, base, base, i);
    assert ShowsShard(full[Home(full, base, i)], base, hash, shards, i);
  }

  lemma FirstIsOfWrite(verify: (bytes, string) -> bool, hash: bytes -> string, full: seq<Disk>, left: seq<Disk>,
                       base: ObjectMeta, d: nat, p: nat, shards: seq<bytes>) returns (f: ObjectMeta)
    requires StoredOn(full, base, hash, d, p, shards) && AllHarmed(verify, full, left)
    requires |Unharmed(full, base, left, d + p)| >= d
    ensures FirstStat(left) == Some(f) && f.QuorumEq(base)
  {
    hide Home, WellNamed, FirstStat, Disk.Stat, Disk.ReadShard, Harmed;
    FirstStatIsMeta(left);
    var i :| i in Unharmed(full, base, left, d + p);
    var h := Home(full, base, i);
    assert ShowsShard(full[h], base, hash, shards, i);
    assert left[h].Stat().Some?;
    f := FirstStat(left).value;
    var j :| 0 <= j < |left| && left[j].Stat() == FirstStat(left);
    var k := MetaLeft(verify, hash, full, left, base, d, p, shards, j);
  }

  lemma OfBothWrites(verify: (bytes, string) -> bool, total: nat, f: ObjectMeta, base: ObjectMeta, reply: ShardRead)
    requires GoodRead(verify, total, f, reply) && f.QuorumEq(base)
    ensures GoodRead(verify, total, base, reply)
  {
  }

  /** With a shard damaged, fewer disks are good than the object has shards. */
  lemma FewGood(verify: (bytes, string) -> bool, hash: bytes -> string, full: seq<Disk>, left: seq<Disk>,
                base: ObjectMeta, d: nat, p: nat, shards: seq<bytes>, f: ObjectMeta, i: nat)
    requires StoredOn(full, base, hash, d, p, shards) && AllHarmed(verify, full, left) && f.QuorumEq(base)
    requires i < d + p && Home(full, base, i) < |full|
    requires !Same(full[Home(full, base, i)], left[Home(full, base, i)])
    ensures GoodDisks(verify, left, f, d + p, |left|) < d + p
  {
    hide Home, WellNamed, Disk.ReadShard, Disk.Stat, GoodDisks, GoodRead, ObjectMeta.QuorumEq, Homes, Same;
    var good, homes := GoodSet(verify, left, f, d + p, |left|), Homes(full, base, d + p);
    GoodDisksIsSize(verify, left, f, d + p, |left|);
    HomesSize(full, base, d + p, d + p);
    var h := Home(full, base, i);
    forall j | j in good
      ensures j in homes - {h}
    {
      InGoodSet(verify, left, f, d + p, j);
      OfBothWrites(verify, d + p, f, base, left[j].ReadShard());
      GoodIsSome(verify, d + p, base, left[j]);
      var k := MetaLeft(verify, hash, full, left, base, d, p, shards, j);
    }
    SubsetSize(good, homes - {h});
  }

  lemma SameIsHarmed(verify: (bytes, string) -> bool, full: seq<Disk>, left: seq<Disk>)
    requires |left| == |full| && forall j :: 0 <= j < |full| ==> Same(full[j], left[j])
    ensures AllHarmed(verify, full, left)
  {
    hide Same;
  }

  /** A heal does not add damage, and repairs the shards whose disks take them. */
  lemma HealKeepsHarm(code: Code, verify: (bytes, string) -> bool, hash: bytes -> string, full: seq<Disk>,
                      left: seq<Disk>, base: ObjectMeta, d: nat, p: nat, data: seq<bytes>, len: nat,
                      shards: seq<bytes>, fate: nat -> Fate)
    requires StoredOn(full, base, hash, d, p, shards) && Codeword(code, d, p, data, len, shards) && Honest(verify, hash)
    requires AllHarmed(verify, full, left) && |Unharmed(full, base, left, d + p)| >= d
    requires Discerning(verify, hash) || DamageTaken(full, left, base, hash, shards, fate)
    ensures AllShaped(left)
    ensures var after := HealObject(code, verify, hash, left, fate).0;
            AllHarmed(verify, full, after) && |Unharmed(full, base, after, d + p)| >= d
  {
    hide Codeword, Honest, Home, HealObject, StoredOn, Same, TakesShard, Discerning, Harmed;
    HealAfter(code, verify, hash, full, left, base, d, p, data, len, shards, fate);
    StoredShape(full, base, hash, d, p, shards);
    var after := HealObject(code, verify, hash, left, fate).0;
    if !Discerning(verify, hash) {
      HealUndoesDamage(code, verify, hash, full, left, base, d, p, data, len, shards, fate);
      SameIsHarmed(verify, full, after);
    }
    SubsetSize(Unharmed(full, base, left, d + p), Unharmed(full, base, after, d + p));
  }

  /** Convergence, exactly: a second heal finds the object healthy, and the scanner has nothing to
      complain about, if and only if the damaged disks took what the first heal wrote to them. */
  lemma SecondHealHealthyIff(code: Code, verify: (bytes, string) -> bool, hash: bytes -> string, full: seq<Disk>,
                             left: seq<Disk>, base: ObjectMeta, d: nat, p: nat, data: seq<bytes>, len: nat,
                             shards: seq<bytes>, fate: nat -> Fate, fate': nat -> Fate)
    requires StoredOn(full, base, hash, d, p, shards) && Codeword(code, d, p, data, len, shards) && Honest(verify, hash)
    requires AllHarmed(verify, full, left) && |Unharmed(full, base, left, d + p)| >= d
    requires Discerning(verify, hash) || DamageTaken(full, left, base, hash, shards, fate)
    ensures AllShaped(left) && AllShaped(HealObject(code, verify, hash, left, fate).0)
    ensures var after := HealObject(code, verify, hash, left, fate).0;
            && (HealObject(code, verify, hash, after, fate').1 == Ok(Healthy)
                <==> DamageTaken(full, left, base, hash, shards, fate))
            && (!NeedsHealing(verify, after) <==> DamageTaken(full, left, base, hash, shards, fate))
  {
    hide Codeword, Honest, Home, HealObject, StoredOn, Same, TakesShard, Discerning, Harmed, NeedsHealing;
    HealAfter(code, verify, hash, full, left, base, d, p, data, len, shards, fate);
    HealKeepsHarm(code, verify, hash, full, left, base, d, p, data, len, shards, fate);
    StoredShape(full, base, hash, d, p, shards);
    var after := HealObject(code, verify, hash, left, fate).0;
    HealReports(code, verify, hash, full, after, base, d, p, data, len, shards, fate');
    QuietIff(verify, hash, full, after, base, d, p, shards);
  }

  // Versions

  /** The disk sends a shard of this version to the object's own files, and has no such shard in
      the files of the version, where it is looked for. */
  predicate Stuck(disk: Disk, data: bytes, id: bytes)
  {
    && !disk.ToLog(data) && id != [] && [] !in disk.pending
    && (id in disk.versionShards ==> disk.versionShards[id] != data)
  }

  lemma StuckStays(disk: Disk, data: bytes, m: ObjectMeta, fate: Fate)
    requires Stuck(disk, data, m.versionId)
    ensures !disk.Takes(data, m, fate) && Stuck(disk.Write(data, m, fate), data, m.versionId)
  {
    hide Disk.ReadShard, Disk.Stat;
  }

  /** The disks after any number of heals, each with its own outcomes. */
  ghost function Heals(code: Code, verify: (bytes, string) -> bool, hash: bytes -> string, disks: seq<Disk>,
                       fates: seq<nat -> Fate>): (r: seq<Disk>)
  {
    if fates == [] then disks
    else
      var prev := Heals(code, verify, hash, disks, fates[..|fates| - 1]);
      if AllShaped(prev) then HealObject(code, verify, hash, prev, fates[|fates| - 1]).0 else prev
  }

  ghost predicate StuckAt(verify: (bytes, string) -> bool, full: seq<Disk>, left: seq<Disk>, base: ObjectMeta, d: nat,
                          p: nat, shards: seq<bytes>, i: nat)
  {
    && AllHarmed(verify, full, left) && i < d + p == |shards|
    && (forall k: nat :: k < d + p ==> Home(full, base, k) < |full|)
    && |Unharmed(full, base, left, d + p)| >= d && i !in Unharmed(full, base, left, d + p)
    && Stuck(left[Home(full, base, i)], shards[i], base.versionId)
  }

  /** A heal leaves a stuck disk stuck. */
  lemma HealLeavesStuck(code: Code, verify: (bytes, string) -> bool, hash: bytes -> string, full: seq<Disk>,
                        left: seq<Disk>, base: ObjectMeta, d: nat, p: nat, data: seq<bytes>, len: nat,
                        shards: seq<bytes>, i: nat, fate: nat -> Fate)
    requires StoredOn(full, base, hash, d, p, shards) && Codeword(code, d, p, data, len, shards) && Honest(verify, hash)
    requires Discerning(verify, hash) && StuckAt(verify, full, left, base, d, p, shards, i)
    ensures AllShaped(left)
    ensures StuckAt(verify, full, HealObject(code, verify, hash, left, fate).0, base, d, p, shards, i)
  {
    hide Codeword, Honest, Home, HealObject, StoredOn, Same, Discerning, Harmed, Stuck, HealedMeta, Disk.Write,
      Disk.Takes;
    HealAfter(code, verify, hash, full, left, base, d, p, data, len, shards, fate);
    HealKeepsHarm(code, verify, hash, full, left, base, d, p, data, len, shards, fate);
    HomesStay(verify, full, left, base, base, i);
    StuckDisk(code, verify, hash, full, left, base, d, p, data, len, shards, i, fate);
  }

  lemma StuckDisk(code: Code, verify: (bytes, string) -> bool, hash: bytes -> string, full: seq<Disk>, left: seq<Disk>,
                  base: ObjectMeta, d: nat, p: nat, data: seq<bytes>, len: nat, shards: seq<bytes>, i: nat,
                  fate: nat -> Fate)
    requires StoredOn(full, base, hash, d, p, shards) && Codeword(code, d, p, data, len, shards) && Honest(verify, hash)
    requires StuckAt(verify, full, left, base, d, p, shards, i)
    ensures AllShaped(left) && Home(left, base, i) == Home(full, base, i)
    ensures !TakesShard(left, base, hash, shards, fate, i)
    ensures var h := Home(full, base, i);
            Stuck(HealObject(code, verify, hash, left, fate).0[h], shards[i], base.versionId)
  {
    hide Codeword, Honest, Classified, Home, Harmed, HealObject, Ready, StoredOn, Same, Stuck, Disk.Write, Disk.Takes,
      HealedMeta, Unharmed, BackAt, TakesShard;
    var m := DamagedIsReady(code, verify, hash, full, left, base, d, p, data, len, shards);
    HealOnce(code, verify, hash, left, d, p, m, data, len, shards, fate);
    var k: nat :| k < d + p && m == HealedMeta(base, hash, shards[k], k);
    SameIds(base, hash, shards[k], k);
    HomesStay(verify, full, left, base, m, i);
    HomesStay(verify, full, left, base, base, i);
    var good := Classified(verify, d + p, m, Replies(left), |left|);
    StuckBack(left, base, m, hash, good, shards, fate, HealObject(code, verify, hash, left, fate).0, i);
  }

  lemma StuckBack(left: seq<Disk>, base: ObjectMeta, m: ObjectMeta, hash: bytes -> string, good: seq<Option<bytes>>,
                  shards: seq<bytes>, fate: nat -> Fate, after: seq<Disk>, i: nat)
    requires |good| == |shards| && i < |good| && BackAt(left, m, hash, good, shards, fate, after, |good|)
    requires m.versionId == base.versionId && Home(left, base, i) == Home(left, m, i) < |left|
    requires Stuck(left[Home(left, m, i)], shards[i], base.versionId)
    ensures !TakesShard(left, base, hash, shards, fate, i)
    ensures Stuck(after[Home(left, m, i)], shards[i], base.versionId)
  {
    hide Home, Stuck, Disk.Write, Disk.Takes, HealedMeta;
    var h := Home(left, m, i);
    SameIds(base, hash, shards[i], i);
    SameIds(m, hash, shards[i], i);
    StuckStays(left[h], shards[i], HealedMeta(m, hash, shards[i], i), fate(i));
    StuckStays(left[h], shards[i], HealedMeta(base, hash, shards[i], i), fate(i));
  }

  /** A version with a damaged shard on a disk that keeps it out of the log is never healed: after
      any number of heals, however their writes end, the next one does not find it healthy, and the
      scanner still complains. */
  lemma {:induction false} VersionNeverHeals(code: Code, verify: (bytes, string) -> bool, hash: bytes -> string,
                                             full: seq<Disk>, left: seq<Disk>, base: ObjectMeta, d: nat, p: nat,
                                             data: seq<bytes>, len: nat, shards: seq<bytes>, i: nat,
                                             fates: seq<nat -> Fate>, next: nat -> Fate)
    requires StoredOn(full, base, hash, d, p, shards) && Codeword(code, d, p, data, len, shards) && Honest(verify, hash)
    requires Discerning(verify, hash) && StuckAt(verify, full, left, base, d, p, shards, i)
    ensures var after := Heals(code, verify, hash, left, fates);
            && AllShaped(after) && StuckAt(verify, full, after, base, d, p, shards, i)
            && HealObject(code, verify, hash, after, next).1 != Ok(Healthy) && NeedsHealing(verify, after)
  {
    hide Codeword, Honest, Home, HealObject, StoredOn, Discerning, StuckAt, NeedsHealing;
    if fates != [] {
      var last := |fates| - 1;
      VersionNeverHeals(code, verify, hash, full, left, base, d, p, data, len, shards, i, fates[..last], fates[last]);
      HealLeavesStuck(code, verify, hash, full, Heals(code, verify, hash, left, fates[..last]), base, d, p, data, len,
                      shards, i, fates[last]);
    }
    StuckIsFound(code, verify, hash, full, Heals(code, verify, hash, left, fates), base, d, p, data, len, shards, i,
                 next);
  }

  lemma StuckIsFound(code: Code, verify: (bytes, string) -> bool, hash: bytes -> string, full: seq<Disk>,
                     left: seq<Disk>, base: ObjectMeta, d: nat, p: nat, data: seq<bytes>, len: nat, shards: seq<bytes>,
                     i: nat, fate: nat -> Fate)
    requires StoredOn(full, base, hash, d, p, shards) && Codeword(code, d, p, data, len, shards) && Honest(verify, hash)
    requires StuckAt(verify, full, left, base, d, p, shards, i)
    ensures AllShaped(left)
    ensures HealObject(code, verify, hash, left, fate).1 != Ok(Healthy) && NeedsHealing(verify, left)
  {
    hide Codeword, Honest, Home, HealObject, StoredOn, Same, Harmed, NeedsHealing, Stuck;
    HealReports(code, verify, hash, full, left, base, d, p, data, len, shards, fate);
    QuietIff(verify, hash, full, left, base, d, p, shards);
  }

  /** A volume without a log, and with one version of the object, its shard in the version's file. */
  function VersionDisk(volumeId: string, m: ObjectMeta, shard: bytes): (r: Disk)
  {
    Disk(volumeId, false, 0, map[], Some([Version(m, None)]), None, map[m.versionId := shard])
  }

  function BlankDisk(volumeId: string): (r: Disk)
  {
    Disk(volumeId, false, 0, map[], None, None, map[])
  }

  lemma VersionDiskShows(volumeId: string, m: ObjectMeta, shard: bytes)
    requires m.versionId != [] && !m.isDeleteMarker
    ensures VersionDisk(volumeId, m, shard).ReadShard() == Some((shard, m))
    ensures VersionDisk(volumeId, m, shard).Stat() == Some(m)
    ensures BlankDisk(volumeId).Stat().None? && BlankDisk(volumeId).ReadShard().None?
  {
  }

  const VERSIONED := ObjectMeta(1, "e", "", 1, ErasureMeta(1, 0, 1, ["a", "b"]), "", map[], map[], [1], true, false, [])

  /** The failing case exists: a version of one byte on two volumes without logs, one of them
      replaced by a blank one. A heal reports a repair, and the next heal reports it again. */
  lemma VersionHealRepeats(code: Code, verify: (bytes, string) -> bool, hash: bytes -> string, fate: nat -> Fate)
    returns (full: seq<Disk>, left: seq<Disk>, shards: seq<bytes>)
    requires Lawful(code, 1, 1) && Honest(verify, hash) && Discerning(verify, hash)
    requires forall i: nat :: !fate(i).Failed?
    ensures StoredOn(full, VERSIONED, hash, 1, 1, shards) && Codeword(code, 1, 1, [[7]], 1, shards)
    ensures StuckAt(verify, full, left, VERSIONED, 1, 1, shards, 1) && AllShaped(left)
    ensures var first := HealObject(code, verify, hash, left, fate);
            && first.1 == Ok(Repaired(1)) && AllShaped(first.0)
            && HealObject(code, verify, hash, first.0, fate).1 == Ok(Repaired(1)) && NeedsHealing(verify, first.0)
  {
    hide Lawful, Honest, Discerning, HealObject, NeedsHealing, Home, StoredOn, StuckAt;
    shards := code.encode(1, 1, [[7]]);
    EncodeLaw(code, 1, 1, [[7]], 1);
    var base := VERSIONED;
    full := [VersionDisk("a", HealedMeta(base, hash, shards[0], 0), shards[0]),
             VersionDisk("b", HealedMeta(base, hash, shards[1], 1), shards[1])];
    left := [full[0], BlankDisk("b")];
    ExampleIsStored(hash, full, shards);
    ExampleIsStuck(verify, hash, full, left, shards);
    HealLeavesStuck(code, verify, hash, full, left, base, 1, 1, [[7]], 1, shards, 1, fate);
    var after := HealObject(code, verify, hash, left, fate).0;
    ExampleReports(code, verify, hash, full, left, shards, fate);
    ExampleReports(code, verify, hash, full, after, shards, fate);
  }

  lemma ExampleHomes(disks: seq<Disk>)
    requires |disks| == 2 && disks[0].volumeId == "a" && disks[1].volumeId == "b"
    ensures Home(disks, VERSIONED, 0) == 0 && Home(disks, VERSIONED, 1) == 1 && WellNamed(disks, VERSIONED, 2)
  {
    assert disks[..1][..0] == [];
    assert DiskWith(disks, "a") == Some(0) && DiskWith(disks, "b") == Some(1);
  }

  ghost predicate Example(hash: bytes -> string, full: seq<Disk>, shards: seq<bytes>)
  {
    && |shards| == 2
    && full == [VersionDisk("a", HealedMeta(VERSIONED, hash, shards[0], 0), shards[0]),
                VersionDisk("b", HealedMeta(VERSIONED, hash, shards[1], 1), shards[1])]
  }

  lemma ExampleIsStored(hash: bytes -> string, full: seq<Disk>, shards: seq<bytes>)
    requires Example(hash, full, shards)
    ensures StoredOn(full, VERSIONED, hash, 1, 1, shards)
  {
    hide Home, WellNamed, Disk.ReadShard, Disk.Stat;
    ExampleHomes(full);
    VersionDiskShows("a", HealedMeta(VERSIONED, hash, shards[0], 0), shards[0]);
    VersionDiskShows("b", HealedMeta(VERSIONED, hash, shards[1], 1), shards[1]);
  }

  lemma ExampleIsStuck(verify: (bytes, string) -> bool, hash: bytes -> string, full: seq<Disk>, left: seq<Disk>,
                       shards: seq<bytes>)
    requires Example(hash, full, shards) && left == [full[0], BlankDisk("b")]
    ensures StuckAt(verify, full, left, VERSIONED, 1, 1, shards, 1)
  {
    hide Home, WellNamed, Disk.ReadShard, Disk.Stat;
    ExampleHomes(full);
    VersionDiskShows("b", HealedMeta(VERSIONED, hash, shards[1], 1), shards[1]);
    assert Unharmed(full, VERSIONED, left, 2) == {0};
  }

  lemma ExampleReports(code: Code, verify: (bytes, string) -> bool, hash: bytes -> string, full: seq<Disk>,
                       left: seq<Disk>, shards: seq<bytes>, fate: nat -> Fate)
    requires Codeword(code, 1, 1, [[7]], 1, shards) && Honest(verify, hash) && Example(hash, full, shards)
    requires StuckAt(verify, full, left, VERSIONED, 1, 1, shards, 1) && forall i: nat :: !fate(i).Failed?
    ensures AllShaped(left) && HealObject(code, verify, hash, left, fate).1 == Ok(Repaired(1))
    ensures NeedsHealing(verify, left)
  {
    hide Codeword, Honest, Home, HealObject, StoredOn, Same, NeedsHealing, Stuck, Harmed, AllShaped;
    ExampleIsStored(hash, full, shards);
    StuckIsFound(code, verify, hash, full, left, VERSIONED, 1, 1, [[7]], 1, shards, 1, fate);
    HealReports(code, verify, hash, full, left, VERSIONED, 1, 1, [[7]], 1, shards, fate);
    SubsetSize(Unharmed(full, VERSIONED, left, 2), {0});
  }
}
