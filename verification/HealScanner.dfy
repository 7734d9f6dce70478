/** The scanner that decides whether an object needs healing, and what it says after a heal. */
module HealScanner {
  import opened ByteCodec
  import opened Metadata
  import opened ReedSolomon
  import opened Decoder
  import opened FaultTolerance
  import opened ShardVolume
  import opened Heal
  import opened HealConvergence

  function FirstStat(disks: seq<Disk>): (m: Option<ObjectMeta>)
  {
    if disks == [] then None
    else if disks[0].Stat().Some? then disks[0].Stat()
    else FirstStat(disks[1..])
  }

  function GoodDisks(verify: (bytes, string) -> bool, disks: seq<Disk>, m: ObjectMeta, total: nat, n: nat): (c: nat)
    requires n <= |disks|
  {
    if n == 0 then 0
    else
      GoodDisks(verify, disks, m, total, n - 1)
      + if GoodRead(verify, total, m, disks[n - 1].ReadShard()) then 1 else 0
  }

  lemma {:induction false} FirstStatIsMeta(disks: seq<Disk>)
    ensures FirstStat(disks).None? <==> forall j :: 0 <= j < |disks| ==> disks[j].Stat().None?
    ensures FirstStat(disks).Some? ==> exists j :: 0 <= j < |disks| && disks[j].Stat() == FirstStat(disks)
  {
    if disks != [] {
      FirstStatIsMeta(disks[1..]);
      assert forall j :: 0 <= j < |disks| - 1 ==> disks[1..][j] == disks[j + 1];
    }
  }

  lemma FirstStatShaped(disks: seq<Disk>)
    requires AllShaped(disks) && FirstStat(disks).Some?
    ensures FirstStat(disks).value.erasure.Shaped()
  {
    FirstStatIsMeta(disks);
  }

  /** The scanner's check: fewer good shards of the first metadata's write than its shape has. */
  function NeedsHealing(verify: (bytes, string) -> bool, disks: seq<Disk>): (r: bool)
    requires AllShaped(disks)
  {
    match FirstStat(disks)
    case None => false
    case Some(m) =>
      FirstStatShaped(disks);
      var total := m.erasure.Data() + m.erasure.Parity();
      GoodDisks(verify, disks, m, total, |disks|) < total
  }

  method ObjectNeedsHealing(verify: (bytes, string) -> bool, disks: seq<Disk>) returns (r: bool)
    requires AllShaped(disks)
    ensures r == NeedsHealing(verify, disks)
  {
    var firstMeta: Option<ObjectMeta> := None;
    var k := 0;
    while k < |disks|
      invariant k <= |disks| && firstMeta.None?
      invariant FirstStat(disks) == FirstStat(disks[k..])
    {
      assert disks[k..][1..] == disks[k + 1..];
      if disks[k].Stat().Some? {
        firstMeta := disks[k].Stat();
        break;
      }
      k := k + 1;
    }
    if firstMeta == None { return false; }
    FirstStatShaped(disks);
    var m := firstMeta.value;
    var total := m.erasure.Data() + m.erasure.Parity();
    var good: nat := 0;
    for i := 0 to |disks|
      invariant good == GoodDisks(verify, disks, m, total, i)
    {
      if GoodRead(verify, total, m, disks[i].ReadShard()) {
        good := good + 1;
      }
    }
    r := good < total;
  }

  ghost function GoodSet(verify: (bytes, string) -> bool, disks: seq<Disk>, m: ObjectMeta, total: nat,
                         n: nat): (r: set<nat>)
    requires n <= |disks|
  {
    set j | 0 <= j < n && GoodRead(verify, total, m, disks[j].ReadShard())
  }

  lemma {:induction false} GoodDisksIsSize(verify: (bytes, string) -> bool, disks: seq<Disk>, m: ObjectMeta,
                                           total: nat, n: nat)
    requires n <= |disks|
    ensures GoodDisks(verify, disks, m, total, n) == |GoodSet(verify, disks, m, total, n)|
  {
    hide GoodRead, Disk.ReadShard;
    if n > 0 {
      GoodDisksIsSize(verify, disks, m, total, n - 1);
      var a, b := GoodSet(verify, disks, m, total, n), GoodSet(verify, disks, m, total, n - 1);
      if GoodRead(verify, total, m, disks[n - 1].ReadShard()) {
        assert a == b + {n - 1};
      } else {
        assert a == b;
      }
    }
  }

  /** The disks of the first `n` shards. */
  ghost function Homes(disks: seq<Disk>, m: ObjectMeta, n: nat): (r: set<nat>)
  {
    if n == 0 then {} else Homes(disks, m, n - 1) + {Home(disks, m, n - 1)}
  }

  lemma {:induction false} HomesSize(disks: seq<Disk>, m: ObjectMeta, total: nat, n: nat)
    requires WellNamed(disks, m, total) && n <= total
    ensures |Homes(disks, m, n)| == n
    ensures forall j :: j in Homes(disks, m, n) <==> exists i :: 0 <= i < n && Home(disks, m, i) == j
    ensures forall j :: j in Homes(disks, m, n) ==> j < |disks|
  {
    hide Home, WellNamed;
    if n > 0 {
      HomesSize(disks, m, total, n - 1);
      HomeIsNamed(disks, m, total, n - 1);
      forall i | 0 <= i < n - 1
        ensures Home(disks, m, i) != Home(disks, m, n - 1)
      {
        HomesDiffer(disks, m, total, i, n - 1);
      }
    }
  }

  lemma InGoodSet(verify: (bytes, string) -> bool, disks: seq<Disk>, m: ObjectMeta, total: nat, j: nat)
    ensures j in GoodSet(verify, disks, m, total, |disks|) <==>
            j < |disks| && GoodRead(verify, total, m, disks[j].ReadShard())
  {
  }

  /** Every home holds a good shard of the write. */
  lemma HomeIsGood(verify: (bytes, string) -> bool, disks: seq<Disk>, m: ObjectMeta, shards: seq<bytes>, j: nat)
    requires WellNamed(disks, m, |shards|) && Restored(verify, disks, m, shards) && j in Homes(disks, m, |shards|)
    ensures j < |disks| && GoodRead(verify, |shards|, m, disks[j].ReadShard())
  {
    hide Target, WellNamed, GoodRead, Homes;
    HomesSize(disks, m, |shards|, |shards|);
    var i: nat :| i < |shards| && Home(disks, m, i) == j;
    assert HoldsShard(verify, disks, m, shards, i);
  }

  /** If the first metadata is of the same write, all homes count as good. */
  lemma HomesAreGood(verify: (bytes, string) -> bool, disks: seq<Disk>, d: nat, p: nat, m: ObjectMeta, f: ObjectMeta,
                     shards: seq<bytes>)
    requires WellNamed(disks, m, d + p) && |shards| == d + p && Restored(verify, disks, m, shards) && f.QuorumEq(m)
    ensures GoodDisks(verify, disks, f, d + p, |disks|) >= d + p
  {
    hide GoodDisks, WellNamed, GoodRead, ObjectMeta.QuorumEq, Restored, GoodSet, Homes;
    var good, homes := GoodSet(verify, disks, f, d + p, |disks|), Homes(disks, m, d + p);
    GoodDisksIsSize(verify, disks, f, d + p, |disks|);
    HomesSize(disks, m, d + p, d + p);
    forall j | j in homes
      ensures j in good
    {
      HomeIsGood(verify, disks, m, shards, j);
      SameWrite(verify, d + p, m, f, disks[j].ReadShard());
      InGoodSet(verify, disks, f, d + p, j);
    }
    SubsetSize(homes, good);
  }

  lemma SameWrite(verify: (bytes, string) -> bool, total: nat, m: ObjectMeta, f: ObjectMeta, reply: ShardRead)
    requires GoodRead(verify, total, m, reply) && f.QuorumEq(m)
    ensures GoodRead(verify, total, f, reply)
  {
  }

  /** The disks that are no home of a shard and hold a good shard of the write of `f`. */
  ghost function ForeignGood(verify: (bytes, string) -> bool, disks: seq<Disk>, m: ObjectMeta, f: ObjectMeta,
                             total: nat): (r: set<nat>)
  {
    set j | 0 <= j < |disks| && j !in Homes(disks, m, total) && GoodRead(verify, total, f, disks[j].ReadShard())
  }

  /** If it is of another write, exactly the foreign disks that are good for it count. */
  lemma OnlyForeignGood(verify: (bytes, string) -> bool, disks: seq<Disk>, d: nat, p: nat, m: ObjectMeta, f: ObjectMeta,
                        shards: seq<bytes>)
    requires WellNamed(disks, m, d + p) && |shards| == d + p && Restored(verify, disks, m, shards) && !f.QuorumEq(m)
    ensures GoodDisks(verify, disks, f, d + p, |disks|) == |ForeignGood(verify, disks, m, f, d + p)|
  {
    hide GoodDisks, WellNamed, GoodRead, ObjectMeta.QuorumEq, Restored, Homes;
    GoodDisksIsSize(verify, disks, f, d + p, |disks|);
    forall j | 0 <= j < |disks| && j in Homes(disks, m, d + p)
      ensures !GoodRead(verify, d + p, f, disks[j].ReadShard())
    {
      HomeIsGood(verify, disks, m, shards, j);
      DifferentWrite(verify, d + p, m, f, disks[j].ReadShard());
    }
    assert GoodSet(verify, disks, f, d + p, |disks|) == ForeignGood(verify, disks, m, f, d + p);
  }

  lemma DifferentWrite(verify: (bytes, string) -> bool, total: nat, m: ObjectMeta, f: ObjectMeta, reply: ShardRead)
    requires GoodRead(verify, total, m, reply) && !f.QuorumEq(m)
    ensures !GoodRead(verify, total, f, reply)
  {
  }

  lemma FirstStatShape(verify: (bytes, string) -> bool, disks: seq<Disk>, d: nat, p: nat, m: ObjectMeta,
                       shards: seq<bytes>)
    requires SameShape(disks, d, p) && |shards| == d + p && d >= 1 && Restored(verify, disks, m, shards)
    ensures FirstStat(disks).Some?
    ensures var e := FirstStat(disks).value.erasure; e.Shaped() && e.Data() == d && e.Parity() == p
  {
    hide Target, FirstStat, GoodRead;
    FirstStatIsMeta(disks);
    assert HoldsShard(verify, disks, m, shards, 0);
    GoodIsSome(verify, d + p, m, disks[Home(disks, m, 0)]);
  }

  /** The scanner complains about a whole object exactly when the first metadata it meets is of
      another write, and fewer disks outside the object hold good shards of that write than the
      object has shards. */
  lemma ScannerIff(verify: (bytes, string) -> bool, disks: seq<Disk>, d: nat, p: nat, m: ObjectMeta, shards: seq<bytes>)
    requires AllShaped(disks) && SameShape(disks, d, p) && WellNamed(disks, m, d + p)
    requires |shards| == d + p && d >= 1 && Restored(verify, disks, m, shards)
    ensures FirstStat(disks).Some?
    ensures var f := FirstStat(disks).value;
            NeedsHealing(verify, disks) <==> !f.QuorumEq(m) && |ForeignGood(verify, disks, m, f, d + p)| < d + p
  {
    hide Target, GoodDisks, WellNamed, FirstStat, ObjectMeta.QuorumEq, Restored, SameShape, AllShaped, ForeignGood;
    FirstStatShape(verify, disks, d, p, m, shards);
    var f := FirstStat(disks).value;
    if f.QuorumEq(m) {
      HomesAreGood(verify, disks, d, p, m, f, shards);
    } else {
      OnlyForeignGood(verify, disks, d, p, m, f, shards);
    }
  }

  // After a heal

  /** The first disk that has metadata or is to get it. */
  ghost function FirstHeld(disks: seq<Disk>, homes: set<nat>, n: nat): (j: nat)
    requires n <= |disks|
    ensures j <= n
    ensures j < n ==> disks[j].Stat().Some? || j in homes
    ensures forall k :: 0 <= k < j ==> disks[k].Stat().None? && k !in homes
  {
    if n == 0 then 0
    else
      var j := FirstHeld(disks, homes, n - 1);
      if j < n - 1 then j else if disks[n - 1].Stat().Some? || n - 1 in homes then n - 1 else n
  }

  /** On the disks before a heal: the first that has metadata or is a home is no home, its
      metadata is of another write, and that write has fewer good shards outside the homes than
      the object has shards. */
  ghost predicate StaleFirst(verify: (bytes, string) -> bool, disks: seq<Disk>, m: ObjectMeta, total: nat)
  {
    var homes := Homes(disks, m, total);
    var j := FirstHeld(disks, homes, |disks|);
    && j < |disks| && j !in homes && !disks[j].Stat().value.QuorumEq(m)
    && |ForeignGood(verify, disks, m, disks[j].Stat().value, total)| < total
  }

  lemma {:induction false} FirstStatAt(disks: seq<Disk>, j: nat)
    requires j < |disks| && disks[j].Stat().Some? && forall k :: 0 <= k < j ==> disks[k].Stat().None?
    ensures FirstStat(disks) == disks[j].Stat()
    decreases j
  {
    if j > 0 {
      assert forall k :: 0 <= k < |disks| - 1 ==> disks[1..][k] == disks[k + 1];
      FirstStatAt(disks[1..], j - 1);
    }
  }

  lemma {:induction false} HomesAgree(a: seq<Disk>, b: seq<Disk>, m: ObjectMeta, n: nat)
    requires forall i: nat :: Home(a, m, i) == Home(b, m, i)
    ensures Homes(a, m, n) == Homes(b, m, n)
  {
    hide Home;
    if n > 0 {
      HomesAgree(a, b, m, n - 1);
    }
  }

  /** What a heal leaves, seen from the disks before it. */
  ghost predicate HealedFrom(verify: (bytes, string) -> bool, disks: seq<Disk>, after: seq<Disk>, m: ObjectMeta,
                             total: nat)
  {
    && |after| == |disks| && Homes(after, m, total) == Homes(disks, m, total)
    && (forall j :: 0 <= j < |disks| && j !in Homes(disks, m, total) ==> after[j] == disks[j])
    && (forall j :: 0 <= j < |disks| && j in Homes(disks, m, total) ==>
          GoodRead(verify, total, m, after[j].ReadShard()))
  }

  lemma HealedShape(code: Code, verify: (bytes, string) -> bool, hash: bytes -> string, disks: seq<Disk>, d: nat,
                    p: nat, m: ObjectMeta, data: seq<bytes>, len: nat, shards: seq<bytes>, fate: nat -> Fate)
    requires Ready(code, verify, hash, disks, d, p, m, data, len, shards)
    requires AllShaped(disks) && AllTake(verify, disks, m, hash, shards, fate)
    ensures var after := HealObject(code, verify, hash, disks, fate).0;
            && AllShaped(after) && SameShape(after, d, p) && WellNamed(after, m, d + p)
            && |shards| == d + p && d >= 1
  {
    hide HealObject, Ready, Converted, WellNamed, Home, SameShape, AllShaped, AllTake;
    ReadyParts(code, verify, hash, disks, d, p, m, data, len, shards);
    HealConverts(code, verify, hash, disks, d, p, m, data, len, shards, fate);
    SameHomes(code, verify, hash, disks, d, p, m, data, len, shards, fate);
    StillNamed(disks, HealObject(code, verify, hash, disks, fate).0, m, d + p);
  }

  lemma HealedWhole(code: Code, verify: (bytes, string) -> bool, hash: bytes -> string, disks: seq<Disk>, d: nat,
                    p: nat, m: ObjectMeta, data: seq<bytes>, len: nat, shards: seq<bytes>, fate: nat -> Fate)
    requires Ready(code, verify, hash, disks, d, p, m, data, len, shards)
    requires AllShaped(disks) && AllTake(verify, disks, m, hash, shards, fate)
    ensures var after := HealObject(code, verify, hash, disks, fate).0;
            Restored(verify, after, m, shards) && HealedFrom(verify, disks, after, m, d + p)
  {
    hide HealObject, Ready, Restored, WellNamed, Home, SameShape, AllShaped, AllTake, HealedFrom, GoodRead,
      Disk.ReadShard;
    var after := HealObject(code, verify, hash, disks, fate).0;
    HealedShape(code, verify, hash, disks, d, p, m, data, len, shards, fate);
    ReadyParts(code, verify, hash, disks, d, p, m, data, len, shards);
    HealRepairs(code, verify, hash, disks, d, p, m, data, len, shards, fate);
    SameHomes(code, verify, hash, disks, d, p, m, data, len, shards, fate);
    WholeFrom(verify, disks, after, m, shards);
  }

  lemma WholeFrom(verify: (bytes, string) -> bool, disks: seq<Disk>, after: seq<Disk>, m: ObjectMeta,
                  shards: seq<bytes>)
    requires |after| == |disks| && WellNamed(disks, m, |shards|) && WellNamed(after, m, |shards|)
    requires Restored(verify, after, m, shards) && forall i: nat :: Home(after, m, i) == Home(disks, m, i)
    requires forall j :: 0 <= j < |disks| && (forall i :: 0 <= i < |shards| ==> Home(disks, m, i) != j) ==>
               after[j] == disks[j]
    ensures HealedFrom(verify, disks, after, m, |shards|)
  {
    hide Restored, Homes, GoodRead, WellNamed, Home, Disk.ReadShard;
    HomesAgree(after, disks, m, |shards|);
    HomesSize(disks, m, |shards|, |shards|);
    forall j | 0 <= j < |disks| && j in Homes(disks, m, |shards|)
      ensures GoodRead(verify, |shards|, m, after[j].ReadShard())
    {
      HomeIsGood(verify, after, m, shards, j);
    }
  }

  lemma StillNamed(disks: seq<Disk>, after: seq<Disk>, m: ObjectMeta, total: nat)
    requires |after| == |disks| && WellNamed(disks, m, total)
    requires forall j :: 0 <= j < |disks| ==> after[j].volumeId == disks[j].volumeId
    ensures WellNamed(after, m, total)
  {
    hide DiskWith;
    forall i | 0 <= i < total
      ensures DiskWith(after, m.erasure.volumeIds[i]).Some?
    {
      SameNames(after, disks, m.erasure.volumeIds[i]);
    }
  }

  /** After a heal the scanner complains exactly when stale metadata comes first on the disks
      before it. */
  lemma ScannerAfterHealIff(code: Code, verify: (bytes, string) -> bool, hash: bytes -> string, disks: seq<Disk>,
                            d: nat, p: nat,
                            m: ObjectMeta, data: seq<bytes>, len: nat, shards: seq<bytes>, fate: nat -> Fate)
    requires Ready(code, verify, hash, disks, d, p, m, data, len, shards)
    requires AllShaped(disks) && AllTake(verify, disks, m, hash, shards, fate)
    ensures var after := HealObject(code, verify, hash, disks, fate).0;
            AllShaped(after) && (NeedsHealing(verify, after) <==> StaleFirst(verify, disks, m, d + p))
  {
    hide HealObject, Ready, Restored, Homes, GoodRead, WellNamed, SameShape, AllShaped, FirstStat, ForeignGood,
      NeedsHealing,
      ObjectMeta.QuorumEq, FirstHeld;
    var after := HealObject(code, verify, hash, disks, fate).0;
    HealedShape(code, verify, hash, disks, d, p, m, data, len, shards, fate);
    HealedWhole(code, verify, hash, disks, d, p, m, data, len, shards, fate);
    ScannerIff(verify, after, d, p, m, shards);
    FirstAfter(verify, disks, after, m, d + p);
    ForeignStays(verify, disks, after, m, FirstStat(after).value, d + p);
  }

  lemma FirstAfter(verify: (bytes, string) -> bool, disks: seq<Disk>, after: seq<Disk>, m: ObjectMeta, total: nat)
    requires HealedFrom(verify, disks, after, m, total) && FirstStat(after).Some?
    ensures var homes := Homes(disks, m, total);
            var j := FirstHeld(disks, homes, |disks|);
            && j < |disks|
            && (j in homes ==> FirstStat(after).value.QuorumEq(m))
            && (j !in homes ==> FirstStat(after) == disks[j].Stat())
  {
    hide Homes, ObjectMeta.QuorumEq, FirstHeld, FirstStat, GoodRead;
    var homes := Homes(disks, m, total);
    var j := FirstHeld(disks, homes, |disks|);
    if j == |disks| {
      FirstStatIsMeta(after);
      assert false;
    }
    if j in homes {
      GoodIsSome(verify, total, m, after[j]);
    }
    FirstStatAt(after, j);
  }

  lemma ForeignStays(verify: (bytes, string) -> bool, disks: seq<Disk>, after: seq<Disk>, m: ObjectMeta,
                     f: ObjectMeta, total: nat)
    requires HealedFrom(verify, disks, after, m, total)
    ensures ForeignGood(verify, after, m, f, total) == ForeignGood(verify, disks, m, f, total)
  {
    hide Homes, GoodRead;
  }

  /** The failing case exists: metadata of another write, left without its shard on a disk in
      front, keeps the scanner complaining about an object that a heal finds healthy. */
  lemma StaleMetadataAlarms(code: Code, verify: (bytes, string) -> bool, hash: bytes -> string, fate: nat -> Fate)
    returns (disks: seq<Disk>, m: ObjectMeta)
    requires Honest(verify, hash)
    ensures AllShaped(disks) && Ready(code, verify, hash, disks, 1, 0, m, [[0]], 1, [[0]])
    ensures var r := HealObject(code, verify, hash, disks, fate);
            r == (disks, Ok(Healthy)) && NeedsHealing(verify, disks)
  {
    m := ObjectMeta(1, "new", "", 1, ErasureMeta(0, 0, 1, ["a"]), hash([0]), map[], map[], [], true, false, []);
    disks := [FileDisk("x", m.(etag := "old"), None), FileDisk("a", m, Some([0]))];
    assert Alarm(verify, hash, m, disks);
    hide HealObject, NeedsHealing, Ready, Alarm, AllShaped, AllTake, StaleFirst, FileDisk, Honest;
    AlarmIsReady(code, verify, hash, m, disks);
    AlarmTakes(verify, hash, m, disks, fate);
    ScannerAfterHealIff(code, verify, hash, disks, 1, 0, m, [[0]], 1, [[0]], fate);
    AlarmIsStale(verify, hash, m, disks);
    AlarmIsHealthy(code, verify, hash, m, disks, fate);
  }

  /** Nothing has to be rewritten. */
  lemma AlarmTakes(verify: (bytes, string) -> bool, hash: bytes -> string, m: ObjectMeta, disks: seq<Disk>,
                   fate: nat -> Fate)
    requires Alarm(verify, hash, m, disks)
    ensures AllTake(verify, disks, m, hash, [[0]], fate)
  {
    hide HoldsShard, TakesShard, Alarm;
    AlarmIsHeld(verify, hash, m, disks);
  }

  ghost predicate Alarm(verify: (bytes, string) -> bool, hash: bytes -> string, m: ObjectMeta, disks: seq<Disk>)
  {
    && Honest(verify, hash)
    && m == ObjectMeta(1, "new", "", 1, ErasureMeta(0, 0, 1, ["a"]), hash([0]), map[], map[], [], true, false, [])
    && disks == [FileDisk("x", m.(etag := "old"), None), FileDisk("a", m, Some([0]))]
  }

  /** A volume without a log whose metadata file lists one version, with or without its shard. */
  function FileDisk(volumeId: string, m: ObjectMeta, shard: Option<bytes>): (r: Disk)
  {
    Disk(volumeId, false, 0, map[], Some([Version(m, None)]), shard, map[])
  }

  lemma FileDiskReads(volumeId: string, m: ObjectMeta, shard: Option<bytes>)
    requires !m.isDeleteMarker && m.versionId == []
    ensures var r := FileDisk(volumeId, m, shard);
            r.Stat() == Some(m) && r.ReadShard() == if shard.Some? then Some((shard.value, m)) else None
  {
  }

  lemma AlarmReads(verify: (bytes, string) -> bool, hash: bytes -> string, m: ObjectMeta, disks: seq<Disk>)
    requires Alarm(verify, hash, m, disks)
    ensures disks[0].Stat() == Some(m.(etag := "old")) && disks[0].ReadShard().None?
    ensures disks[1].Stat() == Some(m) && disks[1].ReadShard() == Some(([0], m))
  {
    FileDiskReads("x", m.(etag := "old"), None);
    FileDiskReads("a", m, Some([0]));
  }

  lemma AlarmIsHeld(verify: (bytes, string) -> bool, hash: bytes -> string, m: ObjectMeta, disks: seq<Disk>)
    requires Alarm(verify, hash, m, disks)
    ensures HoldsShard(verify, disks, m, [[0]], 0)
  {
    hide Disk.ReadShard, Disk.Stat;
    AlarmReads(verify, hash, m, disks);
    AlarmHome(verify, hash, m, disks);
  }

  lemma AlarmConsensus(verify: (bytes, string) -> bool, hash: bytes -> string, m: ObjectMeta, disks: seq<Disk>)
    requires Alarm(verify, hash, m, disks)
    ensures Replies(disks) == [None, Some(([0], m))]
    ensures FindConsensus(Replies(disks), 1) == Ok(m)
  {
    hide FindConsensus, Disk.ReadShard, Disk.Stat;
    AlarmReads(verify, hash, m, disks);
    var replies := Replies(disks);
    assert replies == [None, Some(([0], m))];
    ConsensusIsPlurality(replies, 1);
    assert Alike(replies, 1, 1);
    assert ClassSize(replies, 1, 2) >= 1;
    assert replies[1].Some?;
  }

  lemma AlarmHome(verify: (bytes, string) -> bool, hash: bytes -> string, m: ObjectMeta, disks: seq<Disk>)
    requires Alarm(verify, hash, m, disks)
    ensures DiskWith(disks, "a") == Some(1) && Home(disks, m, 0) == 1 && Homes(disks, m, 1) == {1}
  {
    assert Homes(disks, m, 0) == {};
  }

  lemma AlarmIsReady(code: Code, verify: (bytes, string) -> bool, hash: bytes -> string, m: ObjectMeta,
                     disks: seq<Disk>)
    requires Alarm(verify, hash, m, disks)
    ensures AllShaped(disks) && Ready(code, verify, hash, disks, 1, 0, m, [[0]], 1, [[0]])
  {
    hide FindConsensus, Classified, Disk.ReadShard, Disk.Stat;
    AlarmReads(verify, hash, m, disks);
    AlarmConsensus(verify, hash, m, disks);
    AlarmHome(verify, hash, m, disks);
    var replies := Replies(disks);
    assert GoodRead(verify, 1, m, replies[1]);
    ClassifiedSlots(verify, m, replies, 1, 2, 0);
    CountAll(Classified(verify, 1, m, replies, 2));
  }

  lemma AlarmIsStale(verify: (bytes, string) -> bool, hash: bytes -> string, m: ObjectMeta, disks: seq<Disk>)
    requires Alarm(verify, hash, m, disks)
    ensures StaleFirst(verify, disks, m, 1)
  {
    hide Homes, Disk.ReadShard, Disk.Stat;
    AlarmReads(verify, hash, m, disks);
    AlarmHome(verify, hash, m, disks);
    assert disks[0].Stat().Some?;
    assert FirstHeld(disks, {1}, 2) == 0;
    var f := disks[0].Stat().value;
    assert ForeignGood(verify, disks, m, f, 1) == {};
  }

  lemma AlarmIsHealthy(code: Code, verify: (bytes, string) -> bool, hash: bytes -> string, m: ObjectMeta,
                       disks: seq<Disk>,
                       fate: nat -> Fate)
    requires Alarm(verify, hash, m, disks)
    ensures AllShaped(disks) && HealObject(code, verify, hash, disks, fate) == (disks, Ok(Healthy))
  {
    hide FindConsensus, Classified, Disk.ReadShard, Disk.Stat;
    AlarmReads(verify, hash, m, disks);
    AlarmConsensus(verify, hash, m, disks);
    var replies := Replies(disks);
    assert replies[1..][0] == replies[1];
    assert FirstReply(replies) == Some(m);
    assert GoodRead(verify, 1, m, replies[1]);
    ClassifiedSlots(verify, m, replies, 1, 2, 0);
    CountAll(Classified(verify, 1, m, replies, 2));
  }
}
