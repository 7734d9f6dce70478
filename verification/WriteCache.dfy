/** The write cache: whole encoded objects kept in memory until their primary node flushes
    them, with replicas on peers that hand them back after a restart. */
module WriteCaching {
  import opened ByteCodec
  import opened Metadata

  type Key = (string, string)

  datatype Entry = Entry(
    shards: seq<bytes>,
    metas: seq<ObjectMeta>,
    distribution: seq<nat>,
    etag: bytes,
    contentType: bytes,
    cachedAt: nat,
    primary: string)
  {
    function MemSize(): (n: nat)
      ensures n >= 128
    {
      |Flatten(shards)| + |metas| * 200 + |etag| + |contentType| + |primary| + 128
    }
  }

  type Entries = map<Key, Entry>

  datatype Cache = Cache(entries: Entries, size: int)

  // The bytes held

  ghost function Total(m: Entries): (n: nat)
    decreases |m|
  {
    if m == map[] then 0
    else
      var k :| k in m;
      m[k].MemSize() + Total(m - {k})
  }

  /** The sum does not depend on the order of adding. */
  lemma {:induction false} TotalWithout(m: Entries, k: Key)
    requires k in m
    ensures Total(m) == m[k].MemSize() + Total(m - {k})
    decreases |m|
  {
    var first :| first in m && Total(m) == m[first].MemSize() + Total(m - {first});
    if first != k {
      TotalWithout(m - {first}, k);
      TotalWithout(m - {k}, first);
      assert m - {first} - {k} == m - {k} - {first};
    }
  }

  lemma TotalPlus(m: Entries, k: Key, e: Entry)
    ensures Total(m[k := e]) == Total(m - {k}) + e.MemSize()
  {
    TotalWithout(m[k := e], k);
    assert m[k := e] - {k} == m - {k};
  }

  lemma TotalEmpty()
    ensures Total(map[]) == 0
  {
  }

  /** The counter is the exact number of bytes held, within the budget. */
  ghost predicate Exact(c: Cache, maxBytes: nat)
  {
    c.size == Total(c.entries) && c.size <= maxBytes
  }

  // The operations as functions

  predicate Fits(c: Cache, e: Entry, maxBytes: nat)
  {
    c.size + e.MemSize() <= maxBytes
  }

  function Insert(c: Cache, key: Key, e: Entry, maxBytes: nat): (r: Cache)
  {
    if !Fits(c, e, maxBytes) then c
    else Cache(c.entries[key := e], c.size - (if key in c.entries then c.entries[key].MemSize() else 0) + e.MemSize())
  }

  function Remove(c: Cache, key: Key): (r: Cache)
  {
    if key in c.entries then Cache(c.entries - {key}, c.size - c.entries[key].MemSize()) else c
  }

  /** Old enough, and owned by this node or by none. */
  predicate Flushable(e: Entry, local: string, now: nat, age: nat)
  {
    (if now >= e.cachedAt then now - e.cachedAt else 0) >= age && (e.primary == "" || e.primary == local)
  }

  function FlushKeys(m: Entries, local: string, now: nat, age: nat): (r: set<Key>)
  {
    set k | k in m && Flushable(m[k], local, now, age)
  }

  function OwnedKeys(m: Entries, primary: string): (r: set<Key>)
  {
    set k | k in m && m[k].primary == primary
  }

  function Select(m: Entries, keys: set<Key>): (r: Entries)
  {
    map k | k in m && k in keys :: m[k]
  }

  lemma InsertExact(c: Cache, key: Key, e: Entry, maxBytes: nat)
    requires Exact(c, maxBytes)
    ensures Exact(Insert(c, key, e, maxBytes), maxBytes)
  {
    TotalPlus(c.entries, key, e);
    if key in c.entries {
      TotalWithout(c.entries, key);
    } else {
      assert c.entries - {key} == c.entries;
    }
  }

  /** An insert is accepted exactly when the entry fits on top of everything held, an older entry of
      its key included, and then replaces that entry and nothing else. */
  lemma InsertIff(c: Cache, key: Key, e: Entry, maxBytes: nat)
    requires Exact(c, maxBytes)
    ensures Insert(c, key, e, maxBytes).entries
            == if Total(c.entries) + e.MemSize() <= maxBytes then c.entries[key := e] else c.entries
    ensures Exact(Insert(c, key, e, maxBytes), maxBytes)
  {
    InsertExact(c, key, e, maxBytes);
  }

  lemma RemoveExact(c: Cache, key: Key, maxBytes: nat)
    requires Exact(c, maxBytes)
    ensures Exact(Remove(c, key), maxBytes)
  {
    if key in c.entries {
      TotalWithout(c.entries, key);
    }
  }

  // Drains

  /** `drained` lists each selected entry once, and the cache keeps exactly the others. */
  ghost predicate Splits(was: Cache, keys: set<Key>, drained: seq<(Key, Entry)>, now: Cache)
  {
    && now.entries == was.entries - keys
    && Lists(drained, Select(was.entries, keys))
  }

  ghost predicate Lists(s: seq<(Key, Entry)>, m: Entries)
  {
    && (forall i :: 0 <= i < |s| ==> s[i].0 in m && m[s[i].0] == s[i].1)
    && (forall k :: k in m ==> exists i :: 0 <= i < |s| && s[i].0 == k)
    && (forall i, j :: 0 <= i < j < |s| ==> s[i].0 != s[j].0)
  }

  /** Nothing is lost and nothing is doubled by a drain. */
  lemma SplitsConserve(was: Cache, keys: set<Key>, drained: seq<(Key, Entry)>, now: Cache)
    requires Splits(was, keys, drained, now)
    ensures now.entries.Keys !! Select(was.entries, keys).Keys
    ensures now.entries + Select(was.entries, keys) == was.entries
    ensures Total(was.entries) == Total(now.entries) + Total(Select(was.entries, keys))
  {
    TotalMerge(now.entries, Select(was.entries, keys));
    assert now.entries + Select(was.entries, keys) == was.entries;
  }

  lemma {:induction false} TotalMerge(a: Entries, b: Entries)
    requires a.Keys !! b.Keys
    ensures Total(a + b) == Total(a) + Total(b)
    decreases |b|
  {
    hide Total;
    if b == map[] {
      assert a + b == a;
      TotalEmpty();
    } else {
      var k :| k in b;
      assert a.Keys !! (b - {k}).Keys;
      TotalMerge(a, b - {k});
      TotalWithout(b, k);
      TotalWithout(a + b, k);
      MergeLess(a, b, k);
    }
  }

  lemma MergeLess(a: Entries, b: Entries, k: Key)
    requires a.Keys !! b.Keys && k in b
    ensures (a + b) - {k} == a + (b - {k})
  {
  }

  class WriteCache {
    const maxBytes: nat
    var entries: Entries
    var size: int

    function View(): (c: Cache)
      reads this
    {
      Cache(entries, size)
    }

    constructor (max: nat)
      ensures maxBytes == max && View() == Cache(map[], 0) && Exact(View(), maxBytes)
    {
      maxBytes, entries, size := max, map[], 0;
      new;
      TotalEmpty();
    }

    method InsertEntry(key: Key, e: Entry) returns (inserted: bool)
      requires Exact(View(), maxBytes)
      modifies this
      ensures Exact(View(), maxBytes) && View() == Insert(old(View()), key, e, maxBytes)
      ensures inserted <==> Fits(old(View()), e, maxBytes)
    {
      hide Exact;
      InsertExact(View(), key, e, maxBytes);
      if size + e.MemSize() > maxBytes { return false; }
      if key in entries { size := size - entries[key].MemSize(); }
      size := size + e.MemSize();
      entries := entries[key := e];
      inserted := true;
    }

    method RemoveEntry(key: Key) returns (r: Option<Entry>)
      requires Exact(View(), maxBytes)
      modifies this
      ensures Exact(View(), maxBytes) && View() == Remove(old(View()), key)
      ensures r == if key in old(entries) then Some(old(entries)[key]) else None
    {
      hide Exact;
      RemoveExact(View(), key, maxBytes);
      if key !in entries { return None; }
      r := Some(entries[key]);
      size := size - entries[key].MemSize();
      entries := entries - {key};
    }

    /** Remove the given keys one by one, collecting their entries. */
    method DrainKeys(keys: set<Key>) returns (drained: seq<(Key, Entry)>)
      requires Exact(View(), maxBytes) && keys <= entries.Keys
      modifies this
      ensures Exact(View(), maxBytes) && Splits(old(View()), keys, drained, View())
    {
      drained := [];
      var rest := keys;
      while rest != {}
        invariant Exact(View(), maxBytes) && rest <= keys
        invariant entries == old(entries) - (keys - rest)
        invariant Lists(drained, Select(old(entries), keys - rest))
      {
        hide Exact, Lists, Select;
        var key :| key in rest;
        ghost var done := keys - rest;
        ListsMore(drained, old(entries), done, key);
        var r := RemoveEntry(key);
        assert r.value == old(entries)[key];
        drained := drained + [(key, r.value)];
        rest := rest - {key};
        assert keys - rest == done + {key};
      }
      assert keys - rest == keys;
    }

    method DrainPrimaryOlderThan(local: string, now: nat, age: nat) returns (drained: seq<(Key, Entry)>)
      requires Exact(View(), maxBytes)
      modifies this
      ensures Exact(View(), maxBytes) && Splits(old(View()), FlushKeys(old(entries), local, now, age), drained, View())
      ensures forall i :: 0 <= i < |drained| ==> drained[i].1.primary == "" || drained[i].1.primary == local
    {
      hide Exact;
      var keys := set k | k in entries && Flushable(entries[k], local, now, age);
      drained := DrainKeys(keys);
    }

    method DrainByPrimary(primary: string) returns (drained: seq<(Key, Entry)>)
      requires Exact(View(), maxBytes)
      modifies this
      ensures Exact(View(), maxBytes) && Splits(old(View()), OwnedKeys(old(entries), primary), drained, View())
    {
      hide Exact;
      var keys := set k | k in entries && entries[k].primary == primary;
      drained := DrainKeys(keys);
    }

    /** Insert what one peer handed back; an insert that does not fit is dropped. */
    method InsertPulled(now: nat, pulled: seq<(Key, Entry)>)
      requires Exact(View(), maxBytes)
      modifies this
      ensures Exact(View(), maxBytes) && View() == InsertAll(old(View()), Restamp(pulled, now), maxBytes)
    {
      for i := 0 to |pulled|
        invariant Exact(View(), maxBytes)
        invariant View() == InsertAll(old(View()), Restamp(pulled[..i], now), maxBytes)
      {
        hide Exact, Insert;
        assert Restamp(pulled[..i + 1], now)[..i] == Restamp(pulled[..i], now);
        var inserted := InsertEntry(pulled[i].0, pulled[i].1.(cachedAt := now));
      }
      assert pulled[..|pulled|] == pulled;
    }

    /** Recovery at startup from the replies of all peers, some of which may have failed. */
    method RecoverFromPeers(local: string, now: nat, replies: seq<Option<seq<(Key, Entry)>>>)
      requires Exact(View(), maxBytes)
      modifies this
      ensures Exact(View(), maxBytes)
      ensures View() == if local == "" then old(View())
              else InsertAll(old(View()), Restamp(Received(replies), now), maxBytes)
    {
      if local == "" { return; }
      for p := 0 to |replies|
        invariant Exact(View(), maxBytes)
        invariant View() == InsertAll(old(View()), Restamp(Received(replies[..p]), now), maxBytes)
      {
        hide Exact, Insert;
        assert replies[..p + 1][..p] == replies[..p];
        ghost var got := Received(replies[..p]);
        if replies[p].Some? {
          var pulled := replies[p].value;
          InsertPulled(now, pulled);
          InsertAllAppend(old(View()), Restamp(got, now), Restamp(pulled, now), maxBytes);
          assert Restamp(got + pulled, now) == Restamp(got, now) + Restamp(pulled, now);
        } else {
          assert got + [] == got;
        }
      }
      assert replies[..|replies|] == replies;
    }
  }

  lemma ListsMore(s: seq<(Key, Entry)>, m: Entries, keys: set<Key>, key: Key)
    requires Lists(s, Select(m, keys)) && key in m && key !in keys
    ensures Lists(s + [(key, m[key])], Select(m, keys + {key}))
  {
    var s', m' := s + [(key, m[key])], Select(m, keys + {key});
    forall k | k in m'
      ensures exists i :: 0 <= i < |s'| && s'[i].0 == k
    {
      if k == key {
        assert s'[|s|].0 == k;
      } else {
        assert k in Select(m, keys);
        var i :| 0 <= i < |s| && s[i].0 == k;
        assert s'[i].0 == k;
      }
    }
  }

  // Recovery from peers

  /** All entries received, in order. */
  function Received(replies: seq<Option<seq<(Key, Entry)>>>): (r: seq<(Key, Entry)>)
  {
    if replies == [] then []
    else
      var last := replies[|replies| - 1];
      Received(replies[..|replies| - 1]) + if last.Some? then last.value else []
  }

  /** Everything that a peer which answered sent, and nothing else. */
  lemma {:induction false} ReceivedIff(replies: seq<Option<seq<(Key, Entry)>>>, x: (Key, Entry))
    ensures x in Received(replies)
            <==> exists p :: 0 <= p < |replies| && replies[p].Some? && x in replies[p].value
  {
    if replies != [] {
      var n := |replies| - 1;
      ReceivedIff(replies[..n], x);
      assert forall p :: 0 <= p < n ==> replies[..n][p] == replies[p];
    }
  }

  function Restamp(s: seq<(Key, Entry)>, now: nat): (r: seq<(Key, Entry)>)
    ensures |r| == |s|
    ensures forall i :: 0 <= i < |s| ==> r[i] == (s[i].0, s[i].1.(cachedAt := now))
  {
    seq(|s|, i requires 0 <= i < |s| => (s[i].0, s[i].1.(cachedAt := now)))
  }

  function InsertAll(c: Cache, s: seq<(Key, Entry)>, maxBytes: nat): (r: Cache)
  {
    if s == [] then c
    else Insert(InsertAll(c, s[..|s| - 1], maxBytes), s[|s| - 1].0, s[|s| - 1].1, maxBytes)
  }

  lemma {:induction false} InsertAllAppend(c: Cache, a: seq<(Key, Entry)>, b: seq<(Key, Entry)>, maxBytes: nat)
    ensures InsertAll(c, a + b, maxBytes) == InsertAll(InsertAll(c, a, maxBytes), b, maxBytes)
  {
    hide Insert;
    if b == [] {
      assert a + b == a;
    } else {
      var n := |b| - 1;
      InsertAllAppend(c, a, b[..n], maxBytes);
      assert (a + b)[..|a + b| - 1] == a + b[..n];
    }
  }

  /** Bytes of a list of entries. */
  function ListTotal(s: seq<(Key, Entry)>): (n: nat)
  {
    if s == [] then 0 else ListTotal(s[..|s| - 1]) + s[|s| - 1].1.MemSize()
  }

  ghost predicate DistinctKeys(s: seq<(Key, Entry)>)
  {
    forall i, j :: 0 <= i < j < |s| ==> s[i].0 != s[j].0
  }

  function AsMap(s: seq<(Key, Entry)>): (m: Entries)
    ensures forall k :: k in m <==> exists i :: 0 <= i < |s| && s[i].0 == k
  {
    if s == [] then map[] else
      assert s == s[..|s| - 1] + [s[|s| - 1]];
      AsMap(s[..|s| - 1])[s[|s| - 1].0 := s[|s| - 1].1]
  }

  lemma {:induction false} ListTotalIsTotal(s: seq<(Key, Entry)>)
    requires DistinctKeys(s)
    ensures ListTotal(s) == Total(AsMap(s))
  {
    hide Total;
    if s == [] {
      TotalEmpty();
    } else {
      var n := |s| - 1;
      ListTotalIsTotal(s[..n]);
      TotalPlus(AsMap(s[..n]), s[n].0, s[n].1);
      assert AsMap(s[..n]) - {s[n].0} == AsMap(s[..n]);
    }
  }

  /** Recovery into an empty cache restores every entry exactly when they fit together. */
  lemma {:induction false} RecoveryCompleteIff(s: seq<(Key, Entry)>, maxBytes: nat)
    requires DistinctKeys(s)
    ensures var r := InsertAll(Cache(map[], 0), s, maxBytes);
            && Exact(r, maxBytes) && (r.entries == AsMap(s) <==> ListTotal(s) <= maxBytes)
            && r.entries.Keys <= AsMap(s).Keys && r.size <= ListTotal(s)
  {
    TotalEmpty();
    if s != [] {
      var n := |s| - 1;
      var front := s[..n];
      RecoveryCompleteIff(front, maxBytes);
      var before := InsertAll(Cache(map[], 0), front, maxBytes);
      InsertExact(before, s[n].0, s[n].1, maxBytes);
      ListTotalIsTotal(s);
      ListTotalIsTotal(front);
      assert s[n].0 !in AsMap(front);
      if Fits(before, s[n].1, maxBytes) {
        SameExtension(before.entries, AsMap(front), s[n].0, s[n].1);
      } else {
        assert s[n].0 !in before.entries;
      }
    }
  }

  lemma SameExtension(a: Entries, b: Entries, k: Key, e: Entry)
    requires k !in a && k !in b
    ensures a[k := e] == b[k := e] <==> a == b
  {
    assert a[k := e] - {k} == a;
    assert b[k := e] - {k} == b;
  }

  lemma {:induction false} RestampTotals(s: seq<(Key, Entry)>, now: nat)
    ensures ListTotal(Restamp(s, now)) == ListTotal(s)
  {
    if s != [] {
      RestampTotals(s[..|s| - 1], now);
      assert Restamp(s, now)[..|s| - 1] == Restamp(s[..|s| - 1], now);
    }
  }

  /** Across a restart: what a peer drains for this node, inserted into an empty cache no
      smaller than the peer's bytes in use, is every entry the peer held for it. */
  lemma PeerRestores(peer: Cache, peerMax: nat, primary: string, drained: seq<(Key, Entry)>, left: Cache, now: nat,
                     maxBytes: nat)
    requires Exact(peer, peerMax) && peer.size <= maxBytes
    requires Splits(peer, OwnedKeys(peer.entries, primary), drained, left)
    ensures var r := InsertAll(Cache(map[], 0), Restamp(drained, now), maxBytes).entries;
            && (forall k :: k in r <==> k in peer.entries && peer.entries[k].primary == primary)
            && (forall k :: k in r ==> r[k] == peer.entries[k].(cachedAt := now))
            && (forall k :: k in peer.entries && peer.entries[k].primary != primary ==>
                  k in left.entries && left.entries[k] == peer.entries[k])
  {
    var keys := OwnedKeys(peer.entries, primary);
    SplitsConserve(peer, keys, drained, left);
    ListedMap(drained, Select(peer.entries, keys));
    ListTotalIsTotal(drained);
    RestampTotals(drained, now);
    var back := Restamp(drained, now);
    RecoveryCompleteIff(back, maxBytes);
    RestampedMap(drained, now);
  }

  lemma {:induction false} ListedMap(s: seq<(Key, Entry)>, m: Entries)
    requires Lists(s, m)
    ensures AsMap(s) == m
  {
    forall i | 0 <= i < |s|
      ensures AsMap(s)[s[i].0] == s[i].1
    {
      MapAt(s, i);
    }
  }

  lemma {:induction false} MapAt(s: seq<(Key, Entry)>, i: nat)
    requires DistinctKeys(s) && i < |s|
    ensures AsMap(s)[s[i].0] == s[i].1
  {
    if i < |s| - 1 {
      MapAt(s[..|s| - 1], i);
    }
  }

  lemma RestampedMap(s: seq<(Key, Entry)>, now: nat)
    requires DistinctKeys(s)
    ensures forall k :: k in AsMap(Restamp(s, now)) <==> k in AsMap(s)
    ensures forall k :: k in AsMap(s) ==> AsMap(Restamp(s, now))[k] == AsMap(s)[k].(cachedAt := now)
  {
    var back := Restamp(s, now);
    forall k | k in AsMap(s)
      ensures k in AsMap(back) && AsMap(back)[k] == AsMap(s)[k].(cachedAt := now)
    {
      var i :| 0 <= i < |s| && s[i].0 == k;
      MapAt(s, i);
      assert back[i].0 == k;
      MapAt(back, i);
    }
    forall k | k in AsMap(back)
      ensures k in AsMap(s)
    {
      var i :| 0 <= i < |back| && back[i].0 == k;
      assert s[i].0 == k;
    }
  }

  // Flushing

  type Disk = map<Key, (bytes, ObjectMeta)>

  /** The distribution names disks that exist. */
  predicate Placeable(e: Entry, disks: nat)
  {
    forall i :: 0 <= i < |e.distribution| ==> e.distribution[i] < disks
  }

  /** Shard `i` has a disk and metadata, and its write succeeds. */
  predicate Writes(e: Entry, key: Key, wrote: (Key, nat) -> bool, i: nat)
  {
    i < |e.shards| && i < |e.distribution| && i < |e.metas| && wrote(key, i)
  }

  function StoreShards(disks: seq<Disk>, key: Key, e: Entry, wrote: (Key, nat) -> bool, k: nat): (r: seq<Disk>)
    requires k <= |e.shards| && Placeable(e, |disks|)
    ensures |r| == |disks|
  {
    if k == 0 then disks
    else
      var before := StoreShards(disks, key, e, wrote, k - 1);
      if Writes(e, key, wrote, k - 1)
      then before[e.distribution[k - 1] := before[e.distribution[k - 1]][key := (e.shards[k - 1], e.metas[k - 1])]]
      else before
  }

  function StoreAll(disks: seq<Disk>, drained: seq<(Key, Entry)>, wrote: (Key, nat) -> bool): (r: seq<Disk>)
    requires forall i :: 0 <= i < |drained| ==> Placeable(drained[i].1, |disks|)
    ensures |r| == |disks|
  {
    if drained == [] then disks
    else
      var (key, e) := drained[|drained| - 1];
      StoreShards(StoreAll(disks, drained[..|drained| - 1], wrote), key, e, wrote, |e.shards|)
  }

  method FlushOlderThan(cache: WriteCache, disks: array<Disk>, local: string, now: nat, age: nat,
                        wrote: (Key, nat) -> bool)
    returns (ghost drained: seq<(Key, Entry)>)
    requires Exact(cache.View(), cache.maxBytes)
    requires forall k :: k in cache.entries ==> Placeable(cache.entries[k], disks.Length)
    modifies cache, disks
    ensures Exact(cache.View(), cache.maxBytes)
    ensures Splits(old(cache.View()), FlushKeys(old(cache.entries), local, now, age), drained, cache.View())
    ensures forall i :: 0 <= i < |drained| ==> Placeable(drained[i].1, disks.Length)
    ensures disks[..] == StoreAll(old(disks[..]), drained, wrote)
  {
    hide Exact, Placeable;
    var entries := cache.DrainPrimaryOlderThan(local, now, age);
    drained := entries;
    ghost var was := disks[..];
    for n := 0 to |entries|
      modifies disks
      invariant disks[..] == StoreAll(was, entries[..n], wrote)
    {
      hide Exact, Placeable, StoreShards;
      assert entries[..n + 1][..n] == entries[..n];
      StoreEntry(disks, entries[n].0, entries[n].1, wrote);
    }
    assert entries[..|entries|] == entries;
  }

  method StoreEntry(disks: array<Disk>, key: Key, e: Entry, wrote: (Key, nat) -> bool)
    requires Placeable(e, disks.Length)
    modifies disks
    ensures disks[..] == StoreShards(old(disks[..]), key, e, wrote, |e.shards|)
  {
    ghost var was := disks[..];
    for i := 0 to |e.shards|
      invariant disks[..] == StoreShards(was, key, e, wrote, i)
    {
      if i < |e.distribution| && i < |e.metas| && wrote(key, i) {
        var j := e.distribution[i];
        ghost var before := disks[..];
        disks[j] := disks[j][key := (e.shards[i], e.metas[i])];
        assert disks[..] == before[j := before[j][key := (e.shards[i], e.metas[i])]];
      }
    }
  }

  function At(disk: Disk, key: Key): (r: Option<(bytes, ObjectMeta)>)
  {
    if key in disk then Some(disk[key]) else None
  }

  /** The last of the first `k` shards whose write to disk `j` succeeds. */
  function LastWriter(e: Entry, key: Key, wrote: (Key, nat) -> bool, j: nat, k: nat): (r: Option<nat>)
    ensures r.Some? ==> r.value < k && Writes(e, key, wrote, r.value) && e.distribution[r.value] == j
    ensures forall i :: (if r.Some? then r.value + 1 else 0) <= i < k && Writes(e, key, wrote, i) ==>
              e.distribution[i] != j
  {
    if k == 0 then None
    else if Writes(e, key, wrote, k - 1) && e.distribution[k - 1] == j then Some(k - 1)
    else LastWriter(e, key, wrote, j, k - 1)
  }

  /** What disk `j` holds of an entry's key once the entry was written out. */
  function Flushed(disk: Disk, key: Key, e: Entry, wrote: (Key, nat) -> bool, j: nat,
                   k: nat): (r: Option<(bytes, ObjectMeta)>)
    requires k <= |e.shards|
  {
    match LastWriter(e, key, wrote, j, k)
    case Some(w) => Some((e.shards[w], e.metas[w]))
    case None => At(disk, key)
  }

  lemma {:induction false} ShardsStored(disks: seq<Disk>, key: Key, e: Entry, wrote: (Key, nat) -> bool, k: nat,
                                        j: nat, x: Key)
    requires k <= |e.shards| && Placeable(e, |disks|) && j < |disks|
    ensures At(StoreShards(disks, key, e, wrote, k)[j], x)
            == if x == key then Flushed(disks[j], key, e, wrote, j, k) else At(disks[j], x)
  {
    if k > 0 {
      ShardsStored(disks, key, e, wrote, k - 1, j, x);
    }
  }

  lemma {:induction false} EntriesStored(disks: seq<Disk>, drained: seq<(Key, Entry)>, wrote: (Key, nat) -> bool,
                                         j: nat, x: Key)
    requires DistinctKeys(drained) && forall m :: 0 <= m < |drained| ==> Placeable(drained[m].1, |disks|)
    requires j < |disks|
    ensures forall n :: 0 <= n < |drained| && drained[n].0 == x ==>
              At(StoreAll(disks, drained, wrote)[j], x)
                == Flushed(disks[j], x, drained[n].1, wrote, j, |drained[n].1.shards|)
    ensures (forall n :: 0 <= n < |drained| ==> drained[n].0 != x) ==>
              At(StoreAll(disks, drained, wrote)[j], x) == At(disks[j], x)
  {
    hide StoreShards, Placeable, LastWriter, At;
    if drained != [] {
      var last := |drained| - 1;
      var front := drained[..last];
      assert forall n :: 0 <= n < last ==> front[n] == drained[n];
      EntriesStored(disks, front, wrote, j, x);
      var (key, e) := drained[last];
      var before := StoreAll(disks, front, wrote);
      ShardsStored(before, key, e, wrote, |e.shards|, j, x);
    }
  }

  /** What a flush does to one entry. It goes exactly if it has been cached long enough and this
      node, or none, owns it; then every disk holds the last shard whose write
      to it succeeded, or what it held before: a failed write is forgotten. Otherwise it is cached
      unchanged, and no disk changes for its key. */
  lemma FlushMoves(was: Cache, left: Cache, disks: seq<Disk>, drained: seq<(Key, Entry)>, wrote: (Key, nat) -> bool,
                   local: string, now: nat, age: nat, k: Key, j: nat)
    requires Splits(was, FlushKeys(was.entries, local, now, age), drained, left) && k in was.entries && j < |disks|
    requires forall i :: 0 <= i < |drained| ==> Placeable(drained[i].1, |disks|)
    ensures var e, after := was.entries[k], At(StoreAll(disks, drained, wrote)[j], k);
            if (age == 0 || e.cachedAt + age <= now) && (e.primary == "" || e.primary == local) then
              && k !in left.entries
              && after == Flushed(disks[j], k, e, wrote, j, |e.shards|)
            else k in left.entries && left.entries[k] == e && after == At(disks[j], k)
  {
    hide StoreAll, Placeable, At, Flushed;
    var e := was.entries[k];
    EntriesStored(disks, drained, wrote, j, k);
    if Flushable(e, local, now, age) {
      assert k in Select(was.entries, FlushKeys(was.entries, local, now, age));
      var n :| 0 <= n < |drained| && drained[n].0 == k;
    }
  }

  /** No disk is named twice. */
  ghost predicate Spread(e: Entry)
  {
    forall i, j :: 0 <= i < j < |e.distribution| ==> e.distribution[i] != e.distribution[j]
  }

  /** Shard `i` and its metadata are on the disk the distribution names. */
  ghost predicate Stored(disks: seq<Disk>, key: Key, e: Entry, i: nat)
    requires i < |e.shards| && i < |e.distribution| && i < |e.metas| && e.distribution[i] < |disks|
  {
    At(disks[e.distribution[i]], key) == Some((e.shards[i], e.metas[i]))
  }

  /** A shard of a flushed entry is stored afterwards exactly when its write succeeded or it was
      stored before; the cache no longer has it in either case. */
  lemma FlushStoresIff(was: Cache, left: Cache, disks: seq<Disk>, drained: seq<(Key, Entry)>, wrote: (Key, nat) -> bool,
                       local: string, now: nat, age: nat, k: Key, i: nat)
    requires Splits(was, FlushKeys(was.entries, local, now, age), drained, left) && k in was.entries
    requires forall n :: 0 <= n < |drained| ==> Placeable(drained[n].1, |disks|)
    requires var e := was.entries[k];
             && Flushable(e, local, now, age) && Placeable(e, |disks|) && Spread(e)
             && i < |e.shards| && i < |e.distribution| && i < |e.metas|
    ensures var e := was.entries[k];
            && k !in left.entries
            && (Stored(StoreAll(disks, drained, wrote), k, e, i) <==> wrote(k, i) || Stored(disks, k, e, i))
  {
    hide StoreAll;
    var e := was.entries[k];
    FlushMoves(was, left, disks, drained, wrote, local, now, age, k, e.distribution[i]);
  }

  /** The loss: when every write of a flushed entry fails, it is neither in the cache nor, if it
      was not there before, on any disk. */
  lemma FlushLoses(was: Cache, left: Cache, disks: seq<Disk>, drained: seq<(Key, Entry)>, wrote: (Key, nat) -> bool,
                   local: string, now: nat, age: nat, k: Key)
    requires Splits(was, FlushKeys(was.entries, local, now, age), drained, left) && k in was.entries
    requires forall n :: 0 <= n < |drained| ==> Placeable(drained[n].1, |disks|)
    requires Flushable(was.entries[k], local, now, age) && (forall i: nat :: !wrote(k, i))
    requires forall j :: 0 <= j < |disks| ==> k !in disks[j]
    ensures k !in left.entries && forall j :: 0 <= j < |disks| ==> k !in StoreAll(disks, drained, wrote)[j]
  {
    hide StoreAll, Splits;
    forall j | 0 <= j < |disks|
      ensures k !in StoreAll(disks, drained, wrote)[j]
    {
      FlushMoves(was, left, disks, drained, wrote, local, now, age, k, j);
    }
    Gone(was, left, drained, local, now, age, k);
  }

  lemma Gone(was: Cache, left: Cache, drained: seq<(Key, Entry)>, local: string, now: nat, age: nat, k: Key)
    requires Splits(was, FlushKeys(was.entries, local, now, age), drained, left)
    requires k in was.entries && Flushable(was.entries[k], local, now, age)
    ensures k !in left.entries
  {
  }
}
