/** The read cache: object bytes by key, evicted in strict least-recently-used order when
    the bytes held exceed the budget. */
module ReadCaching {
  import opened ByteCodec

  type Key = (string, string)

  datatype Info = Info(bucket: bytes, key: bytes, etag: bytes, contentType: bytes, versionId: bytes)

  datatype Entry = Entry(data: bytes, info: Info)
  {
    function MemSize(): (n: nat)
      ensures n >= 128
    {
      |data| + |info.bucket| + |info.key| + |info.etag| + |info.contentType| + |info.versionId| + 128
    }
  }

  datatype Slot = Slot(key: Key, entry: Entry)

  /** The slots, most recently used first, and the byte counter. */
  datatype Cache = Cache(slots: seq<Slot>, size: nat)

  datatype Limits = Limits(maxBytes: nat, maxObjectBytes: nat)

  // The operations as functions

  function SaturatingSub(a: nat, b: nat): (r: nat)
  {
    if a >= b then a - b else 0
  }

  /** The position of a key, or the number of slots. */
  function Find(slots: seq<Slot>, key: Key): (i: nat)
    ensures i <= |slots|
    ensures i < |slots| ==> slots[i].key == key
    ensures forall j :: 0 <= j < i ==> slots[j].key != key
  {
    if slots == [] || slots[0].key == key then 0 else 1 + Find(slots[1..], key)
  }

  function Without(slots: seq<Slot>, i: nat): (r: seq<Slot>)
    requires i < |slots|
    ensures |r| == |slots| - 1
    ensures forall j :: 0 <= j < i ==> r[j] == slots[j]
    ensures forall j :: i <= j < |r| ==> r[j] == slots[j + 1]
  {
    slots[..i] + slots[i + 1..]
  }

  function Pop(c: Cache, key: Key): (r: Cache)
  {
    var i := Find(c.slots, key);
    if i == |c.slots| then c
    else Cache(Without(c.slots, i), SaturatingSub(c.size, c.slots[i].entry.MemSize()))
  }

  function Evict(c: Cache, maxBytes: nat): (r: Cache)
    decreases |c.slots|
  {
    if c.size <= maxBytes || c.slots == [] then c
    else
      var n := |c.slots| - 1;
      Evict(Cache(c.slots[..n], SaturatingSub(c.size, c.slots[n].entry.MemSize())), maxBytes)
  }

  function Lookup(c: Cache, key: Key): (r: Option<Entry>)
  {
    var i := Find(c.slots, key);
    if i == |c.slots| then None else Some(c.slots[i].entry)
  }

  /** A hit moves its slot to the front. */
  function Touch(c: Cache, key: Key): (r: Cache)
  {
    var i := Find(c.slots, key);
    if i == |c.slots| then c else c.(slots := [c.slots[i]] + Without(c.slots, i))
  }

  predicate Accepted(l: Limits, e: Entry)
  {
    |e.data| <= l.maxObjectBytes && l.maxBytes != 0
  }

  function Pushed(c: Cache, key: Key, e: Entry): (r: Cache)
  {
    var c' := Pop(c, key);
    Cache([Slot(key, e)] + c'.slots, c'.size + e.MemSize())
  }

  function Put(l: Limits, c: Cache, key: Key, e: Entry): (r: Cache)
  {
    if Accepted(l, e) then Evict(Pushed(c, key, e), l.maxBytes) else c
  }

  /** The keys of a bucket, in slot order. */
  function KeysOf(slots: seq<Slot>, bucket: string): (r: seq<Key>)
  {
    if slots == [] then []
    else
      var n := |slots| - 1;
      KeysOf(slots[..n], bucket) + if slots[n].key.0 == bucket then [slots[n].key] else []
  }

  function PopAll(c: Cache, keys: seq<Key>): (r: Cache)
  {
    if keys == [] then c else Pop(PopAll(c, keys[..|keys| - 1]), keys[|keys| - 1])
  }

  function DropBucket(c: Cache, bucket: string): (r: Cache)
  {
    PopAll(c, KeysOf(c.slots, bucket))
  }

  // The invariant

  function Total(slots: seq<Slot>): (n: nat)
  {
    if slots == [] then 0 else Total(slots[..|slots| - 1]) + slots[|slots| - 1].entry.MemSize()
  }

  ghost predicate DistinctKeys(slots: seq<Slot>)
  {
    forall i, j :: 0 <= i < j < |slots| ==> slots[i].key != slots[j].key
  }

  /** The counter is exactly the bytes held; a key is held once. */
  ghost predicate Exact(c: Cache)
  {
    c.size == Total(c.slots) && DistinctKeys(c.slots)
  }

  lemma {:induction false} TotalAppend(a: seq<Slot>, b: seq<Slot>)
    ensures Total(a + b) == Total(a) + Total(b)
  {
    if b == [] {
      assert a + b == a;
    } else {
      var n := |b| - 1;
      assert (a + b)[..|a + b| - 1] == a + b[..n];
      TotalAppend(a, b[..n]);
    }
  }

  lemma TotalOne(s: Slot)
    ensures Total([s]) == s.entry.MemSize()
  {
    assert [s][..0] == [];
  }

  lemma TotalWithout(slots: seq<Slot>, i: nat)
    requires i < |slots|
    ensures Total(slots) == Total(Without(slots, i)) + slots[i].entry.MemSize()
  {
    hide Total;
    TotalMiddle(slots[..i], slots[i], slots[i + 1..]);
    CutAt(slots, i);
  }

  lemma CutAt<T>(s: seq<T>, i: nat)
    requires i < |s|
    ensures s == s[..i] + ([s[i]] + s[i + 1..])
  {
  }

  lemma TotalMiddle(a: seq<Slot>, s: Slot, b: seq<Slot>)
    ensures Total(a + ([s] + b)) == Total(a + b) + s.entry.MemSize()
  {
    hide Total;
    TotalAppend(a, [s] + b);
    TotalAppend([s], b);
    TotalAppend(a, b);
    TotalOne(s);
  }

  lemma DistinctWithout(slots: seq<Slot>, i: nat)
    requires i < |slots| && DistinctKeys(slots)
    ensures DistinctKeys(Without(slots, i))
    ensures forall j :: 0 <= j < |slots| - 1 ==> Without(slots, i)[j].key != slots[i].key
  {
  }

  /** Popping subtracts exactly the entry's size: the subtraction never saturates. */
  lemma PopExact(c: Cache, key: Key)
    requires Exact(c)
    ensures Exact(Pop(c, key)) && Pop(c, key).size <= c.size
    ensures forall k :: Lookup(Pop(c, key), k) == if k == key then None else Lookup(c, k)
  {
    hide Total, DistinctKeys, Find;
    var i := Find(c.slots, key);
    if i < |c.slots| {
      TotalWithout(c.slots, i);
      DistinctWithout(c.slots, i);
    }
    forall k
      ensures Lookup(Pop(c, key), k) == if k == key then None else Lookup(c, k)
    {
      PopLookup(c, key, k);
    }
  }

  lemma Found(slots: seq<Slot>, i: nat)
    requires DistinctKeys(slots) && i < |slots|
    ensures Find(slots, slots[i].key) == i
  {
    hide Find;
  }

  lemma PopLookup(c: Cache, key: Key, k: Key)
    requires DistinctKeys(c.slots)
    ensures Lookup(Pop(c, key), k) == if k == key then None else Lookup(c, k)
  {
    hide Find;
    var i := Find(c.slots, key);
    if i < |c.slots| {
      DistinctWithout(c.slots, i);
      var left := Without(c.slots, i);
      var j := Find(c.slots, k);
      if k != key && j < |c.slots| {
        var at := if j < i then j else j - 1;
        assert left[at] == c.slots[j];
        Found(left, at);
      }
    }
  }

  /** Eviction keeps the longest run of most recently used slots that fits the budget. */
  ghost predicate LongestFit(all: seq<Slot>, kept: seq<Slot>, maxBytes: nat)
  {
    && kept <= all && Total(kept) <= maxBytes
    && (|kept| < |all| ==> Total(all[..|kept| + 1]) > maxBytes)
  }

  lemma DropLastExact(c: Cache)
    requires Exact(c) && c.slots != []
    ensures var n := |c.slots| - 1;
            Exact(Cache(c.slots[..n], SaturatingSub(c.size, c.slots[n].entry.MemSize())))
  {
  }

  lemma {:induction false} EvictFits(c: Cache, maxBytes: nat)
    requires Exact(c)
    ensures Exact(Evict(c, maxBytes)) && LongestFit(c.slots, Evict(c, maxBytes).slots, maxBytes)
    decreases |c.slots|
  {
    if c.size > maxBytes && c.slots != [] {
      var n := |c.slots| - 1;
      var next := Cache(c.slots[..n], SaturatingSub(c.size, c.slots[n].entry.MemSize()));
      assert Exact(next) by { DropLastExact(c); }
      hide Total, DistinctKeys, Entry.MemSize;
      EvictFits(next, maxBytes);
      var kept := Evict(next, maxBytes).slots;
      if |kept| == n {
        assert c.slots[..n + 1] == c.slots;
      } else {
        assert next.slots[..|kept| + 1] == c.slots[..|kept| + 1];
      }
    }
  }

  lemma TouchKeeps(c: Cache, key: Key)
    requires Exact(c)
    ensures Exact(Touch(c, key)) && Touch(c, key).size == c.size
    ensures forall k :: Lookup(Touch(c, key), k) == Lookup(c, k)
  {
    hide Total, Find;
    var i := Find(c.slots, key);
    if i < |c.slots| {
      var rest := Without(c.slots, i);
      TotalWithout(c.slots, i);
      DistinctWithout(c.slots, i);
      TotalAppend([c.slots[i]], rest);
      TotalOne(c.slots[i]);
      PushLookup(c, key, c.slots[i].entry);
      assert Touch(c, key).slots == Pushed(c, key, c.slots[i].entry).slots;
    }
  }

  lemma PushLookup(c: Cache, key: Key, e: Entry)
    requires DistinctKeys(c.slots)
    ensures DistinctKeys(Pushed(c, key, e).slots)
    ensures forall k :: Lookup(Pushed(c, key, e), k) == if k == key then Some(e) else Lookup(c, k)
  {
    hide Find;
    var i := Find(c.slots, key);
    if i < |c.slots| {
      DistinctWithout(c.slots, i);
    }
    forall k
      ensures Lookup(Pushed(c, key, e), k) == if k == key then Some(e) else Lookup(c, k)
    {
      PopLookup(c, key, k);
      FrontLookup(Pop(c, key), Slot(key, e), k);
    }
  }

  lemma FrontLookup(c: Cache, s: Slot, k: Key)
    ensures forall n: nat :: Lookup(Cache([s] + c.slots, n), k) == if k == s.key then Some(s.entry) else Lookup(c, k)
  {
    assert ([s] + c.slots)[1..] == c.slots;
  }

  lemma PushExact(c: Cache, key: Key, e: Entry)
    requires Exact(c)
    ensures Exact(Pushed(c, key, e))
  {
    hide Total, Find, DistinctKeys;
    PopExact(c, key);
    PushLookup(c, key, e);
    TotalAppend([Slot(key, e)], Pop(c, key).slots);
    TotalOne(Slot(key, e));
  }

  /** After an accepted put the cache holds the longest most recently used run that fits,
      counted from the new entry. */
  lemma PutKeepsLongestFit(l: Limits, c: Cache, key: Key, e: Entry)
    requires Exact(c) && Accepted(l, e)
    ensures Exact(Put(l, c, key, e))
    ensures LongestFit([Slot(key, e)] + Pop(c, key).slots, Put(l, c, key, e).slots, l.maxBytes)
  {
    hide Evict, Find, Total;
    PushExact(c, key, e);
    EvictFits(Pushed(c, key, e), l.maxBytes);
  }

  lemma PrefixLookup(all: Cache, kept: Cache, k: Key)
    requires kept.slots <= all.slots && Lookup(kept, k).Some?
    ensures Lookup(kept, k) == Lookup(all, k)
  {
    hide Find;
    var i := Find(kept.slots, k);
    assert all.slots[i] == kept.slots[i];
    assert forall j :: 0 <= j < i ==> all.slots[j] == kept.slots[j];
  }

  lemma {:induction false} PopAllExact(c: Cache, keys: seq<Key>)
    requires Exact(c)
    ensures Exact(PopAll(c, keys)) && PopAll(c, keys).size <= c.size
    ensures forall k :: Lookup(PopAll(c, keys), k) == if k in keys then None else Lookup(c, k)
  {
    hide Exact, Lookup, Pop;
    if keys != [] {
      var n := |keys| - 1;
      PopAllExact(c, keys[..n]);
      PopExact(PopAll(c, keys[..n]), keys[n]);
      assert keys == keys[..n] + [keys[n]];
    }
  }

  lemma {:induction false} KeysOfBucket(slots: seq<Slot>, bucket: string, k: Key)
    ensures k in KeysOf(slots, bucket) <==> k.0 == bucket && exists i :: 0 <= i < |slots| && slots[i].key == k
  {
    if slots != [] {
      KeysOfBucket(slots[..|slots| - 1], bucket, k);
    }
  }

  /** Dropping a bucket removes its keys and no others. */
  lemma DropBucketDrops(c: Cache, bucket: string)
    requires Exact(c)
    ensures Exact(DropBucket(c, bucket)) && DropBucket(c, bucket).size <= c.size
    ensures forall k :: Lookup(DropBucket(c, bucket), k) == if k.0 == bucket then None else Lookup(c, k)
  {
    hide Exact, PopAll, KeysOf;
    PopAllExact(c, KeysOf(c.slots, bucket));
    forall k
      ensures Lookup(DropBucket(c, bucket), k) == if k.0 == bucket then None else Lookup(c, k)
    {
      KeysOfBucket(c.slots, bucket, k);
    }
  }

  // Runs

  datatype Op = OpGet(key: Key) | OpPut(key: Key, entry: Entry) | OpInvalidate(key: Key) | OpDropBucket(bucket: string)

  function Step(l: Limits, c: Cache, op: Op): (r: Cache)
  {
    match op
    case OpGet(key) => Touch(c, key)
    case OpPut(key, e) => Put(l, c, key, e)
    case OpInvalidate(key) => Pop(c, key)
    case OpDropBucket(bucket) => DropBucket(c, bucket)
  }

  function Run(l: Limits, ops: seq<Op>): (c: Cache)
  {
    if ops == [] then Cache([], 0) else Step(l, Run(l, ops[..|ops| - 1]), ops[|ops| - 1])
  }

  /** The last accepted put of a key that was not invalidated since. */
  function LastPut(l: Limits, ops: seq<Op>, key: Key): (r: Option<Entry>)
  {
    if ops == [] then None
    else
      var before := LastPut(l, ops[..|ops| - 1], key);
      match ops[|ops| - 1]
      case OpGet(_) => before
      case OpPut(k, e) => if k == key && Accepted(l, e) then Some(e) else before
      case OpInvalidate(k) => if k == key then None else before
      case OpDropBucket(bucket) => if key.0 == bucket then None else before
  }

  ghost predicate Faithful(l: Limits, ops: seq<Op>, c: Cache)
  {
    forall k :: Lookup(c, k).Some? ==> Lookup(c, k) == LastPut(l, ops, k)
  }

  /** Over every sequence of operations the byte counter is the exact sum of the entries and
      within the budget, and a hit returns the last accepted put not invalidated since. */
  lemma {:induction false} RunIsExact(l: Limits, ops: seq<Op>)
    ensures var c := Run(l, ops); Exact(c) && c.size <= l.maxBytes && Faithful(l, ops, c)
  {
    if ops != [] {
      var n := |ops| - 1;
      RunIsExact(l, ops[..n]);
      StepIsExact(l, ops[..n], Run(l, ops[..n]), ops[n]);
      assert ops == ops[..n] + [ops[n]];
    }
  }

  lemma StepIsExact(l: Limits, front: seq<Op>, c: Cache, op: Op)
    requires Exact(c) && c.size <= l.maxBytes && Faithful(l, front, c)
    ensures var c' := Step(l, c, op); Exact(c') && c'.size <= l.maxBytes && Faithful(l, front + [op], c')
  {
    hide Find, Evict, Pop, Touch, Lookup, DropBucket, Total;
    assert (front + [op])[..|front|] == front;
    match op
    case OpGet(key) => TouchKeeps(c, key);
    case OpPut(key, e) =>
      if Accepted(l, e) {
        PutStep(l, c, key, e);
      }
    case OpInvalidate(key) => PopExact(c, key);
    case OpDropBucket(bucket) => DropBucketDrops(c, bucket);
  }

  lemma PutStep(l: Limits, c: Cache, key: Key, e: Entry)
    requires Exact(c) && Accepted(l, e)
    ensures var c' := Put(l, c, key, e);
            && Exact(c') && c'.size <= l.maxBytes
            && forall k :: Lookup(c', k).Some? ==> Lookup(c', k) == if k == key then Some(e) else Lookup(c, k)
  {
    hide Find, Evict, Lookup, Pop, Total, DistinctKeys;
    PutKeepsLongestFit(l, c, key, e);
    PushLookup(c, key, e);
    var c' := Put(l, c, key, e);
    forall k | Lookup(c', k).Some?
      ensures Lookup(c', k) == if k == key then Some(e) else Lookup(c, k)
    {
      PrefixLookup(Pushed(c, key, e), c', k);
    }
  }

  /** The cache object. */
  class ReadCache {
    const limits: Limits
    var slots: seq<Slot>
    var size: nat
    var hits: nat

    function View(): (c: Cache)
      reads this
    {
      Cache(slots, size)
    }

    constructor (l: Limits)
      ensures limits == l && View() == Run(l, []) && hits == 0
    {
      limits, slots, size, hits := l, [], 0, 0;
    }

    method Get(key: Key) returns (r: Option<Entry>)
      modifies this
      ensures r == Lookup(old(View()), key) && View() == Step(limits, old(View()), OpGet(key))
      ensures hits == old(hits) + if r.Some? then 1 else 0
    {
      hide Find;
      var i := FindSlot(key);
      if i == |slots| { return None; }
      r := Some(slots[i].entry);
      slots := [slots[i]] + Without(slots, i);
      hits := hits + 1;
    }

    method FindSlot(key: Key) returns (i: nat)
      ensures i == Find(slots, key)
    {
      i := 0;
      while i < |slots| && slots[i].key != key
        invariant i <= |slots| && forall j :: 0 <= j < i ==> slots[j].key != key
      {
        i := i + 1;
      }
    }

    method Remove(key: Key)
      modifies this
      ensures View() == Pop(old(View()), key) && hits == old(hits)
    {
      hide Find;
      var i := FindSlot(key);
      if i < |slots| {
        size := SaturatingSub(size, slots[i].entry.MemSize());
        slots := Without(slots, i);
      }
    }

    method PutEntry(key: Key, e: Entry)
      modifies this
      ensures View() == Step(limits, old(View()), OpPut(key, e)) && hits == old(hits)
    {
      hide Pop;
      if |e.data| > limits.maxObjectBytes || limits.maxBytes == 0 { return; }
      Remove(key);
      slots := [Slot(key, e)] + slots;
      size := size + e.MemSize();
      ghost var full := View();
      while size > limits.maxBytes && slots != []
        invariant Evict(View(), limits.maxBytes) == Evict(full, limits.maxBytes) && hits == old(hits)
        decreases |slots|
      {
        var n := |slots| - 1;
        size := SaturatingSub(size, slots[n].entry.MemSize());
        slots := slots[..n];
      }
    }

    method Invalidate(key: Key)
      modifies this
      ensures View() == Step(limits, old(View()), OpInvalidate(key)) && hits == old(hits)
    {
      Remove(key);
    }

    method InvalidateBucket(bucket: string)
      modifies this
      ensures View() == Step(limits, old(View()), OpDropBucket(bucket)) && hits == old(hits)
    {
      hide Pop;
      var keys := KeysOf(slots, bucket);
      ghost var was := View();
      for i := 0 to |keys|
        invariant View() == PopAll(was, keys[..i]) && hits == old(hits)
      {
        assert keys[..i + 1][..i] == keys[..i];
        Remove(keys[i]);
      }
      assert keys[..|keys|] == keys;
    }
  }
}
