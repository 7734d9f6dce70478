/** Which entries the read cache holds, and in which order, after any operations. */
module ReadCacheOrder {
  import opened ByteCodec
  import opened ReadCaching

  /** The slots of all other keys, in their order. */
  function Others(slots: seq<Slot>, key: Key): (r: seq<Slot>)
  {
    if slots == [] then []
    else
      var n := |slots| - 1;
      Others(slots[..n], key) + if slots[n].key == key then [] else [slots[n]]
  }

  lemma {:induction false} OthersWithout(slots: seq<Slot>, key: Key)
    requires DistinctKeys(slots)
    ensures var i := Find(slots, key);
            Others(slots, key) == if i == |slots| then slots else Without(slots, i)
  {
    hide Find;
    if slots != [] {
      var n := |slots| - 1;
      var front, i := slots[..n], Find(slots, key);
      assert slots == front + [slots[n]];
      OthersWithout(front, key);
      if i < n {
        assert front[i].key == key;
        Found(front, i);
        assert slots[n].key != key;
        assert Without(slots, i) == Without(front, i) + [slots[n]];
      } else {
        var j := Find(front, key);
        assert forall z :: 0 <= z < n ==> front[z] == slots[z];
        assert j == n;
      }
    }
  }

  /** A put of an object that is small enough, into a cache that may hold anything, leaves the
      longest run that fits of the new entry and the others in their order; any other put changes
      nothing. */
  lemma PutIs(l: Limits, c: Cache, key: Key, e: Entry)
    requires Exact(c)
    ensures if |e.data| <= l.maxObjectBytes && l.maxBytes != 0
            then LongestFit([Slot(key, e)] + Others(c.slots, key), Put(l, c, key, e).slots, l.maxBytes)
            else Put(l, c, key, e) == c
  {
    hide Evict, Find, Total, LongestFit;
    OthersWithout(c.slots, key);
    if |e.data| <= l.maxObjectBytes && l.maxBytes != 0 {
      PutKeepsLongestFit(l, c, key, e);
    }
  }

  /** The operation uses the key: it finds it, or stores it. */
  predicate Uses(l: Limits, c: Cache, op: Op, key: Key)
  {
    match op
    case OpGet(k) => k == key && exists i :: 0 <= i < |c.slots| && c.slots[i].key == key
    case OpPut(k, e) => k == key && |e.data| <= l.maxObjectBytes && l.maxBytes != 0
    case OpInvalidate(_) => false
    case OpDropBucket(_) => false
  }

  /** The number of the last operation that used the key, or -1. */
  function LastUse(l: Limits, ops: seq<Op>, key: Key): (t: int)
    ensures -1 <= t < |ops|
  {
    if ops == [] then -1
    else
      var n := |ops| - 1;
      if Uses(l, Run(l, ops[..n]), ops[n], key) then n else LastUse(l, ops[..n], key)
  }

  /** The slots are in falling order of a time. */
  ghost predicate Falling(slots: seq<Slot>, time: Key -> int)
  {
    forall i, j :: 0 <= i < j < |slots| ==> time(slots[i].key) > time(slots[j].key)
  }

  lemma {:induction false} PopAllKeepsOrder(c: Cache, keys: seq<Key>, time: Key -> int)
    requires Falling(c.slots, time)
    ensures Falling(PopAll(c, keys).slots, time)
  {
    hide Find;
    if keys != [] {
      PopAllKeepsOrder(c, keys[..|keys| - 1], time);
      PopKeepsOrder(PopAll(c, keys[..|keys| - 1]), keys[|keys| - 1], time);
    }
  }

  lemma PopKeepsOrder(c: Cache, key: Key, time: Key -> int)
    requires Falling(c.slots, time)
    ensures Falling(Pop(c, key).slots, time)
  {
    hide Find;
  }

  /** A slot put in front, with a later time than the others. */
  lemma FrontIsNewest(c: Cache, c': Cache, key: Key, time: Key -> int, time': Key -> int, e: Entry)
    requires DistinctKeys(c.slots) && Falling(c.slots, time) && c'.slots <= [Slot(key, e)] + Pop(c, key).slots
    requires forall k :: k != key ==> time'(k) == time(k) < time'(key)
    ensures Falling(c'.slots, time')
  {
    hide Find;
    PopKeepsOrder(c, key, time);
    var i := Find(c.slots, key);
    if i < |c.slots| {
      DistinctWithout(c.slots, i);
    }
    var rest := Pop(c, key).slots;
    assert forall j :: 0 <= j < |rest| ==> rest[j].key != key;
    var all := [Slot(key, e)] + rest;
    assert forall j :: 0 < j < |all| ==> all[j] == rest[j - 1];
  }

  lemma StepOrders(l: Limits, c: Cache, op: Op, time: Key -> int, time': Key -> int, n: int)
    requires Exact(c) && Falling(c.slots, time) && forall k :: time(k) < n
    requires forall k :: time'(k) == if Uses(l, c, op, k) then n else time(k)
    ensures Falling(Step(l, c, op).slots, time')
  {
    hide Find, Evict, Total, PopAll;
    match op
    case OpGet(key) =>
      var i := Find(c.slots, key);
      if i < |c.slots| {
        FrontIsNewest(c, Touch(c, key), key, time, time', c.slots[i].entry);
      } else {
        assert !Uses(l, c, op, key);
      }
    case OpPut(key, e) =>
      if Accepted(l, e) {
        PutKeepsLongestFit(l, c, key, e);
        FrontIsNewest(c, Put(l, c, key, e), key, time, time', e);
      }
    case OpInvalidate(key) => PopKeepsOrder(c, key, time);
    case OpDropBucket(bucket) => PopAllKeepsOrder(c, KeysOf(c.slots, bucket), time);
  }

  /** Least recently used last: after any operations the slots are in the order of the last
      operation that used them, latest first. */
  lemma {:induction false} RunIsOrdered(l: Limits, ops: seq<Op>)
    ensures Falling(Run(l, ops).slots, key => LastUse(l, ops, key))
  {
    if ops != [] {
      var n := |ops| - 1;
      var front := ops[..n];
      RunIsOrdered(l, front);
      RunIsExact(l, front);
      StepOrders(l, Run(l, front), ops[n], key => LastUse(l, front, key), key => LastUse(l, ops, key), n);
    }
  }
}
