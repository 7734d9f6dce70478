/** The coding laws have an instance for every number of data shards: one parity shard, the
    sum of the data bytes modulo 256. */
module SumCode {
  import opened ByteCodec
  import opened ReedSolomon

  /** A byte of a shard, zero behind its end. */
  function At(shard: bytes, j: nat): (x: nat)
    ensures x < 256
  {
    if j < |shard| then shard[j] as nat else 0
  }

  function ByteSum(shards: seq<bytes>, j: nat): (s: nat)
  {
    if shards == [] then 0 else ByteSum(shards[..|shards| - 1], j) + At(shards[|shards| - 1], j)
  }

  function Parity(data: seq<bytes>, len: nat): (r: bytes)
    ensures |r| == len
  {
    seq(len, j requires 0 <= j < len => (ByteSum(data, j) % 256) as byte)
  }

  function Encode(d: nat, data: seq<bytes>): (r: seq<bytes>)
  {
    if data == [] then [] else data + [Parity(data, |data[0]|)]
  }

  /** The shards there are, with nothing in place of a missing one. */
  function Known(slots: seq<Option<bytes>>): (r: seq<bytes>)
    ensures |r| == |slots|
    ensures forall i :: 0 <= i < |slots| ==> r[i] == if slots[i].Some? then slots[i].value else []
  {
    seq(|slots|, i requires 0 <= i < |slots| => if slots[i].Some? then slots[i].value else [])
  }

  function Length(slots: seq<Option<bytes>>): (len: nat)
  {
    if slots == [] then 0 else if slots[0].Some? then |slots[0].value| else Length(slots[1..])
  }

  /** A missing data byte is the parity byte less the others; missing parity is summed again. */
  function Rebuilt(d: nat, slots: seq<Option<bytes>>, i: nat): (r: bytes)
    requires |slots| == d + 1
  {
    var known, len := Known(slots), Length(slots);
    if i == d then Parity(known[..d], len)
    else seq(len, j requires 0 <= j < len => ((At(known[d], j) - ByteSum(known[..d], j)) % 256) as byte)
  }

  function Reconstruct(d: nat, slots: seq<Option<bytes>>): (r: Option<seq<bytes>>)
  {
    if |slots| != d + 1 then None
    else Some(seq(d + 1, i requires 0 <= i < d + 1 => if slots[i].Some? then slots[i].value else Rebuilt(d, slots, i)))
  }

  function Sum(): (code: Code)
  {
    Code((d: nat, p: nat, data: seq<bytes>) => Encode(d, data),
         (d: nat, p: nat, slots: seq<Option<bytes>>) => Reconstruct(d, slots))
  }

  // Concatenation

  lemma {:induction false} SumOfZip(a: seq<bytes>, b: seq<bytes>, m: nat, n: nat, k: nat, j: nat)
    requires Uniform(a, |a|, m) && Uniform(b, |a|, n) && k <= |a| && j < m + n
    ensures ByteSum(Zip(a, b)[..k], j) == if j < m then ByteSum(a[..k], j) else ByteSum(b[..k], j - m)
  {
    if k > 0 {
      SumOfZip(a, b, m, n, k - 1, j);
      assert Zip(a, b)[..k][..k - 1] == Zip(a, b)[..k - 1];
      assert a[..k][..k - 1] == a[..k - 1] && b[..k][..k - 1] == b[..k - 1];
    }
  }

  lemma SumIsColumnWise(d: nat, a: seq<bytes>, b: seq<bytes>, m: nat, n: nat)
    requires d >= 1 && Uniform(a, d, m) && Uniform(b, d, n)
    ensures |Encode(d, a)| == |Encode(d, b)| && Encode(d, Zip(a, b)) == Zip(Encode(d, a), Encode(d, b))
  {
    var both := Zip(a, b);
    forall j | 0 <= j < m + n
      ensures Parity(both, m + n)[j] == (Parity(a, m) + Parity(b, n))[j]
    {
      SumOfZip(a, b, m, n, d, j);
      assert both[..d] == both && a[..d] == a && b[..d] == b;
    }
    assert Parity(both, m + n) == Parity(a, m) + Parity(b, n);
    assert |both[0]| == m + n;
  }

  // Recovery

  /** Taking one shard out of a sum takes its byte out. */
  lemma {:induction false} SumWithout(shards: seq<bytes>, i: nat, j: nat)
    requires i < |shards|
    ensures ByteSum(shards, j) == ByteSum(shards[i := []], j) + At(shards[i], j)
  {
    var n := |shards| - 1;
    if i < n {
      SumWithout(shards[..n], i, j);
      assert shards[..n][i := []] == shards[i := []][..n];
    } else {
      assert shards[..n] == shards[i := []][..n];
    }
  }

  lemma SubtractModulo(s: nat, x: nat)
    requires x < 256
    ensures ((s + x) % 256 - s) % 256 == x
  {
    assert (s + x) % 256 == s + x - 256 * ((s + x) / 256);
    var q := (s + x) / 256;
    assert (s + x) % 256 - s == x - 256 * q;
  }

  lemma {:induction false} TwoMissing(slots: seq<Option<bytes>>, a: nat, b: nat)
    requires a < b < |slots| && slots[a].None? && slots[b].None?
    ensures CountSome(slots) + 2 <= |slots|
  {
    if a == 0 {
      assert slots[1..][b - 1].None?;
      CountAll(slots[1..]);
    } else {
      TwoMissing(slots[1..], a - 1, b - 1);
    }
  }

  lemma {:induction false} LengthIs(slots: seq<Option<bytes>>, shards: seq<bytes>, len: nat)
    requires Agrees(slots, shards) && Uniform(shards, |shards|, len) && CountSome(slots) >= 1
    ensures Length(slots) == len
  {
    if slots[0].None? {
      assert forall i :: 0 <= i < |slots| - 1 ==> slots[1..][i] == slots[i + 1];
      LengthIs(slots[1..], shards[1..], len);
    }
  }

  /** The one shard that is missing is rebuilt. */
  lemma MissingIsRebuilt(d: nat, data: seq<bytes>, len: nat, slots: seq<Option<bytes>>, i: nat)
    requires d >= 1 && len >= 1 && Uniform(data, d, len) && Agrees(slots, Encode(d, data)) && CountSome(slots) >= d
    requires i <= d && slots[i].None?
    ensures Rebuilt(d, slots, i) == Encode(d, data)[i]
  {
    hide ByteSum, CountSome, Length;
    var shards, known := Encode(d, data), Known(slots);
    forall k | 0 <= k <= d && k != i
      ensures known[k] == shards[k]
    {
      if slots[k].None? {
        TwoMissing(slots, if i < k then i else k, if i < k then k else i);
      }
    }
    LengthIs(slots, shards, len);
    if i == d {
      assert known[..d] == data;
    } else {
      assert known[..d] == data[i := []];
      forall j | 0 <= j < len
        ensures Rebuilt(d, slots, i)[j] == data[i][j]
      {
        SumWithout(data, i, j);
        SubtractModulo(ByteSum(data[i := []], j), At(data[i], j));
      }
    }
  }

  lemma SumRecovers(d: nat, data: seq<bytes>, len: nat, slots: seq<Option<bytes>>)
    requires d >= 1 && len >= 1 && Uniform(data, d, len) && Agrees(slots, Encode(d, data)) && CountSome(slots) >= d
    ensures Reconstruct(d, slots) == Some(Encode(d, data))
  {
    hide Rebuilt, CountSome;
    var shards := Encode(d, data);
    forall i | 0 <= i <= d
      ensures Reconstruct(d, slots).value[i] == shards[i]
    {
      if slots[i].None? {
        MissingIsRebuilt(d, data, len, slots, i);
      }
    }
    assert Reconstruct(d, slots).value == shards;
  }

  /** What is assumed of the coding library can be met, with any number of data shards. */
  lemma SumIsLawful(d: nat)
    requires d >= 1
    ensures Lawful(Sum(), d, 1)
  {
    hide Reconstruct;
    var code := Sum();
    assert Systematic(code, d, 1) by {
      forall data: seq<bytes>, len: nat | len >= 1 && Uniform(data, d, len)
        ensures Uniform(code.encode(d, 1, data), d + 1, len) && code.encode(d, 1, data)[..d] == data
      {
      }
    }
    assert Recovers(code, d, 1) by {
      forall data: seq<bytes>, len: nat, slots: seq<Option<bytes>>
        | len >= 1 && Uniform(data, d, len) && Agrees(slots, code.encode(d, 1, data)) && CountSome(slots) >= d
        ensures code.reconstruct(d, 1, slots) == Some(code.encode(d, 1, data))
      {
        SumRecovers(d, data, len, slots);
      }
    }
    assert ColumnWise(code, d, 1) by {
      forall a: seq<bytes>, b: seq<bytes>, m: nat, n: nat | Uniform(a, d, m) && Uniform(b, d, n)
        ensures |code.encode(d, 1, a)| == |code.encode(d, 1, b)|
        ensures code.encode(d, 1, Zip(a, b)) == Zip(code.encode(d, 1, a), code.encode(d, 1, b))
      {
        SumIsColumnWise(d, a, b, m, n);
      }
    }
  }
}
