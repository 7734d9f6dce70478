/** Reed-Solomon coding as the code uses it: a library with laws, not its field arithmetic. */
module ReedSolomon {
  import opened ByteCodec

  /** `encode(d, p, data)` gives all `d + p` shards; `reconstruct(d, p, slots)` fills the
      missing slots, or fails. */
  datatype Code = Code(
    encode: (nat, nat, seq<bytes>) -> seq<bytes>,
    reconstruct: (nat, nat, seq<Option<bytes>>) -> Option<seq<bytes>>)

  /** `n` shards of the same length. */
  predicate Uniform(shards: seq<bytes>, n: nat, len: nat)
  {
    |shards| == n && forall i :: 0 <= i < n ==> |shards[i]| == len
  }

  function CountSome<T>(slots: seq<Option<T>>): (c: nat)
    ensures c <= |slots|
  {
    if slots == [] then 0 else (if slots[0].Some? then 1 else 0) + CountSome(slots[1..])
  }

  /** Every filled slot holds its shard of `shards`. */
  predicate Agrees(slots: seq<Option<bytes>>, shards: seq<bytes>)
  {
    |slots| == |shards| && forall i :: 0 <= i < |slots| && slots[i].Some? ==> slots[i].value == shards[i]
  }

  /** Shard-wise concatenation. */
  function Zip(a: seq<bytes>, b: seq<bytes>): (r: seq<bytes>)
    requires |a| == |b|
    ensures |r| == |a|
    ensures forall i :: 0 <= i < |a| ==> r[i] == a[i] + b[i]
  {
    seq(|a|, i requires 0 <= i < |a| => a[i] + b[i])
  }

  /** Encoding keeps the data shards and adds parity of the same length. */
  ghost predicate Systematic(code: Code, d: nat, p: nat)
  {
    forall data: seq<bytes>, len: nat {:trigger Uniform(data, d, len), code.encode(d, p, data)} ::
      len >= 1 && Uniform(data, d, len) ==>
        Uniform(code.encode(d, p, data), d + p, len) && code.encode(d, p, data)[..d] == data
  }

  /** Any `d` of the shards determine all of them. */
  ghost predicate Recovers(code: Code, d: nat, p: nat)
  {
    forall data: seq<bytes>, len: nat, slots: seq<Option<bytes>>
      {:trigger Uniform(data, d, len), code.reconstruct(d, p, slots)} ::
      len >= 1 && Uniform(data, d, len) && Agrees(slots, code.encode(d, p, data)) && CountSome(slots) >= d ==>
        code.reconstruct(d, p, slots) == Some(code.encode(d, p, data))
  }

  /** Coding works column by column, so it commutes with concatenation. */
  ghost predicate ColumnWise(code: Code, d: nat, p: nat)
  {
    forall a: seq<bytes>, b: seq<bytes>, m: nat, n: nat
      {:trigger Uniform(a, d, m), Uniform(b, d, n)} ::
      m >= 1 && n >= 1 && Uniform(a, d, m) && Uniform(b, d, n)
        && |code.encode(d, p, a)| == |code.encode(d, p, b)| ==>
        code.encode(d, p, Zip(a, b)) == Zip(code.encode(d, p, a), code.encode(d, p, b))
  }

  /** What is assumed of the library for one shape. */
  ghost predicate Lawful(code: Code, d: nat, p: nat)
  {
    Systematic(code, d, p) && Recovers(code, d, p) && ColumnWise(code, d, p)
  }

  lemma EncodeLaw(code: Code, d: nat, p: nat, data: seq<bytes>, len: nat)
    requires Lawful(code, d, p) && len >= 1 && Uniform(data, d, len)
    ensures Uniform(code.encode(d, p, data), d + p, len)
    ensures code.encode(d, p, data)[..d] == data
  {
    hide Recovers, ColumnWise;
  }

  lemma ReconstructLaw(code: Code, d: nat, p: nat, data: seq<bytes>, len: nat, slots: seq<Option<bytes>>)
    requires Lawful(code, d, p) && len >= 1 && Uniform(data, d, len)
    requires Agrees(slots, code.encode(d, p, data)) && CountSome(slots) >= d
    ensures code.reconstruct(d, p, slots) == Some(code.encode(d, p, data))
  {
    hide Systematic, ColumnWise;
  }

  lemma ConcatLaw(code: Code, d: nat, p: nat, a: seq<bytes>, m: nat, b: seq<bytes>, n: nat)
    requires Lawful(code, d, p) && m >= 1 && n >= 1 && Uniform(a, d, m) && Uniform(b, d, n)
    ensures |code.encode(d, p, a)| == |code.encode(d, p, b)| == d + p
    ensures code.encode(d, p, Zip(a, b)) == Zip(code.encode(d, p, a), code.encode(d, p, b))
  {
    EncodeLaw(code, d, p, a, m);
    EncodeLaw(code, d, p, b, n);
    hide Recovers, Systematic;
  }

  lemma {:induction false} CountAll<T>(slots: seq<Option<T>>)
    ensures CountSome(slots) == |slots| <==> forall i :: 0 <= i < |slots| ==> slots[i].Some?
  {
    if slots != [] {
      CountAll(slots[1..]);
      assert forall i :: 1 <= i < |slots| ==> slots[i] == slots[1..][i - 1];
    }
  }
}
