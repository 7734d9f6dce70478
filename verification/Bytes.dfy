/** Bytes, results, and the little-endian integers of the on-disk formats. */
module ByteCodec {

  newtype byte = x: int | 0 <= x < 256

  type bytes = seq<byte>

  type u64 = x: nat | x < 0x1_0000_0000_0000_0000

  datatype Option<+T> = None | Some(value: T)

  datatype Result<+T, +E> = Ok(value: T) | Err(error: E)

  /** `n` zero bytes: padding and freshly allocated file space. */
  function Zeros(n: nat): (z: bytes)
    ensures |z| == n
    ensures forall i :: 0 <= i < n ==> z[i] == 0
  {
    seq(n, _ => 0 as byte)
  }

  function Min(a: int, b: int): (m: int)
  {
    if a <= b then a else b
  }

  /** 256 to the power `w`: the number of values a field of `w` bytes can hold. */
  function Width(w: nat): (r: nat)
    ensures r > 0
  {
    if w == 0 then 1 else 256 * Width(w - 1)
  }

  /** The low `w` bytes of `v`, least significant first: the source's truncating
      cast followed by a little-endian store. */
  function Le(v: nat, w: nat): (b: bytes)
    ensures |b| == w
  {
    if w == 0 then [] else [(v % 256) as byte] + Le(v / 256, w - 1)
  }

  /** The integer stored little-endian in `b`. */
  function LeValue(b: bytes): (v: nat)
  {
    if b == [] then 0 else b[0] as nat + 256 * LeValue(b[1..])
  }

  lemma {:induction false} LeValueBound(b: bytes)
    ensures LeValue(b) < Width(|b|)
  {
    if b != [] {
      LeValueBound(b[1..]);
    }
  }

  /** Storing and loading is the identity exactly on the values that fit. */
  lemma {:induction false} LeRoundTrip(v: nat, w: nat)
    ensures LeValue(Le(v, w)) == v <==> v < Width(w)
  {
    if w == 0 {
    } else {
      LeRoundTrip(v / 256, w - 1);
      assert Le(v, w)[1..] == Le(v / 256, w - 1);
      LeValueBound(Le(v, w));
    }
  }

  /** Loading and storing again gives the same bytes. */
  lemma {:induction false} LeStores(b: bytes)
    ensures Le(LeValue(b), |b|) == b
  {
    if b != [] {
      LeStores(b[1..]);
      assert LeValue(b) % 256 == b[0] as nat && LeValue(b) / 256 == LeValue(b[1..]);
      assert b == [b[0]] + b[1..];
    }
  }

  lemma Widths()
    ensures Width(1) == 0x100 && Width(2) == 0x1_0000
    ensures Width(4) == 0x1_0000_0000
    ensures Width(8) == 0x1_0000_0000_0000_0000
  {
    assert Width(3) == 256 * Width(2);
    assert Width(4) == 256 * Width(3);
    assert Width(5) == 256 * Width(4);
    assert Width(6) == 256 * Width(5);
    assert Width(7) == 256 * Width(6);
  }

  lemma Assoc<T>(a: seq<T>, b: seq<T>, c: seq<T>)
    ensures a + (b + c) == (a + b) + c
  {
  }

  /** Concatenation of a list of byte strings. */
  function Flatten(parts: seq<bytes>): (r: bytes)
  {
    if parts == [] then [] else parts[0] + Flatten(parts[1..])
  }

  lemma {:induction false} FlattenAppend(a: seq<bytes>, b: seq<bytes>)
    ensures Flatten(a + b) == Flatten(a) + Flatten(b)
  {
    if a == [] {
      assert a + b == b;
      assert [] + Flatten(b) == Flatten(b);
    } else {
      calc {
        Flatten(a + b);
        { assert (a + b)[0] == a[0] && (a + b)[1..] == a[1..] + b; }
        a[0] + Flatten(a[1..] + b);
        { FlattenAppend(a[1..], b); }
        a[0] + (Flatten(a[1..]) + Flatten(b));
        { Assoc(a[0], Flatten(a[1..]), Flatten(b)); }
        Flatten(a) + Flatten(b);
      }
    }
  }

  lemma FlattenSnoc(a: seq<bytes>, x: bytes)
    ensures Flatten(a + [x]) == Flatten(a) + x
  {
    FlattenAppend(a, [x]);
    assert Flatten([x]) == x + Flatten([]);
  }

  /** A stretch equal to a concatenation splits where the concatenation does. */
  lemma SliceSplit(m: bytes, off: nat, a: bytes, b: bytes)
    requires off + |a| + |b| <= |m|
    requires m[off..off + |a| + |b|] == a + b
    ensures m[off..off + |a|] == a
    ensures m[off + |a|..off + |a| + |b|] == b
    ensures m[off..] == a + m[off + |a|..]
  {
    var w := m[off..off + |a| + |b|];
    assert m[off..off + |a|] == w[..|a|];
    assert m[off + |a|..off + |a| + |b|] == w[|a|..];
  }

  /** Slicing inside a stretch. */
  lemma SubSlice(m: bytes, off: nat, whole: bytes, i: nat, j: nat)
    requires off + |whole| <= |m| && i <= j <= |whole|
    requires m[off..off + |whole|] == whole
    ensures m[off + i..off + j] == whole[i..j]
  {
    forall k | 0 <= k < j - i
      ensures m[off + i..off + j][k] == whole[i..j][k]
    {
      assert whole[i + k] == m[off..off + |whole|][i + k];
    }
  }

  lemma DropSlice<T>(m: seq<T>, n: nat, i: nat, j: nat)
    requires i <= j && n + j <= |m|
    ensures m[n..][i..j] == m[n + i..n + j]
  {
  }

  lemma TakeConcat<T>(a: seq<T>, b: seq<T>, n: nat)
    requires n <= |a| + |b|
    ensures (a + b)[..n] == if n <= |a| then a[..n] else a + b[..n - |a|]
  {
  }

  lemma SubsetSize<T>(a: set<T>, b: set<T>)
    requires a <= b
    ensures |a| <= |b|
  {
    assert b == a + (b - a);
  }

  // Numbers in text

  function Digit(d: nat): (c: char)
    requires d < 10
  {
    "0123456789"[d]
  }

  function Decimal(n: nat): (s: string)
  {
    if n < 10 then [Digit(n)] else Decimal(n / 10) + [Digit(n % 10)]
  }
}
