/** The order in which the shards of an upload part are dealt to disks: a Fisher-Yates shuffle
    whose choices come from a hash of the part's name. */
module Shuffle {
  import opened ByteCodec

  function Swap(s: seq<nat>, i: nat, j: nat): (r: seq<nat>)
    requires i < |s| && j < |s|
    ensures |r| == |s|
  {
    s[i := s[j]][j := s[i]]
  }

  /** The index drawn for position `i` from a digest of any nonzero length. */
  function Draw(digest: bytes, i: nat): (j: nat)
    requires digest != []
    ensures j <= i
  {
    var h := (i * 2) % |digest|;
    var value := digest[h] as nat * 256 + digest[(h + 1) % |digest|] as nat;
    value % (i + 1)
  }

  function Identity(n: nat): (r: seq<nat>)
    ensures |r| == n && forall i :: 0 <= i < n ==> r[i] == i
  {
    seq(n, i => i)
  }

  /** The shuffle after its swaps at positions `n - 1` down to `i`. */
  function ShuffledTo(digest: bytes, n: nat, i: nat): (r: seq<nat>)
    requires digest != [] && i <= n
    ensures |r| == n
    decreases n - i
  {
    if i == n then Identity(n) else Swap(ShuffledTo(digest, n, i + 1), i, Draw(digest, i))
  }

  function Order(digest: bytes, n: nat): (r: seq<nat>)
    requires digest != []
    ensures |r| == n
  {
    if n == 0 then [] else ShuffledTo(digest, n, 1)
  }

  method DrawPlace(digest: bytes, i: nat) returns (j: nat)
    requires digest != []
    ensures j == Draw(digest, i)
  {
    var h := (i * 2) % |digest|;
    var value := digest[h] as nat * 256 + digest[(h + 1) % |digest|] as nat;
    j := value % (i + 1);
  }

  method HashOrder(digest: bytes, n: nat) returns (r: seq<nat>)
    requires digest != []
    ensures r == Order(digest, n)
  {
    var indices := new nat[n](i => i);
    assert indices[..] == Identity(n);
    if n == 0 { return []; }
    var i := n;
    while i > 1
      invariant 1 <= i <= n
      invariant indices[..] == ShuffledTo(digest, n, i)
    {
      hide Draw;
      i := i - 1;
      var j := DrawPlace(digest, i);
      ghost var before := indices[..];
      indices[i], indices[j] := indices[j], indices[i];
      assert indices[..] == Swap(before, i, j);
    }
    r := indices[..];
  }

  ghost predicate Permutation(s: seq<nat>)
  {
    && (forall i :: 0 <= i < |s| ==> s[i] < |s|)
    && (forall i, j :: 0 <= i < j < |s| ==> s[i] != s[j])
  }

  lemma SwapPermutes(s: seq<nat>, i: nat, j: nat)
    requires Permutation(s) && i < |s| && j < |s|
    ensures Permutation(Swap(s, i, j))
  {
  }

  lemma {:induction false} ShuffleIsPermutation(digest: bytes, n: nat, i: nat)
    requires digest != [] && i <= n
    ensures Permutation(ShuffledTo(digest, n, i))
    decreases n - i
  {
    hide Draw, Swap;
    if i < n {
      ShuffleIsPermutation(digest, n, i + 1);
      SwapPermutes(ShuffledTo(digest, n, i + 1), i, Draw(digest, i));
    }
  }

  lemma SwapKeeps(s: seq<nat>, i: nat, j: nat, v: nat)
    requires i < |s| && j < |s| && v in s
    ensures v in Swap(s, i, j)
  {
    var k :| 0 <= k < |s| && s[k] == v;
    var at := if k == i then j else if k == j then i else k;
    assert Swap(s, i, j)[at] == v;
  }

  lemma {:induction false} ShuffleIsOnto(digest: bytes, n: nat, i: nat, v: nat)
    requires digest != [] && i <= n && v < n
    ensures v in ShuffledTo(digest, n, i)
    decreases n - i
  {
    hide Draw, Swap;
    if i < n {
      ShuffleIsOnto(digest, n, i + 1, v);
      SwapKeeps(ShuffledTo(digest, n, i + 1), i, Draw(digest, i), v);
    } else {
      assert Identity(n)[v] == v;
    }
  }

  /** Whatever the hash, every index is dealt exactly once. */
  lemma OrderIsPermutation(digest: bytes, n: nat)
    requires digest != []
    ensures |Order(digest, n)| == n && Permutation(Order(digest, n))
    ensures forall v: nat :: v < n ==> v in Order(digest, n)
  {
    if n > 0 {
      ShuffleIsPermutation(digest, n, 1);
      forall v: nat | v < n
        ensures v in Order(digest, n)
      {
        ShuffleIsOnto(digest, n, 1, v);
      }
    }
  }

  // What decides the order

  /** Later swaps, at lower positions, leave position `i` alone. */
  lemma {:induction false} PositionIsFinal(digest: bytes, n: nat, i: nat, k: nat)
    requires digest != [] && 1 <= k <= i < n
    ensures ShuffledTo(digest, n, k)[i] == ShuffledTo(digest, n, i)[i]
    decreases i - k
  {
    hide Draw;
    if k < i {
      PositionIsFinal(digest, n, i, k + 1);
    }
  }

  lemma {:induction false} SameDraws(digest: bytes, other: bytes, n: nat, i: nat)
    requires digest != [] && other != [] && 1 <= i <= n && ShuffledTo(digest, n, 1) == ShuffledTo(other, n, 1)
    ensures ShuffledTo(digest, n, i) == ShuffledTo(other, n, i)
    ensures forall m :: i <= m < n ==> Draw(digest, m) == Draw(other, m)
    decreases n - i
  {
    hide Draw;
    if i < n {
      SameDraws(digest, other, n, i + 1);
      PositionIsFinal(digest, n, i, 1);
      PositionIsFinal(other, n, i, 1);
      ShuffleIsPermutation(digest, n, i + 1);
    }
  }

  lemma {:induction false} SameShuffle(digest: bytes, other: bytes, n: nat, i: nat)
    requires digest != [] && other != [] && i <= n
    requires forall m :: i <= m < n ==> Draw(digest, m) == Draw(other, m)
    ensures ShuffledTo(digest, n, i) == ShuffledTo(other, n, i)
    decreases n - i
  {
    hide Draw;
    if i < n {
      SameShuffle(digest, other, n, i + 1);
    }
  }

  /** The two bytes of a digest, taken round it, that decide about position `i`. */
  function Bits(digest: bytes, i: nat): (v: nat)
    requires digest != []
  {
    digest[(i * 2) % |digest|] as nat * 256 + digest[((i * 2) % |digest| + 1) % |digest|] as nat
  }

  /** Two digests deal in the same order exactly when, at every position, their bytes draw the same
      of the places up to it: no draw is without effect. */
  lemma SameOrderIff(digest: bytes, other: bytes, n: nat)
    requires digest != [] && other != []
    ensures Order(digest, n) == Order(other, n)
            <==> forall i :: 1 <= i < n ==> Bits(digest, i) % (i + 1) == Bits(other, i) % (i + 1)
  {
    assert forall i :: 1 <= i < n ==> Draw(digest, i) == Bits(digest, i) % (i + 1);
    assert forall i :: 1 <= i < n ==> Draw(other, i) == Bits(other, i) % (i + 1);
    hide Draw, Bits;
    if n > 0 {
      if Order(digest, n) == Order(other, n) {
        SameDraws(digest, other, n, 1);
      }
      if forall i :: 1 <= i < n ==> Bits(digest, i) % (i + 1) == Bits(other, i) % (i + 1) {
        SameShuffle(digest, other, n, 1);
      }
    }
  }
}
