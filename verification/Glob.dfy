/** The policy glob matcher: one loop that backtracks only to the last star. */
module Glob {
  import opened ByteCodec

  const STAR: byte := 42
  const QUERY: byte := 63

  /** What a pattern means: a star stands for any run of bytes, a question mark for one byte. */
  ghost predicate Matches(p: bytes, t: bytes)
    decreases |p| + |t|
  {
    if p == [] then t == []
    else if p[0] == STAR then Matches(p[1..], t) || (t != [] && Matches(p, t[1..]))
    else t != [] && (p[0] == QUERY || p[0] == t[0]) && Matches(p[1..], t[1..])
  }

  /** The position of the last star seen, and where in the text it was seen. */
  datatype Mark = NoStar | Star(at: nat, text: nat)

  function OnlyStars(p: bytes): (r: bool)
  {
    forall i :: 0 <= i < |p| ==> p[i] == STAR
  }

  predicate OneByte(p: bytes, pi: nat, t: bytes, ti: nat)
  {
    pi < |p| && ti < |t| && (p[pi] == QUERY || p[pi] == t[ti])
  }

  ghost predicate MarkOk(p: bytes, pi: nat, t: bytes, ti: nat, mark: Mark)
  {
    && pi <= |p| && ti <= |t|
    && (mark.Star? ==> mark.at < pi && p[mark.at] == STAR && mark.text <= ti)
  }

  /** The matcher's loop as a function of its state. The literal test comes before the star
      test, so a star in the text is taken for the star of the pattern. */
  function Walk(p: bytes, pi: nat, t: bytes, ti: nat, mark: Mark): (r: bool)
    requires MarkOk(p, pi, t, ti, mark)
    decreases |p| - (if mark.Star? then mark.at as int else -1), |t| - (if mark.Star? then mark.text else 0), |t| - ti
  {
    if ti == |t| then OnlyStars(p[pi..])
    else if OneByte(p, pi, t, ti) then Walk(p, pi + 1, t, ti + 1, mark)
    else if pi < |p| && p[pi] == STAR then Walk(p, pi + 1, t, ti, Star(pi, ti))
    else if mark.Star? then Walk(p, mark.at + 1, t, mark.text + 1, Star(mark.at, mark.text + 1))
    else false
  }

  function GlobMatch(p: bytes, t: bytes): (r: bool)
  {
    Walk(p, 0, t, 0, NoStar)
  }

  method MatchInner(p: bytes, t: bytes) returns (r: bool)
    ensures r == GlobMatch(p, t)
  {
    var pi: nat, ti: nat := 0, 0;
    var starP: Option<nat> := None;
    var starT: nat := 0;
    while ti < |t|
      invariant starP.None? ==> starT == 0
      invariant var mark := if starP.Some? then Star(starP.value, starT) else NoStar;
                MarkOk(p, pi, t, ti, mark) && Walk(p, pi, t, ti, mark) == GlobMatch(p, t)
      decreases |p| - (if starP.Some? then starP.value as int else -1), |t| - starT, |t| - ti
    {
      if pi < |p| && (p[pi] == QUERY || p[pi] == t[ti]) {
        pi := pi + 1;
        ti := ti + 1;
        continue;
      }
      if pi < |p| && p[pi] == STAR {
        starP := Some(pi);
        starT := ti;
        pi := pi + 1;
        continue;
      }
      if starP.Some? {
        pi := starP.value + 1;
        starT := starT + 1;
        ti := starT;
        continue;
      }
      return false;
    }
    ghost var from := pi;
    while pi < |p| && p[pi] == STAR
      invariant from <= pi <= |p|
      invariant forall i :: from <= i < pi ==> p[i] == STAR
    {
      pi := pi + 1;
    }
    r := pi == |p|;
    assert OnlyStars(p[from..]) <==> r by {
      if pi < |p| {
        assert p[from..][pi - from] != STAR;
      }
    }
  }

  // Facts about the meaning

  lemma {:induction false} StarsMatchNothing(p: bytes)
    ensures Matches(p, []) <==> OnlyStars(p)
  {
    if p != [] {
      StarsMatchNothing(p[1..]);
      assert OnlyStars(p) <==> p[0] == STAR && OnlyStars(p[1..]) by {
        assert forall i :: 1 <= i < |p| ==> p[i] == p[1..][i - 1];
      }
    }
  }

  /** A star matches what it matches further right, and more. */
  lemma {:induction false} StarAbsorbs(p: bytes, t: bytes, k: nat)
    requires p != [] && p[0] == STAR && k <= |t| && Matches(p, t[k..])
    ensures Matches(p, t)
    decreases k
  {
    if k == 0 {
      assert t[0..] == t;
    } else {
      assert t[1..][k - 1..] == t[k..];
      StarAbsorbs(p, t[1..], k - 1);
    }
  }

  lemma {:induction false} StarSplits(p: bytes, t: bytes) returns (k: nat)
    requires p != [] && p[0] == STAR && Matches(p, t)
    ensures k <= |t| && Matches(p[1..], t[k..])
    decreases |t|
  {
    if Matches(p[1..], t) {
      k := 0;
      assert t[0..] == t;
    } else {
      var j := StarSplits(p, t[1..]);
      k := j + 1;
      assert t[1..][j..] == t[k..];
    }
  }

  // Soundness

  /** Whatever the matcher accepts from a state on matches, there or from the last star. */
  lemma {:induction false} WalkSound(p: bytes, pi: nat, t: bytes, ti: nat, mark: Mark)
    requires MarkOk(p, pi, t, ti, mark)
    requires Walk(p, pi, t, ti, mark)
    ensures Matches(p[pi..], t[ti..]) || (mark.Star? && Matches(p[mark.at..], t[mark.text..]))
    decreases |p| - (if mark.Star? then mark.at as int else -1), |t| - (if mark.Star? then mark.text else 0), |t| - ti
  {
    if ti == |t| {
      StarsMatchNothing(p[pi..]);
      assert t[ti..] == [];
    } else if OneByte(p, pi, t, ti) {
      WalkSound(p, pi + 1, t, ti + 1, mark);
      assert p[pi..][1..] == p[pi + 1..] && t[ti..][1..] == t[ti + 1..];
      if Matches(p[pi + 1..], t[ti + 1..]) && p[pi] == STAR {
        assert Matches(p[pi..], t[ti + 1..]);
      }
    } else if pi < |p| && p[pi] == STAR {
      WalkSound(p, pi + 1, t, ti, Star(pi, ti));
      assert p[pi..][1..] == p[pi + 1..];
    } else {
      WalkSound(p, mark.at + 1, t, mark.text + 1, Star(mark.at, mark.text + 1));
      assert p[mark.at..][1..] == p[mark.at + 1..] && t[mark.text..][1..] == t[mark.text + 1..];
      assert Matches(p[mark.at..], t[mark.text + 1..]);
    }
  }

  lemma GlobSound(p: bytes, t: bytes)
    ensures GlobMatch(p, t) ==> Matches(p, t)
  {
    if GlobMatch(p, t) {
      WalkSound(p, 0, t, 0, NoStar);
      assert p[0..] == p && t[0..] == t;
    }
  }

  // Completeness

  /** Between the last star and the pattern position there is no star, and the text read since
      has the same length. */
  ghost predicate Segment(p: bytes, pi: nat, ti: nat, mark: Mark)
    requires pi <= |p|
  {
    mark.Star? ==>
      && mark.at < pi && mark.text <= ti && pi - (mark.at + 1) == ti - mark.text
      && forall i :: mark.at < i < pi ==> p[i] != STAR
  }

  /** The rest behind the last star matches from some later text position. */
  ghost predicate Later(p: bytes, t: bytes, mark: Mark)
  {
    mark.Star? && mark.at < |p| && exists k :: mark.text < k <= |t| && Matches(p[mark.at + 1..], t[k..])
  }

  /** A run of `n` non-star pattern bytes consumes exactly `n` bytes of text. */
  lemma {:induction false} Consumes(p: bytes, t: bytes, n: nat)
    requires n <= |p| && (forall i :: 0 <= i < n ==> p[i] != STAR) && Matches(p, t)
    ensures n <= |t| && Matches(p[n..], t[n..])
  {
    if n == 0 {
      assert p[0..] == p && t[0..] == t;
    } else {
      Consumes(p[1..], t[1..], n - 1);
      assert p[1..][n - 1..] == p[n..] && t[1..][n - 1..] == t[n..];
    }
  }

  /** A later match behind the last star is a match behind a new star, which can absorb the
      difference: this is why remembering one star is enough. */
  lemma LaterMeetsStar(p: bytes, pi: nat, t: bytes, ti: nat, mark: Mark)
    requires pi < |p| && p[pi] == STAR && ti <= |t| && Segment(p, pi, ti, mark) && Later(p, t, mark)
    ensures Matches(p[pi..], t[ti..])
  {
    var k :| mark.text < k <= |t| && Matches(p[mark.at + 1..], t[k..]);
    var n := pi - (mark.at + 1);
    var q := p[mark.at + 1..];
    assert forall i :: 0 <= i < n ==> q[i] != STAR;
    Consumes(q, t[k..], n);
    assert q[n..] == p[pi..] && t[k..][n..] == t[k + n..];
    var d := k + n - ti;
    assert t[ti..][d..] == t[k + n..];
    StarAbsorbs(p[pi..], t[ti..], d);
  }

  lemma {:induction false} WalkComplete(p: bytes, pi: nat, t: bytes, ti: nat, mark: Mark)
    requires MarkOk(p, pi, t, ti, mark) && Segment(p, pi, ti, mark) && STAR !in t
    requires Matches(p[pi..], t[ti..]) || Later(p, t, mark)
    ensures Walk(p, pi, t, ti, mark)
    decreases |p| - (if mark.Star? then mark.at as int else -1), |t| - (if mark.Star? then mark.text else 0), |t| - ti
  {
    hide Matches;
    if ti == |t| {
      StarsMatchNothing(p[pi..]);
      assert t[ti..] == [];
      if Later(p, t, mark) {
        LaterRunsOut(p, pi, t, mark);
      }
    } else if OneByte(p, pi, t, ti) {
      assert t[ti] in t;
      NextByte(p, pi, t, ti);
      WalkComplete(p, pi + 1, t, ti + 1, mark);
    } else if pi < |p| && p[pi] == STAR {
      if Later(p, t, mark) {
        LaterMeetsStar(p, pi, t, ti, mark);
      }
      var j := StarSplits(p[pi..], t[ti..]);
      assert p[pi..][1..] == p[pi + 1..] && t[ti..][j..] == t[ti + j..];
      WalkComplete(p, pi + 1, t, ti, Star(pi, ti));
    } else {
      NoByte(p, pi, t, ti);
      var k :| mark.text < k <= |t| && Matches(p[mark.at + 1..], t[k..]);
      WalkComplete(p, mark.at + 1, t, mark.text + 1, Star(mark.at, mark.text + 1));
    }
  }

  lemma NextByte(p: bytes, pi: nat, t: bytes, ti: nat)
    requires pi < |p| && p[pi] != STAR && ti < |t|
    ensures Matches(p[pi..], t[ti..]) ==> Matches(p[pi + 1..], t[ti + 1..])
  {
    assert p[pi..][1..] == p[pi + 1..] && t[ti..][1..] == t[ti + 1..];
  }

  lemma NoByte(p: bytes, pi: nat, t: bytes, ti: nat)
    requires pi <= |p| && ti < |t| && !OneByte(p, pi, t, ti) && (pi < |p| ==> p[pi] != STAR)
    ensures !Matches(p[pi..], t[ti..])
  {
  }

  /** At the end of the text there is no room left for a later match. */
  lemma LaterRunsOut(p: bytes, pi: nat, t: bytes, mark: Mark)
    requires pi <= |p| && Segment(p, pi, |t|, mark) && mark.Star?
    ensures !Later(p, t, mark)
  {
    var n := pi - (mark.at + 1);
    forall k | mark.text < k <= |t|
      ensures !Matches(p[mark.at + 1..], t[k..])
    {
      if Matches(p[mark.at + 1..], t[k..]) {
        Consumes(p[mark.at + 1..], t[k..], n);
      }
    }
  }

  lemma GlobComplete(p: bytes, t: bytes)
    requires STAR !in t
    ensures Matches(p, t) ==> GlobMatch(p, t)
  {
    if Matches(p, t) {
      assert p[0..] == p && t[0..] == t;
      WalkComplete(p, 0, t, 0, NoStar);
    }
  }

  // Exactly when the matcher is right

  function Queries(n: nat): (r: bytes)
    ensures |r| == n && forall i :: 0 <= i < n ==> r[i] == QUERY
  {
    seq(n, _ => QUERY)
  }

  lemma {:induction false} QueriesMatch(t: bytes)
    ensures Matches(Queries(|t|), t)
  {
    if t != [] {
      QueriesMatch(t[1..]);
      assert Queries(|t|)[1..] == Queries(|t| - 1);
    }
  }

  /** Up to the first star of the text and behind it one question mark a byte, with a star in
      between that has to stand for nothing. */
  function Trap(t: bytes, i: nat): (p: bytes)
    requires i < |t|
  {
    Queries(i) + [STAR] + Queries(|t| - i)
  }

  lemma {:induction false} TrapMatches(t: bytes, i: nat)
    requires i < |t|
    ensures Matches(Trap(t, i), t)
  {
    if i == 0 {
      assert Trap(t, 0)[1..] == Queries(|t|);
      QueriesMatch(t);
    } else {
      TrapMatches(t[1..], i - 1);
      assert Trap(t, i)[1..] == Trap(t[1..], i - 1);
    }
  }

  lemma {:induction false} WalkAligned(p: bytes, t: bytes, i: nat)
    requires i <= |t| <= |p| && forall j :: 0 <= j < |t| ==> OneByte(p, j, t, j)
    ensures Walk(p, i, t, i, NoStar) == OnlyStars(p[|t|..])
    decreases |t| - i
  {
    if i < |t| {
      assert OneByte(p, i, t, i);
      WalkAligned(p, t, i + 1);
    }
  }

  /** The matcher takes the text's star for the pattern's and then runs out of text. */
  lemma TrapFails(t: bytes, i: nat)
    requires i < |t| && t[i] == STAR
    ensures !GlobMatch(Trap(t, i), t)
  {
    var p := Trap(t, i);
    WalkAligned(p, t, 0);
    assert p[|t|..][0] == QUERY;
  }

  /** The matcher agrees with the meaning of patterns on a text, for every pattern, exactly
      when the text contains no star. */
  lemma GlobExactIff(t: bytes)
    ensures (forall p: bytes :: GlobMatch(p, t) <==> Matches(p, t)) <==> STAR !in t
  {
    hide GlobMatch;
    if STAR !in t {
      forall p: bytes
        ensures GlobMatch(p, t) <==> Matches(p, t)
      {
        GlobSound(p, t);
        GlobComplete(p, t);
      }
    } else {
      var i :| 0 <= i < |t| && t[i] == STAR;
      TrapMatches(t, i);
      TrapFails(t, i);
      assert !(GlobMatch(Trap(t, i), t) <==> Matches(Trap(t, i), t));
    }
  }
}
