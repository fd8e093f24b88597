/**
 The linear-space wildcard matcher of `src/query.rs`. The loop remembers only the
 last star, so its completeness rests on an exchange argument: whatever an earlier
 star swallowed can be handed to the later one.
 */
module Wildcard {
  import opened Common

  const STAR: byte := 42

  /** The number of stars of a pattern. */
  function Stars(p: seq<byte>): nat {
    if p == [] then 0 else (if p[0] == STAR then 1 else 0) + Stars(p[1..])
  }

  /** The text obtained from a pattern by putting one byte string in place of each star. */
  function Fill(p: seq<byte>, gaps: seq<seq<byte>>): seq<byte>
    requires |gaps| == Stars(p)
  {
    if p == [] then []
    else if p[0] == STAR then gaps[0] + Fill(p[1..], gaps[1..])
    else [p[0]] + Fill(p[1..], gaps)
  }

  /** The declarative meaning: some choice of byte strings for the stars yields the value. */
  ghost predicate Matches(p: seq<byte>, v: seq<byte>) {
    exists gaps: seq<seq<byte>> | |gaps| == Stars(p) :: Fill(p, gaps) == v
  }

  /** The star is the asterisk, `2a` hexadecimal. */
  lemma StarIsAsterisk(v: seq<byte>)
    ensures Matches([0x2a], v)
  {
    assert [v][0] == v && [v][1..] == [] && Stars([0x2a][1..]) == 0 && Fill([0x2a][1..], []) == [];
    assert Fill([0x2a], [v]) == v;
  }

  lemma MatchesEmpty(v: seq<byte>)
    ensures Matches([], v) <==> v == []
  {
    assert Fill([], []) == [];
  }

  lemma MatchesLiteral(p: seq<byte>, v: seq<byte>)
    requires p != [] && p[0] != STAR
    ensures Matches(p, v) <==> v != [] && v[0] == p[0] && Matches(p[1..], v[1..])
  {
    if Matches(p, v) {
      var gaps: seq<seq<byte>> :| |gaps| == Stars(p) && Fill(p, gaps) == v;
      assert Fill(p[1..], gaps) == v[1..];
    }
    if v != [] && v[0] == p[0] && Matches(p[1..], v[1..]) {
      var gaps: seq<seq<byte>> :| |gaps| == Stars(p[1..]) && Fill(p[1..], gaps) == v[1..];
      assert Fill(p, gaps) == v;
    }
  }

  lemma MatchesStar(p: seq<byte>, v: seq<byte>)
    requires p != [] && p[0] == STAR
    ensures Matches(p, v) <==> exists k :: 0 <= k <= |v| && Matches(p[1..], v[k..])
  {
    hide Fill;
    if Matches(p, v) {
      var gaps: seq<seq<byte>> :| |gaps| == Stars(p) && Fill(p, gaps) == v;
      FillStar(p, gaps[0], gaps[1..]);
      assert [gaps[0]] + gaps[1..] == gaps;
      assert v[|gaps[0]|..] == Fill(p[1..], gaps[1..]);
    }
    if k :| 0 <= k <= |v| && Matches(p[1..], v[k..]) {
      var gaps: seq<seq<byte>> :| |gaps| == Stars(p[1..]) && Fill(p[1..], gaps) == v[k..];
      FillStar(p, v[..k], gaps);
      assert v[..k] + v[k..] == v;
    }
  }

  lemma FillStar(p: seq<byte>, gap: seq<byte>, gaps: seq<seq<byte>>)
    requires p != [] && p[0] == STAR && |gaps| == Stars(p[1..])
    ensures Stars(p) == |gaps| + 1 && Fill(p, [gap] + gaps) == gap + Fill(p[1..], gaps)
  {
    assert ([gap] + gaps)[1..] == gaps;
  }

  /** A star that matches a suffix also matches every longer suffix. */
  lemma StarAbsorbs(p: seq<byte>, v: seq<byte>, k: nat)
    requires p != [] && p[0] == STAR && k <= |v| && Matches(p, v[k..])
    ensures Matches(p, v)
  {
    MatchesStar(p, v[k..]);
    var l :| 0 <= l <= |v[k..]| && Matches(p[1..], v[k..][l..]);
    assert v[k..][l..] == v[k + l..];
    MatchesStar(p, v);
  }

  /** Star-free text in front of a pattern must be found verbatim in front of the value. */
  lemma {:induction false} MatchesPrefix(l: seq<byte>, p: seq<byte>, v: seq<byte>)
    requires STAR !in l
    ensures Matches(l + p, v) <==> l <= v && Matches(p, v[|l|..])
  {
    if l == [] {
      assert l + p == p && v[|l|..] == v;
    } else {
      assert (l + p)[1..] == l[1..] + p;
      MatchesLiteral(l + p, v);
      if v != [] && v[0] == l[0] {
        MatchesPrefix(l[1..], p, v[1..]);
        assert l <= v <==> l[1..] <= v[1..];
        if l <= v { assert v[1..][|l| - 1..] == v[|l|..]; }
      }
    }
  }

  lemma MatchesWithoutStars(p: seq<byte>, v: seq<byte>)
    requires STAR !in p
    ensures Matches(p, v) <==> p == v
  {
    MatchesPrefix(p, [], v);
    assert p + [] == p;
    if p <= v { MatchesEmpty(v[|p|..]); }
  }

  /**
   What the loop knows. Before the first star the rest must match exactly where it stands.
   Afterwards only the last star at `s` and the least position `retry` it may end at
   matter, and the text between that star and `i` has been found at `retry`.
   */
  ghost predicate Progress(p: seq<byte>, v: seq<byte>, i: int, j: int, star: Option<int>, retry: int) {
    match star
    case None =>
      && 0 <= i <= |p| && 0 == retry <= j <= |v|
      && (Matches(p, v) <==> Matches(p[i..], v[j..]))
    case Some(s) =>
      && 0 <= s < i <= |p| && 0 <= retry <= j <= |v|
      && p[s] == STAR && i - (s + 1) == j - retry
      && p[s + 1..i] == v[retry..j] && STAR !in p[s + 1..i]
      && (Matches(p, v) <==> Matches(p[s..], v[retry..]))
  }

  /** The match of the text after the last star, tried at `k`. */
  lemma AfterStar(p: seq<byte>, v: seq<byte>, i: int, j: int, s: int, retry: int, k: int)
    requires Progress(p, v, i, j, Some(s), retry) && retry <= k <= |v|
    ensures Matches(p[s + 1..], v[k..]) <==>
            p[s + 1..i] <= v[k..] && Matches(p[i..], v[k..][i - s - 1..])
  {
    assert p[s + 1..] == p[s + 1..i] + p[i..];
    MatchesPrefix(p[s + 1..i], p[i..], v[k..]);
  }

  /** A later star makes the earlier one irrelevant: the exchange argument. */
  lemma LaterStarSuffices(p: seq<byte>, v: seq<byte>, i: int, j: int, s: int, retry: int)
    requires Progress(p, v, i, j, Some(s), retry) && i < |p| && p[i] == STAR
    ensures Matches(p, v) <==> Matches(p[i..], v[j..])
  {
    if Matches(p[s..], v[retry..]) { HandOver(p, v, i, j, s, retry); }
    if Matches(p[i..], v[j..]) {
      AfterStar(p, v, i, j, s, retry, retry);
      assert v[retry..][i - s - 1..] == v[j..];
      assert v[retry..j] <= v[retry..];
      assert p[s..][1..] == p[s + 1..] && v[retry..][0..] == v[retry..];
      MatchesStar(p[s..], v[retry..]);
    }
  }

  /** The star at `i` takes over what the star at `s` had swallowed beyond `retry`. */
  lemma HandOver(p: seq<byte>, v: seq<byte>, i: int, j: int, s: int, retry: int)
    requires Progress(p, v, i, j, Some(s), retry) && i < |p| && p[i] == STAR
    requires Matches(p[s..], v[retry..])
    ensures Matches(p[i..], v[j..])
  {
    hide Matches, Progress;
    ProgressBounds(p, v, i, j, s, retry);
    MatchesStar(p[s..], v[retry..]);
    assert p[s..][1..] == p[s + 1..];
    var k :| 0 <= k <= |v[retry..]| && Matches(p[s + 1..], v[retry..][k..]);
    DropTwice(v, retry, k);
    AfterStar(p, v, i, j, s, retry, retry + k);
    DropTwice(v, retry + k, i - s - 1);
    DropTwice(v, j, k);
    StarAbsorbs(p[i..], v[j..], k);
  }

  lemma ProgressBounds(p: seq<byte>, v: seq<byte>, i: int, j: int, s: int, retry: int)
    requires Progress(p, v, i, j, Some(s), retry)
    ensures 0 <= s < i <= |p| && 0 <= retry <= j <= |v| && p[s] == STAR && i - (s + 1) == j - retry
  {
  }

  lemma DropTwice(v: seq<byte>, j: nat, k: nat)
    requires j + k <= |v|
    ensures v[j..][k..] == v[j + k..]
  {
  }

  /** When the text after the last star does not continue at `j`, the star must end later. */
  lemma StarMustGrow(p: seq<byte>, v: seq<byte>, i: int, j: int, s: int, retry: int)
    requires Progress(p, v, i, j, Some(s), retry) && j < |v|
    requires i == |p| || (p[i] != STAR && p[i] != v[j])
    ensures Matches(p, v) <==> Matches(p[s..], v[retry + 1..])
  {
    var w := v[retry..];
    MatchesStar(p[s..], w);
    assert p[s..][1..] == p[s + 1..] && w[1..] == v[retry + 1..];
    assert !Matches(p[s + 1..], w[0..]) by {
      if i == |p| { MatchesEmpty(v[j..]); } else { MatchesLiteral(p[i..], v[j..]); }
      AfterStar(p, v, i, j, s, retry, retry);
      assert w[0..] == w && w[i - s - 1..] == v[j..];
    }
    if Matches(p[s..], w) {
      var k :| 0 <= k <= |w| && Matches(p[s + 1..], w[k..]);
      assert k != 0;
      assert w[k..] == w[1..][k - 1..];
      MatchesStar(p[s..], w[1..]);
    }
    if Matches(p[s..], w[1..]) {
      StarAbsorbs(p[s..], w, 1);
    }
  }

  /** Once the value is used up the last star cannot end any later. */
  lemma ValueUsedUp(p: seq<byte>, v: seq<byte>, i: int, star: Option<int>, retry: int)
    requires Progress(p, v, i, |v|, star, retry)
    ensures Matches(p, v) <==> Matches(p[i..], [])
  {
    assert v[|v|..] == [];
    if star.Some? {
      var s := star.value;
      MatchesStar(p[s..], v[retry..]);
      assert p[s..][1..] == p[s + 1..];
      forall k | 0 <= k <= |v[retry..]|
        ensures Matches(p[s + 1..], v[retry..][k..]) ==> k == 0
      {
        assert v[retry..][k..] == v[retry + k..];
        AfterStar(p, v, i, |v|, s, retry, retry + k);
      }
      AfterStar(p, v, i, |v|, s, retry, retry);
      assert v[retry..][i - s - 1..] == [];
      assert v[retry..][0..] == v[retry..] == v[retry..|v|];
    }
  }

  lemma {:induction false} OnlyStarsMatchNothing(p: seq<byte>)
    ensures Matches(p, []) <==> forall k :: 0 <= k < |p| ==> p[k] == STAR
  {
    if p == [] {
      MatchesEmpty([]);
    } else if p[0] == STAR {
      OnlyStarsMatchNothing(p[1..]);
      MatchesStar(p, []);
      var e: seq<byte> := [];
      assert e[0..] == e;
      assert forall k :: 1 <= k < |p| ==> p[k] == p[1..][k - 1];
      assert forall k :: 0 <= k < |p[1..]| ==> p[1..][k] == p[k + 1];
    } else {
      MatchesLiteral(p, []);
    }
  }

  lemma Begin(p: seq<byte>, v: seq<byte>)
    ensures Progress(p, v, 0, 0, None, 0)
  {
    assert p[0..] == p && v[0..] == v;
  }

  /** Passing over a star makes it the last one. */
  lemma StepStar(p: seq<byte>, v: seq<byte>, i: int, j: int, star: Option<int>, retry: int)
    requires Progress(p, v, i, j, star, retry) && i < |p| && p[i] == STAR
    ensures Progress(p, v, i + 1, j, Some(i), j)
  {
    if star.Some? { LaterStarSuffices(p, v, i, j, star.value, retry); }
  }

  /** Equal bytes are consumed on both sides. */
  lemma StepLiteral(p: seq<byte>, v: seq<byte>, i: int, j: int, star: Option<int>, retry: int)
    requires Progress(p, v, i, j, star, retry)
    requires i < |p| && p[i] != STAR && j < |v| && p[i] == v[j]
    ensures Progress(p, v, i + 1, j + 1, star, retry)
  {
    if star.None? {
      MatchesLiteral(p[i..], v[j..]);
      assert p[i..][1..] == p[i + 1..] && v[j..][1..] == v[j + 1..];
    } else {
      assert p[star.value + 1..i + 1] == p[star.value + 1..i] + [p[i]];
      assert v[retry..j + 1] == v[retry..j] + [v[j]];
    }
  }

  /** A mismatch sends the loop back to just behind the last star, one position later. */
  lemma StepRetry(p: seq<byte>, v: seq<byte>, i: int, j: int, s: int, retry: int)
    requires Progress(p, v, i, j, Some(s), retry) && j < |v|
    requires i == |p| || (p[i] != STAR && p[i] != v[j])
    ensures Progress(p, v, s + 1, retry + 1, Some(s), retry + 1)
  {
    StarMustGrow(p, v, i, j, s, retry);
  }

  /** A mismatch before any star is final. */
  lemma StepFail(p: seq<byte>, v: seq<byte>, i: int, j: int)
    requires Progress(p, v, i, j, None, 0) && j < |v|
    requires i == |p| || (p[i] != STAR && p[i] != v[j])
    ensures !Matches(p, v)
  {
    if i == |p| { MatchesEmpty(v[j..]); } else { MatchesLiteral(p[i..], v[j..]); }
  }

  /** What is left of the pattern when the value is used up decides the answer. */
  lemma Finish(p: seq<byte>, v: seq<byte>, tail: int, star: Option<int>, retry: int, i: int)
    requires Progress(p, v, tail, |v|, star, retry)
    requires tail <= i <= |p| && forall k :: tail <= k < i ==> p[k] == STAR
    requires i == |p| || p[i] != STAR
    ensures Matches(p, v) <==> i == |p|
  {
    ValueUsedUp(p, v, tail, star, retry);
    OnlyStarsMatchNothing(p[tail..]);
    assert forall k :: tail <= k < |p| ==> p[k] == p[tail..][k - tail];
  }

  method Wildcard(p: seq<byte>, v: seq<byte>) returns (matched: bool)
    ensures matched <==> Matches(p, v)
  {
    hide *;
    if STAR !in p {
      MatchesWithoutStars(p, v);
      return p == v;
    }
    var i, j, retry := 0, 0, 0;
    var star: Option<int> := None;
    Begin(p, v);
    while j < |v|
      invariant 0 <= i <= |p| && 0 <= retry <= j <= |v|
      invariant if star.Some? then 0 <= star.value < i else retry == 0
      invariant Progress(p, v, i, j, star, retry)
      decreases |p| - (if star.Some? then star.value else -1), |v| - retry, |p| - i
    {
      if i < |p| && p[i] == STAR {
        StepStar(p, v, i, j, star, retry);
        star := Some(i);
        i := i + 1;
        retry := j;
      } else if i < |p| && p[i] == v[j] {
        StepLiteral(p, v, i, j, star, retry);
        i := i + 1;
        j := j + 1;
      } else if star.Some? {
        StepRetry(p, v, i, j, star.value, retry);
        retry := retry + 1;
        j := retry;
        i := star.value + 1;
      } else {
        StepFail(p, v, i, j);
        return false;
      }
    }
    ghost var tail := i;
    while i < |p| && p[i] == STAR
      invariant tail <= i <= |p|
      invariant forall k :: tail <= k < i ==> p[k] == STAR
    {
      i := i + 1;
    }
    Finish(p, v, tail, star, retry, i);
    return i == |p|;
  }
}
