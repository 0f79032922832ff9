/**
 The wildcard matcher of the access-policy engine: `*` stands for any run of characters,
 `?` for exactly one, and the pattern is anchored at both ends.

 `Matches` is the documented meaning. `Decides` is what the iterative matcher decides: it
 compares for equality before it looks for a wildcard, so a pattern `*` that faces a `*` of
 the text is consumed as a literal. Both are stated on suffixes: pattern from `i`, text from `j`.
 */
module Glob {

  predicate Matches(p: seq<char>, t: seq<char>, i: nat, j: nat)
    requires i <= |p| && j <= |t|
    decreases |p| - i
  {
    if i == |p| then j == |t|
    else if p[i] == '*' then var rest := i + 1; exists k :: j <= k <= |t| && Matches(p, t, rest, k)
    else j < |t| && (p[i] == '?' || p[i] == t[j]) && Matches(p, t, i + 1, j + 1)
  }

  predicate Decides(p: seq<char>, t: seq<char>, i: nat, j: nat)
    requires i <= |p| && j <= |t|
    decreases |p| - i
  {
    if i == |p| then j == |t|
    else if j < |t| && (p[i] == '?' || p[i] == t[j]) then Decides(p, t, i + 1, j + 1)
    else p[i] == '*' && var rest := i + 1; exists k :: j <= k <= |t| && Decides(p, t, rest, k)
  }

  /** `p[x..y]` has been matched character by character against the text from `a` on. */
  ghost predicate Aligned(p: seq<char>, t: seq<char>, x: nat, y: nat, a: nat)
    requires x <= y <= |p| && a + (y - x) <= |t|
  {
    forall i :: x <= i < y ==> p[i] == '?' || p[i] == t[a + (i - x)]
  }

  /** A match that is at or ahead of an aligned stretch leaves the stretch at or ahead of its
      end: on the diagonal every `*` of the pattern faces a `*` of the text. */
  lemma {:induction false} StaysAhead(p: seq<char>, t: seq<char>, x: nat, y: nat, a: nat, i: nat,
                                      j: nat) returns (m: nat)
    requires x <= i <= y <= |p| && a + (y - x) <= |t| && Aligned(p, t, x, y, a)
    requires a + (i - x) <= j <= |t| && Decides(p, t, i, j)
    ensures a + (y - x) <= m <= |t| && Decides(p, t, y, m)
    decreases y - i
  {
    if i == y {
      m := j;
    } else if j < |t| && (p[i] == '?' || p[i] == t[j]) {
      m := StaysAhead(p, t, x, y, a, i + 1, j + 1);
    } else {
      var k :| j <= k <= |t| && Decides(p, t, i + 1, k);
      m := StaysAhead(p, t, x, y, a, i + 1, k);
    }
  }

  /** Meeting a new wildcard makes every longer run of the previous one redundant. */
  lemma LastStarSuffices(p: seq<char>, t: seq<char>, x: nat, y: nat, a: nat, k: nat)
    requires x <= y < |p| && a + (y - x) < |t| && Aligned(p, t, x, y, a)
    requires p[y] == '*' && t[a + (y - x)] != '*'
    requires a < k <= |t| && Decides(p, t, x, k)
    ensures Decides(p, t, y, a + (y - x))
  {
    var m := StaysAhead(p, t, x, y, a, x, k);
    if m < |t| && t[m] == '*' {
      assert Decides(p, t, y + 1, m + 1);
    }
  }

  /** The remaining alternative of the last wildcard at `s`: start it later than `starT`. */
  ghost predicate Alternative(p: seq<char>, t: seq<char>, s: int, starT: nat)
  {
    0 <= s < |p| && var rest := s + 1; exists k :: starT < k <= |t| && Decides(p, t, rest, k)
  }

  method GlobMatch(p: seq<char>, t: seq<char>) returns (matched: bool)
    ensures matched <==> Decides(p, t, 0, 0)
  {
    var pi, ti := 0, 0;
    var star, starT := -1, 0; // -1 is None
    while ti < |t|
      invariant 0 <= pi <= |p| && 0 <= starT <= ti <= |t| && -1 <= star < pi
      invariant star >= 0 ==> p[star] == '*' && pi - (star + 1) == ti - starT && Aligned(p, t, star + 1, pi, starT)
      invariant Decides(p, t, 0, 0) <==> Decides(p, t, pi, ti) || Alternative(p, t, star, starT)
      decreases |p| - star, |t| - starT, |t| - ti
    {
      if pi < |p| && (p[pi] == '?' || p[pi] == t[ti]) {
        pi := pi + 1;
        ti := ti + 1;
      } else if pi < |p| && p[pi] == '*' {
        if Alternative(p, t, star, starT) {
          var k :| starT < k <= |t| && Decides(p, t, star + 1, k);
          LastStarSuffices(p, t, star + 1, pi, starT, k);
        }
        star := pi;
        starT := ti;
        pi := pi + 1;
      } else if star >= 0 {
        pi := star + 1;
        starT := starT + 1;
        ti := starT;
      } else {
        return false;
      }
    }
    if Alternative(p, t, star, starT) {
      var k :| starT < k <= |t| && Decides(p, t, star + 1, k);
      var m := StaysAhead(p, t, star + 1, pi, starT, star + 1, k);
    }
    while pi < |p| && p[pi] == '*'
      invariant 0 <= pi <= |p|
      invariant Decides(p, t, 0, 0) <==> Decides(p, t, pi, |t|)
    {
      pi := pi + 1;
    }
    return pi == |p|;
  }

  lemma {:induction false} Sound(p: seq<char>, t: seq<char>, i: nat, j: nat)
    requires i <= |p| && j <= |t| && Decides(p, t, i, j)
    ensures Matches(p, t, i, j)
    decreases |p| - i
  {
    if i < |p| {
      if j < |t| && (p[i] == '?' || p[i] == t[j]) {
        Sound(p, t, i + 1, j + 1);
      } else {
        var k :| j <= k <= |t| && Decides(p, t, i + 1, k);
        Sound(p, t, i + 1, k);
      }
    }
  }

  lemma {:induction false} Complete(p: seq<char>, t: seq<char>, i: nat, j: nat)
    requires i <= |p| && j <= |t| && Matches(p, t, i, j)
    requires '*' !in p || '*' !in t
    ensures Decides(p, t, i, j)
    decreases |p| - i
  {
    if i < |p| {
      if p[i] == '*' {
        var k :| j <= k <= |t| && Matches(p, t, i + 1, k);
        Complete(p, t, i + 1, k);
      } else {
        Complete(p, t, i + 1, j + 1);
      }
    }
  }

  // ---------------------------------------------------------------------------------------
  // Exactly which texts and which patterns the matcher treats as documented.
  // ---------------------------------------------------------------------------------------

  function FirstStar(s: seq<char>): (i: nat)
    requires '*' in s
    ensures i < |s| && s[i] == '*' && '*' !in s[..i]
  {
    if s[0] == '*' then 0 else 1 + FirstStar(s[1..])
  }

  /** Equal, wildcard-free prefixes change neither relation. */
  lemma {:induction false} SkipPrefix(p: seq<char>, t: seq<char>, n: nat)
    requires n <= |p| && n <= |t| && p[..n] == t[..n] && '*' !in p[..n]
    ensures Matches(p, t, 0, 0) <==> Matches(p, t, n, n)
    ensures Decides(p, t, 0, 0) <==> Decides(p, t, n, n)
  {
    if n > 0 {
      assert p[n - 1] == p[..n][n - 1] == t[..n][n - 1] == t[n - 1];
      assert p[..n - 1] == p[..n][..n - 1] && t[..n - 1] == t[..n][..n - 1];
      SkipPrefix(p, t, n - 1);
    }
  }

  lemma {:induction false} QuestionMarksCount(p: seq<char>, t: seq<char>, i: nat, j: nat)
    requires i <= |p| && j <= |t| && forall x :: i <= x < |p| ==> p[x] == '?'
    ensures Matches(p, t, i, j) <==> |p| - i == |t| - j
    ensures Decides(p, t, i, j) <==> |p| - i == |t| - j
    decreases |p| - i
  {
    if i < |p| && j < |t| {
      QuestionMarksCount(p, t, i + 1, j + 1);
    }
  }

  /** For a text with a `*`, a pattern that ought to match it and is refused. */
  function RefusedPattern(t: seq<char>): seq<char>
    requires '*' in t
  {
    var i := FirstStar(t);
    t[..i] + ['*'] + seq(|t| - i, _ => '?')
  }

  lemma RefusesPattern(t: seq<char>)
    requires '*' in t
    ensures Matches(RefusedPattern(t), t, 0, 0) && !Decides(RefusedPattern(t), t, 0, 0)
  {
    var p, i := RefusedPattern(t), FirstStar(t);
    assert p[..i] == t[..i];
    SkipPrefix(p, t, i);
    QuestionMarksCount(p, t, i + 1, i);
    QuestionMarksCount(p, t, i + 1, i + 1);
  }

  /** The number of characters a pattern suffix consumes at least. */
  function Fixed(p: seq<char>, i: nat): nat
    requires i <= |p|
    decreases |p| - i
  {
    if i == |p| then 0 else (if p[i] == '*' then 0 else 1) + Fixed(p, i + 1)
  }

  lemma {:induction false} NeedsFixed(p: seq<char>, t: seq<char>, i: nat, j: nat)
    requires i <= |p| && j <= |t| && Decides(p, t, i, j)
    ensures Fixed(p, i) <= |t| - j
    decreases |p| - i
  {
    if i < |p| {
      if j < |t| && (p[i] == '?' || p[i] == t[j]) {
        NeedsFixed(p, t, i + 1, j + 1);
      } else {
        var k :| j <= k <= |t| && Decides(p, t, i + 1, k);
        NeedsFixed(p, t, i + 1, k);
      }
    }
  }

  /** The pattern suffix with its wildcards deleted: the shortest text it matches. */
  function Shortest(p: seq<char>, i: nat): (s: seq<char>)
    requires i <= |p|
    ensures |s| == Fixed(p, i)
    decreases |p| - i
  {
    if i == |p| then [] else (if p[i] == '*' then [] else [p[i]]) + Shortest(p, i + 1)
  }

  lemma {:induction false} MatchesShortest(p: seq<char>, t: seq<char>, i: nat, j: nat)
    requires i <= |p| && j <= |t| && t[j..] == Shortest(p, i)
    ensures Matches(p, t, i, j)
    decreases |p| - i
  {
    if i < |p| {
      if p[i] == '*' {
        MatchesShortest(p, t, i + 1, j);
      } else {
        assert t[j] == t[j..][0];
        assert t[j + 1..] == t[j..][1..];
        MatchesShortest(p, t, i + 1, j + 1);
      }
    }
  }

  /** The end of the run of wildcards that starts at `i`. */
  function RunEnd(p: seq<char>, i: nat): (c: nat)
    requires i <= |p|
    ensures i <= c <= |p| && (c < |p| ==> p[c] != '*')
    ensures forall x :: i <= x < c ==> p[x] == '*'
    decreases |p| - i
  {
    if i < |p| && p[i] == '*' then RunEnd(p, i + 1) else i
  }

  lemma {:induction false} EmptyRun(p: seq<char>, t: seq<char>, i: nat, c: nat, j: nat)
    requires i <= c <= |p| && j <= |t| && Matches(p, t, c, j)
    requires forall x :: i <= x < c ==> p[x] == '*'
    ensures Matches(p, t, i, j)
    decreases c - i
  {
    if i < c {
      EmptyRun(p, t, i + 1, c, j);
    }
  }

  lemma {:induction false} LiteralRun(p: seq<char>, t: seq<char>, i: nat, c: nat)
    requires i <= c <= |p| && c <= |t|
    requires forall x :: i <= x < c ==> p[x] == '*' == t[x]
    ensures Decides(p, t, i, i) <==> Decides(p, t, c, c)
    decreases c - i
  {
    if i < c {
      LiteralRun(p, t, i + 1, c);
    }
  }

  /** For a pattern with a `*`, a text that it ought to match and refuses. */
  function RefusedText(p: seq<char>): seq<char>
    requires '*' in p
  {
    var i := FirstStar(p);
    var c := RunEnd(p, i);
    if c < |p| && p[c] == '?'
    then p[..c] + Shortest(p, c + 1)
    else p[..c] + ['*'] + Shortest(p, c)
  }

  lemma {:induction false} RefusesText(p: seq<char>)
    requires '*' in p
    ensures Matches(p, RefusedText(p), 0, 0) && !Decides(p, RefusedText(p), 0, 0)
  {
    var t, i := RefusedText(p), FirstStar(p);
    var c := RunEnd(p, i);
    assert p[..i] == t[..i];
    SkipPrefix(p, t, i);
    LiteralRun(p, t, i, c);
    if c < |p| && p[c] == '?' {
      assert t[c..] == Shortest(p, c + 1);
      MatchesShortest(p, t, c + 1, c);
      assert Matches(p, t, c, c - 1);
      EmptyRun(p, t, i + 1, c, c - 1);
      if Decides(p, t, c, c) {
        NeedsFixed(p, t, c, c);
      }
    } else {
      assert t[c + 1..] == Shortest(p, c);
      MatchesShortest(p, t, c, c + 1);
      EmptyRun(p, t, i + 1, c, c + 1);
      assert t[c] == '*';
    }
  }

  /** A text is decided as documented against every pattern exactly when it holds no `*`. */
  lemma ExactTexts(t: seq<char>)
    ensures '*' !in t <==> forall p: seq<char> :: Decides(p, t, 0, 0) == Matches(p, t, 0, 0)
  {
    if '*' in t {
      RefusesPattern(t);
    } else {
      forall p: seq<char> ensures Decides(p, t, 0, 0) == Matches(p, t, 0, 0) {
        Agrees(p, t);
      }
    }
  }

  /** A pattern is decided as documented against every text exactly when it holds no `*`. */
  lemma ExactPatterns(p: seq<char>)
    ensures '*' !in p <==> forall t: seq<char> :: Decides(p, t, 0, 0) == Matches(p, t, 0, 0)
  {
    if '*' in p {
      RefusesText(p);
    } else {
      forall t: seq<char> ensures Decides(p, t, 0, 0) == Matches(p, t, 0, 0) {
        Agrees(p, t);
      }
    }
  }

  lemma Agrees(p: seq<char>, t: seq<char>)
    ensures Decides(p, t, 0, 0) ==> Matches(p, t, 0, 0)
    ensures '*' !in p || '*' !in t ==> Decides(p, t, 0, 0) == Matches(p, t, 0, 0)
  {
    if Decides(p, t, 0, 0) {
      Sound(p, t, 0, 0);
    } else if Matches(p, t, 0, 0) && ('*' !in p || '*' !in t) {
      Complete(p, t, 0, 0);
    }
  }
}
