/**
 The glob matcher used by KEYS and SCAN MATCH: an iterative matcher with a
 single backtrack point. It tests for a literal match before it tests for a
 star, so it is not the textbook matcher on subjects that contain a `*` byte.
 */
module Glob {
  import opened ByteStrings

  const STAR: byte := '*' as int
  const QMARK: byte := '?' as int

  /** One pattern byte consumes one subject byte. */
  predicate Literal(c: byte, x: byte) {
    c == QMARK || c == x
  }

  /** Textbook meaning of `p[i..]` against `s[j..]`: a star stands for any run of bytes. */
  predicate Matches(p: Bytes, s: Bytes, i: nat, j: nat)
    requires i <= |p| && j <= |s|
    decreases |p| - i + |s| - j
  {
    if i == |p| then j == |s|
    else if p[i] == STAR then
      Matches(p, s, i + 1, j) || (j < |s| && Matches(p, s, i, j + 1))
    else
      j < |s| && Literal(p[i], s[j]) && Matches(p, s, i + 1, j + 1)
  }

  /** What the matcher accepts: like `Matches`, except that a star facing a `*` byte is spent on that byte. */
  ghost predicate Accepts(p: Bytes, s: Bytes, i: nat, j: nat)
    requires i <= |p| && j <= |s|
    decreases |p| - i + |s| - j, 0
  {
    if i == |p| then j == |s|
    else if j < |s| && Literal(p[i], s[j]) then Accepts(p, s, i + 1, j + 1)
    else p[i] == STAR && AcceptsLater(p, s, i + 1, j)
  }

  /** `p[i..]` is accepted from some position at or after `j`. */
  ghost predicate AcceptsLater(p: Bytes, s: Bytes, i: nat, j: nat)
    requires i <= |p| && j <= |s|
    decreases |p| - i + |s| - j, 1
  {
    Accepts(p, s, i, j) || (j < |s| && AcceptsLater(p, s, i, j + 1))
  }

  /** `p[a..a+n]` consumed `s[b..b+n]` byte for byte. */
  ghost predicate Aligned(p: Bytes, s: Bytes, a: nat, b: nat, n: nat) {
    a + n <= |p| && b + n <= |s| && forall d :: a <= d < a + n ==> Literal(p[d], s[b + (d - a)])
  }

  lemma {:induction false} LaterFromEarlier(p: Bytes, s: Bytes, i: nat, j: nat, m: nat)
    requires i <= |p| && j <= m <= |s| && AcceptsLater(p, s, i, m)
    ensures AcceptsLater(p, s, i, j)
    decreases m - j
  {
    if j < m {
      LaterFromEarlier(p, s, i, j + 1, m);
    }
  }

  lemma AheadOfAlignment(p: Bytes, s: Bytes, a: nat, b: nat, n: nat, i: nat, j: nat)
    requires Aligned(p, s, a, b, n) && a + n <= |p| && a <= i < a + n && i - a <= j - b && j <= |s|
    requires j == |s| || !Literal(p[i], s[j])
    ensures i - a < j - b
  {
    assert b + (i - a) < |s| && Literal(p[a + (i - a)], s[b + (i - a)]);
  }

  /**
   Why one backtrack point is enough. The bytes between an earlier star and the star at
   `a + n` were consumed one for one up to `b + n`; then whatever any later restart of the earlier
   star can still accept, the new star accepts from `b + n` on.
   */
  lemma {:induction false} NewStarSubsumesOld(p: Bytes, s: Bytes, a: nat, b: nat, n: nat, i: nat, j: nat)
    requires Aligned(p, s, a, b, n) && a + n < |p| && p[a + n] == STAR
    requires a <= i <= a + n && i - a <= j - b && j <= |s|
    requires Accepts(p, s, i, j)
    ensures AcceptsLater(p, s, a + n + 1, b + n)
    decreases |p| - i + |s| - j, 0
  {
    if j < |s| && Literal(p[i], s[j]) {
      if i < a + n {
        NewStarSubsumesOld(p, s, a, b, n, i + 1, j + 1);
      } else {
        LaterFromEarlier(p, s, i + 1, b + n, j + 1);
      }
    } else if i < a + n {
      // The star at i faces a byte it cannot consume literally, so j is strictly ahead of the alignment.
      AheadOfAlignment(p, s, a, b, n, i, j);
      RestartSubsumed(p, s, a, b, n, i + 1, j);
    } else {
      LaterFromEarlier(p, s, i + 1, b + n, j);
    }
  }

  lemma {:induction false} RestartSubsumed(p: Bytes, s: Bytes, a: nat, b: nat, n: nat, i: nat, j: nat)
    requires Aligned(p, s, a, b, n) && a + n < |p| && p[a + n] == STAR
    requires a <= i <= a + n && i - a <= j - b && j <= |s|
    requires AcceptsLater(p, s, i, j)
    ensures AcceptsLater(p, s, a + n + 1, b + n)
    decreases |p| - i + |s| - j, 1
  {
    if Accepts(p, s, i, j) {
      NewStarSubsumesOld(p, s, a, b, n, i, j);
    } else {
      RestartSubsumed(p, s, a, b, n, i, j + 1);
    }
  }

  /** The matcher itself. `starP`/`starS` are meaningful once `starred`. */
  method GlobMatchInner(p: Bytes, s: Bytes) returns (r: bool)
    ensures r == Accepts(p, s, 0, 0)
  {
    var pi, si, starP, starS, starred := 0, 0, 0, 0, false;
    while si < |s|
      invariant pi <= |p| && si <= |s|
      invariant !starred ==> Accepts(p, s, 0, 0) == Accepts(p, s, pi, si)
      invariant starred ==> starP < pi && starS <= si && pi - (starP + 1) == si - starS
      invariant starred ==> Aligned(p, s, starP + 1, starS, si - starS)
      invariant starred ==> Accepts(p, s, 0, 0) == AcceptsLater(p, s, starP + 1, starS)
      invariant starred ==> Accepts(p, s, starP + 1, starS) == Accepts(p, s, pi, si)
      decreases |s| - (if starred then starS else 0), !starred, |s| - si, |p| - pi
    {
      if pi < |p| && (p[pi] == QMARK || p[pi] == s[si]) {
        pi, si := pi + 1, si + 1;
      } else if pi < |p| && p[pi] == STAR {
        if starred && AcceptsLater(p, s, starP + 1, starS) {
          RestartSubsumed(p, s, starP + 1, starS, si - starS, starP + 1, starS);
        }
        starP, starS, starred := pi, si, true;
        pi := pi + 1;
      } else if starred {
        pi := starP + 1;
        starS := starS + 1;
        si := starS;
      } else {
        return false;
      }
    }
    ghost var p0 := pi;
    while pi < |p| && p[pi] == STAR
      invariant p0 <= pi <= |p|
      invariant Accepts(p, s, p0, |s|) == Accepts(p, s, pi, |s|)
    {
      pi := pi + 1;
    }
    assert Accepts(p, s, pi, |s|) == (pi == |p|);
    if starred && pi < |p| {
      NothingLater(p, s, starP + 1, starS, p0, pi);
    }
    return pi == |p|;
  }

  /** The last attempt ran out of subject; restarting the star further right cannot help. */
  lemma {:induction false} NothingLater(p: Bytes, s: Bytes, a: nat, b: nat, e: nat, i: nat)
    requires b <= |s| && a <= e && e - a == |s| - b && Aligned(p, s, a, b, e - a)
    requires e <= i < |p| && p[i] != STAR
    ensures !AcceptsLater(p, s, a, b)
    decreases |s| - b
  {
    if AcceptsLater(p, s, a, b) {
      RunsOut(p, s, a, b, e, i, a, b);
    }
  }

  lemma {:induction false} RunsOut(p: Bytes, s: Bytes, a: nat, b: nat, e: nat, i: nat, i': nat, j: nat)
    requires b <= |s| && a <= e && e - a == |s| - b && Aligned(p, s, a, b, e - a)
    requires e <= i < |p| && p[i] != STAR
    requires j <= |s| && a <= i' <= i && (if i' < e then i' - a <= j - b else j == |s|)
    ensures !AcceptsLater(p, s, i', j)
    decreases |p| - i' + |s| - j
  {
    if j < |s| && Literal(p[i'], s[j]) {
      RunsOut(p, s, a, b, e, i, i' + 1, j + 1);
    } else if p[i'] == STAR {
      assert i' < e && i' - a == j - b ==> Literal(p[i'], s[b + (i' - a)]);
      RunsOut(p, s, a, b, e, i, i' + 1, j);
    }
    if j < |s| {
      RunsOut(p, s, a, b, e, i, i', j + 1);
    }
  }

  lemma {:induction false} AcceptsIsSound(p: Bytes, s: Bytes, i: nat, j: nat)
    requires i <= |p| && j <= |s|
    ensures Accepts(p, s, i, j) ==> Matches(p, s, i, j)
    decreases |p| - i + |s| - j, 0
  {
    if i < |p| {
      if j < |s| && Literal(p[i], s[j]) {
        AcceptsIsSound(p, s, i + 1, j + 1);
        if p[i] == STAR { StarEatsOne(p, s, i, j); }
      } else if p[i] == STAR {
        LaterIsSound(p, s, i + 1, j);
      }
    }
  }

  lemma StarEatsOne(p: Bytes, s: Bytes, i: nat, j: nat)
    requires i < |p| && p[i] == STAR && j < |s|
    ensures Matches(p, s, i + 1, j + 1) ==> Matches(p, s, i, j)
  {
    assert Matches(p, s, i + 1, j + 1) ==> Matches(p, s, i, j + 1);
  }

  lemma {:induction false} LaterIsSound(p: Bytes, s: Bytes, i: nat, j: nat)
    requires 0 < i <= |p| && j <= |s| && p[i - 1] == STAR
    ensures AcceptsLater(p, s, i, j) ==> Matches(p, s, i - 1, j)
    decreases |p| - i + |s| - j, 1
  {
    AcceptsIsSound(p, s, i, j);
    if j < |s| { LaterIsSound(p, s, i, j + 1); }
  }

  lemma {:induction false} AcceptsIsComplete(p: Bytes, s: Bytes, i: nat, j: nat)
    requires i <= |p| && j <= |s| && STAR !in s
    ensures Matches(p, s, i, j) ==> Accepts(p, s, i, j)
    decreases |p| - i + |s| - j
  {
    if i < |p| {
      if p[i] == STAR {
        AcceptsIsComplete(p, s, i + 1, j);
        if j < |s| { AcceptsIsComplete(p, s, i, j + 1); }
      } else if j < |s| {
        AcceptsIsComplete(p, s, i + 1, j + 1);
      }
    }
  }

  /** The public entry point. A match it reports is always a textbook match. */
  method GlobMatch(pattern: Bytes, s: Bytes) returns (r: bool)
    ensures r == Accepts(pattern, s, 0, 0)
    ensures r ==> Matches(pattern, s, 0, 0)
    ensures STAR !in s ==> r == Matches(pattern, s, 0, 0)
  {
    AcceptsIsSound(pattern, s, 0, 0);
    if STAR !in s { AcceptsIsComplete(pattern, s, 0, 0); }
    r := GlobMatchInner(pattern, s);
  }

  /** `n` question marks. */
  function Marks(n: nat): (m: Bytes)
    ensures |m| == n && forall d :: 0 <= d < n ==> m[d] == QMARK
  {
    seq(n, _ => QMARK)
  }

  /** The matcher is the textbook matcher for every pattern exactly when the subject holds no `*` byte. */
  lemma {:induction false} AgreesForAllPatterns(s: Bytes)
    ensures (forall p: Bytes :: Accepts(p, s, 0, 0) == Matches(p, s, 0, 0)) <==> STAR !in s
  {
    if STAR in s {
      var k :| 0 <= k < |s| && s[k] == STAR;
      var p := Marks(k) + [STAR] + Marks(|s| - k);
      AlignedConsume(p, s, 0, 0, k);
      assert !Accepts(p, s, k, k) by {
        AlignedConsume(p, s, k + 1, k + 1, |s| - k - 1);
      }
      assert Matches(p, s, k, k) by {
        AlignedConsume(p, s, k + 1, k, |s| - k);
      }
      assert Accepts(p, s, 0, 0) != Matches(p, s, 0, 0);
    } else {
      forall p: Bytes ensures Accepts(p, s, 0, 0) == Matches(p, s, 0, 0) {
        AcceptsIsSound(p, s, 0, 0);
        AcceptsIsComplete(p, s, 0, 0);
      }
    }
  }

  /** Bytes that face each other one for one are consumed that way, stars among them included. */
  lemma {:induction false} AlignedConsume(p: Bytes, s: Bytes, i: nat, j: nat, n: nat)
    requires Aligned(p, s, i, j, n)
    ensures Accepts(p, s, i, j) == Accepts(p, s, i + n, j + n)
    ensures Matches(p, s, i + n, j + n) ==> Matches(p, s, i, j)
    decreases n
  {
    if n > 0 {
      assert Literal(p[i], s[j + (i - i)]);
      AlignedConsume(p, s, i + 1, j + 1, n - 1);
      if p[i] == STAR { StarEatsOne(p, s, i, j); }
    }
  }

  /** Without a star every pattern byte takes one subject byte, for the matcher and the textbook alike. */
  lemma {:induction false} StarFreeTail(p: Bytes, s: Bytes, i: nat, j: nat)
    requires i <= |p| && j <= |s| && STAR !in p[i..]
    ensures Accepts(p, s, i, j) == Matches(p, s, i, j)
    ensures Accepts(p, s, i, j) ==> |p| - i == |s| - j
    decreases |p| - i
  {
    if i < |p| {
      assert p[i..][0] == p[i] && p[i + 1..] == p[i..][1..];
      if j < |s| { StarFreeTail(p, s, i + 1, j + 1); }
    }
  }

  lemma {:induction false} LastStar(p: Bytes) returns (k: nat)
    requires STAR in p
    ensures k < |p| && p[k] == STAR && STAR !in p[k + 1..]
    decreases |p|
  {
    k := |p| - 1;
    if p[k] != STAR {
      k := LastStar(p[..k]);
      assert p[k + 1..] == p[..|p| - 1][k + 1..] + [p[|p| - 1]];
    }
  }

  /** The pattern read as a subject, with one byte more behind its last star, is rejected though it matches. */
  lemma SelfWithGap(p: Bytes, k: nat)
    requires k < |p| && p[k] == STAR && STAR !in p[k + 1..]
    ensures var s := p[..k + 1] + [0] + p[k + 1..]; Matches(p, s, 0, 0) && !Accepts(p, s, 0, 0)
  {
    var s := p[..k + 1] + [0] + p[k + 1..];
    AlignedConsume(p, s, 0, 0, k + 1);
    StarFreeTail(p, s, k + 1, k + 1);
    AlignedConsume(p, s, k + 1, k + 2, |p| - k - 1);
    StarEatsOne(p, s, k, k + 1);
    assert Matches(p, s, k, k);
    AlignedConsume(p, s, 0, 0, k);
  }

  /** The matcher is the textbook matcher for every subject exactly when the pattern holds no star. */
  lemma {:induction false} AgreesForAllSubjects(p: Bytes)
    ensures (forall s: Bytes :: Accepts(p, s, 0, 0) == Matches(p, s, 0, 0)) <==> STAR !in p
  {
    if STAR in p {
      var k := LastStar(p);
      SelfWithGap(p, k);
    } else {
      forall s: Bytes ensures Accepts(p, s, 0, 0) == Matches(p, s, 0, 0) {
        StarFreeTail(p, s, 0, 0);
      }
    }
  }

  /** The smallest disagreement: pattern `*` rejects the subject `*a`. */
  lemma StarRejectsStarSubject()
    ensures Matches([STAR], [STAR, 97], 0, 0) && !Accepts([STAR], [STAR, 97], 0, 0)
  {
    assert Matches([STAR], [STAR, 97], 0, 2);
    assert Matches([STAR], [STAR, 97], 0, 1);
    assert !Accepts([STAR], [STAR, 97], 1, 1);
  }
}
