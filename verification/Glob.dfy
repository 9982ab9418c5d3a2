/**
 src/match.c: the glob matcher. It keeps only the last star to fall back to, and
 still decides the recursive definition of matching the whole string.
 */
module Glob {
  import opened Bytes

  const STAR: byte := 42

  /** `tolower` in the C locale. */
  function Lower(c: byte): byte {
    if 65 <= c <= 90 then c + 32 else c
  }

  predicate CharEq(a: byte, b: byte, icase: bool) {
    if icase then Lower(a) == Lower(b) else a == b
  }

  /** Ignoring case equates a letter with its other case, and nothing else. */
  lemma SameLetter(a: byte, b: byte)
    ensures CharEq(a, b, false) <==> a == b
    ensures CharEq(a, b, true) <==> a == b || (65 <= a <= 90 && b == a + 32) || (97 <= a <= 122 && b == a - 32)
  {
  }

  /** A star stands for any run, every other character for itself. */
  predicate Matches(p: seq<byte>, s: seq<byte>, icase: bool)
    decreases |p|, |s|
  {
    if p == [] then s == []
    else if p[0] == STAR then Matches(p[1..], s, icase) || (s != [] && Matches(p, s[1..], icase))
    else s != [] && CharEq(p[0], s[0], icase) && Matches(p[1..], s[1..], icase)
  }

  // --- what matching means ---

  /** A pattern without a star matches exactly the texts that agree with it throughout. */
  lemma {:induction false} LiteralMatches(p: seq<byte>, s: seq<byte>, icase: bool)
    requires 42 !in p
    ensures Matches(p, s, icase) <==> |p| == |s| && forall i :: 0 <= i < |p| ==> CharEq(p[i], s[i], icase)
    decreases |p|
  {
    if p != [] && s != [] {
      LiteralMatches(p[1..], s[1..], icase);
      assert forall i :: 1 <= i < |p| ==> p[i] == p[1..][i - 1];
      assert forall i :: 1 <= i < |s| ==> s[i] == s[1..][i - 1];
    }
  }

  lemma {:induction false} StarMatches(s: seq<byte>, icase: bool)
    ensures Matches([42], s, icase)
    decreases |s|
  {
    if s != [] {
      StarMatches(s[1..], icase);
    }
  }

  /** A pattern in two parts matches exactly the texts that can be cut in two to match them. */
  lemma {:induction false} ConcatMatches(p: seq<byte>, q: seq<byte>, s: seq<byte>, icase: bool)
    ensures Matches(p + q, s, icase) <==> exists i :: CutMatches(p, q, s, icase, i)
    decreases |p|, |s|
  {
    if p == [] {
      assert p + q == q;
      assert s[..0] == [] && s[0..] == s;
      assert Matches(q, s, icase) ==> CutMatches(p, q, s, icase, 0);
      forall i | CutMatches(p, q, s, icase, i)
        ensures i == 0
      {
      }
    } else {
      var r := p[1..];
      assert (p + q)[0] == p[0] && (p + q)[1..] == r + q;
      ConcatMatches(r, q, s, icase);
      if s != [] {
        ConcatMatches(p, q, s[1..], icase);
        ConcatMatches(r, q, s[1..], icase);
      }
      if Matches(p + q, s, icase) {
        if p[0] == 42 && Matches(r + q, s, icase) {
          var i :| CutMatches(r, q, s, icase, i);
          assert CutMatches(p, q, s, icase, i);
        } else if p[0] == 42 {
          var i :| CutMatches(p, q, s[1..], icase, i);
          CutLater(p, q, s, icase, i);
        } else {
          var i :| CutMatches(r, q, s[1..], icase, i);
          CutLater(p, q, s, icase, i);
        }
      }
      if exists i :: CutMatches(p, q, s, icase, i) {
        var i :| CutMatches(p, q, s, icase, i);
        CutOnce(p, q, s, icase, i);
      }
    }
  }

  ghost predicate CutMatches(p: seq<byte>, q: seq<byte>, s: seq<byte>, icase: bool, i: int) {
    0 <= i <= |s| && Matches(p, s[..i], icase) && Matches(q, s[i..], icase)
  }

  /** The cut of the rest of the text is a cut of the text. */
  lemma CutLater(p: seq<byte>, q: seq<byte>, s: seq<byte>, icase: bool, i: int)
    requires p != [] && s != []
    requires if p[0] == 42 then CutMatches(p, q, s[1..], icase, i)
             else CutMatches(p[1..], q, s[1..], icase, i) && CharEq(p[0], s[0], icase)
    ensures CutMatches(p, q, s, icase, i + 1)
  {
    assert s[..i + 1][0] == s[0] && s[..i + 1][1..] == s[1..][..i] && s[i + 1..] == s[1..][i..];
  }

  /** And the other way round. */
  lemma CutOnce(p: seq<byte>, q: seq<byte>, s: seq<byte>, icase: bool, i: int)
    requires p != [] && CutMatches(p, q, s, icase, i)
    ensures if p[0] == 42 then CutMatches(p[1..], q, s, icase, i) || (s != [] && CutMatches(p, q, s[1..], icase, i - 1))
            else s != [] && CharEq(p[0], s[0], icase) && CutMatches(p[1..], q, s[1..], icase, i - 1)
  {
    if i > 0 {
      assert s[..i][0] == s[0] && s[..i][1..] == s[1..][..i - 1] && s[i..] == s[1..][i - 1..];
    }
  }

  /** `p[a..a + n]` has no star and equals `s[b..b + n]`. */
  ghost predicate Literal(p: seq<byte>, a: nat, s: seq<byte>, b: nat, n: nat, icase: bool) {
    && a + n <= |p| && b + n <= |s|
    && forall x :: a <= x < a + n ==> p[x] != STAR && CharEq(p[x], s[b + (x - a)], icase)
  }

  lemma {:induction false} LiteralSkip(p: seq<byte>, a: nat, s: seq<byte>, b: nat, n: nat, icase: bool)
    requires Literal(p, a, s, b, n, icase)
    ensures Matches(p[a..], s[b..], icase) <==> Matches(p[a + n..], s[b + n..], icase)
    decreases n
  {
    if n > 0 {
      assert p[a..][0] == p[a] && s[b..][0] == s[b];
      assert p[a..][1..] == p[a + 1..] && s[b..][1..] == s[b + 1..];
      LiteralSkip(p, a + 1, s, b + 1, n - 1, icase);
    }
  }

  /** Star-free pattern text consumes exactly its own length. */
  lemma {:induction false} LiteralUse(p: seq<byte>, a: nat, s: seq<byte>, b: nat, n: nat, icase: bool)
    requires a + n <= |p| && b <= |s| && (forall x :: a <= x < a + n ==> p[x] != STAR)
    requires Matches(p[a..], s[b..], icase)
    ensures b + n <= |s| && Matches(p[a + n..], s[b + n..], icase)
    decreases n
  {
    if n > 0 {
      assert p[a..][0] == p[a];
      assert p[a..][1..] == p[a + 1..] && s[b..][1..] == s[b + 1..];
      LiteralUse(p, a + 1, s, b + 1, n - 1, icase);
    }
  }

  /** A star in front matches when the rest matches at some later place. */
  lemma {:induction false} StarSplits(p: seq<byte>, t: nat, s: seq<byte>, k: nat, icase: bool) returns (m: nat)
    requires t < |p| && p[t] == STAR && k <= |s| && Matches(p[t..], s[k..], icase)
    ensures k <= m <= |s| && Matches(p[t + 1..], s[m..], icase)
    decreases |s| - k
  {
    assert p[t..][0] == STAR && p[t..][1..] == p[t + 1..];
    if Matches(p[t + 1..], s[k..], icase) {
      m := k;
    } else {
      assert s[k..][1..] == s[k + 1..];
      m := StarSplits(p, t, s, k + 1, icase);
    }
  }

  lemma {:induction false} StarTakes(p: seq<byte>, t: nat, s: seq<byte>, k: nat, m: nat, icase: bool)
    requires t < |p| && p[t] == STAR && k <= m <= |s| && Matches(p[t..], s[m..], icase)
    ensures Matches(p[t..], s[k..], icase)
    decreases m - k
  {
    if k < m {
      StarTakes(p, t, s, k + 1, m, icase);
      assert s[k..][1..] == s[k + 1..];
    }
  }

  lemma StarEmpty(p: seq<byte>, t: nat, s: seq<byte>, k: nat, icase: bool)
    requires t < |p| && p[t] == STAR && k <= |s| && Matches(p[t + 1..], s[k..], icase)
    ensures Matches(p[t..], s[k..], icase)
  {
    assert p[t..][0] == STAR && p[t..][1..] == p[t + 1..];
  }

  /** The loop's state: what is left to decide, seen from the last star, and the
      literal text matched since. */
  ghost predicate Scan(p: seq<byte>, s: seq<byte>, i: nat, j: nat, star: int, sa: nat, icase: bool) {
    && i <= |s| && j <= |p|
    && (star < 0 ==> star == -1 && sa == 0 && i == j && Literal(p, 0, s, 0, i, icase))
    && (star >= 0 ==> && star < j && p[star] == STAR && sa <= i && i - sa == j - star - 1
                      && Literal(p, star + 1, s, sa, i - sa, icase)
                      && (Matches(p, s, icase) <==> Matches(p[star..], s[sa..], icase)))
  }

  /** At a further star the earlier one can be forgotten, and so at the end of text. */
  lemma ScanForget(p: seq<byte>, s: seq<byte>, i: nat, j: nat, star: int, sa: nat, icase: bool)
    requires Scan(p, s, i, j, star, sa, icase) && (i == |s| || (j < |p| && p[j] == STAR))
    ensures Matches(p, s, icase) <==> Matches(p[j..], s[i..], icase)
  {
    hide Matches;
    if star < 0 {
      LiteralSkip(p, 0, s, 0, i, icase);
      assert p[0..] == p && s[0..] == s;
    } else {
      LiteralSkip(p, star + 1, s, sa, i - sa, icase);
      if Matches(p[j..], s[i..], icase) {
        StarEmpty(p, star, s, sa, icase);
      }
      if Matches(p[star..], s[sa..], icase) {
        var m := StarSplits(p, star, s, sa, icase);
        LiteralUse(p, star + 1, s, m, i - sa, icase);
        if i < |s| {
          StarTakes(p, j, s, i, m + (i - sa), icase);
        }
      }
    }
  }

  lemma Mismatch(p: seq<byte>, s: seq<byte>, i: nat, j: nat, icase: bool)
    requires i < |s| && (j == |p| || (j < |p| && p[j] != STAR && !CharEq(p[j], s[i], icase)))
    ensures !Matches(p[j..], s[i..], icase)
  {
  }

  lemma StarStep(p: seq<byte>, t: nat, s: seq<byte>, k: nat, icase: bool)
    requires t < |p| && p[t] == STAR && k < |s|
    ensures Matches(p[t..], s[k..], icase) <==> Matches(p[t + 1..], s[k..], icase) || Matches(p[t..], s[k + 1..], icase)
  {
    assert p[t..][0] == STAR && p[t..][1..] == p[t + 1..] && s[k..][1..] == s[k + 1..];
  }

  /** A mismatch rules out the current place of the last star. */
  lemma ScanBack(p: seq<byte>, s: seq<byte>, i: nat, j: nat, star: int, sa: nat, icase: bool)
    requires Scan(p, s, i, j, star, sa, icase) && i < |s| && (j == |p| || (p[j] != STAR && !CharEq(p[j], s[i], icase)))
    ensures star < 0 ==> !Matches(p, s, icase)
    ensures star >= 0 ==> Scan(p, s, sa + 1, star + 1, star, sa + 1, icase)
  {
    hide Matches;
    Mismatch(p, s, i, j, icase);
    if star < 0 {
      LiteralSkip(p, 0, s, 0, i, icase);
      assert p[0..] == p && s[0..] == s;
    } else {
      LiteralSkip(p, star + 1, s, sa, i - sa, icase);
      StarStep(p, star, s, sa, icase);
    }
  }

  lemma {:induction false} OnlyStars(p: seq<byte>, j: nat, n: nat, icase: bool)
    requires j <= n <= |p| && (forall x :: j <= x < n ==> p[x] == STAR) && (n == |p| || p[n] != STAR)
    ensures Matches(p[j..], [], icase) <==> n == |p|
    decreases n - j
  {
    if j < n {
      assert p[j..][0] == STAR && p[j..][1..] == p[j + 1..];
      OnlyStars(p, j + 1, n, icase);
    } else if n < |p| {
      assert p[j..][0] == p[n];
    }
  }

  /** `globmatch`. */
  method GlobMatch(s: seq<byte>, p: seq<byte>, icase: bool) returns (r: bool)
    ensures r <==> Matches(p, s, icase)
  {
    hide Matches;
    var i, j, sa := 0, 0, 0;
    var star := -1;
    while i < |s|
      invariant Scan(p, s, i, j, star, sa, icase)
      decreases |p| - star, |s| - sa, |s| - i
    {
      if j < |p| && p[j] == STAR {
        ScanForget(p, s, i, j, star, sa, icase);
        star := j;
        j := j + 1;
        sa := i;
      } else if j < |p| && CharEq(p[j], s[i], icase) {
        j := j + 1;
        i := i + 1;
      } else {
        ScanBack(p, s, i, j, star, sa, icase);
        if star >= 0 {
          j := star + 1;
          sa := sa + 1;
          i := sa;
        } else {
          return false;
        }
      }
    }
    ScanForget(p, s, i, j, star, sa, icase);
    ghost var end := j;
    while j < |p| && p[j] == STAR
      invariant end <= j <= |p| && forall x :: end <= x < j ==> p[x] == STAR
    {
      j := j + 1;
    }
    OnlyStars(p, end, j, icase);
    assert s[i..] == [];
    return j == |p|;
  }
}
