/**
 The triangular probe sequence of include/sdb/cwisstable.h. In a table of 2^k
 groups the first 2^k probes visit every group exactly once.
 */
module SwissProbe {

  function Pow2(k: nat): (p: nat)
    ensures p >= 1
  {
    if k == 0 then 1 else 2 * Pow2(k - 1)
  }

  /** 0 + 1 + ... + i. */
  function Tri(i: nat): nat {
    if i == 0 then 0 else Tri(i - 1) + i
  }

  /** The group of probe `i`, counted from the first one, among `G` groups. */
  function Group(i: nat, G: nat): (g: nat)
    requires i <= G && G > 0
    ensures g < G
  {
    if i == 0 then 0 else
      var x := Group(i - 1, G) + i;
      if x < G then x else x - G
  }

  /** How often the sequence has wrapped. */
  ghost function Laps(i: nat, G: nat): nat
    requires i <= G && G > 0
  {
    if i == 0 then 0 else Laps(i - 1, G) + if Group(i - 1, G) + i < G then 0 else 1
  }

  lemma {:induction false} GroupIsTri(i: nat, G: nat)
    requires i <= G && G > 0
    ensures Tri(i) == Group(i, G) + G * Laps(i, G)
  {
    if i > 0 {
      GroupIsTri(i - 1, G);
      LapStep(G, Laps(i - 1, G));
    }
  }

  lemma LapStep(g: nat, l: nat)
    ensures g * (l + 1) == g * l + g
  {
  }

  lemma {:induction false} TriTwice(i: nat)
    ensures 2 * Tri(i) == i * (i + 1)
  {
    if i > 0 {
      TriTwice(i - 1);
      assert i * (i + 1) == (i - 1) * i + 2 * i;
    }
  }

  lemma TriDifference(i: nat, j: nat)
    requires i < j
    ensures 2 * (Tri(j) - Tri(i)) == (j - i) * (i + j + 1)
  {
    TriTwice(i);
    TriTwice(j);
    hide Tri;
    assert j * (j + 1) - i * (i + 1) == (j - i) * (i + j + 1) by {
      assert (j - i) * (i + j + 1) == j * (i + j + 1) - i * (i + j + 1);
      assert j * (i + j + 1) == j * i + j * (j + 1);
      assert i * (i + j + 1) == i * j + i * (i + 1);
    }
  }

  /** A power of two that divides a product with one odd factor divides the other. */
  lemma {:induction false} OddFactor(a: nat, b: nat, k: nat, c: nat) returns (d: nat)
    requires a % 2 == 1 && a * b == Pow2(k) * c
    ensures b == Pow2(k) * d
    decreases k
  {
    if k == 0 {
      d := b;
    } else {
      var p := Pow2(k - 1);
      assert a * b == 2 * (p * c);
      EvenFactor(a, b, p * c);
      var h := b / 2;
      assert b == 2 * h;
      assert a * h == p * c by {
        assert a * (2 * h) == 2 * (a * h);
      }
      d := OddFactor(a, h, k - 1, c);
      assert 2 * (p * d) == Pow2(k) * d;
    }
  }

  lemma EvenFactor(a: nat, b: nat, e: nat)
    requires a % 2 == 1 && a * b == 2 * e
    ensures b % 2 == 0
  {
    var q := a / 2;
    assert a == 2 * q + 1;
    assert a * b == 2 * (q * b) + b by {
      assert (2 * q + 1) * b == 2 * q * b + b;
      assert 2 * q * b == 2 * (q * b);
    }
  }

  lemma NoMultiple(x: nat, p: nat, d: nat)
    requires 0 < x < p
    ensures x != p * d
  {
    if d > 0 {
      assert p * d >= p by {
        assert p * d == p * (d - 1) + p;
        assert p * (d - 1) >= 0;
      }
    }
  }

  lemma Positive(a: nat, b: nat, g: nat, c: int)
    requires a > 0 && b > 0 && a * b == 2 * (g * c)
    ensures c >= 0
  {
    assert a * b > 0;
    assert c < 0 ==> g * c <= 0;
  }

  lemma OddTimes(a: nat, b: nat, k: nat, c: int)
    requires 0 < a && a % 2 == 1 && 0 < b < Pow2(k)
    ensures a * b != Pow2(k) * c
  {
    hide Pow2;
    if a * b == Pow2(k) * c {
      NonNegative(a, b, Pow2(k), c);
      var d := OddFactor(a, b, k, c);
      NoMultiple(b, Pow2(k), d);
    }
  }

  lemma NonNegative(a: nat, b: nat, g: nat, c: int)
    requires a > 0 && b > 0 && a * b == g * c
    ensures c >= 0
  {
    Positive(a, 2 * b, g, c);
  }

  lemma PowTwice(k: nat, c: int)
    ensures 2 * (Pow2(k) * c) == Pow2(k + 1) * c
  {
  }

  lemma Commute(a: nat, b: nat)
    ensures a * b == b * a
  {
  }

  /** The product of two numbers below 2^(k+1), one of them odd, is no multiple of it. */
  lemma NoCollision(a: nat, b: nat, k: nat, c: int)
    requires 0 < a < Pow2(k + 1) && 0 < b < Pow2(k + 1) && (a + b) % 2 == 1
    ensures a * b != 2 * (Pow2(k) * c)
  {
    hide Pow2;
    PowTwice(k, c);
    Commute(a, b);
    if a % 2 == 1 {
      OddTimes(a, b, k + 1, c);
    } else {
      OddTimes(b, a, k + 1, c);
    }
  }

  lemma Factored(g: nat, x: nat, y: nat)
    ensures g * x - g * y == g * (x - y)
  {
  }

  /** Two probes of one round never meet. */
  lemma GroupInjective(i: nat, j: nat, k: nat)
    requires i < j < Pow2(k)
    ensures Group(i, Pow2(k)) != Group(j, Pow2(k))
  {
    hide Group, Laps, Tri;
    var G := Pow2(k);
    GroupIsTri(i, G);
    GroupIsTri(j, G);
    TriDifference(i, j);
    Factored(G, Laps(j, G), Laps(i, G));
    NoCollision(j - i, i + j + 1, k, Laps(j, G) - Laps(i, G));
  }

  /** Distinct numbers below `n` are at most `n` many. */
  lemma {:induction false} Pigeon(at: seq<nat>, n: nat)
    requires forall i :: 0 <= i < |at| ==> at[i] < n
    requires forall i, j :: 0 <= i < j < |at| ==> at[i] != at[j]
    ensures |at| <= n
    decreases n
  {
    if at != [] {
      assert at[0] < n;
    }
    if n == 0 {
    } else if exists i :: 0 <= i < |at| && at[i] == n - 1 {
      var i :| 0 <= i < |at| && at[i] == n - 1;
      Pigeon(at[..i] + at[i + 1..], n - 1);
    } else {
      Pigeon(at, n - 1);
    }
  }

  ghost function Groups(n: nat, G: nat): (s: seq<nat>)
    requires n <= G && G > 0
    ensures |s| == n && forall i :: 0 <= i < n ==> s[i] == Group(i, G)
  {
    if n == 0 then [] else Groups(n - 1, G) + [Group(n - 1, G)]
  }

  /** Every group is probed within one round. */
  lemma GroupSurjective(g: nat, k: nat) returns (i: nat)
    requires g < Pow2(k)
    ensures i < Pow2(k) && Group(i, Pow2(k)) == g
  {
    var G := Pow2(k);
    if forall j :: 0 <= j < G ==> Group(j, G) != g {
      var all := Groups(G, G) + [g];
      forall a, b | 0 <= a < b < |all|
        ensures all[a] != all[b]
      {
        if b < G {
          GroupInjective(a, b, k);
        }
      }
      Pigeon(all, G);
      assert false;
    }
    i :| 0 <= i < G && Group(i, G) == g;
  }
}
