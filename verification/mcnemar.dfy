// bench: the exact two-sided McNemar test, over exact reals.
module McNemar {
  import opened Common

  // Pascal's triangle.
  function Choose(n: nat, k: nat): nat {
    if k == 0 then 1
    else if n == 0 then 0
    else Choose(n - 1, k - 1) + Choose(n - 1, k)
  }

  function Pow2(n: nat): (p: nat)
    ensures p > 0
  {
    if n == 0 then 1 else 2 * Pow2(n - 1)
  }

  // The first m entries of row n, summed.
  function RowSum(n: nat, m: nat): nat {
    if m == 0 then 0 else RowSum(n, m - 1) + Choose(n, m - 1)
  }

  function Abs(x: int): nat {
    if x < 0 then -x else x
  }

  // The number of the 2^n outcomes of n coin flips with fewer than m heads that
  // split the flips by at least d.
  function Lopsided(n: nat, d: nat, m: nat): nat {
    if m == 0 then 0
    else Lopsided(n, d, m - 1) + if Abs(2 * (m - 1) - n) >= d then Choose(n, m - 1) else 0
  }

  // The p-value by definition: the probability that n = b + c fair coin flips
  // split at least as unevenly as b against c.
  function PValue(b: nat, c: nat): real {
    Lopsided(b + c, Abs(b - c), b + c + 1) as real / Pow2(b + c) as real
  }

  // ---- Binomial coefficients ----------------------------------------------

  lemma {:induction false} ChooseEdges(n: nat, k: nat)
    ensures k > n ==> Choose(n, k) == 0
    ensures k == n ==> Choose(n, k) == 1
    ensures k < n ==> Choose(n, k) > 0
  {
    if n > 0 && k > 0 {
      ChooseEdges(n - 1, k - 1);
      ChooseEdges(n - 1, k);
    }
  }

  // One multiply-then-divide step, with no remainder.
  lemma {:induction false} ChooseStep(n: nat, k: nat)
    requires k <= n
    ensures Choose(n, k + 1) * (k + 1) == Choose(n, k) * (n - k)
  {
    if n == 0 {
    } else if k == n {
      ChooseEdges(n, n + 1);
    } else if k == 0 {
      ChooseStep(n - 1, 0);
    } else {
      var x, y, z := Choose(n - 1, k - 1), Choose(n - 1, k), Choose(n - 1, k + 1);
      ChooseStep(n - 1, k);
      ChooseStep(n - 1, k - 1);
      StepArith(x, y, z, n, k);
    }
  }

  lemma StepArith(x: int, y: int, z: int, n: int, k: int)
    requires z * (k + 1) == y * (n - 1 - k) && y * k == x * (n - k)
    ensures (y + z) * (k + 1) == (x + y) * (n - k)
  {
    assert (y + z) * (k + 1) == y * k + y + z * (k + 1) == y * k + y * (n - k);
    assert (x + y) * (n - k) == x * (n - k) + y * (n - k);
  }

  lemma {:induction false} ChooseSymmetric(n: nat, k: nat)
    requires k <= n
    ensures Choose(n, k) == Choose(n, n - k)
  {
    ChooseEdges(n, n);
    if 0 < k < n {
      ChooseSymmetric(n - 1, k - 1);
      ChooseSymmetric(n - 1, k);
    }
  }

  lemma CoefficientStep(n: nat, i: nat, c: real)
    requires i < n && c == Choose(n, i) as real
    ensures c * (n - i) as real / (i + 1) as real == Choose(n, i + 1) as real
  {
    ChooseStep(n, i);
  }

  method BinomCoeff(n: int, k0: int) returns (c: real)
    ensures c == if 0 <= k0 <= n then Choose(n, k0) as real else 0.0
  {
    var k := k0;
    if k < 0 || k > n {
      return 0.0;
    }
    ChooseSymmetric(n, k);
    if k > n - k {
      k := n - k;
    }
    c := 1.0;
    for i := 0 to k
      invariant c == Choose(n, i) as real
    {
      CoefficientStep(n, i, c);
      c := c * (n - i) as real / (i + 1) as real;
    }
  }

  // ---- Rows ---------------------------------------------------------------

  lemma {:induction false} RowStep(n: nat, m: nat)
    ensures RowSum(n + 1, m + 1) == RowSum(n, m + 1) + RowSum(n, m)
  {
    if m > 0 {
      RowStep(n, m - 1);
    }
  }

  lemma {:induction false} RowTotal(n: nat)
    ensures RowSum(n, n + 1) == Pow2(n)
  {
    if n == 0 {
      assert RowSum(0, 1) == RowSum(0, 0) + Choose(0, 0);
    } else {
      RowStep(n - 1, n);
      ChooseEdges(n - 1, n);
      RowTotal(n - 1);
    }
  }

  lemma {:induction false} RowComplement(n: nat, m: nat)
    requires m <= n + 1
    ensures RowSum(n, m) + RowSum(n, n + 1 - m) == Pow2(n)
  {
    if m == 0 {
      RowTotal(n);
    } else {
      RowComplement(n, m - 1);
      ChooseSymmetric(n, m - 1);
      assert RowSum(n, n + 2 - m) == RowSum(n, n + 1 - m) + Choose(n, n + 1 - m);
    }
  }

  lemma {:induction false} LopsidedTails(n: nat, k: nat, m: nat)
    requires 2 * k < n && m <= n + 1
    ensures Lopsided(n, n - 2 * k, m) ==
      if m <= k + 1 then RowSum(n, m)
      else if m <= n - k then RowSum(n, k + 1)
      else 2 * RowSum(n, k + 1) - RowSum(n, n + 1 - m)
  {
    if m > 0 {
      LopsidedTails(n, k, m - 1);
      if m > n - k {
        ChooseSymmetric(n, m - 1);
        assert RowSum(n, n + 2 - m) == RowSum(n, n + 1 - m) + Choose(n, n + 1 - m);
      }
    }
  }

  lemma {:induction false} LopsidedEven(n: nat, m: nat)
    ensures Lopsided(n, 0, m) == RowSum(n, m)
  {
    if m > 0 {
      LopsidedEven(n, m - 1);
    }
  }

  // Doubling the lower tail: it counts exactly the lopsided outcomes, except
  // that an even split counts its middle outcome twice.
  lemma DoubledTail(b: nat, c: nat)
    ensures var n := b + c;
      2 * RowSum(n, Min(b, c) + 1) == Lopsided(n, Abs(b - c), n + 1) + if b == c then Choose(n, b) else 0
    ensures b == c ==> Lopsided(b + c, 0, b + c + 1) == Pow2(b + c)
  {
    var n, k := b + c, Min(b, c);
    if b == c {
      LopsidedEven(n, n + 1);
      RowTotal(n);
      RowComplement(n, k + 1);
      assert RowSum(n, k + 1) == RowSum(n, k) + Choose(n, k);
    } else {
      LopsidedTails(n, k, n + 1);
    }
  }

  lemma {:induction false} LopsidedAntitone(n: nat, d: nat, e: nat, m: nat)
    requires d <= e
    ensures Lopsided(n, e, m) <= Lopsided(n, d, m)
  {
    if m > 0 {
      LopsidedAntitone(n, d, e, m - 1);
    }
  }

  lemma LopsidedAtMostAll(n: nat, d: nat)
    ensures Lopsided(n, d, n + 1) <= Pow2(n)
  {
    LopsidedAntitone(n, 0, d, n + 1);
    LopsidedEven(n, n + 1);
    RowTotal(n);
  }

  // The clamp at one bites on an even split and on no other.
  lemma ClampBites(b: nat, c: nat)
    ensures 2 * RowSum(b + c, Min(b, c) + 1) > Pow2(b + c) <==> b == c
  {
    DoubledTail(b, c);
    ChooseEdges(b + c, b);
    LopsidedAtMostAll(b + c, Abs(b - c));
  }

  // ---- The test -----------------------------------------------------------

  function HalfPow(n: nat): real {
    if n == 0 then 1.0 else 0.5 * HalfPow(n - 1)
  }

  lemma {:induction false} HalfPowInverts(n: nat)
    ensures HalfPow(n) * Pow2(n) as real == 1.0
  {
    if n > 0 {
      HalfPowInverts(n - 1);
      assert HalfPow(n) * Pow2(n) as real == (0.5 * 2.0) * (HalfPow(n - 1) * Pow2(n - 1) as real);
    }
  }

  method McNemarExact(b: nat, c: nat) returns (p: real)
    ensures p == PValue(b, c)
  {
    var n := b + c;
    if n == 0 {
      NoPairs();
      return 1.0;
    }
    var k := Min(b, c);
    var tail := 0.0;
    for i := 0 to k + 1
      invariant tail == RowSum(n, i) as real
    {
      var coeff := BinomCoeff(n, i);
      tail := tail + coeff;
    }
    p := 2.0 * tail * HalfPow(n);
    DoubledAndHalved(p, RowSum(n, k + 1), n);
    ClampedTail(p, b, c);
    if p > 1.0 {
      p := 1.0;
    }
  }

  lemma Ratio(s: nat, t: nat, w: nat)
    requires w > 0
    ensures s < t ==> s as real / w as real < t as real / w as real
    ensures w as real / w as real == 1.0
    ensures 0 < s ==> 0.0 < s as real / w as real
  {
    var x, y, z := s as real, t as real, w as real;
    assert (x / z) * z == x && (y / z) * z == y && (z / z) * z == z;
  }

  lemma NoPairs()
    ensures PValue(0, 0) == 1.0
  {
    assert Lopsided(0, 0, 1) == Lopsided(0, 0, 0) + Choose(0, 0);
  }

  lemma DoubledAndHalved(p: real, r: nat, n: nat)
    requires p == 2.0 * r as real * HalfPow(n)
    ensures p == (2 * r) as real / Pow2(n) as real
  {
    HalfPowInverts(n);
  }

  lemma ClampedTail(p: real, b: nat, c: nat)
    requires p == (2 * RowSum(b + c, Min(b, c) + 1)) as real / Pow2(b + c) as real
    ensures PValue(b, c) == if p > 1.0 then 1.0 else p
  {
    ClampBites(b, c);
    DoubledTail(b, c);
    ClampRatio(2 * RowSum(b + c, Min(b, c) + 1), Pow2(b + c), Lopsided(b + c, Abs(b - c), b + c + 1));
  }

  lemma ClampRatio(t: nat, w: nat, l: nat)
    requires w > 0 && if t > w then l == w else l == t
    ensures var p := t as real / w as real; l as real / w as real == if p > 1.0 then 1.0 else p
  {
    Ratio(t, w, w);
    Ratio(w, t, w);
  }

  // ---- What a p-value is --------------------------------------------------

  lemma PValueIsProbability(b: nat, c: nat)
    ensures 0.0 < PValue(b, c) <= 1.0
    ensures PValue(b, c) == PValue(c, b)
    ensures PValue(b, c) == 1.0 <==> Lopsided(b + c, Abs(b - c), b + c + 1) == Pow2(b + c)
  {
    var t, w := Lopsided(b + c, Abs(b - c), b + c + 1), Pow2(b + c);
    LopsidedAtMostAll(b + c, Abs(b - c));
    LopsidedKeepsLast(b, c);
    Ratio(t, w, w);
  }

  // The most lopsided outcome of all is always counted.
  lemma LopsidedKeepsLast(b: nat, c: nat)
    ensures Lopsided(b + c, Abs(b - c), b + c + 1) > 0
  {
    var n := b + c;
    ChooseEdges(n, n);
    assert Abs(2 * n - n) >= Abs(b - c);
  }

  lemma {:induction false} LopsidedStrict(n: nat, k: nat, e: nat, m: nat)
    requires k <= n && Abs(2 * k - n) < e && k < m
    ensures Lopsided(n, e, m) < Lopsided(n, Abs(2 * k - n), m)
  {
    if k == m - 1 {
      LopsidedAntitone(n, Abs(2 * k - n), e, m - 1);
      ChooseEdges(n, k);
    } else {
      LopsidedStrict(n, k, e, m - 1);
    }
  }

  // With as many discordant pairs, a more lopsided split is strictly more
  // significant.
  lemma MoreLopsidedIsMoreSignificant(b: nat, c: nat, b': nat, c': nat)
    requires b + c == b' + c' && Abs(b - c) < Abs(b' - c')
    ensures PValue(b', c') < PValue(b, c)
  {
    var n := b + c;
    LopsidedStrict(n, b, Abs(b' - c'), n + 1);
    assert Abs(2 * b - n) == Abs(b - c);
    Ratio(Lopsided(n, Abs(b' - c'), n + 1), Lopsided(n, Abs(b - c), n + 1), Pow2(n));
  }
}
