/** Congruences, Fermat's little theorem and what they need. */
module ModArith {

  /** `m` divides `a`. */
  predicate Divides(m: int, a: int)
    requires m > 0
  {
    a % m == 0
  }

  predicate Cong(a: int, b: int, m: int)
    requires m > 0
  {
    Divides(m, a - b)
  }

  predicate Prime(p: int) {
    p >= 2 && forall d :: 2 <= d < p ==> p % d != 0
  }

  function Pow(b: int, e: nat): int {
    if e == 0 then 1 else b * Pow(b, e - 1)
  }

  // ---------------------------------------------------------------------------
  // Divisibility
  // ---------------------------------------------------------------------------

  lemma MultipleDivides(m: int, k: int)
    requires m > 0
    ensures Divides(m, m * k)
  {
    RemainderUnique(m * k, m, k, 0);
  }

  lemma RemainderUnique(a: int, m: int, q: int, r: int)
    requires m > 0 && 0 <= r < m && a == m * q + r
    ensures a / m == q && a % m == r
  {
    var q', r' := a / m, a % m;
    assert m * (q' - q) == r - r';
    assert -m < m * (q' - q) < m;
    SmallMultiple(m, q' - q);
  }

  lemma SmallMultiple(m: int, d: int)
    requires m > 0 && -m < m * d < m
    ensures d == 0
  {
    if d >= 1 {
      ProductAtLeast(m, d, 1);
    } else if d <= -1 {
      ProductAtLeast(m, -1, d);
    }
  }

  lemma ProductAtLeast(m: int, a: int, b: int)
    requires m > 0 && a >= b
    ensures m * a >= m * b
  {
  }

  lemma Quotient(m: int, a: int)
    requires m > 0 && Divides(m, a)
    ensures a == m * (a / m)
  {
  }

  lemma DividesSum(m: int, a: int, b: int)
    requires m > 0 && Divides(m, a) && Divides(m, b)
    ensures Divides(m, a + b) && Divides(m, a - b)
  {
    Quotient(m, a);
    Quotient(m, b);
    MultipleDivides(m, a / m + b / m);
    MultipleDivides(m, a / m - b / m);
    assert m * (a / m + b / m) == a + b;
    assert m * (a / m - b / m) == a - b;
  }

  lemma DividesProduct(m: int, a: int, k: int)
    requires m > 0 && Divides(m, a)
    ensures Divides(m, a * k) && Divides(m, k * a)
  {
    Quotient(m, a);
    MultipleDivides(m, a / m * k);
    assert m * (a / m * k) == m * (a / m) * k;
  }

  /** A prime dividing a product of a smaller positive number divides the other factor. */
  lemma {:induction false} PrimeDividesCofactor(p: int, k: int, c: int)
    requires Prime(p) && 0 < k < p && Divides(p, k * c)
    ensures Divides(p, c)
    decreases k
  {
    if k > 1 {
      var q, r := p / k, p % k;
      assert p % k != 0;
      DividesProduct(p, k * c, q);
      MultipleDivides(p, c);
      DividesSum(p, p * c, k * c * q);
      calc {
        p * c - k * c * q;
        { assert p == k * q + r; }
        (k * q + r) * c - k * c * q;
        { assert (k * q + r) * c == k * q * c + r * c; assert k * q * c == k * c * q; }
        r * c;
      }
      PrimeDividesCofactor(p, r, c);
    }
  }

  lemma EuclidLemma(p: int, a: int, b: int)
    requires Prime(p) && Divides(p, a * b)
    ensures Divides(p, a) || Divides(p, b)
  {
    if a % p != 0 {
      DropMultiple(p, a / p, a % p, a, b);
      PrimeDividesCofactor(p, a % p, b);
    }
  }

  lemma DropMultiple(p: int, q: int, k: int, a: int, b: int)
    requires p > 0 && a == p * q + k && Divides(p, a * b)
    ensures Divides(p, k * b)
  {
    MultipleDivides(p, q * b);
    DividesSum(p, a * b, p * (q * b));
    assert (p * q + k) * b == p * q * b + k * b;
    Associate(p, q, b);
  }

  // ---------------------------------------------------------------------------
  // Congruence
  // ---------------------------------------------------------------------------

  lemma CongTrans(a: int, b: int, c: int, m: int)
    requires m > 0 && Cong(a, b, m) && Cong(b, c, m)
    ensures Cong(a, c, m)
  {
    DividesSum(m, a - b, b - c);
  }

  lemma CongSym(a: int, b: int, m: int)
    requires m > 0 && Cong(a, b, m)
    ensures Cong(b, a, m)
  {
    DividesSum(m, 0, a - b);
  }

  lemma CongMod(a: int, m: int)
    requires m > 0
    ensures Cong(a % m, a, m) && Cong(a, a % m, m)
  {
    MultipleDivides(m, a / m);
    assert a - a % m == m * (a / m);
    CongSym(a, a % m, m);
  }

  lemma CongAdd(a: int, b: int, c: int, d: int, m: int)
    requires m > 0 && Cong(a, b, m) && Cong(c, d, m)
    ensures Cong(a + c, b + d, m) && Cong(a - c, b - d, m)
  {
    DividesSum(m, a - b, c - d);
  }

  lemma CongMul(a: int, b: int, c: int, d: int, m: int)
    requires m > 0 && Cong(a, b, m) && Cong(c, d, m)
    ensures Cong(a * c, b * d, m)
  {
    DividesProduct(m, a - b, c);
    DividesProduct(m, c - d, b);
    DividesSum(m, (a - b) * c, (c - d) * b);
    assert (a - b) * c + (c - d) * b == a * c - b * d;
  }

  lemma CongPow(a: int, b: int, e: nat, m: int)
    requires m > 0 && Cong(a, b, m)
    ensures Cong(Pow(a, e), Pow(b, e), m)
  {
    if e > 0 {
      CongPow(a, b, e - 1, m);
      CongMul(a, b, Pow(a, e - 1), Pow(b, e - 1), m);
    }
  }

  lemma PowAdd(b: int, e: nat, f: nat)
    ensures Pow(b, e + f) == Pow(b, e) * Pow(b, f)
  {
    if e > 0 {
      PowAdd(b, e - 1, f);
      assert b * (Pow(b, e - 1) * Pow(b, f)) == b * Pow(b, e - 1) * Pow(b, f);
    }
  }

  lemma PowMul(b: int, e: nat, f: nat)
    ensures Pow(b, e * f) == Pow(Pow(b, e), f)
  {
    if f == 0 {
      assert e * f == 0;
    } else {
      PowMul(b, e, f - 1);
      OneMore(e, f);
      PowAdd(b, e, e * (f - 1));
    }
  }

  lemma OneMore(e: nat, f: nat)
    requires f > 0
    ensures e * f == e + e * (f - 1) && e * (f - 1) >= 0
  {
  }

  lemma Interleave(a: int, b: int, x: int, y: int)
    ensures a * b * (x * y) == (a * x) * (b * y)
  {
  }

  // ---------------------------------------------------------------------------
  // Fermat's little theorem, by the binomial expansion of (a + 1)^p
  // ---------------------------------------------------------------------------

  function Choose(n: nat, k: nat): nat {
    if k == 0 then 1 else if n == 0 then 0 else Choose(n - 1, k - 1) + Choose(n - 1, k)
  }

  lemma ChooseTooMany(n: nat, k: nat)
    requires k > n
    ensures Choose(n, k) == 0
  {
  }

  lemma {:induction false} ChooseAbsorbs(n: nat, k: nat)
    requires n > 0 && k > 0
    ensures k * Choose(n, k) == n * Choose(n - 1, k - 1)
    decreases n
  {
    if n == 1 {
      ChooseTooMany(0, k);
      if k > 1 {
        ChooseTooMany(0, k - 1);
      }
    } else {
      ChooseAbsorbs(n - 1, k);
      var low := 0;
      if k > 1 {
        ChooseAbsorbs(n - 1, k - 1);
        low := Choose(n - 2, k - 2);
      }
      AbsorbStep(n, k, Choose(n - 1, k - 1), Choose(n - 1, k), low, Choose(n - 2, k - 1));
    }
  }

  lemma AbsorbStep(n: int, k: int, c: int, d: int, low: int, high: int)
    requires (k - 1) * c == (n - 1) * low && k * d == (n - 1) * high && c == low + high
    ensures k * (c + d) == n * c
  {
    assert (n - 1) * low + (n - 1) * high == (n - 1) * (low + high);
    assert k * (c + d) == (k - 1) * c + c + k * d;
  }

  /** The expansion of (1 + a)^n up to the term of degree `k`. */
  function Expansion(n: nat, a: int, k: nat): int {
    Choose(n, k) * Pow(a, k) + if k == 0 then 0 else Expansion(n, a, k - 1)
  }

  lemma {:induction false} ExpansionStep(n: nat, a: int, k: nat)
    ensures Expansion(n + 1, a, k) == Expansion(n, a, k) + if k == 0 then 0 else a * Expansion(n, a, k - 1)
    decreases k
  {
    if k > 0 {
      ExpansionStep(n, a, k - 1);
      var below := if k == 1 then 0 else Expansion(n, a, k - 2);
      ExpandTerm(Choose(n, k - 1), Choose(n, k), a, Pow(a, k - 1), below);
    }
  }

  lemma ExpandTerm(c: int, d: int, a: int, x: int, below: int)
    ensures (c + d) * (a * x) + a * below == d * (a * x) + a * (c * x + below)
  {
    assert a * (c * x + below) == a * (c * x) + a * below;
    assert (c + d) * (a * x) == c * (a * x) + d * (a * x);
  }

  lemma {:induction false} BinomialTheorem(n: nat, a: int)
    ensures Expansion(n, a, n) == Pow(1 + a, n)
    decreases n
  {
    if n > 0 {
      BinomialTheorem(n - 1, a);
      ExpansionStep(n - 1, a, n);
      TopTermVanishes(n - 1, a);
      OnePlus(a, Pow(1 + a, n - 1));
    }
  }

  lemma OnePlus(a: int, x: int)
    ensures (1 + a) * x == x + a * x
  {
  }

  lemma {:induction false} TopTermVanishes(n: nat, a: int)
    ensures Expansion(n, a, n + 1) == Expansion(n, a, n)
  {
    ChooseTooMany(n, n + 1);
  }

  lemma {:induction false} InnerTermsVanish(p: int, a: int, k: nat)
    requires Prime(p) && k < p
    ensures Cong(Expansion(p, a, k), 1, p)
    decreases k
  {
    if k > 0 {
      InnerTermsVanish(p, a, k - 1);
      ChooseAbsorbs(p, k);
      MultipleDivides(p, Choose(p - 1, k - 1));
      PrimeDividesCofactor(p, k, Choose(p, k));
      DividesProduct(p, Choose(p, k), Pow(a, k));
      DividesSum(p, Expansion(p, a, k - 1) - 1, Choose(p, k) * Pow(a, k));
    }
  }

  lemma ChooseAll(n: nat)
    ensures Choose(n, n) == 1
  {
    if n > 0 {
      ChooseTooMany(n - 1, n);
    }
  }

  lemma {:induction false} PowerIsItself(p: int, a: nat)
    requires Prime(p)
    ensures Cong(Pow(a, p), a, p)
    decreases a
  {
    if a == 0 {
    } else {
      PowerIsItself(p, a - 1);
      BinomialTheorem(p, a - 1);
      InnerTermsVanish(p, a - 1, p - 1);
      ChooseAll(p);
      CongAdd(Expansion(p, a - 1, p - 1), 1, Pow(a - 1, p), a - 1, p);
    }
  }

  /** Fermat's little theorem. */
  lemma Fermat(p: int, a: int)
    requires Prime(p) && !Divides(p, a)
    ensures Cong(Pow(a, p - 1), 1, p)
  {
    var r := a % p;
    PowerIsItself(p, r);
    var x := Pow(r, p - 1);
    assert Pow(r, p) == r * x;
    hide Pow;
    assert r * x - r == r * (x - 1);
    PrimeDividesCofactor(p, r, x - 1);
    CongMod(a, p);
    CongPow(a, r, p - 1, p);
    CongTrans(Pow(a, p - 1), x, 1, p);
  }

  // ---------------------------------------------------------------------------
  // Two is not a square modulo a prime that leaves 5 modulo 8 (Gauss's lemma for 2)
  // ---------------------------------------------------------------------------

  function Factorial(n: nat): int {
    if n == 0 then 1 else n * Factorial(n - 1)
  }

  /** 2 * 4 * ... * 2n. */
  function Evens(n: nat): int {
    if n == 0 then 1 else 2 * n * Evens(n - 1)
  }

  /** 1 * 3 * ... * (2n - 1). */
  function Odds(n: nat): int {
    if n == 0 then 1 else (2 * n - 1) * Odds(n - 1)
  }

  function Sign(n: nat): int {
    if n % 2 == 0 then 1 else -1
  }

  lemma EvensAsPower(n: nat)
    ensures Evens(n) == Pow(2, n) * Factorial(n)
  {
    if n > 0 {
      EvensAsPower(n - 1);
      Interleave(2, n, Pow(2, n - 1), Factorial(n - 1));
    }
  }

  lemma EvensAndOdds(n: nat)
    ensures Evens(n) * Odds(n) == Factorial(2 * n)
  {
    if n > 0 {
      EvensAndOdds(n - 1);
      Interleave(2 * n, 2 * n - 1, Evens(n - 1), Odds(n - 1));
      assert Factorial(2 * n) == 2 * n * ((2 * n - 1) * Factorial(2 * n - 2));
      Associate(2 * n, 2 * n - 1, Factorial(2 * n - 2));
    }
  }

  lemma Associate(a: int, b: int, c: int)
    ensures a * (b * c) == a * b * c
  {
  }

  /** Each even factor past the middle is minus an odd one: 2(h + k) = p - (2(h - k) + 1). */
  lemma {:induction false} UpperEvensAreOdds(p: int, h: nat, k: nat)
    requires p == 4 * h + 1 && k <= h
    ensures Cong(Evens(h + k) * Odds(h - k), Sign(k) * (Evens(h) * Odds(h)), p)
    decreases k
  {
    if k == 0 {
      MultipleDivides(p, 0);
    } else {
      UpperEvensAreOdds(p, h, k - 1);
      FactorsAround(p, h, k);
      var odd, e, o, whole := 2 * (h - k) + 1, Evens(h + k - 1), Odds(h - k), Evens(h) * Odds(h);
      hide Evens, Odds, Sign, Cong;
      MirrorFactor(p, odd, e, o, Sign(k - 1), whole);
    }
  }

  lemma {:induction false} FactorsAround(p: int, h: nat, k: nat)
    requires p == 4 * h + 1 && 0 < k <= h
    ensures Evens(h + k) == (p - (2 * (h - k) + 1)) * Evens(h + k - 1)
    ensures Odds(h - k + 1) == (2 * (h - k) + 1) * Odds(h - k)
    ensures Sign(k) == -Sign(k - 1)
  {
    assert 2 * (h + k) == p - (2 * (h - k) + 1);
    assert 2 * (h - k + 1) - 1 == 2 * (h - k) + 1;
  }

  lemma MirrorFactor(p: int, odd: int, e: int, o: int, sign: int, whole: int)
    requires p > 0 && Cong(e * (odd * o), sign * whole, p)
    ensures Cong((p - odd) * e * o, -sign * whole, p)
  {
    SwapEvenForOdd(p, odd, e, o);
    NegateCong(e * (odd * o), sign, whole, p);
    hide Cong;
    CongTrans((p - odd) * e * o, -(e * (odd * o)), -sign * whole, p);
  }

  lemma NegateCong(a: int, sign: int, w: int, p: int)
    requires p > 0 && Cong(a, sign * w, p)
    ensures Cong(-a, -sign * w, p)
  {
    DividesSum(p, 0, a - sign * w);
    assert -(sign * w) == -sign * w;
  }

  lemma SwapEvenForOdd(p: int, odd: int, e: int, o: int)
    requires p > 0
    ensures Cong((p - odd) * e * o, -(e * (odd * o)), p)
  {
    MultipleDivides(p, e * o);
    SwapAlgebra(p, odd, e, o);
  }

  lemma SwapAlgebra(p: int, odd: int, e: int, o: int)
    ensures (p - odd) * e * o - -(e * (odd * o)) == p * (e * o)
  {
    Associate(p, e, o);
    Associate(e, odd, o);
    assert (p - odd) * e * o == p * e * o - odd * e * o;
    assert odd * e == e * odd;
  }

  lemma FactorialIsUnit(p: int, n: nat)
    requires Prime(p) && n < p
    ensures !Divides(p, Factorial(n))
  {
    if n > 0 {
      FactorialIsUnit(p, n - 1);
      if Divides(p, Factorial(n)) {
        PrimeDividesCofactor(p, n, Factorial(n - 1));
        assert false;
      }
    } else {
      RemainderUnique(1, p, 0, 1);
    }
  }

  lemma CancelFactor(p: int, t: int, f: int)
    requires Prime(p) && Cong(t * f, -f, p) && !Divides(p, f)
    ensures Cong(t, -1, p)
  {
    assert t * f - -f == (t + 1) * f;
    EuclidLemma(p, t + 1, f);
  }

  lemma UpperHalfIsOdds(p: int, h: nat)
    requires p == 4 * h + 1 && h % 2 == 1
    ensures Cong(Pow(2, 2 * h) * Factorial(2 * h), -Factorial(2 * h), p)
  {
    UpperEvensAreOdds(p, h, h);
    EvensAsPower(2 * h);
    EvensAndOdds(h);
    hide Pow, Factorial, Evens;
    assert Odds(h - h) == 1;
  }

  lemma TwoIsNonResidue(p: int)
    requires Prime(p) && p % 8 == 5
    ensures Cong(Pow(2, (p - 1) / 2), -1, p)
  {
    hide Pow, Factorial;
    var h: nat := (p - 1) / 4;
    assert p == 4 * h + 1 && h % 2 == 1 && (p - 1) / 2 == 2 * h;
    UpperHalfIsOdds(p, h);
    FactorialIsUnit(p, 2 * h);
    CancelFactor(p, Pow(2, 2 * h), Factorial(2 * h));
  }
}
