/** `_on_curve` decides exactly whether 32 bytes name the y-coordinate of a point on the curve. */
module Curve {
  import opened Prelude
  import opened ModArith

  // ---------------------------------------------------------------------------
  // The test over any suitable field
  // ---------------------------------------------------------------------------

  /** What the test needs of its prime: a square root of -1 to correct the candidate root by. */
  predicate Suitable(p: int) {
    Prime(p) && p >= 5 && p % 8 == 5 && Cong(Pow(2, (p - 1) / 2), -1, p)
  }

  /** x is a square root of `xx`, or `xx` has none. */
  function Candidate(xx: nat, p: int): (x: int)
    requires p >= 5
  {
    var x := Pow(xx, (p + 3) / 8) % p;
    if !Cong(x * x, xx, p) then x * (Pow(2, (p - 1) / 4) % p) % p else x
  }

  /** The v of the source. */
  function Denominator(y: nat, d: int, p: int): nat
    requires p >= 5
  {
    (d * (y * y % p) + 1) % p
  }

  /** The u / v of the source, dividing by a power. */
  function Ratio(y: nat, d: int, p: int): nat
    requires p >= 5
  {
    ((y * y % p - 1) % p) * (Pow(Denominator(y, d, p), p - 2) % p) % p
  }

  /** The decision for a reduced y-coordinate, on the curve with parameter `d`. */
  function HasPoint(y: nat, d: int, p: int): bool
    requires p >= 5
  {
    if Denominator(y, d, p) == 0 then false else
      var xx := Ratio(y, d, p);
      var x := Candidate(xx, p);
      Cong(x * x, xx, p)
  }

  /** The curve equation -x^2 + y^2 = 1 + d x^2 y^2. */
  predicate OnEdwards(x: int, y: int, d: int, p: int)
    requires p > 0
  {
    Cong(y * y - x * x, 1 + d * (x * x) * (y * y), p)
  }

  // ---------------------------------------------------------------------------
  // Square roots
  // ---------------------------------------------------------------------------

  lemma RootOfCandidate(xx: nat, p: int)
    requires Suitable(p)
    ensures var x0 := Pow(xx, (p + 3) / 8);
            Cong(x0 * x0, Pow(xx, (p - 1) / 4) * xx, p)
  {
    var k := (p - 5) / 8;
    assert (p + 3) / 8 == k + 1 && (p - 1) / 4 == 2 * k + 1;
    PowAdd(xx, k + 1, k + 1);
    assert Pow(xx, 2 * k + 2) == Pow(xx, 2 * k + 1) * xx;
    MultipleDivides(p, 0);
  }

  lemma MinusOneRoot(p: int)
    requires Suitable(p)
    ensures var i := Pow(2, (p - 1) / 4); Cong(i * i, -1, p)
  {
    hide Pow, Prime;
    var h := (p - 1) / 4;
    PowAdd(2, h, h);
    assert h + h == (p - 1) / 2;
  }

  lemma SquareCong(a: int, b: int, p: int)
    requires p > 0 && Cong(a, b, p)
    ensures Cong(a * a, b * b, p)
  {
    CongMul(a, b, a, b, p);
  }

  /** The two candidates square to t*xx and -t*xx, where t is xx to the quarter power. */
  lemma CandidateSquares(xx: nat, p: int)
    requires Suitable(p)
    ensures var t := Pow(xx, (p - 1) / 4);
            var x := Pow(xx, (p + 3) / 8) % p;
            var x' := x * (Pow(2, (p - 1) / 4) % p) % p;
            Cong(x * x, t * xx, p) && Cong(x' * x', -(t * xx), p)
  {
    var t := Pow(xx, (p - 1) / 4);
    var x0, i0 := Pow(xx, (p + 3) / 8), Pow(2, (p - 1) / 4);
    var x, i := x0 % p, i0 % p;
    hide Pow;
    RootOfCandidate(xx, p);
    MinusOneRoot(p);
    CongMod(x0, p);
    SquareCong(x, x0, p);
    CongTrans(x * x, x0 * x0, t * xx, p);
    CongMod(i0, p);
    SquareCong(i, i0, p);
    CongTrans(i * i, i0 * i0, -1, p);
    CongMul(x * x, t * xx, i * i, -1, p);
    SquareOfProduct(x, i);
    CongMod(x * i, p);
    SquareCong(x * i % p, x * i, p);
    CongTrans((x * i % p) * (x * i % p), (x * i) * (x * i), t * xx * -1, p);
  }

  lemma SquareOfProduct(x: int, i: int)
    ensures (x * i) * (x * i) == x * x * (i * i)
  {
  }

  /** If `xx` is a square then xx to the quarter power, times xx, is xx or -xx. */
  lemma SquareHasUnitQuarter(xx: nat, r: int, p: int)
    requires Suitable(p) && Cong(r * r, xx, p)
    ensures var t := Pow(xx, (p - 1) / 4); Cong(t * xx, xx, p) || Cong(-(t * xx), xx, p)
  {
    hide Pow, Prime;
    var t := Pow(xx, (p - 1) / 4);
    if Divides(p, r) {
      DividesProduct(p, r, r);
      ZeroTimes(t, xx, r * r, p);
    } else {
      QuarterSquaredIsOne(xx, r, p);
      UnitTimes(t, xx, p);
    }
  }

  lemma ZeroTimes(t: int, xx: int, s: int, p: int)
    requires p > 0 && Divides(p, s) && Cong(s, xx, p)
    ensures Cong(t * xx, xx, p)
  {
    DividesSum(p, s, s - xx);
    DividesProduct(p, xx, t);
    DividesSum(p, t * xx, xx);
  }

  lemma UnitTimes(t: int, xx: int, p: int)
    requires Prime(p) && Cong(t * t, 1, p)
    ensures Cong(t * xx, xx, p) || Cong(-(t * xx), xx, p)
  {
    assert (t - 1) * (t + 1) == t * t - 1;
    EuclidLemma(p, t - 1, t + 1);
    if Divides(p, t - 1) {
      DividesProduct(p, t - 1, xx);
      assert (t - 1) * xx == t * xx - xx;
    } else {
      DividesProduct(p, t + 1, xx);
      assert (t + 1) * xx == t * xx + xx;
      DividesSum(p, 0, t * xx + xx);
    }
  }

  lemma QuarterSquaredIsOne(xx: nat, r: int, p: int)
    requires Suitable(p) && Cong(r * r, xx, p) && !Divides(p, r)
    ensures var t := Pow(xx, (p - 1) / 4); Cong(t * t, 1, p)
  {
    hide Pow, Prime;
    var h, k := (p - 1) / 4, (p - 1) / 2;
    assert h + h == k && 2 * k == p - 1;
    PowAdd(xx, h, h);
    CongSym(r * r, xx, p);
    CongPow(xx, r * r, k, p);
    PowTwo(r);
    PowMul(r, 2, k);
    Fermat(p, r);
    hide Cong, Divides;
    CongTrans(Pow(xx, k), Pow(r, p - 1), 1, p);
  }

  lemma PowTwo(r: int)
    ensures Pow(r, 2) == r * r
  {
    assert Pow(r, 1) == r * Pow(r, 0);
  }

  /** The candidate squares to `xx` exactly when some number does. */
  lemma CandidateExact(xx: nat, p: int)
    requires Suitable(p)
    ensures var x := Candidate(xx, p);
            Cong(x * x, xx, p) <==> exists r: int :: Cong(r * r, xx, p)
  {
    var x := Candidate(xx, p);
    hide Candidate;
    if r: int :| Cong(r * r, xx, p) {
      SquareGivesCandidate(xx, r, p);
    }
  }

  lemma SquareGivesCandidate(xx: nat, r: int, p: int)
    requires Suitable(p) && Cong(r * r, xx, p)
    ensures var x := Candidate(xx, p); Cong(x * x, xx, p)
  {
    hide Pow, Prime, Divides;
    var t := Pow(xx, (p - 1) / 4);
    SquareHasUnitQuarter(xx, r, p);
    CandidateSquares(xx, p);
    var first := Pow(xx, (p + 3) / 8) % p;
    var second := first * (Pow(2, (p - 1) / 4) % p) % p;
    hide Cong;
    if Cong(t * xx, xx, p) {
      CongTrans(first * first, t * xx, xx, p);
    } else {
      CongTrans(second * second, -(t * xx), xx, p);
    }
  }

  // ---------------------------------------------------------------------------
  // The decision
  // ---------------------------------------------------------------------------

  /** Modulo p the curve equation asks for x^2 = u / v. */
  lemma EdwardsAsRatio(x: int, y: int, d: int, p: int)
    requires p > 0
    ensures var yy := y * y % p;
            OnEdwards(x, y, d, p) <==> Cong((d * yy + 1) % p * (x * x), (yy - 1) % p, p)
  {
    var yy, s := y * y % p, x * x;
    var u, v := (yy - 1) % p, (d * yy + 1) % p;
    CongMod(y * y, p);
    CongMod(yy - 1, p);
    CongMod(d * yy + 1, p);
    CongMod(0, p);
    CongMul(d, d, yy, y * y, p);
    CongAdd(d * yy, d * (y * y), 1, 1, p);
    CongTrans(v, d * yy + 1, d * (y * y) + 1, p);
    CongMul(v, d * (y * y) + 1, s, s, p);
    CongAdd(yy, y * y, 1, 1, p);
    CongTrans(u, yy - 1, y * y - 1, p);
    RatioAlgebra(d, s, y * y);
    CongAdd(v * s, (d * (y * y) + 1) * s, u, y * y - 1, p);
    if OnEdwards(x, y, d, p) {
      CongSym(y * y - s, 1 + d * s * (y * y), p);
      assert Divides(p, (d * (y * y) + 1) * s - (y * y - 1));
      DividesSum(p, v * s - u - ((d * (y * y) + 1) * s - (y * y - 1)), (d * (y * y) + 1) * s - (y * y - 1));
    }
    if Cong(v * s, u, p) {
      DividesSum(p, v * s - u, v * s - u - ((d * (y * y) + 1) * s - (y * y - 1)));
      CongSym(1 + d * s * (y * y), y * y - s, p);
    }
  }

  lemma RatioAlgebra(d: int, s: int, q: int)
    ensures (d * q + 1) * s - (q - 1) == 1 + d * s * q - (q - s)
  {
    assert (d * q + 1) * s == d * q * s + s;
    assert d * q * s == d * s * q;
  }

  /** Modulo a prime a power divides: v to the p-2 is 1 / v. */
  lemma InverseByPower(v: int, p: int)
    requires Prime(p) && !Divides(p, v)
    ensures Cong(v * (Pow(v, p - 2) % p), 1, p)
  {
    Fermat(p, v);
    var x := Pow(v, p - 2);
    assert Pow(v, p - 1) == v * x;
    hide Pow, Prime, Divides;
    CongMod(x, p);
    CongRefl(v, p);
    CongMul(v, v, x % p, x, p);
    CongTrans(v * (x % p), v * x, 1, p);
  }

  /** With v invertible, squares equal to u/v are exactly the solutions of v x^2 = u. */
  lemma RatioSquares(u: int, v: int, p: int, r: int)
    requires Prime(p) && !Divides(p, v)
    ensures var xx := u * (Pow(v, p - 2) % p) % p;
            Cong(r * r, xx, p) <==> Cong(v * (r * r), u, p)
  {
    var w := Pow(v, p - 2) % p;
    var xx := u * w % p;
    InverseByPower(v, p);
    hide Pow;
    MultipleDivides(p, 0);
    CongMod(u * w, p);
    if Cong(r * r, xx, p) {
      CongTrans(r * r, xx, u * w, p);
      CongMul(v, v, r * r, u * w, p);
      CongMul(v * w, 1, u, u, p);
      Rotate(v, u, w);
      CongTrans(v * (r * r), v * w * u, u, p);
    }
    if Cong(v * (r * r), u, p) {
      CongMul(v * (r * r), u, w, w, p);
      CongTrans(v * (r * r) * w, u * w, xx, p);
      CongMul(v * w, 1, r * r, r * r, p);
      Rotate(v, r * r, w);
      CongSym(v * w * (r * r), r * r, p);
      CongTrans(r * r, v * w * (r * r), xx, p);
    }
  }

  lemma Rotate(v: int, a: int, w: int)
    ensures v * (a * w) == v * w * a && v * a * w == v * w * a
  {
  }

  /** A vanishing denominator leaves no point, unless d is -1. */
  lemma NoPointWithoutDenominator(x: int, y: int, d: int, p: int)
    requires Prime(p) && !Divides(p, d + 1)
    requires (d * (y * y % p) + 1) % p == 0
    ensures !OnEdwards(x, y, d, p)
  {
    var yy := y * y % p;
    EdwardsAsRatio(x, y, d, p);
    assert (d * yy + 1) % p * (x * x) == 0;
    if OnEdwards(x, y, d, p) {
      CongSym(0, (yy - 1) % p, p);
      CongMod(yy - 1, p);
      CongTrans(yy - 1, (yy - 1) % p, 0, p);
      DividesProduct(p, yy - 1, d);
      assert d * (yy - 1) == d * yy - d;
      DividesSum(p, d * yy + 1, d * (yy - 1));
      assert false;
    }
  }

  lemma HasPointIsSquare(x: int, y: nat, d: int, p: int)
    requires Prime(p) && p >= 5 && Denominator(y, d, p) != 0
    ensures Cong(x * x, Ratio(y, d, p), p) <==> OnEdwards(x, y, d, p)
  {
    hide Pow, OnEdwards;
    var yy := y * y % p;
    EdwardsAsRatio(x, y, d, p);
    RemainderUnique((d * yy + 1) % p, p, 0, (d * yy + 1) % p);
    RatioSquares((yy - 1) % p, (d * yy + 1) % p, p, x);
  }

  /** The test answers yes exactly when some x puts (x, y) on the curve. */
  lemma HasPointExact(y: nat, d: int, p: int)
    requires Suitable(p) && !Divides(p, d + 1)
    ensures HasPoint(y, d, p) <==> exists x: int :: OnEdwards(x, y, d, p)
  {
    if Denominator(y, d, p) == 0 {
      forall x: int
        ensures !OnEdwards(x, y, d, p)
      {
        NoPointWithoutDenominator(x, y, d, p);
      }
    } else {
      hide Pow, Prime, Candidate, OnEdwards, Cong, Denominator, Ratio;
      CandidateExact(Ratio(y, d, p), p);
      forall x: int
        ensures Cong(x * x, Ratio(y, d, p), p) <==> OnEdwards(x, y, d, p)
      {
        HasPointIsSquare(x, y, d, p);
      }
    }
  }

  // ---------------------------------------------------------------------------
  // The field and the curve of the source
  // ---------------------------------------------------------------------------

  const P: int := 0x7fffffffffffffffffffffffffffffffffffffffffffffffffffffffffffffed

  function D(): int {
    -121665 * (Pow(121666, P - 2) % P) % P
  }

  /** Modulo a prime that leaves 5 modulo 8 the correction factor is a root of -1. */
  lemma PrimeIsSuitable(p: int)
    requires Prime(p) && p % 8 == 5
    ensures Suitable(p)
  {
    TwoIsNonResidue(p);
  }

  /** 121666 d = -121665, so d + 1 is the inverse of 121666 and not zero. */
  lemma DIsNotMinusOne()
    requires Prime(P)
    ensures !Divides(P, D() + 1)
  {
    var w := Pow(121666, P - 2) % P;
    RemainderUnique(121666, P, 0, 121666);
    InverseByPower(121666, P);
    hide Pow, Prime, Cong, Divides;
    CongMod(-121665 * w, P);
    ShiftedInverse(P, D(), w, 121665);
  }

  /** If d is -b / (b + 1) then d + 1 is 1 / (b + 1), which is not zero. */
  lemma ShiftedInverse(p: int, d: int, w: int, b: int)
    requires p > 1 && Cong(d, -b * w, p) && Cong((b + 1) * w, 1, p)
    ensures !Divides(p, d + 1)
  {
    var a := b + 1;
    RemainderUnique(1, p, 0, 1);
    assert !Divides(p, 1);
    assert Cong(a * d + a, 1, p) by {
      CongMul(a, a, d, -b * w, p);
      CongMul(a * w, 1, -b, -b, p);
      hide Cong;
      Reorder(a, b, w);
      CongTrans(a * d, a * (-b * w), -b, p);
      RemainderUnique(0, p, 0, 0);
      CongRefl(a, p);
      CongAdd(a * d, -b, a, a, p);
    }
    if Divides(p, d + 1) {
      DividesProduct(p, d + 1, a);
      hide Divides;
      Factor(d, a);
      DividesSum(p, (d + 1) * a, a * d + a - 1);
    }
  }

  lemma Reorder(a: int, b: int, w: int)
    ensures a * (-b * w) == a * w * -b
  {
    Associate(a, -b, w);
    assert a * -b * w == a * w * -b;
  }

  lemma Factor(d: int, a: int)
    ensures (d + 1) * a == a * d + a
  {
  }

  lemma CongRefl(a: int, p: int)
    requires p > 0
    ensures Cong(a, a, p)
  {
    RemainderUnique(0, p, 0, 0);
  }

  /** The y-coordinate 32 bytes name: the sign bit ignored, a non-canonical value reduced. */
  function Y(b: Key): nat {
    LittleEndian(b) % 0x8000000000000000000000000000000000000000000000000000000000000000 % P
  }

  /** `_on_curve`. */
  function OnCurve(b: Key): bool {
    HasPoint(Y(b), D(), P)
  }

  /** -x^2 + y^2 = 1 - (121665 / 121666) x^2 y^2 modulo 2^255 - 19, without the fraction. */
  predicate IsPoint(x: int, y: int) {
    Divides(0x8000000000000000000000000000000000000000000000000000000000000000 - 19,
            121666 * (y * y - x * x - 1) + 121665 * ((x * x) * (y * y)))
  }

  lemma DTimesDenominator()
    requires Prime(P)
    ensures Cong(121666 * D(), -121665, P)
  {
    var w := Pow(121666, P - 2) % P;
    RemainderUnique(121666, P, 0, 121666);
    InverseByPower(121666, P);
    hide Pow, Prime, Divides;
    CongMod(-121665 * w, P);
    CongMul(121666, 121666, D(), -121665 * w, P);
    CongMul(121666 * w, 1, -121665, -121665, P);
    hide Cong;
    Reorder(121666, 121665, w);
    CongTrans(121666 * D(), 121666 * (-121665 * w), -121665, P);
  }

  lemma ClearFraction(k: int, l: int, d: int, s: int, q: int)
    ensures k * (q - s - (1 + d * s * q)) - (k * (q - s - 1) + l * (s * q)) == (k * d - -l) * -(s * q)
  {
    assert k * (q - s - (1 + d * s * q)) == k * (q - s - 1) - k * (d * s * q);
    assert d * s * q == d * (s * q);
    Associate(k, d, s * q);
    assert (k * d - -l) * -(s * q) == -(k * d * (s * q)) - l * (s * q);
  }

  lemma EdwardsIsPoint(x: int, y: int)
    requires Prime(P)
    ensures OnEdwards(x, y, D(), P) <==> IsPoint(x, y)
  {
    var d, s, q := D(), x * x, y * y;
    var f, g := q - s - (1 + d * s * q), 121666 * (q - s - 1) + 121665 * (s * q);
    DTimesDenominator();
    hide D, Prime;
    DividesProduct(P, 121666 * d - -121665, -(s * q));
    ClearFraction(121666, 121665, d, s, q);
    assert Divides(P, 121666 * f - g);
    if Divides(P, f) {
      DividesProduct(P, f, 121666);
      DividesSum(P, 121666 * f, 121666 * f - g);
    }
    if Divides(P, g) {
      DividesSum(P, 121666 * f - g, g);
      EuclidLemma(P, 121666, f);
      RemainderUnique(121666, P, 0, 121666);
    }
  }

  lemma PointUnreduced(x: int, y: nat)
    ensures IsPoint(x, y % P) <==> IsPoint(x, y)
  {
    var s, q, r := x * x, y * y, (y % P) * (y % P);
    CongMod(y, P);
    CongMul(y % P, y, y % P, y, P);
    var f, g := 121666 * (q - s - 1) + 121665 * (s * q), 121666 * (r - s - 1) + 121665 * (s * r);
    DividesProduct(P, r - q, 121666 + 121665 * s);
    assert g - f == (r - q) * (121666 + 121665 * s);
    hide Divides;
    if IsPoint(x, y) {
      DividesSum(P, f, g - f);
    }
    if IsPoint(x, y % P) {
      DividesSum(P, g, g - f);
    }
  }

  /** The bytes' low 255 bits, the sign bit ignored and the rest not reduced, are the y of some point. */
  ghost predicate NamesPoint(b: Key) {
    exists x: int :: IsPoint(x, Low255(b))
  }

  function Low255(b: Key): nat {
    LittleEndian(b) % 0x8000000000000000000000000000000000000000000000000000000000000000
  }

  /** The 32 bytes are reported on the curve exactly when they name a point of it. */
  lemma OnCurveExact(b: Key)
    requires Prime(P)
    ensures OnCurve(b) <==> NamesPoint(b)
  {
    assert P % 8 == 5;
    assert Y(b) == Low255(b) % P;
    PrimeIsSuitable(P);
    DIsNotMinusOne();
    hide HasPoint, Prime, D, OnEdwards, IsPoint, Suitable, Divides, Low255, Y;
    HasPointExact(Y(b), D(), P);
    forall x: int
      ensures OnEdwards(x, Y(b), D(), P) <==> IsPoint(x, Low255(b))
    {
      EdwardsIsPoint(x, Y(b));
      PointUnreduced(x, Low255(b));
    }
  }
}
