/** __ieee754_remainder: x REM p on top of fmod (libm/e_remainder.c).

    The doubles are compared and subtracted as values in units of 2^-1074. Every
    floating-point operation goes through Doubles.Exact, whose precondition is that
    the exact result is a double, so the proof includes that nothing is ever rounded.
  */
module Remainder {
  import opened Words
  import opened Doubles
  import Fmod

  /** r == x - n * p with n the integer nearest x / p, and the even one of two equally near
      (section 5.1 of IEEE 754-1985). */
  predicate NearestMultiple(x: int, p: int, r: int, n: int) {
    && r == x - n * p
    && 2 * Size(r) <= Size(p)
    && (2 * Size(r) == Size(p) ==> n % 2 == 0)
  }

  ghost predicate IeeeRemainder(x: int, p: int, r: int) {
    exists n: int :: NearestMultiple(x, p, r, n)
  }

  function Size(v: int): nat {
    if v < 0 then -v else v
  }

  /** The definition leaves no choice: the remainder is unique. */
  lemma RemainderIsUnique(x: int, p: int, r: int, r': int)
    requires p != 0 && IeeeRemainder(x, p, r) && IeeeRemainder(x, p, r')
    ensures r == r'
  {
    var n :| NearestMultiple(x, p, r, n);
    var n' :| NearestMultiple(x, p, r', n');
    var d := n' - n;
    Distribute(n, d, p);
    assert r - r' == d * p;
    SizeOfProduct(d, p);
    if d != 0 {
      MulMono(1, Size(d), Size(p));
      if Size(d) >= 2 { MulMono(2, Size(d), Size(p)); }
    }
  }

  lemma SizeOfProduct(a: int, b: int)
    ensures Size(a * b) == Size(a) * Size(b)
  {
    if a >= 0 && b >= 0 { MulMono(0, a, b); }
    if a < 0 && b < 0 { MulMono(0, -a, -b); }
    if a >= 0 && b < 0 { MulMono(0, a, -b); }
    if a < 0 && b >= 0 { MulMono(0, -a, b); }
  }

  // ----- the reduction by at most two multiples -----

  /** Lines 65-76 on magnitudes: subtracting p once or twice from y < 2p. */
  function Folded(y: nat, p: nat): int {
    if 2 * y <= p then y
    else if 2 * (y - p) < p then y - p
    else y - 2 * p
  }

  lemma FoldedIsNearest(x: nat, p: nat)
    requires p > 0
    ensures IeeeRemainder(x, p, Folded(Fmod.Rem(x, 2 * p), p))
  {
    var y := Fmod.Rem(x, 2 * p);
    var q := EvenQuotient(x, p);
    var j := if 2 * y <= p then 0 else if 2 * (y - p) < p then 1 else 2;
    Distribute(q, j, p);
    assert NearestMultiple(x, p, Folded(y, p), q + j);
  }

  lemma EvenQuotient(x: nat, p: nat) returns (q: int)
    requires p > 0
    ensures q % 2 == 0 && x == q * p + Fmod.Rem(x, 2 * p) && Fmod.Rem(x, 2 * p) < 2 * p
  {
    Fmod.RemIsModulus(x, 2 * p);
    var d := x / (2 * p);
    q := 2 * d;
    assert x == d * (2 * p) + x % (2 * p);
  }

  function Signed(v: int, negative: bool): int {
    if negative then -v else v
  }

  lemma SignOfMultiple(n: int, p: int, nx: bool, np: bool)
    ensures (if nx == np then n else -n) * Signed(p, np) == Signed(n * p, nx)
  {}

  /** Changing the sign of x or of p changes n accordingly. */
  lemma SignsOfRemainder(x: nat, p: nat, r: int, nx: bool, np: bool)
    requires IeeeRemainder(x, p, r)
    ensures IeeeRemainder(Signed(x, nx), Signed(p, np), Signed(r, nx))
  {
    var n :| NearestMultiple(x, p, r, n);
    var n' := if nx == np then n else -n;
    SignOfMultiple(n, p, nx, np);
    var m, m' := n * p, n' * Signed(p, np);
    assert NearestMultiple(Signed(x, nx), Signed(p, np), Signed(r, nx), n') by {
      assert r == x - m && m' == Signed(m, nx);
    }
  }

  // ----- the doubles involved -----

  /** p + p at line 61 cannot overflow. */
  lemma TwiceIsDouble(h: nat, l: u32)
    requires h <= 0x7fdf_ffff && Pair(h, l) > 0
    ensures Representable(2 * MagnitudeOf(h, l)) && MagnitudeOf(h, l) > 0
  {
    PositiveMagnitude(h, l);
    if h < 0x10_0000 {
      assert IsScaled(2 * MagnitudeOf(h, l), 2 * Pair(h, l), 0);
    } else {
      FiniteIsRepresentable(Double(h + 0x10_0000, l));
    }
  }

  /** Twice a significand in the highest binade is beyond every finite double. */
  lemma BeyondReach(k: nat, t: nat, v: nat)
    requires k >= 0x10_0000_0000_0000 && t >= 2045 && Representable(v)
    ensures v < 2 * Scale(k, t)
  {
    ScaleMono(0x10_0000_0000_0000, k, t);
    ScaleLast(0x10_0000_0000_0000, t + 1);
    var j: nat, e: nat :| IsScaled(v, j, e);
    ScaleMono(j, 0x20_0000_0000_0000, e);
    ScaleAdd(0x20_0000_0000_0000, e, t - e);
    ScaleGrows(Scale(0x20_0000_0000_0000, e), t - e);
  }

  /** Above the test at line 61 every finite x is below 2p already. */
  lemma HugeDivisor(h: nat, l: u32, x: Double)
    requires 0x7fe0_0000 <= h < 0x7ff0_0000 && x.IsFinite()
    ensures x.Mag() < 2 * MagnitudeOf(h, l)
  {
    FiniteIsRepresentable(x);
    SignificandAndExponent(h, l);
    BeyondReach(Pair(0x10_0000 + h % 0x10_0000, l), h / 0x10_0000 - 1, x.Mag());
  }

  /** Half of a double of at least 2^-1021 is a double. */
  lemma HalfIsDouble(h: nat, l: u32)
    requires 0x20_0000 <= h < 0x7ff0_0000
    ensures MagnitudeOf(h, l) == 2 * (MagnitudeOf(h, l) / 2)
    ensures Representable(MagnitudeOf(h, l) / 2)
  {
    FiniteIsRepresentable(Double(h - 0x10_0000, l));
  }

  /** Below that threshold p itself is less than 2^53 units. */
  lemma SmallDivisor(h: nat, l: u32)
    requires h < 0x20_0000
    ensures MagnitudeOf(h, l) < 0x20_0000_0000_0000
  {}

  // ----- the function -----

  /** Lines 65-69: p is so small that doubling x is safer than halving p. */
  method FoldSmall(mode: Rounding, x0: Double, p: Double) returns (x: Double)
    requires x0.IsFinite() && !x0.Negative() && p.IsFinite() && !p.Negative()
    requires 0 < p.Mag() < 0x20_0000_0000_0000 && x0.Mag() < 2 * p.Mag()
    ensures x.IsFinite() && x.Value() == Folded(x0.Mag(), p.Mag())
    ensures x.Negative() <==> x.Value() < 0 || (mode.Downward? && x0.Mag() == p.Mag())
  {
    x := x0;
    FiniteIsRepresentable(x);
    FiniteIsRepresentable(p);
    DoubleFits(x.Mag());
    var twice := Exact(x.Value() + x.Value());
    if twice.Value() > p.Value() {
      Sterbenz(x.Mag(), p.Mag());
      x := ExactDifference(mode, x.Value() - p.Value());
      FiniteIsRepresentable(x);
      DoubleFits(x.Mag());
      twice := Exact(x.Value() + x.Value());
      if twice.Value() >= p.Value() {
        Sterbenz(x.Mag(), p.Mag());
        x := ExactDifference(mode, x.Value() - p.Value());
      }
    }
  }

  /** Lines 71-75, with p_half = 0.5 * p. */
  method FoldHalf(mode: Rounding, x0: Double, p: Double) returns (x: Double)
    requires x0.IsFinite() && !x0.Negative() && p.IsFinite() && !p.Negative()
    requires p.AbsHi() >= 0x20_0000 && x0.Mag() < 2 * p.Mag()
    ensures x.IsFinite() && x.Value() == Folded(x0.Mag(), p.Mag())
    ensures x.Negative() <==> x.Value() < 0 || (mode.Downward? && x0.Mag() == p.Mag())
  {
    x := x0;
    HalfIsDouble(p.AbsHi(), p.lo);
    var pHalf := Exact(p.Mag() / 2);
    if x.Value() > pHalf.Value() {
      FiniteIsRepresentable(x);
      FiniteIsRepresentable(p);
      Sterbenz(x.Mag(), p.Mag());
      x := ExactDifference(mode, x.Value() - p.Value());
      if x.Value() >= pHalf.Value() {
        FiniteIsRepresentable(x);
        Sterbenz(x.Mag(), p.Mag());
        x := ExactDifference(mode, x.Value() - p.Value());
      }
    }
  }

  /** Lines 65-76. */
  method Fold(mode: Rounding, x0: Double, p: Double) returns (x: Double)
    requires x0.IsFinite() && !x0.Negative() && p.IsFinite() && !p.Negative()
    requires 0 < p.Mag() && x0.Mag() < 2 * p.Mag()
    ensures x.IsFinite() && x.Value() == Folded(x0.Mag(), p.Mag())
    ensures x.Negative() <==> x.Value() < 0 || (mode.Downward? && x0.Mag() == p.Mag())
  {
    if p.AbsHi() < 0x20_0000 {
      SmallDivisor(p.AbsHi(), p.lo);
      x := FoldSmall(mode, x0, p);
    } else {
      x := FoldHalf(mode, x0, p);
    }
  }

  /** fabs */
  function Abs(d: Double): (a: Double)
    ensures !a.Negative() && a.AbsHi() == d.AbsHi() && a.lo == d.lo && a.Mag() == d.Mag()
  {
    Double(d.AbsHi(), d.lo)
  }

  /** Lines 77-78: the high word xor the sign bit of x. */
  function FlipSign(d: Double, flip: bool): (r: Double)
    ensures r.AbsHi() == d.AbsHi() && r.lo == d.lo && r.Value() == Signed(d.Value(), flip)
    ensures r.Negative() <==> d.Negative() != flip
  {
    if !flip then d
    else if d.Negative() then Double(d.hi - 0x8000_0000, d.lo)
    else Double(d.hi + 0x8000_0000, d.lo)
  }

  /** Line 61: x is brought below 2p, by fmod unless it is there already. */
  method BelowTwice(x0: Double, p: Double) returns (x: Double)
    requires x0.IsFinite() && p.IsFinite() && !p.IsZero()
    ensures x.IsFinite() && p.Mag() > 0 && x.Mag() == Fmod.Rem(x0.Mag(), 2 * p.Mag())
    ensures x.Mag() < 2 * p.Mag() && (x.Negative() <==> x0.Negative())
  {
    x := x0;
    PositiveMagnitude(p.AbsHi(), p.lo);
    Fmod.RemIsModulus(x.Mag(), 2 * p.Mag());
    if p.AbsHi() <= 0x7fdf_ffff {
      TwiceIsDouble(p.AbsHi(), p.lo);
      var twice := Exact(p.Value() + p.Value());
      var f := Fmod.Fmod(x, twice);
      x := f.d;
    } else {
      HugeDivisor(p.AbsHi(), p.lo, x);
    }
  }

  /** The difference of two words, zero exactly when they are equal. */
  function Difference(a: u32, b: u32): (d: u32)
    ensures d == 0 <==> a == b
  {
    var i: int := a;
    ToU32(i - b)
  }

  lemma SameWords(h: nat, l: u32, h': nat, l': u32)
    ensures MagnitudeOf(h, l) == MagnitudeOf(h', l') <==> h == h' && l == l'
  {
    if Pair(h, l) < Pair(h', l') {
      MagnitudeOrder(h, l, h', l');
    } else if Pair(h', l') < Pair(h, l) {
      MagnitudeOrder(h', l', h, l);
    } else {
      PairUnique(h, l, h', l');
    }
  }

  /** The test of line 62. */
  method SameMagnitude(x: Double, p: Double) returns (same: bool)
    ensures same <==> x.Mag() == p.Mag()
  {
    SameWords(x.AbsHi(), x.lo, p.AbsHi(), p.lo);
    OrIsZero(Difference(x.AbsHi(), p.AbsHi()), Difference(x.lo, p.lo));
    same := BitOr(Difference(x.AbsHi(), p.AbsHi()), Difference(x.lo, p.lo)) == 0;
  }

  /** What the code computes, as a value. */
  function Reduced(x: Double, p: Double): int {
    Signed(Folded(Fmod.Rem(x.Mag(), 2 * p.Mag()), p.Mag()), x.Negative())
  }

  lemma ReducedIsRemainder(x: Double, p: Double, r: int)
    requires p.Mag() > 0 && r == Reduced(x, p)
    ensures IeeeRemainder(x.Value(), p.Value(), r)
  {
    var m := Folded(Fmod.Rem(x.Mag(), 2 * p.Mag()), p.Mag());
    FoldedIsNearest(x.Mag(), p.Mag());
    SignsOfRemainder(x.Mag(), p.Mag(), m, x.Negative(), p.Negative());
    assert x.Value() == Signed(x.Mag(), x.Negative());
    assert p.Value() == Signed(p.Mag(), p.Negative());
  }

  /** The zero comes from subtracting p from p, for an odd multiple x of p other than p itself,
      which line 62 has sorted out; rounding toward minus infinity this is -0, and line 78
      gives it the wrong sign. */
  predicate LosesSign(mode: Rounding, x: nat, p: nat) {
    mode.Downward? && x != p && Fmod.Rem(x, 2 * p) == p
  }

  /** A double that is three times the double p is such an x. */
  lemma TriplesLoseSign(x: Double, p: Double)
    requires x.IsFinite() && p.IsFinite() && p.Mag() > 0 && x.Mag() == 3 * p.Mag()
    ensures LosesSign(Downward, x.Mag(), p.Mag())
  {
    Fmod.RemIsModulus(x.Mag(), 2 * p.Mag());
    DivModUnique(3 * p.Mag(), 2 * p.Mag(), 1, p.Mag());
  }

  /** Lines 61-79 for a finite p. */
  method FiniteRemainder(mode: Rounding, x0: Double, p0: Double) returns (r: Double)
    requires x0.IsFinite() && p0.IsFinite() && !p0.IsZero()
    ensures r.IsFinite() && p0.Mag() > 0 && r.Value() == Reduced(x0, p0)
    ensures r.Value() == 0 ==> ((r.Negative() <==> x0.Negative()) <==> !LosesSign(mode, x0.Mag(), p0.Mag()))
  {
    var x := BelowTwice(x0, p0);
    var same := SameMagnitude(x0, p0);
    if same {
      OwnRemainder(p0.Mag());
      r := ZeroTimes(x);
    } else {
      x := FoldAbs(mode, x, p0);
      r := RestoreSign(x, x0.Negative());
    }
  }

  lemma OwnRemainder(p: nat)
    requires p > 0
    ensures Fmod.Rem(p, 2 * p) == p && Folded(p, p) == 0
  {}

  /** zero * x: a zero with the sign of x. */
  method ZeroTimes(x: Double) returns (z: Double)
    ensures z.IsFinite() && z.Value() == 0 && (z.Negative() <==> x.Negative())
  {
    z := SignedZero(x.Negative());
  }

  /** Lines 63-76. */
  method FoldAbs(mode: Rounding, x0: Double, p0: Double) returns (x: Double)
    requires x0.IsFinite() && p0.IsFinite() && 0 < p0.Mag() && x0.Mag() < 2 * p0.Mag()
    ensures x.IsFinite() && x.Value() == Folded(x0.Mag(), p0.Mag())
    ensures x.Negative() <==> x.Value() < 0 || (mode.Downward? && x0.Mag() == p0.Mag())
  {
    x := Fold(mode, Abs(x0), Abs(p0));
  }

  /** Lines 77-78. */
  method RestoreSign(x: Double, negative: bool) returns (r: Double)
    requires x.IsFinite()
    ensures r.IsFinite() && r.Value() == Signed(x.Value(), negative) && (r.Negative() <==> x.Negative() != negative)
  {
    r := FlipSign(x, negative);
  }

  /** __ieee754_remainder, lines 37-80. An infinite p passes every test and leaves x as
      it is: nothing exceeds half of infinity. */
  method Remainder(mode: Rounding, x: Double, p: Double) returns (r: Result)
    ensures p.IsZero() || !x.IsFinite() || p.IsNaN() ==> r == NaN
    ensures x.IsFinite() && p.IsInfinite() ==> r == Number(x)
    ensures x.IsFinite() && p.IsFinite() && !p.IsZero() ==>
              && r.Number? && r.d.IsFinite() && IeeeRemainder(x.Value(), p.Value(), r.d.Value())
              && (r.d.Value() == 0 ==> ((r.d.Negative() <==> x.Negative()) <==> !LosesSign(mode, x.Mag(), p.Mag())))
  {
    var hx, hp, lp := x.AbsHi(), p.AbsHi(), p.lo;
    OrIsZero(hp, lp);
    if hp >= 0x7ff0_0000 {
      OrIsZero(hp - 0x7ff0_0000, lp);
    }
    if BitOr(hp, lp) == 0 {
      return NaN;
    }
    if hx >= 0x7ff0_0000 || (hp >= 0x7ff0_0000 && BitOr(hp - 0x7ff0_0000, lp) != 0) {
      return NaN;
    }
    if hp == 0x7ff0_0000 {
      return Number(FlipSign(Abs(x), x.Negative()));
    }
    var d := FiniteRemainder(mode, x, p);
    ReducedIsRemainder(x, p, d.Value());
    r := Number(d);
  }

  /** For the positive doubles with the low words 3 and 1 the remainder is a negative zero. */
  method WrongSign() returns (x: Double, p: Double, r: Double)
    ensures !x.Negative() && x.Value() == 3 && p.Value() == 1 && r.Value() == 0 && r.Negative()
  {
    x, p := Double(0, 3), Double(0, 1);
    TriplesLoseSign(x, p);
    var result := Remainder(Downward, x, p);
    ZeroRemainder(3, 1, result.d.Value());
    r := result.d;
  }

  lemma ZeroRemainder(x: int, p: int, r: int)
    requires p == 1 && IeeeRemainder(x, p, r)
    ensures r == 0
  {}
}
