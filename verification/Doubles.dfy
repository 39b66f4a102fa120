/** IEEE 754 double precision numbers as the library takes them apart: two words.

    Finite magnitudes are counted in units of 2^-1074, the smallest subnormal, so
    every finite double is an integer and no rounding hides in the model.
  */
module Doubles {
  import opened Words

  datatype Double = Double(hi: u32, lo: u32) {

    /** The high word as EXTRACT_WORDS and GET_HIGH_WORD deliver it. */
    function High(): i32 {
      ToI32(hi)
    }

    predicate Negative() {
      hi >= 0x8000_0000
    }

    /** The high word without its sign bit. */
    function AbsHi(): (h: i32)
      ensures 0 <= h
    {
      Unsigned(hi)
    }

    predicate IsFinite() {
      AbsHi() < 0x7ff0_0000
    }

    predicate IsInfinite() {
      AbsHi() == 0x7ff0_0000 && lo == 0
    }

    predicate IsNaN() {
      !IsFinite() && !IsInfinite()
    }

    predicate IsZero() {
      AbsHi() == 0 && lo == 0
    }

    /** |this| in units of 2^-1074. */
    function Mag(): nat {
      MagnitudeOf(AbsHi(), lo)
    }

    /** The signed value in units of 2^-1074. */
    function Value(): int {
      var m: int := Mag();
      if Negative() then -m else m
    }
  }

  /** What a library function returns; every NaN is alike. */
  datatype Result = Number(d: Double) | NaN

  /** The rounding in force (section 4 of IEEE 754-1985). */
  datatype Rounding = Nearest | Upward | Downward | TowardZero

  /** The magnitude with high word h (sign clear) and low word l. The bits themselves count
      the units while the exponent field is 0 (subnormals) or 1, where it also supplies the
      hidden bit; every further step of the exponent doubles the value. */
  function MagnitudeOf(h: nat, l: u32): nat {
    if h < 0x20_0000 then Pair(h, l) else 2 * MagnitudeOf(h - 0x10_0000, l)
  }

  /** The usual reading of a normal number: the significand with its hidden bit, scaled by
      the biased exponent less one. */
  lemma {:induction false} SignificandAndExponent(h: nat, l: u32)
    requires h >= 0x10_0000
    ensures h / 0x10_0000 >= 1
    ensures MagnitudeOf(h, l) == Scale(Pair(0x10_0000 + h % 0x10_0000, l), h / 0x10_0000 - 1)
    decreases h
  {
    if h >= 0x20_0000 {
      SignificandAndExponent(h - 0x10_0000, l);
      ScaleLast(Pair(0x10_0000 + h % 0x10_0000, l), h / 0x10_0000 - 1);
    }
  }

  /** v is k * 2^e with a significand k of at most 53 bits. */
  predicate IsScaled(v: int, k: nat, e: nat) {
    v == Scale(k, e) && k < 0x20_0000_0000_0000 && e <= 2045
  }

  /** v is the magnitude of some finite double. */
  ghost predicate Representable(v: int) {
    exists k: nat, e: nat :: IsScaled(v, k, e)
  }

  /** The bits of a magnitude with a given exponent field. */
  lemma MagnitudeWithExponent(k: nat, e: nat, h: nat, l: u32)
    requires 0x10_0000_0000_0000 <= k < 0x20_0000_0000_0000
    requires Pair(h, l) == k - 0x10_0000_0000_0000 + (e + 1) * 0x10_0000_0000_0000
    ensures MagnitudeOf(h, l) == Scale(k, e)
    ensures h / 0x10_0000 == e + 1 && h % 0x10_0000 < 0x10_0000
  {
    var f := k - 0x10_0000_0000_0000;
    var r := h - (e + 1) * 0x10_0000;
    assert Pair(r, l) == f;
    DivModUnique(h, 0x10_0000, e + 1, r);
    SignificandAndExponent(h, l);
  }

  /** The kinds of doubles by their bits below the sign, read as one number: finite ones are
      below infinity, and what is above is no number. */
  lemma Classes(d: Double)
    ensures d.IsZero() <==> Pair(d.AbsHi(), d.lo) == 0
    ensures d.IsFinite() <==> Pair(d.AbsHi(), d.lo) < 0x7ff0_0000_0000_0000
    ensures d.IsInfinite() <==> Pair(d.AbsHi(), d.lo) == 0x7ff0_0000_0000_0000
    ensures d.IsNaN() <==> Pair(d.AbsHi(), d.lo) > 0x7ff0_0000_0000_0000
    ensures d.hi == d.AbsHi() + if d.Negative() then 0x8000_0000 else 0
  {}

  /** Below the smallest normal number the bits count the units. */
  lemma Subnormal(d: Double)
    requires d.AbsHi() < 0x10_0000
    ensures d.Value() == Pair(d.AbsHi(), d.lo) * if d.Negative() then -1 else 1
  {}

  lemma FiniteIsRepresentable(d: Double)
    requires d.IsFinite()
    ensures Representable(d.Mag())
  {
    var h, l := d.AbsHi(), d.lo;
    if h < 0x10_0000 {
      assert IsScaled(d.Mag(), Pair(h, l), 0);
    } else {
      SignificandAndExponent(h, l);
      assert IsScaled(d.Mag(), Pair(0x10_0000 + h % 0x10_0000, l), h / 0x10_0000 - 1);
    }
  }

  /** From 2^52 units of 2^t upward, every double is a multiple of 2^t. */
  lemma GridGap(o: nat, t: nat) returns (j: nat)
    requires Representable(o) && o >= Scale(0x10_0000_0000_0000, t)
    ensures o == Scale(j, t)
  {
    var k: nat, e: nat :| IsScaled(o, k, e);
    if e >= t {
      ScaleAdd(k, e - t, t);
      j := Scale(k, e - t);
    } else {
      var d := t - e;
      ScaleAdd(0x10_0000_0000_0000, d, e);
      ScaleMono(k, Scale(0x10_0000_0000_0000, d), e);
      assert Scale(0x10_0000_0000_0000, d) == Scale(0x20_0000_0000_0000, d - 1);
      ScaleGrows(0x20_0000_0000_0000, d - 1);
      assert false;
    }
  }

  lemma HighWord(d: Double)
    ensures ToU32(d.High()) == d.hi
    ensures d.High() < 0 <==> d.Negative()
    ensures !d.Negative() ==> d.High() == d.AbsHi() == d.hi
    ensures d.Negative() ==> d.AbsHi() == d.hi - 0x8000_0000
  {}

  lemma ExponentField(h: nat)
    ensures Shr(h, 20) == h / 0x10_0000
  {
    ShrIsQuotient(h, 20);
    Pow2Table();
  }

  lemma NormalMagnitude(hi: i32, lo: u32)
    requires 0x10_0000 <= hi < 0x7ff0_0000
    ensures 1 <= Shr(hi, 20) <= 2046
    ensures Scale(MagnitudeOf(hi, lo), 52)
         == Scale(Pair(0x10_0000 + hi % 0x10_0000, lo), Shr(hi, 20) + 51)
  {
    ExponentField(hi);
    SignificandAndExponent(hi, lo);
    ScaleAdd(Pair(0x10_0000 + hi % 0x10_0000, lo), hi / 0x10_0000 - 1, 52);
  }

  /** A high word without its sign bit. */
  function Unsigned(h: u32): (a: u32)
    ensures a < 0x8000_0000
  {
    if h < 0x8000_0000 then h else h - 0x8000_0000
  }

  lemma ClearSign(h: u32)
    ensures BitAnd(h, 0x7fff_ffff) == Unsigned(h)
  {
    assert Pow2(31) == 0x8000_0000 by { Pow2Table(); }
    AndMask(h, 31);
    DivModUnique(h, 0x8000_0000, if h < 0x8000_0000 then 0 else 1, Unsigned(h));
  }

  lemma OrTopBit(w: nat)
    requires w < 0x8000_0000
    ensures BitOr(w, 0x8000_0000) == w + 0x8000_0000
  {
    OrSymmetric(w, 0x8000_0000);
    assert Scale(1, 31) == 0x8000_0000 by { ScaleTable(); }
    OrShifted(1, w, 31);
  }

  /** The exponent test against 0x7ff00000. */
  lemma ExponentAllOnes(h: u32)
    ensures BitAnd(h, 0x7ff0_0000) == 0x7ff0_0000 <==> Unsigned(h) >= 0x7ff0_0000
  {
    assert Scale(0x7ff, 20) == 0x7ff0_0000 by { ScaleIsProduct(0x7ff, 20); Pow2Table(); }
    var f := Shr(h, 20);
    AndShifted(h, 0x7ff, 20);
    assert BitAnd(f, 0x7ff) == f % 0x800 by { AndMask(f, 11); Pow2Table(); }
    ScaleMono(f % 0x800, 0x7ff, 20);
    ExponentBits(h, f);
  }

  lemma ExponentBits(h: u32, f: nat)
    requires f == Shr(h, 20)
    ensures f % 0x800 == 0x7ff <==> Unsigned(h) >= 0x7ff0_0000
  {
    ExponentField(h);
    var u := Unsigned(h);
    var e, r := u / 0x10_0000, u % 0x10_0000;
    var top := if h < 0x8000_0000 then 0 else 1;
    DivModUnique(h, 0x10_0000, 0x800 * top + e, r);
    DivModUnique(f, 0x800, top, e);
  }

  /** The significand left by (ix0 & 0x000fffff) | 0x00100000. */
  lemma HiddenBit(h: u32)
    ensures BitOr(BitAnd(h, 0xf_ffff), 0x10_0000) == 0x10_0000 + h % 0x10_0000
  {
    assert Pow2(20) == 0x10_0000 by { Pow2Table(); }
    AndMask(h, 20);
    var f := h % 0x10_0000;
    OrSymmetric(f, 0x10_0000);
    DivModUnique(0x10_0000, 0x10_0000, 1, 0);
    OrDisjoint(0x10_0000, f, 20);
  }

  /** INSERT_WORDS(x, h | sx, l): a magnitude given the sign bit sx. */
  lemma WithSign(h: nat, l: u32, sx: u32)
    requires h < 0x8000_0000 && (sx == 0 || sx == 0x8000_0000)
    ensures BitOr(h, sx) < 0x1_0000_0000
    ensures var d := Double(BitOr(h, sx), l);
            d.AbsHi() == h && d.Mag() == MagnitudeOf(h, l) && (d.Negative() <==> sx != 0)
  {
    if sx == 0 {
      OrZero(h);
    } else {
      OrTopBit(h);
    }
  }

  /** Magnitudes are ordered as their words are. */
  lemma {:induction false} MagnitudeOrder(h: nat, l: u32, h': nat, l': u32)
    requires Pair(h, l) < Pair(h', l')
    ensures MagnitudeOf(h, l) < MagnitudeOf(h', l')
    decreases h'
  {
    if h >= 0x20_0000 {
      MagnitudeOrder(h - 0x10_0000, l, h' - 0x10_0000, l');
    } else if h' >= 0x20_0000 {
      AtLeastBits(h' - 0x10_0000, l');
    }
  }

  lemma {:induction false} AtLeastBits(h: nat, l: u32)
    requires h >= 0x10_0000
    ensures MagnitudeOf(h, l) >= 0x10_0000_0000_0000
    decreases h
  {
    if h >= 0x20_0000 {
      AtLeastBits(h - 0x10_0000, l);
    }
  }

  lemma PositiveMagnitude(h: nat, l: u32)
    requires Pair(h, l) > 0
    ensures MagnitudeOf(h, l) > 0
  {
    MagnitudeOrder(0, 0, h, l);
  }

  // ----- from values back to doubles -----

  /** v fits a double whose exponent field starts counting at e. */
  ghost predicate Fits(v: nat, e: nat) {
    exists k: nat, j: nat :: IsScaled(v, k, j) && j + e <= 2045
  }

  lemma FitsHalf(v: nat, e: nat)
    requires Fits(v, e) && v >= 0x20_0000_0000_0000
    ensures e <= 2044 && v == 2 * (v / 2) && Fits(v / 2, e + 1)
  {
    var k: nat, j: nat :| IsScaled(v, k, j) && j + e <= 2045;
    assert j > 0;
    ScaleLast(k, j);
    assert IsScaled(v / 2, k, j - 1);
  }

  /** The magnitude words of v * 2^e: halved until 53 bits remain. */
  function FromParts(v: nat, e: nat): (d: Double)
    requires Fits(v, e) && (e == 0 || v >= 0x10_0000_0000_0000)
    ensures d.IsFinite() && !d.Negative() && d.Mag() == Scale(v, e)
    decreases v
  {
    if v < 0x10_0000_0000_0000 then
      Double(v / 0x1_0000_0000, v % 0x1_0000_0000)
    else if v < 0x20_0000_0000_0000 then
      FitsExponent(v, e);
      var f := v - 0x10_0000_0000_0000;
      MagnitudeWithExponent(v, e, f / 0x1_0000_0000 + (e + 1) * 0x10_0000, f % 0x1_0000_0000);
      Double(f / 0x1_0000_0000 + (e + 1) * 0x10_0000, f % 0x1_0000_0000)
    else
      FitsHalf(v, e);
      FromParts(v / 2, e + 1)
  }

  lemma FitsExponent(v: nat, e: nat)
    requires Fits(v, e)
    ensures e <= 2045
  {}

  /** The result of a floating-point operation whose exact value v is a double: the
      standard requires that very double (section 5 of IEEE 754-1985). */
  function Exact(v: int): (d: Double)
    requires Representable(if v < 0 then -v else v)
    ensures d.IsFinite() && d.Value() == v && (d.Negative() <==> v < 0)
  {
    var m := if v < 0 then -v else v;
    RepresentableFits(m);
    var d := FromParts(m, 0);
    if v < 0 then SignSet(d) else d
  }

  /** A difference of positive doubles whose exact value v is a double. The difference of
      equal numbers is +0, and -0 when rounding toward minus infinity (section 6.3 of
      IEEE 754-1985). */
  function ExactDifference(mode: Rounding, v: int): (d: Double)
    requires Representable(if v < 0 then -v else v)
    ensures d.IsFinite() && d.Value() == v
    ensures d.Negative() <==> v < 0 || (v == 0 && mode.Downward?)
  {
    if v == 0 && mode.Downward? then SignedZero(true) else Exact(v)
  }

  function SignedZero(negative: bool): (z: Double)
    ensures z.IsFinite() && z.Value() == 0 && (z.Negative() <==> negative)
  {
    Double(if negative then 0x8000_0000 else 0, 0)
  }

  lemma RepresentableFits(m: nat)
    requires Representable(m)
    ensures Fits(m, 0)
  {
    var k: nat, e: nat :| IsScaled(m, k, e);
    assert IsScaled(m, k, e) && e + 0 <= 2045;
  }

  /** The representable magnitudes are those of the finite doubles. */
  lemma RepresentableExactly(v: nat)
    ensures Representable(v) <==> exists d: Double :: d.IsFinite() && d.Mag() == v
  {
    if Representable(v) {
      assert Exact(v).Mag() == v;
    } else if d: Double :| d.IsFinite() && d.Mag() == v {
      FiniteIsRepresentable(d);
      assert false;
    }
  }

  function SignSet(d: Double): (n: Double)
    requires !d.Negative()
    ensures n.Negative() && n.AbsHi() == d.AbsHi() && n.lo == d.lo
  {
    Double(d.hi + 0x8000_0000, d.lo)
  }

  // ----- exact operations -----

  /** Sterbenz: the difference of two doubles within a factor of two is a double. */
  lemma Sterbenz(a: nat, b: nat)
    requires Representable(a) && Representable(b) && b <= 2 * a && a <= 2 * b
    ensures Representable(if a >= b then a - b else b - a)
  {
    var k: nat, e: nat :| IsScaled(a, k, e);
    var l: nat, f: nat :| IsScaled(b, l, f);
    if e <= f {
      DifferenceFits(a, k, e, b, l, f);
    } else {
      DifferenceFits(b, l, f, a, k, e);
    }
  }

  lemma DifferenceFits(a: nat, k: nat, e: nat, b: nat, l: nat, f: nat)
    requires IsScaled(a, k, e) && IsScaled(b, l, f) && e <= f && b <= 2 * a
    ensures Representable(if a >= b then a - b else b - a)
  {
    ScaleAdd(l, f - e, e);
    var l' := Scale(l, f - e);
    ScaleSum(k - l', l', e);
    ScaleSum(l' - k, k, e);
    if a >= b {
      ScaleMono(k, l', e);
      assert IsScaled(a - b, k - l', e);
    } else {
      ScaleMono(k, l', e);
      ScaleSum(k, k, e);
      ScaleMono(l', 2 * k, e);
      assert IsScaled(b - a, l' - k, e);
    }
  }

  lemma DoubleFits(a: nat)
    requires Representable(a) && a < 0x80_0000_0000_0000
    ensures Representable(2 * a)
  {
    var k: nat, e: nat :| IsScaled(a, k, e);
    if k == 0 {
      ScaleZero(e);
      assert IsScaled(2 * a, 0, 0);
    } else {
      if e >= 56 {
        ScaleAdd(k, 56, e - 56);
        ScaleIsProduct(k, 56);
        Pow2Mono(54, 56);
        Pow2Table();
        MulMono(1, k, Pow2(56));
        ScaleGrows(Scale(k, 56), e - 56);
        assert false;
      }
      ScaleLast(k, e + 1);
      assert IsScaled(2 * a, k, e + 1);
    }
  }
}
