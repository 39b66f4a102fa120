/** __ieee754_fmod: the exact remainder by shift and subtract on two words
    (libm/e_fmod.c).
  */
module Fmod {
  import opened Words
  import opened Doubles

  // ----- binary exponents -----

  /** e is the exponent of the magnitude (h, l): shifting a subnormal left by -1022-e, or
      making the hidden bit of a normal explicit, gives 53 bits. */
  predicate IsExponent(h: nat, l: u32, e: int) {
    if h < 0x10_0000 then
      && -1074 <= e <= -1023
      && 0x10_0000_0000_0000 <= Scale(Pair(h, l), -1022 - e) < 0x20_0000_0000_0000
    else e == h / 0x10_0000 - 1023
  }

  /** It is the binary logarithm of the value, rounded down: the value has its top bit 2^e. */
  lemma ExponentIsLogarithm(h: nat, l: u32, e: int)
    requires IsExponent(h, l, e) && h < 0x7ff0_0000
    ensures e >= -1074
    ensures Scale(1, e + 1074) <= MagnitudeOf(h, l) < Scale(1, e + 1075)
  {
    Pow2Table();
    ScaleIsProduct(1, 52);
    ScaleIsProduct(1, 53);
    if h < 0x10_0000 {
      var n := -1022 - e;
      ScaleAdd(1, e + 1074, n);
      ScaleAdd(1, e + 1075, n);
      ScaleMono(Scale(1, e + 1074), Pair(h, l), n);
      ScaleMono(Pair(h, l), Scale(1, e + 1075), n);
    } else {
      var k, n := Pair(0x10_0000 + h % 0x10_0000, l), e + 1022;
      SignificandAndExponent(h, l);
      ScaleAdd(1, 52, n);
      ScaleAdd(1, 53, n);
      ScaleMono(Scale(1, 52), k, n);
      ScaleMono(k, Scale(1, 53), n);
    }
  }

  /** The loops at lines 61, 63, 70 and 72: doubling a signed word until it turns negative. */
  method CountDown(w: u32, start: i32) returns (e: i32)
    requires w > 0 && -1100 <= start <= 0
    ensures start - 31 <= e <= start
    ensures 0x8000_0000 <= Scale(w, start - e) < 0x1_0000_0000
  {
    var i: i32 := ToI32(w);
    e := start;
    while i > 0
      invariant start - 31 <= e <= start
      invariant ToU32(i) == Scale(w, start - e)
      invariant i != 0
      decreases e - start + 31
    {
      ScaleLast(w, start - e + 1);
      DoublingBound(w, start - e);
      SignedDouble(i);
      e := e - 1;
      i := ToI32(i + i);
    }
  }

  lemma SignedDouble(i: i32)
    requires i > 0
    ensures ToU32(i) == i && ToU32(ToI32(i + i)) == 2 * i && ToI32(i + i) != 0
    ensures ToI32(i + i) > 0 <==> i < 0x4000_0000
  {}

  lemma DoublingBound(w: nat, k: nat)
    requires w > 0 && Scale(w, k) < 0x8000_0000
    ensures k <= 30
  {
    if k >= 31 {
      ScaleAdd(w, 31, k - 31);
      ScaleMono(1, w, 31);
      ScaleTable();
      ScaleGrows(Scale(w, 31), k - 31);
    }
  }

  /** The exponent of a subnormal with an empty high word. */
  lemma LowWordExponent(l: u32, k: nat)
    requires 0x8000_0000 <= Scale(l, k) < 0x1_0000_0000
    ensures 0x10_0000_0000_0000 <= Scale(Pair(0, l), k + 21) < 0x20_0000_0000_0000
  {
    ScaleAdd(l, k, 21);
    ScaleIsProduct(Scale(l, k), 21);
    Pow2Table();
  }

  /** The exponent of a subnormal with bits in its high word, found from hx << 11. */
  lemma HighWordExponent(h: nat, l: u32, k: nat)
    requires 0 < h < 0x10_0000
    requires 0x8000_0000 <= Scale(Scale(h, 11), k) < 0x1_0000_0000
    ensures 1 <= k <= 20
    ensures 0x10_0000_0000_0000 <= Scale(Pair(h, l), k) < 0x20_0000_0000_0000
  {
    ScaleAdd(h, 11, k);
    ScaleAdd(h, k, 11);
    var t := Scale(h, k);
    assert Scale(t, 11) == 0x800 * t by { ScaleIsProduct(t, 11); Pow2Table(); }
    assert 0x10_0000 <= t < 0x20_0000;
    HighWordShift(h, k);
    ScaleSum(0x1_0000_0000 * h, l, k);
    ScalePull(0x1_0000_0000, h, k);
    ScaleSum(h, 1, k);
    ScaleMono(l, 0x1_0000_0000, k);
    ScalePull(0x1_0000_0000, 1, k);
  }

  lemma HighWordShift(h: nat, k: nat)
    requires 0 < h < 0x10_0000 && 0x10_0000 <= Scale(h, k) < 0x20_0000
    ensures 1 <= k <= 20
    ensures Scale(h + 1, k) <= 0x20_0000
  {
    ScaleMono(1, h, k);
    ScaleTable();
    if k > 20 {
      ScaleAdd(1, 21, k - 21);
      ScaleGrows(0x20_0000, k - 21);
    }
    ScaleAdd(1, 21 - k, k);
    ScaleMono(h, Scale(1, 21 - k), k);
    ScaleMono(h + 1, Scale(1, 21 - k), k);
  }

  /** Lines 58-65, repeated for y at lines 67-74. */
  method Ilogb(h: i32, l: u32) returns (e: i32)
    requires 0 <= h < 0x7ff0_0000 && Pair(h, l) > 0
    ensures IsExponent(h, l, e) && -1074 <= e <= 1023
  {
    if h < 0x10_0000 {
      if h == 0 {
        e := CountDown(l, -1043);
        LowWordExponent(l, -1043 - e);
      } else {
        assert Scale(h, 11) < 0x8000_0000 by { ScaleIsProduct(h, 11); Pow2Table(); }
        ScaleGrows(h, 11);
        e := CountDown(Shl(h, 11), -1022);
        HighWordExponent(h, l, -1022 - e);
      }
    } else {
      ExponentField(h);
      e := Shr(h, 20) - 1023;
    }
  }

  /** Lines 77-88, repeated for y at lines 89-100: the significand with its top bit at bit
      20 of the high word. */
  method Align(h0: i32, l0: u32, e: i32) returns (h: i32, l: u32)
    requires 0 <= h0 < 0x7ff0_0000 && IsExponent(h0, l0, e)
    ensures 0x10_0000_0000_0000 <= Pair(h, l) < 0x20_0000_0000_0000 && e >= -1074
    ensures Scale(MagnitudeOf(h0, l0), 52) == Scale(Pair(h, l), e + 1074)
  {
    h, l := h0, l0;
    if e >= -1022 {
      HiddenBit(h);
      NormalMagnitude(h0, l0);
      ExponentField(h0);
      h := BitOr(BitAnd(h, 0xf_ffff), 0x10_0000);
    } else {
      var n := -1022 - e;
      ScaleAdd(Pair(h, l), n, 52 - n);
      if n <= 31 {
        ShiftPairLeft(h, l, n);
        h := BitOr(Scale(h, n), Shr(l, 32 - n));
        l := Shl(l, n);
      } else {
        EmptyHighWord(h, l, n);
        h := Shl(l, n - 32);
        l := 0;
      }
    }
  }

  /** A subnormal shifted by 32 or more has an empty high word, and its low word moves up
      without losing bits. */
  lemma EmptyHighWord(h: nat, l: u32, n: nat)
    requires n >= 32 && Scale(Pair(h, l), n) < 0x20_0000_0000_0000
    ensures h == 0
    ensures Shl(l, n - 32) < 0x20_0000 && Pair(Shl(l, n - 32), 0) == Scale(Pair(h, l), n)
  {
    var t := Scale(Pair(h, l), n - 32);
    ScaleAdd(Pair(h, l), n - 32, 32);
    assert Scale(t, 32) == 0x1_0000_0000 * t by { ScaleIsProduct(t, 32); Pow2Table(); }
    ScaleGrows(Pair(h, l), n - 32);
  }

  // ----- the fixed-point loop -----

  /** a mod y by repeated subtraction, which is what the loop below speeds up. */
  function Rem(a: nat, y: nat): nat {
    if y == 0 || a < y then a else Rem(a - y, y)
  }

  lemma {:induction false} RemIsModulus(a: nat, y: nat)
    requires y > 0
    ensures Rem(a, y) == a % y
    decreases a
  {
    if a < y {
      DivModUnique(a, y, 0, a);
    } else {
      RemIsModulus(a - y, y);
      ModShift(a - y, 1, y);
    }
  }

  /** One trip: x reduced by y if possible, then doubled, with one doubling fewer to go. */
  lemma FixedPointStep(x: nat, y: nat, n: nat)
    requires y > 0 && n > 0
    ensures Rem(Scale(x, n), y) == Rem(Scale(2 * x, n - 1), y)
    ensures x >= y ==> Rem(Scale(x, n), y) == Rem(Scale(2 * (x - y), n - 1), y)
  {
    if x >= y {
      ScaleSum(x - y, y, n);
      ScaleIsProduct(y, n);
      RemShift(Scale(x - y, n), Scale(y, n), Pow2(n), y);
    }
  }

  lemma {:induction false} RemShift(a: nat, b: nat, k: nat, y: nat)
    requires y > 0 && b == y * k
    ensures Rem(a + b, y) == Rem(a, y)
    decreases k
  {
    if k > 0 {
      MulMono(1, k, y);
      assert b - y == y * (k - 1);
      RemShift(a, b - y, k - 1, y);
    }
  }

  /** Subtraction of pairs as written at lines 105 and 113. */
  method Minus(hx: i32, lx: u32, hy: i32, ly: u32) returns (hz: i32, lz: u32)
    requires 0 <= hx < 0x4000_0000 && 0 <= hy < 0x4000_0000
    ensures Pair(hz, lz) == Pair(hx, lx) - Pair(hy, ly)
  {
    hz := hx - hy;
    lz := ToU32(lx - ly);
    if lx < ly {
      hz := hz - 1;
    }
  }

  /** The doublings at lines 106, 110 and 120. */
  method Twice(h: i32, l: u32) returns (h': i32, l': u32)
    requires 0 <= h < 0x2000_0000
    ensures 0 <= h' && Pair(h', l') == 2 * Pair(h, l)
  {
    h' := h + h + l / 0x8000_0000;
    l' := ToU32(l + l);
  }

  /** Lines 103-114: the remainder of x * 2^n by y. The C code returns a zero of the sign of
      x from inside the loop when a difference vanishes; here the zero is the result. */
  method FixedPoint(x0: i32, x1: u32, hy: i32, ly: u32, shifts: i32) returns (hx: i32, lx: u32)
    requires shifts >= 0
    requires 0x10_0000_0000_0000 <= Pair(x0, x1) < 0x20_0000_0000_0000
    requires 0x10_0000_0000_0000 <= Pair(hy, ly) < 0x20_0000_0000_0000
    ensures Pair(hx, lx) == Rem(Scale(Pair(x0, x1), shifts), Pair(hy, ly))
    ensures 0 <= hx
  {
    ghost var y := Pair(hy, ly);
    ghost var target := Rem(Scale(Pair(x0, x1), shifts), y);
    hx, lx := x0, x1;
    var n := shifts;
    var hz, lz;
    while n > 0
      invariant 0 <= n && 0 <= hx < 0x40_0000
      invariant 0 <= Pair(hx, lx) < 2 * y
      invariant Rem(Scale(Pair(hx, lx), n), y) == target
    {
      FixedPointStep(Pair(hx, lx), y, n);
      hz, lz := Minus(hx, lx, hy, ly);
      n := n - 1;
      if hz < 0 {
        hx, lx := Twice(hx, lx);
      } else {
        OrIsZero(hz, lz);
        if BitOr(hz, lz) == 0 {
          ScaleZero(n);
          return 0, 0;
        }
        hx, lx := Twice(hz, lz);
      }
    }
    hz, lz := Minus(hx, lx, hy, ly);
    if hz >= 0 {
      hx, lx := hz, lz;
    }
  }

  // ----- back to a double -----

  /** The significand k at exponent e stands for v units of 2^-1074. */
  predicate StandsFor(k: int, e: int, v: nat) {
    e >= -1074 && Scale(v, 52) == Scale(k, e + 1074)
  }

  lemma NotYetSmallest(k: int, e: int, v: nat)
    requires StandsFor(k, e, v) && 0 < k < 0x10_0000_0000_0000
    ensures e > -1074 && v > 0
  {
    ScaleGrows(k, e + 1074);
    ScaleZero(52);
    ScaleMono(1, v, 52);
    ScaleTable();
  }

  lemma NormalOutput(k: int, e: int, v: nat)
    requires StandsFor(k, e, v) && e >= -1022
    ensures v == Scale(k, e + 1022)
  {
    ScaleAdd(k, e + 1022, 52);
    ScaleMono(v, Scale(k, e + 1022), 52);
  }

  /** A subnormal result is a whole number of units, so the bits shifted out are zero. */
  lemma SubnormalOutput(k: int, e: int, v: nat)
    requires StandsFor(k, e, v) && e < -1022 && k < 0x20_0000_0000_0000
    ensures Scale(v, -1022 - e) == k && v < 0x10_0000_0000_0000
  {
    var n := -1022 - e;
    ScaleAdd(v, n, 52 - n);
    ScaleMono(Scale(v, n), k, 52 - n);
    ScaleLast(v, n);
    ScaleGrows(v, n - 1);
  }

  /** Lines 119-122: normalisation of the remainder. */
  method Renormalize(x0: i32, x1: u32, y: i32, ghost v: nat) returns (hx: i32, lx: u32, iy: i32)
    requires 0 <= x0 && 0 < Pair(x0, x1) < 0x20_0000_0000_0000
    requires y <= 1023 && StandsFor(Pair(x0, x1), y, v)
    ensures 0x10_0000 <= hx < 0x20_0000
    ensures iy <= 1023 && StandsFor(Pair(hx, lx), iy, v)
  {
    hx, lx, iy := x0, x1, y;
    while hx < 0x10_0000
      invariant 0 <= hx < 0x20_0000 && 0 < Pair(hx, lx)
      invariant iy <= 1023 && StandsFor(Pair(hx, lx), iy, v)
      decreases iy + 1074
    {
      NotYetSmallest(Pair(hx, lx), iy, v);
      hx, lx := Twice(hx, lx);
      iy := iy - 1;
    }
  }

  /** Lines 116-138: the remainder, normalised and given back its sign. Nothing is lost when
      the result is subnormal. */
  method Restore(x0: i32, x1: u32, y: i32, sx: u32, ghost v: nat) returns (d: Double)
    requires 0 <= x0 && 0 < Pair(x0, x1) < 0x20_0000_0000_0000
    requires y <= 1023 && StandsFor(Pair(x0, x1), y, v)
    requires sx == 0 || sx == 0x8000_0000
    ensures d.IsFinite() && d.Mag() == v && (d.Negative() <==> sx != 0)
  {
    var hx, lx, iy := Renormalize(x0, x1, y, v);
    ghost var k := Pair(hx, lx);
    if iy >= -1022 {
      NormalOutput(k, iy, v);
      hx := JoinExponent(hx, lx, iy);
    } else {
      SubnormalOutput(k, iy, v);
      hx, lx := Denormalize(hx, lx, -1022 - iy, v);
    }
    WithSign(hx, lx, sx);
    d := Double(BitOr(hx, sx), lx);
  }

  /** Line 124: the hidden bit gives way to the exponent field. */
  method JoinExponent(hx: i32, lx: u32, iy: i32) returns (h: i32)
    requires 0x10_0000 <= hx < 0x20_0000 && -1022 <= iy <= 1023
    ensures 0 <= h < 0x7ff0_0000 && MagnitudeOf(h, lx) == Scale(Pair(hx, lx), iy + 1022)
  {
    var f := Scale(iy + 1023, 20);
    assert f == (iy + 1023) * 0x10_0000 && Scale(1, 20) == 0x10_0000 by {
      ScaleIsProduct(iy + 1023, 20);
      Pow2Table();
      ScaleTable();
    }
    OrSymmetric(hx - 0x10_0000, f);
    OrShifted(iy + 1023, hx - 0x10_0000, 20);
    h := BitOr(hx - 0x10_0000, f);
    MagnitudeWithExponent(Pair(hx, lx), iy + 1022, h, lx);
  }

  /** Lines 128-135: the right shift to a subnormal, in its three ranges. */
  method Denormalize(x0: i32, x1: u32, n: i32, ghost v: nat) returns (hx: i32, lx: u32)
    requires 0x10_0000 <= x0 < 0x20_0000 && 1 <= n <= 52
    requires Scale(v, n) == Pair(x0, x1) && v < 0x10_0000_0000_0000
    ensures 0 <= hx < 0x10_0000 && Pair(hx, lx) == v
  {
    hx, lx := x0, x1;
    if n <= 20 {
      ShiftPairRight(hx, lx, n, v);
      lx := BitOr(Shr(lx, n), Shl(hx, 32 - n));
      hx := Shr(hx, n);
    } else if n <= 31 {
      ShiftPairRight(hx, lx, n, v);
      HighWordGone(hx, n);
      OrSymmetric(Shl(hx, 32 - n), Shr(lx, n));
      lx := BitOr(Shl(hx, 32 - n), Shr(lx, n));
      hx := 0;
    } else {
      LowWordGone(hx, lx, n, v);
      lx := Shr(hx, n - 32);
      hx := 0;
    }
  }

  lemma HighWordGone(h: nat, n: nat)
    requires h < 0x20_0000 && n >= 21
    ensures Shr(h, n) == 0
  {
    ScaleTable();
    ScaleAdd(1, 21, n - 21);
    ScaleGrows(0x20_0000, n - 21);
    ShrBound(h, n, 1);
  }

  lemma LowWordGone(h: nat, l: u32, n: nat, v: nat)
    requires 32 <= n && Scale(v, n) == Pair(h, l)
    ensures Shr(h, n - 32) == v && l == 0
  {
    var t := Scale(v, n - 32);
    ScaleAdd(v, n - 32, 32);
    assert Scale(t, 32) == t * 0x1_0000_0000 by { ScaleIsProduct(t, 32); Pow2Table(); }
    PairUnique(t, 0, h, l);
    ScaleGrows(1, n - 32);
    ShrOfSum(v, 0, n - 32);
  }

  // ----- the function -----

  /** Aligned operands keep the order of their exponents. */
  lemma ExponentOrder(a: nat, x: int, ex: int, b: nat, y: int, ey: int)
    requires StandsFor(x, ex, a) && StandsFor(y, ey, b) && a >= b
    requires x < 0x20_0000_0000_0000 && 0x10_0000_0000_0000 <= y
    ensures ex >= ey
  {
    ScaleMono(a, b, 52);
    if ex < ey {
      var d := ey - ex;
      ScaleAdd(y, d, ex + 1074);
      ScaleMono(x, Scale(y, d), ex + 1074);
      ScaleGrows(2 * y, d - 1);
      assert false;
    }
  }

  /** The remainder of the significands stands for the remainder of the magnitudes. */
  lemma RemainderStandsFor(a: nat, x: int, ex: int, b: nat, y: int, ey: int)
    requires StandsFor(x, ex, a) && StandsFor(y, ey, b) && ex >= ey
    requires 0 < y && 0 <= x && b > 0
    ensures StandsFor(Rem(Scale(x, ex - ey), y), ey, Rem(a, b))
  {
    RemIsModulus(a, b);
    RemIsModulus(Scale(x, ex - ey), y);
    ScaleAdd(x, ex - ey, ey + 1074);
    ScaleMod(Scale(x, ex - ey), y, ey + 1074);
    ScaleMod(a, b, 52);
  }

  lemma RemBound(a: nat, y: nat)
    requires y > 0
    ensures Rem(a, y) < y
  {
    RemIsModulus(a, y);
  }

  /** Lines 58-138 for |x| > |y|. */
  method Reduce(hx: i32, lx: u32, hy: i32, ly: u32, sx: u32) returns (d: Double)
    requires 0 <= hx < 0x7ff0_0000 && 0 <= hy < 0x7ff0_0000
    requires 0 < Pair(hy, ly) < Pair(hx, lx)
    requires sx == 0 || sx == 0x8000_0000
    ensures d.IsFinite() && (d.Negative() <==> sx != 0)
    ensures MagnitudeOf(hy, ly) > 0 && d.Mag() == Rem(MagnitudeOf(hx, lx), MagnitudeOf(hy, ly))
  {
    ghost var a, b := MagnitudeOf(hx, lx), MagnitudeOf(hy, ly);
    MagnitudeOrder(hy, ly, hx, lx);
    PositiveMagnitude(hy, ly);
    var ix := Ilogb(hx, lx);
    var iy := Ilogb(hy, ly);
    var x0, x1 := Align(hx, lx, ix);
    var y0, y1 := Align(hy, ly, iy);
    ExponentOrder(a, Pair(x0, x1), ix, b, Pair(y0, y1), iy);
    RemainderStandsFor(a, Pair(x0, x1), ix, b, Pair(y0, y1), iy);
    RemBound(Scale(Pair(x0, x1), ix - iy), Pair(y0, y1));
    var z0, z1 := FixedPoint(x0, x1, y0, y1, ix - iy);
    OrIsZero(z0, z1);
    if BitOr(z0, z1) == 0 {
      ZeroStandsForZero(iy, Rem(a, b));
      d := ZeroWithSign(sx);
    } else {
      d := Restore(z0, z1, iy, sx, Rem(a, b));
    }
  }

  lemma ZeroStandsForZero(e: int, v: nat)
    requires e >= -1074 && StandsFor(0, e, v)
    ensures v == 0
  {
    ScaleZero(e + 1074);
    ScaleGrows(v, 52);
  }

  /** Zero[(u_int32_t)sx>>31] */
  method ZeroWithSign(sx: u32) returns (d: Double)
    requires sx == 0 || sx == 0x8000_0000
    ensures d.IsFinite() && (d.Negative() <==> sx != 0) && d.Mag() == 0
  {
    WithSign(0, 0, sx);
    assert sx == BitOr(0, sx) by { OrSymmetric(0, sx); OrZero(sx); }
    d := Double(sx, 0);
  }

  /** The NaN test of line 50. */
  lemma NaNTest(h: nat, l: u32)
    ensures BitOr(h, Shr(BitOr(l, Negated(l)), 31)) > 0x7ff0_0000
       <==> Pair(h, l) > Pair(0x7ff0_0000, 0)
  {
    var n := Negated(l);
    OrBounds(l, n);
    assert Scale(1, 31) == 0x8000_0000 && Scale(2, 31) == 0x1_0000_0000 by { ScaleTable(); }
    ScaleZero(31);
    if l == 0 {
      ShrUnique(0, 31, 0);
      OrZero(h);
    } else {
      OrFits(l, n);
      ShrUnique(BitOr(l, n), 31, 1);
      OrBounds(h, 1);
      if h == 0x7ff0_0000 {
        OrDisjointBit(h);
      }
    }
  }

  lemma OrFits(a: u32, b: u32)
    ensures BitOr(a, b) < 0x1_0000_0000
  {
    assert Pow2(32) == 0x1_0000_0000 by { Pow2Table(); }
    OrBelow(a, b, 32);
  }

  lemma OrDisjointBit(h: nat)
    requires h % 2 == 0
    ensures BitOr(h, 1) == h + 1
  {
    Pow2Table();
    OrDisjoint(h, 1, 1);
  }

  /** Lines 52-56: |x| <= |y| needs no division. */
  lemma NoDivision(hx: nat, lx: u32, hy: nat, ly: u32)
    requires 0 < Pair(hy, ly)
    ensures MagnitudeOf(hy, ly) > 0
    ensures Pair(hx, lx) < Pair(hy, ly) ==>
              Rem(MagnitudeOf(hx, lx), MagnitudeOf(hy, ly)) == MagnitudeOf(hx, lx)
    ensures Pair(hx, lx) == Pair(hy, ly) ==> Rem(MagnitudeOf(hx, lx), MagnitudeOf(hy, ly)) == 0
  {
    PositiveMagnitude(hy, ly);
    if Pair(hx, lx) < Pair(hy, ly) {
      MagnitudeOrder(hx, lx, hy, ly);
    } else if Pair(hx, lx) == Pair(hy, ly) {
      PairUnique(hx, lx, hy, ly);
    }
  }

  /** The sign bit of a high word. */
  function SignOf(h: u32): (s: u32)
    ensures s == (if h >= 0x8000_0000 then 0x8000_0000 else 0)
  {
    SignBit(h);
    BitAnd(h, 0x8000_0000)
  }

  /** __ieee754_fmod, lines 33-140. */
  method Fmod(x: Double, y: Double) returns (r: Result)
    ensures y.IsZero() || !x.IsFinite() || y.IsNaN() ==> r == NaN
    ensures x.IsFinite() && y.IsInfinite() ==> r == Number(x)
    ensures x.IsFinite() && y.IsFinite() && !y.IsZero() ==>
              && r.Number? && r.d.IsFinite() && y.Mag() > 0
              && r.d.Mag() == x.Mag() % y.Mag()
              && (r.d.Negative() <==> x.Negative())
  {
    var lx, ly := x.lo, y.lo;
    var sx := SignOf(x.hi);
    var hx: i32 := x.hi - sx;
    ClearSign(y.hi);
    var hy: i32 := BitAnd(y.hi, 0x7fff_ffff);
    assert hx == x.AbsHi() && hy == y.AbsHi();
    OrIsZero(hy, ly);
    NaNTest(hy, ly);
    if BitOr(hy, ly) == 0 || hx >= 0x7ff0_0000
       || BitOr(hy, Shr(BitOr(ly, Negated(ly)), 31)) > 0x7ff0_0000 {
      // (x * y) / (x * y)
      return NaN;
    }
    NoDivision(hx, lx, hy, ly);
    RemIsModulus(x.Mag(), y.Mag());
    if hx <= hy {
      if hx < hy || lx < ly {
        return Number(x);
      }
      if lx == ly {
        return Number(Double(sx, 0));
      }
    }
    var d := Reduce(hx, lx, hy, ly, sx);
    r := Number(d);
  }
}
