/** __ieee754_sqrt: the correctly rounded square root, computed bit by bit on two
    32-bit words (libm/e_sqrt.c).
  */
module Sqrt {
  import opened Words
  import opened Doubles

  // ----- what the square root is, independently of how it is computed -----

  /** r is the correctly rounded square root of v, both in units of 2^-1074.

      The root of v counted in those units is sqrt(v * 2^1074); comparing squares keeps
      it exact. To nearest, every other double lies strictly farther from the root: the
      midpoint (r + o) / 2 is beyond the root on the side of o. The directed modes
      pick the last double on their side of the root.
    */
  ghost predicate CorrectlyRounded(mode: Rounding, v: nat, r: nat) {
    RoundsRootOf(mode, Scale(v, 1074), r)
  }

  ghost predicate RoundsRootOf(mode: Rounding, n: nat, r: nat) {
    match mode
    case Nearest =>
      forall o: nat :: Representable(o) ==>
        (o > r ==> (r + o) * (r + o) > 4 * n) && (o < r ==> (r + o) * (r + o) < 4 * n)
    case Upward =>
      r * r >= n && forall o: nat :: Representable(o) && o < r ==> o * o < n
    case _ =>
      r * r <= n && forall o: nat :: Representable(o) && o > r ==> o * o > n
  }

  /** The definition leaves no choice among the doubles. */
  lemma RootIsUnique(mode: Rounding, v: nat, r: nat, r': nat)
    requires Representable(r) && Representable(r')
    requires CorrectlyRounded(mode, v, r) && CorrectlyRounded(mode, v, r')
    ensures r == r'
  {}

  // ----- normalisation -----

  /** v (in units of 2^-1074) is w * 4^m * 2^-52. */
  predicate IsNormalized(v: nat, w: int, m: int) {
    && -537 <= m <= 511
    && 0x10_0000_0000_0000 <= w <= 0x40_0000_0000_0000 - 2
    && Scale(v, 52) == Scale(w, 2 * m + 1074)
  }

  /** The bit-20 test of the normalising loop, for a word below 2^21. */
  lemma BitTwentyClear(h: nat)
    requires h < 0x20_0000
    ensures BitAnd(h, 0x10_0000) == 0 <==> h < 0x10_0000
  {
    assert Scale(1, 20) == 0x10_0000 && Scale(2, 20) == 0x20_0000 by { ScaleTable(); }
    ScaleZero(20);
    AndBit(h, 20);
    ShrUnique(h, 20, if h < 0x10_0000 then 0 else 1);
  }

  /** Or-ing in a word with twenty zero low bits is undone by the mask of the low twenty. */
  lemma OrKeepsLowBits(h: nat, w: nat)
    requires w % 0x20_0000 == 0
    ensures BitOr(h, w) % 0x10_0000 == h % 0x10_0000
  {
    assert Pow2(20) == 0x10_0000 by { Pow2Table(); }
    ModHalf(w, 0x10_0000);
    OrMod(h, w, 20);
    var q := w / 0x20_0000;
    assert w == (2 * q) * 0x10_0000;
    ModMultiple(2 * q, 0x10_0000);
    OrZero(h % 0x10_0000);
  }

  /** One pass of the loop at line 124: the low word moves up by 21 bits. */
  lemma LiftLow(l: u32)
    ensures BitOr(0, Shr(l, 11)) == Shr(l, 11) < 0x20_0000
    ensures Pair(Shr(l, 11), Shl(l, 21)) == Scale(l, 21)
    ensures Shl(l, 21) % 0x20_0000 == 0
  {
    ScaleZero(21);
    ShiftPairLeft(0, l, 21);
    assert Scale(1, 21) == 0x20_0000 by { ScaleTable(); }
    assert Shl(l, 21) % 0x20_0000 == 0 by { ShlMultiple(l, 21); Pow2Table(); }
  }

  /** A word shifted left by n has n zero low bits. */
  lemma ShlMultiple(l: u32, n: nat)
    requires n <= 32
    ensures Shl(l, n) % Pow2(n) == 0
  {
    var s := ShiftOutOfWord(l, n);
    ScaleIsProduct(s, n);
    ModMultiple(s, Pow2(n));
  }

  /** Lines 124-127: the low word is moved into an empty high word, 21 bits at a time. */
  method FillHighWord(hi: i32, lo: u32) returns (ix0: i32, ix1: u32, m: i32)
    requires 0 <= hi < 0x10_0000 && Pair(hi, lo) > 0
    ensures (m == 0 && ix0 == hi) || m == -21 || (m == -42 && ix0 >= 0x400)
    ensures m != 0 ==> ix1 % 0x20_0000 == 0
    ensures 0 < ix0 < 0x20_0000
    ensures Scale(Pair(hi, lo), 52) == Scale(Pair(ix0, ix1), m + 52)
  {
    ghost var v := Pair(hi, lo);
    ix0, ix1, m := hi, lo, 0;
    while ix0 == 0
      invariant || (m == 0 && ix0 == hi && ix1 == lo)
                || (m == -21 && (ix0 == 0 ==> ix1 >= 0x20_0000))
                || (m == -42 && ix0 >= 0x400)
      invariant m != 0 ==> ix1 % 0x20_0000 == 0
      invariant 0 <= ix0 < 0x20_0000
      invariant Scale(v, 52) == Scale(Pair(ix0, ix1), m + 52)
      decreases m + 42
    {
      LiftLow(ix1);
      ScaleAdd(ix1, 21, m + 31);
      SecondPass(ix1);
      m := m - 21;
      ix0 := BitOr(ix0, Shr(ix1, 11));
      ix1 := Shl(ix1, 21);
    }
  }

  /** A word with no bit above the eleventh needs a second pass, and the second suffices. */
  lemma SecondPass(l: u32)
    requires l > 0
    ensures l < 0x800 <==> Shr(l, 11) == 0
    ensures l >= 0x20_0000 ==> Shr(l, 11) >= 0x400
    ensures Scale(l, 21) >= 0x20_0000
  {
    var q := Shr(l, 11);
    ShrRemainder(l, 11);
    assert Scale(1, 11) == 0x800 && Scale(0x400, 11) == 0x20_0000 by {
      ScaleTable();
      ScaleAdd(1, 10, 11);
    }
    assert l < 0x800 <==> q == 0 by {
      ScaleZero(11);
      ScaleMono(1, q, 11);
      ScaleMono(q + 1, 1, 11);
    }
    ScaleMono(0x400, q + 1, 11);
    assert Scale(l, 21) >= 0x20_0000 by { ScaleTable(); ScaleMono(1, l, 21); }
  }

  /** w >> n for a count up to 32. C leaves a count of 32 undefined: a machine yields
      either 0 or, when it takes the count modulo 32, the word unshifted. */
  function ShrByCount(w: u32, n: nat, countsModulo32: bool): u32 {
    if n < 32 then Shr(w, n) else if countsModulo32 then w else 0
  }

  /** Lines 124-132: scaling a subnormal until bit 20 of the high word is set.

      When the loop at line 128 does not run, line 130 shifts by 32 places. The result is
      the same on every machine, because the low 21 bits of ix1 are zero by then and
      line 134 masks the rest.
    */
  method NormalizeSubnormal(hi: i32, lo: u32, countsModulo32: bool)
    returns (ix0: i32, ix1: u32, m: i32)
    requires 0 <= hi < 0x10_0000 && Pair(hi, lo) > 0
    ensures -51 <= m <= 0
    ensures Scale(Pair(hi, lo), 52)
         == Scale(Pair(0x10_0000 + ToU32(ix0) % 0x10_0000, ix1), m + 51)
  {
    ix0, ix1, m := FillHighWord(hi, lo);
    ghost var h, l, e := ix0, ix1, m + 52;
    var i: i32 := 0;
    while BitAnd(ix0, 0x10_0000) == 0
      invariant 0 <= i <= 20 && (e == 10 ==> i <= 10)
      invariant ix0 == Scale(h, i) && 0 < ix0 < 0x20_0000
      decreases 20 - i
    {
      BitTwentyClear(ix0);
      ix0 := ix0 + ix0;
      i := i + 1;
      ScaleLast(h, i);
      GrowthBound(h, i, e);
    }
    BitTwentyClear(ix0);
    m := m - (i - 1);
    PullIn(h, l, i, countsModulo32);
    ScaleAdd(Pair(h, l), i, m + 51);
    ix0 := ToI32(BitOr(ix0, ShrByCount(ix1, 32 - i, countsModulo32)));
    ix1 := Shl(ix1, i);
  }

  /** Lines 130-131 keep the value of the pair. */
  lemma PullIn(h: nat, l: u32, i: nat, countsModulo32: bool)
    requires 0x10_0000 <= Scale(h, i) < 0x20_0000 && i <= 20
    requires i == 0 ==> l % 0x20_0000 == 0
    ensures var ix0 := ToI32(BitOr(Scale(h, i), ShrByCount(l, 32 - i, countsModulo32)));
            Pair(0x10_0000 + ToU32(ix0) % 0x10_0000, Shl(l, i)) == Scale(Pair(h, l), i)
  {
    var t := BitOr(Scale(h, i), ShrByCount(l, 32 - i, countsModulo32));
    SignedKeepsLowBits(t);
    if i == 0 {
      PullNothing(h, l, countsModulo32);
    } else {
      PullBits(h, l, i);
    }
  }

  lemma PullNothing(h: nat, l: u32, countsModulo32: bool)
    requires 0x10_0000 <= h < 0x20_0000 && l % 0x20_0000 == 0
    ensures 0x10_0000 + BitOr(h, ShrByCount(l, 32, countsModulo32)) % 0x10_0000 == h
  {
    OrKeepsLowBits(h, ShrByCount(l, 32, countsModulo32));
    DivModUnique(h, 0x10_0000, 1, h - 0x10_0000);
  }

  lemma PullBits(h: nat, l: u32, i: nat)
    requires 0x10_0000 <= Scale(h, i) < 0x20_0000 && 1 <= i <= 20
    ensures Pair(0x10_0000 + BitOr(Scale(h, i), Shr(l, 32 - i)) % 0x10_0000, Shl(l, i))
         == Scale(Pair(h, l), i)
  {
    ShiftPairLeft(h, l, i);
    var t := Scale(h, i) + Shr(l, 32 - i);
    TopAligned(Scale(h, i), Shr(l, 32 - i), h, i);
    DivModUnique(t, 0x10_0000, 1, t - 0x10_0000);
  }

  lemma SignedKeepsLowBits(x: nat)
    ensures ToU32(ToI32(x)) % 0x10_0000 == x % 0x10_0000
  {
    ToU32IsModulus(x);
    var q, r := x / 0x1_0000_0000, x % 0x1_0000_0000;
    assert x == q * 0x1_0000_0000 + r;
    var a, b := r / 0x10_0000, r % 0x10_0000;
    DivModUnique(x, 0x10_0000, q * 0x1000 + a, b);
  }

  /** A multiple of 2^i below 2^21 stays below 2^21 when bits under 2^i are added. */
  lemma TopAligned(t: int, c: int, h: int, i: nat)
    requires 0x10_0000 <= t == Scale(h, i) < 0x20_0000 && 0 <= c < Scale(1, i) && i <= 20
    ensures t + c < 0x20_0000
  {
    ScaleAdd(1, 21 - i, i);
    ScaleTable();
    ScaleMono(h, Scale(1, 21 - i), i);
    ScaleMono(h + 1, Scale(1, 21 - i), i);
    ScaleSum(h, 1, i);
  }

  lemma GrowthBound(h: int, i: nat, e: int)
    requires h >= 1 && Scale(h, i) < 0x20_0000
    requires e == 10 ==> h >= 0x400
    ensures i <= 20 && (e == 10 ==> i <= 10)
  {
    ScaleTable();
    ScaleMono(1, h, i);
    if i > 20 {
      ScaleAdd(1, 21, i - 21);
      ScaleGrows(0x20_0000, i - 21);
    }
    if e == 10 && i > 10 {
      ScaleAdd(0x400, 11, i - 11);
      ScaleGrows(Scale(0x400, 11), i - 11);
      ScaleAdd(1, 10, 11);
      ScaleMono(0x400, h, i);
    }
  }

  /** The doubling written out at lines 136, 142, 154 and 171. */
  method Twice(h: i32, l: u32) returns (h': i32, l': u32)
    requires -0x2000_0000 <= h < 0x2000_0000
    ensures Pair(h', l') == 2 * Pair(h, l)
  {
    h' := h + h + TopBit(l);
    l' := ToU32(l + l);
  }

  /** Lines 135-139: an odd exponent is made even by doubling, then halved. */
  lemma EvenExponent(v: nat, w: nat, m: int)
    requires -1074 <= m <= 1023 && 0x10_0000_0000_0000 <= w < 0x20_0000_0000_0000
    requires Scale(v, 52) == Scale(w, m + 1074)
    ensures IsNormalized(v, if m % 2 == 1 then 2 * w else w, m / 2)
  {
    if m % 2 == 1 {
      assert m == 2 * (m / 2) + 1;
      assert Scale(w, m + 1074) == Scale(2 * w, m + 1073);
    }
  }

  /** Lines 122-139: any finite positive x is w * 4^m * 2^-52 with 2^52 <= w < 2^54. */
  method Normalize(hi: i32, lo: u32, countsModulo32: bool) returns (ix0: i32, ix1: u32, m: i32)
    requires 0 <= hi < 0x7ff0_0000 && Pair(hi, lo) > 0
    ensures IsNormalized(MagnitudeOf(hi, lo), Pair(ix0, ix1), m)
  {
    ghost var v := MagnitudeOf(hi, lo);
    ix0, ix1 := hi, lo;
    ExponentField(hi);
    m := Shr(hi, 20);
    if m == 0 {
      ix0, ix1, m := NormalizeSubnormal(hi, lo, countsModulo32);
    } else {
      NormalMagnitude(hi, lo);
    }
    m := m - 1023;
    HiddenBit(ToU32(ix0));
    ix0 := BitOr(BitAnd(ToU32(ix0), 0xf_ffff), 0x10_0000);
    EvenExponent(v, Pair(ix0, ix1), m);
    if m % 2 == 1 {
      ix0, ix1 := Twice(ix0, ix1);
    }
    m := m / 2;
  }

  // ----- the digit recurrence -----

  /** y is the remainder n - q^2 scaled so that the next digit of the root is 2^(k-1). */
  predicate ScaledRemainder(n: int, q: nat, y: int, k: nat) {
    Scale(y, k) == 2 * (n - Square(q))
  }

  /** q^2 as a sum of odd numbers, so that the loops below stay linear for the solver. */
  function Square(q: nat): nat {
    if q == 0 then 0 else Square(q - 1) + 2 * q - 1
  }

  lemma {:induction false} SquareIsProduct(q: nat)
    ensures Square(q) == q * q
  {
    if q > 0 {
      SquareIsProduct(q - 1);
      assert (q - 1) * (q - 1) == q * q - 2 * q + 1;
    }
  }

  /** What both loops keep: the scaled remainder is right and the root so far is the
      largest one with its digits, so every digit below the next weighs too little. */
  predicate RootSoFar(n: int, q: nat, y: int, k: nat) {
    ScaledRemainder(n, q, y, k) && 0 <= y < 4 * q + 2 * Pow2(k)
  }

  lemma SumSquared(q: int, r: int)
    ensures (q + r) * (q + r) == q * q + (2 * q + r) * r
  {}

  lemma SquareOfSum(q: nat, r: nat)
    ensures Square(q + r) == Square(q) + (2 * q + r) * r
  {
    SquareIsProduct(q);
    SquareIsProduct(q + r);
    SumSquared(q, r);
  }

  /** Entering the digit r into the root, or leaving it out. */
  lemma NextRoot(n: int, q: nat, y: int, r: nat, k: nat)
    requires k > 0 && r == Pow2(k - 1) && RootSoFar(n, q, y, k)
    ensures y >= 2 * q + r ==> RootSoFar(n, q + r, 2 * (y - (2 * q + r)), k - 1)
    ensures y < 2 * q + r ==> RootSoFar(n, q, 2 * y, k - 1)
  {
    var d := 2 * q + r;
    SquareOfSum(q, r);
    ScaleSum(y - d, d, k);
    ScaleLast(d, k);
    ScaleIsProduct(d, k - 1);
  }

  /** Before the first digit the root is 0 and the remainder all of the argument. */
  lemma FirstRoot(w: nat)
    requires w < 0x40_0000_0000_0000
    ensures RootSoFar(Scale(w, 54), 0, 2 * w, 54)
    ensures Pow2(54 - 33) == 0x20_0000
  {
    ScaleLast(w, 55);
    Pow2Table();
  }

  /** The loop at line 147 keeps: s0 is twice the root, r the next digit. */
  predicate HighState(n: int, q: i32, s0: i32, r: u32, y: int, k: nat) {
    && k >= 32 && (if r == 0 then k == 32 else k >= 33 && r == Pow2(k - 33))
    && s0 == 2 * q && 0 <= q < 0x40_0000 && q + 2 * r <= 0x40_0000
    && RootSoFar(n, Pair(q, 0), y, k)
  }

  /** Lines 142-157: the 22 digits of the root that lie in its high word. */
  method HighDigits(ghost n: int, w0: i32, w1: u32, ghost top: nat)
    returns (q: i32, s0: i32, ix0: i32, ix1: u32)
    requires 0 <= Pair(w0, w1) < 0x40_0000_0000_0000
    requires top >= 33 && Pow2(top - 33) == 0x20_0000
    requires RootSoFar(n, 0, 2 * Pair(w0, w1), top)
    ensures s0 == 2 * q && 0 <= q < 0x40_0000
    ensures RootSoFar(n, Pair(q, 0), Pair(ix0, ix1), 32)
  {
    ix0, ix1 := Twice(w0, w1);
    q, s0 := 0, 0;
    var r: u32 := 0x20_0000;
    ghost var k := top;
    while r != 0
      invariant HighState(n, q, s0, r, Pair(ix0, ix1), k)
    {
      q, s0, ix0, ix1 := HighDigit(n, k, q, s0, r, ix0, ix1);
      r := r / 2;
      k := k - 1;
    }
  }

  /** Lines 148-155: one digit of the high word. */
  method HighDigit(ghost n: int, ghost k: nat, q0: i32, d0: i32, r: u32, y0: i32, y1: u32)
    returns (q: i32, s0: i32, ix0: i32, ix1: u32)
    requires r > 0 && HighState(n, q0, d0, r, Pair(y0, y1), k)
    ensures HighState(n, q, s0, r / 2, Pair(ix0, ix1), k - 1)
  {
    q, s0, ix0, ix1 := q0, d0, y0, y1;
    HighDigitBit(r, k);
    MovingBit(r, k - 33);
    NextRoot(n, Pair(q, 0), Pair(ix0, ix1), Pair(r, 0), k);
    var t := s0 + r;
    if t <= ix0 {
      s0 := t + r;
      ix0 := ix0 - t;
      q := q + r;
    }
    assert RootSoFar(n, Pair(q, 0), 2 * Pair(ix0, ix1), k - 1);
    ix0, ix1 := Twice(ix0, ix1);
  }

  /** The shift of the moving bit at lines 156 and 173. */
  lemma MovingBit(r: nat, j: nat)
    requires r == Pow2(j)
    ensures if j == 0 then r == 1 else r == 2 * (r / 2) && r / 2 == Pow2(j - 1)
  {}

  /** The moving bit of the high word as a bit of the pair. */
  lemma HighDigitBit(r: nat, k: nat)
    requires k >= 33 && r == Pow2(k - 33)
    ensures Pair(r, 0) == Pow2(k - 1)
  {
    Pow2Add(k - 33, 32);
    assert Pow2(32) == 0x1_0000_0000 by { Pow2Table(); }
  }

  /** Lines 164-165: s1 = t1 + r, the wrap of the low word recognised by its top bit. */
  method AddDigit(s0: i32, t1: u32, r: u32) returns (s0': i32, s1': u32)
    requires 0 <= s0 < 0x100_0000
    requires (t1 == r == 0x8000_0000) || t1 + r < 0x1_0000_0000
    ensures Pair(s0', s1') == Pair(s0, t1) + r
    ensures if t1 + r < 0x1_0000_0000 then s0' == s0 && s1' == t1 + r else s0' == s0 + 1 && s1' == 0
  {
    s0', s1' := s0, ToU32(t1 + r);
    SignBit(t1);
    SignBit(s1');
    if BitAnd(t1, 0x8000_0000) == 0x8000_0000 && BitAnd(s1', 0x8000_0000) == 0 {
      s0' := s0' + 1;
    }
  }

  /** Lines 166-168: subtraction of pairs with the borrow from the high word. */
  method Subtract(h: i32, l: u32, t: i32, t1: u32) returns (h': i32, l': u32)
    requires 0 <= t <= h
    ensures Pair(h', l') == Pair(h, l) - Pair(t, t1)
  {
    h' := h - t;
    if l < t1 {
      h' := h' - 1;
    }
    l' := ToU32(l - t1);
  }

  /** The loop at line 160 keeps: s0:s1 is twice the root, r the next digit, and the low
      words leave room for the digits still to come. */
  predicate LowState(n: int, q: i32, q1: u32, s0: i32, s1: u32, r: u32, y: int, k: nat) {
    LowWords(q, q1, s0, s1, r, k) && RootSoFar(n, Pair(q, q1), y, k)
  }

  predicate LowWords(q: i32, q1: u32, s0: i32, s1: u32, r: u32, k: nat) {
    && 0 <= q < 0x40_0000
    && (if r == 0 then k == 0 else k >= 1 && r == Pow2(k - 1))
    && Pair(s0, s1) == 2 * Pair(q, q1) && 2 * q <= s0 <= 2 * q + 1
    && ((r == 0x8000_0000 && s1 == 0) || s1 + 4 * r <= 0x1_0000_0000)
    && q1 + 2 * r <= 0x1_0000_0000
    && r <= 0x8000_0000
  }

  lemma LowRemainderBound(k: nat)
    requires k == 0 || Pow2(k - 1) <= 0x8000_0000
    ensures Pow2(k) <= 0x1_0000_0000
  {}

  /** Lines 161-172: one digit of the low word. */
  method LowDigit(ghost n: int, ghost k: nat, q: i32, q0: u32, d0: i32, d1: u32, r: u32, y0: i32, y1: u32)
    returns (q1: u32, s0: i32, s1: u32, ix0: i32, ix1: u32)
    requires r > 0 && LowState(n, q, q0, d0, d1, r, Pair(y0, y1), k)
    ensures LowState(n, q, q1, s0, s1, r / 2, Pair(ix0, ix1), k - 1)
  {
    q1, s0, s1, ix0, ix1 := q0, d0, d1, y0, y1;
    MovingBit(r, k - 1);
    var t1: u32 := s1 + r;
    var t := s0;
    ghost var next := if Pair(t, t1) <= Pair(ix0, ix1) then q1 + r else q1;
    ghost var y := NextLow(n, k, q, q1, s0, s1, r, Pair(ix0, ix1));
    if t < ix0 || (t == ix0 && t1 <= ix1) {
      s0, s1, ix0, ix1 := EnterDigit(s0, t1, r, ix0, ix1);
      q1 := q1 + r;
    }
    assert q1 == next && 2 * Pair(ix0, ix1) == y;
    ix0, ix1 := Twice(ix0, ix1);
  }

  /** The next remainder, y - (2q + r) or y, doubled, stays within the words. */
  lemma NextLow(n: int, k: nat, q: i32, q1: u32, s0: i32, s1: u32, r: u32, y: int) returns (y': int)
    requires r > 0 && LowState(n, q, q1, s0, s1, r, y, k)
    ensures var d := Pair(s0, s1) + r;
            && y' == 2 * (if d <= y then y - d else y)
            && RootSoFar(n, Pair(q, if d <= y then q1 + r else q1), y', k - 1)
    ensures 0 <= y' < 0x4000_0000_0000_0000
  {
    LowRemainderBound(k);
    NextRoot(n, Pair(q, q1), y, r, k);
    var d := Pair(s0, s1) + r;
    y' := 2 * (if d <= y then y - d else y);
  }

  /** Lines 164-168 */
  method EnterDigit(d0: i32, t1: u32, r: u32, y0: i32, y1: u32) returns (s0: i32, s1: u32, ix0: i32, ix1: u32)
    requires 0 <= d0 <= y0 && d0 < 0x100_0000
    requires (t1 == r == 0x8000_0000) || t1 + r < 0x1_0000_0000
    ensures Pair(s0, s1) == Pair(d0, t1) + r && Pair(ix0, ix1) == Pair(y0, y1) - Pair(d0, t1)
    ensures if t1 + r < 0x1_0000_0000 then s0 == d0 && s1 == t1 + r else s0 == d0 + 1 && s1 == 0
  {
    s0, s1 := AddDigit(d0, t1, r);
    ix0, ix1 := Subtract(y0, y1, d0, t1);
  }

  /** Lines 159-174: the 32 digits in the low word, with the carry of s1 into s0 and the
      borrow of ix1 from ix0 done by hand. */
  method LowDigits(ghost n: int, q: i32, d0: i32, y0: i32, y1: u32)
    returns (q1: u32, ix0: i32, ix1: u32)
    requires d0 == 2 * q && 0 <= q < 0x40_0000
    requires RootSoFar(n, Pair(q, 0), Pair(y0, y1), 32)
    ensures RootSoFar(n, Pair(q, q1), Pair(ix0, ix1), 0)
  {
    var s0, s1: u32 := d0, 0;
    q1, ix0, ix1 := 0, y0, y1;
    var r: u32 := 0x8000_0000;
    ghost var k: nat := 32;
    assert Pow2(31) == 0x8000_0000 by { Pow2Table(); }
    while r != 0
      invariant LowState(n, q, q1, s0, s1, r, Pair(ix0, ix1), k)
    {
      q1, s0, s1, ix0, ix1 := LowDigit(n, k, q, q1, s0, s1, r, ix0, ix1);
      r := r / 2;
      k := k - 1;
    }
  }

  // ----- rounding -----

  /** k is the correctly rounded integer root of n / 4. */
  predicate RootRounded(mode: Rounding, n: nat, k: nat) {
    match mode
    case Nearest => k > 0 && Square(2 * k - 1) < n < Square(2 * k + 1)
    case Upward => k > 0 && Square(2 * k - 2) < n <= Square(2 * k)
    case _ => Square(2 * k) <= n < Square(2 * k + 2)
  }

  /** What lines 177-190 make of the 54 root digits q; the last digit is a guard bit. */
  function RoundedRoot(mode: Rounding, q: nat, exact: bool): nat {
    if exact then q / 2
    else
      match mode
      case Nearest => (q + 1) / 2
      case Upward => q / 2 + 1
      case _ => q / 2
  }

  lemma SquareMono(a: nat, b: nat)
    ensures a < b ==> Square(a) < Square(b)
    ensures a <= b ==> Square(a) <= Square(b)
  {
    SquareIsProduct(a);
    SquareIsProduct(b);
    if a <= b {
      MulMono(a, b, a);
      MulMono(a, b, b);
    }
    if a < b {
      MulMono(a + 1, b, b);
    }
  }

  lemma SquareParity(q: nat)
    ensures Square(q) % 2 == q % 2
  {
    SquareIsProduct(q);
    var h, b := q / 2, q % 2;
    assert q * q == 2 * (2 * h * h + 2 * h * b) + b * b;
    DivModUnique(q * q, 2, 2 * h * h + 2 * h * b, b * b);
  }

  /** The digits with their guard bit round correctly: an exact root is even, and a root
      with the guard bit set but no remainder does not exist, so ties never occur. */
  lemma RoundingIsCorrect(mode: Rounding, n: nat, q: nat, exact: bool)
    requires Square(q) <= n < Square(q + 1) && q > 1 && n % 2 == 0
    requires exact <==> n == Square(q)
    ensures RootRounded(mode, n, RoundedRoot(mode, q, exact))
  {
    SquareParity(q);
    SquareMono(q - 1, q);
    SquareMono(q + 1, q + 2);
    assert q == 2 * (q / 2) || q == 2 * (q / 2) + 1;
  }

  /** Lines 177-188. The probe one-tiny >= one fails in the modes that truncate, and
      one+tiny > one holds only when rounding upward. */
  method Round(mode: Rounding, q: i32, q1: u32, ix0: i32, ix1: u32) returns (p: i32, p1: u32)
    requires 0 <= q < 0x40_0000 && 0 <= ix0
    ensures 0 <= p <= 0x40_0000
    ensures Pair(q, q1) <= Pair(p, p1) <= Pair(q, q1) + 2
    ensures Pair(p, p1) / 2 == RoundedRoot(mode, Pair(q, q1), Pair(ix0, ix1) == 0)
  {
    p, p1 := q, q1;
    OrIsZero(ix0, ix1);
    if BitOr(ix0, ix1) != 0 {
      p, p1 := RoundInexact(mode, q, q1);
    }
  }

  /** Lines 178-187. */
  method RoundInexact(mode: Rounding, q: i32, q1: u32) returns (p: i32, p1: u32)
    requires 0 <= q < 0x40_0000
    ensures 0 <= p <= 0x40_0000
    ensures Pair(q, q1) <= Pair(p, p1) <= Pair(q, q1) + 2
    ensures Pair(p, p1) / 2 == RoundedRoot(mode, Pair(q, q1), false)
  {
    p, p1 := q, q1;
    if mode.Nearest? || mode.Upward? {
      if p1 == 0xffff_ffff {
        p1 := 0;
        p := p + 1;
      } else if mode.Upward? {
        if p1 == 0xffff_fffe {
          p := p + 1;
        }
        p1 := ToU32(p1 + 2);
      } else {
        p1 := p1 + p1 % 2;
      }
    }
  }

  /** Lines 189-193: the guard bit is dropped and the digits meet the exponent. When
      rounding upward carries into a 54th bit, the addition of the digits to the exponent
      field moves on to the next binade by itself. */
  method Pack(q: i32, q1: u32, m: i32) returns (z: Double)
    requires 0x20_0000_0000_0000 <= Pair(q, q1) < 0x40_0000_0000_0000 + 2 && 0 <= q
    requires -537 <= m <= 511
    ensures z.IsFinite() && !z.Negative()
    ensures z.Mag() == Scale(Pair(q, q1) / 2, m + 1022)
  {
    var ix0: i32 := q / 2 + 0x3fe0_0000;
    var ix1: u32 := q1 / 2;
    if q % 2 == 1 {
      OrTopBit(ix1);
      ix1 := BitOr(ix1, 0x8000_0000);
    }
    ix0 := ix0 + m * 0x10_0000;
    z := Double(ix0, ix1);
    ghost var k := Pair(q, q1) / 2;
    assert Pair(ix0, ix1) == k + (m + 1022) * 0x10_0000_0000_0000;
    if k < 0x20_0000_0000_0000 {
      MagnitudeWithExponent(k, m + 1022, ix0, ix1);
    } else {
      MagnitudeWithExponent(k / 2, m + 1023, ix0, ix1);
    }
  }

  // ----- from the digits to the correctly rounded double -----

  /** Squares on a grid of spacing p against n digits of the same grid. */
  lemma ScaledSquares(s: nat, x: nat, p: nat, n: nat, four: nat)
    requires p > 0 && four == n * (p * p)
    ensures s >= x * p && Square(x) > n ==> s * s > four
    ensures s >= x * p && Square(x) >= n ==> s * s >= four
    ensures s <= x * p && Square(x) < n ==> s * s < four
    ensures s <= x * p && Square(x) <= n ==> s * s <= four
    ensures s < x * p && Square(x) <= n ==> s * s < four
  {
    var t, c := x * p, p * p;
    MulOrder(0, p, p);
    SquareOfProduct(x, p);
    MulOrder(Square(x), n, c);
    MulOrder(n, Square(x), c);
    OrderOfSquares(s, t);
    OrderOfSquares(t, s);
  }

  lemma SquareOfProduct(x: nat, p: nat)
    ensures (x * p) * (x * p) == Square(x) * (p * p)
  {
    SquareIsProduct(x);
    assert (x * p) * (x * p) == (x * x) * (p * p);
  }

  lemma OrderOfSquares(a: nat, b: nat)
    ensures a < b ==> a * a < b * b
    ensures a <= b ==> a * a <= b * b
  {
    SquareIsProduct(a);
    SquareIsProduct(b);
    SquareMono(a, b);
  }

  /** Where another double can lie beside r = k * 2^t. */
  lemma Neighbours(k: nat, t: nat, r: nat, o: nat)
    requires 0x10_0000_0000_0000 <= k && r == k * Pow2(t) && Representable(o)
    ensures o > r ==> o >= (k + 1) * Pow2(t)
    ensures o < r ==> o <= (k - 1) * Pow2(t) || k == 0x10_0000_0000_0000
  {
    var p, h := Pow2(t), 0x10_0000_0000_0000;
    ScaleIsProduct(h, t);
    MulMono(h, k, p);
    if o >= h * p {
      var j := GridGap(o, t);
      ScaleIsProduct(j, t);
      if o > r && j <= k { MulMono(j, k, p); }
      if o > r { MulMono(k + 1, j, p); }
      if o < r && j >= k { MulMono(k, j, p); }
      if o < r { MulMono(j, k - 1, p); }
    } else if k > h {
      MulMono(h, k - 1, p);
    }
  }

  /** The units of the digits and the units of the doubles agree. */
  lemma GridOfDigits(v: nat, w: nat, m: int)
    requires IsNormalized(v, w, m)
    ensures 4 * Scale(v, 1074) == Scale(w, 54) * (Pow2(m + 1022) * Pow2(m + 1022))
  {
    var t := m + 1022;
    FourTimes(v);
    ScaleAdd(v, 52, 1024);
    ScaleAdd(w, 2 * m + 1074, 1024);
    ScaleAdd(w, 54, t + t);
    TwicePow2(Scale(w, 54), t);
  }

  lemma FourTimes(v: nat)
    ensures Scale(v, 1076) == 4 * Scale(v, 1074)
  {
    ScaleAdd(v, 1074, 2);
    ScaleIsProduct(Scale(v, 1074), 2);
    Pow2Table();
  }

  lemma TwicePow2(s: nat, t: nat)
    ensures Scale(s, t + t) == s * (Pow2(t) * Pow2(t))
  {
    ScaleIsProduct(s, t + t);
    Pow2Add(t, t);
  }

  /** n, in the units of the doubles, has the digits d on a grid of spacing p / 2, and the
      rounded root of d is the double r. */
  predicate OnGrid(n: nat, d: nat, k: nat, p: nat, r: nat) {
    && p > 0 && k >= 0x10_0000_0000_0000
    && d >= Square(0x20_0000_0000_0000)
    && 4 * n == d * (p * p) && r == k * p
  }

  lemma Above(mode: Rounding, n: nat, d: nat, k: nat, p: nat, r: nat, o: nat)
    requires OnGrid(n, d, k, p, r) && RootRounded(mode, d, k)
    requires o >= (k + 1) * p
    ensures mode.Nearest? ==> (r + o) * (r + o) > 4 * n
    ensures mode.Downward? || mode.TowardZero? ==> o * o > n
  {
    if mode.Nearest? {
      Distribute(k, k + 1, p);
      ScaledSquares(r + o, k + (k + 1), p, d, 4 * n);
    } else {
      Distribute(k + 1, k + 1, p);
      ScaledSquares(2 * o, (k + 1) + (k + 1), p, d, 4 * n);
      FourSquares(o);
    }
  }

  lemma FourSquares(o: nat)
    ensures (2 * o) * (2 * o) == 4 * (o * o)
  {}

  lemma Below(mode: Rounding, n: nat, d: nat, k: nat, p: nat, r: nat, o: nat)
    requires OnGrid(n, d, k, p, r) && RootRounded(mode, d, k)
    requires o <= (k - 1) * p
    ensures mode.Nearest? ==> (r + o) * (r + o) < 4 * n
    ensures mode.Upward? ==> o * o < n
  {
    if mode.Nearest? {
      Distribute(k, k - 1, p);
      ScaledSquares(r + o, k + (k - 1), p, d, 4 * n);
    } else {
      Distribute(k - 1, k - 1, p);
      ScaledSquares(2 * o, (k - 1) + (k - 1), p, d, 4 * n);
      FourSquares(o);
    }
  }

  /** Just below a power of two the doubles are twice as dense, but there the root itself
      is not below r. */
  lemma BelowPowerOfTwo(n: nat, d: nat, k: nat, p: nat, r: nat, o: nat)
    requires OnGrid(n, d, k, p, r) && k == 0x10_0000_0000_0000 && o < r
    ensures (r + o) * (r + o) < 4 * n && o * o < n
  {
    Distribute(k, k, p);
    ScaledSquares(r + o, k + k, p, d, 4 * n);
    ScaledSquares(2 * o, k + k, p, d, 4 * n);
    FourSquares(o);
  }

  lemma RootItself(mode: Rounding, n: nat, d: nat, k: nat, p: nat, r: nat)
    requires OnGrid(n, d, k, p, r) && RootRounded(mode, d, k)
    ensures mode.Upward? ==> r * r >= n
    ensures mode.Downward? || mode.TowardZero? ==> r * r <= n
  {
    Distribute(k, k, p);
    ScaledSquares(2 * r, k + k, p, d, 4 * n);
    FourSquares(r);
  }

  /** A root rounded digit by digit is the rounded root among the doubles. */
  lemma DigitsRoundCorrectly(mode: Rounding, n: nat, d: nat, k: nat, t: nat, r: nat)
    requires OnGrid(n, d, k, Pow2(t), r) && RootRounded(mode, d, k)
    ensures RoundsRootOf(mode, n, r)
  {
    var p := Pow2(t);
    RootItself(mode, n, d, k, p, r);
    forall o: nat | Representable(o)
      ensures mode.Nearest? ==>
        (o > r ==> (r + o) * (r + o) > 4 * n) && (o < r ==> (r + o) * (r + o) < 4 * n)
      ensures mode.Upward? && o < r ==> o * o < n
      ensures (mode.Downward? || mode.TowardZero?) && o > r ==> o * o > n
    {
      Neighbours(k, t, r, o);
      if o > r {
        Above(mode, n, d, k, p, r, o);
      } else if o < r {
        if o <= (k - 1) * p {
          Below(mode, n, d, k, p, r, o);
        } else {
          BelowPowerOfTwo(n, d, k, p, r, o);
        }
      }
    }
  }

  /** The digits left by the two loops: q is the integer root of n, and the remainder
      is zero exactly when n is a perfect square. */
  lemma RootDigits(n: nat, q: nat, y: nat)
    requires RootSoFar(n, q, y, 0)
    ensures Square(q) <= n < Square(q + 1)
    ensures y == 0 <==> n == Square(q)
  {}

  /** The argument scaled to 106 bits leaves a root of 54 bits. */
  lemma RootSize(w: nat, q: nat)
    requires 0x10_0000_0000_0000 <= w < 0x40_0000_0000_0000
    requires Square(q) <= Scale(w, 54) < Square(q + 1)
    ensures 0x20_0000_0000_0000 <= q < 0x40_0000_0000_0000
    ensures Scale(w, 54) >= Square(0x20_0000_0000_0000) && Scale(w, 54) % 2 == 0
  {
    ScaleIsProduct(w, 54);
    assert Pow2(54) == 0x40_0000_0000_0000 by { Pow2Table(); }
    RootOfProduct(w, q, 0x20_0000_0000_0000, Scale(w, 54));
    ScaleLast(w, 54);
  }

  /** Rounding to nearest never carries out of 53 bits: the largest argument has the digits
      2^54 - 2, and what the digits are rounded to stays between 2^52 and 2^53. */
  lemma NearestNeverCarries(w: nat, q: nat, exact: bool)
    requires 0x10_0000_0000_0000 <= w <= 0x40_0000_0000_0000 - 2
    requires Square(q) <= Scale(w, 54) < Square(q + 1)
    ensures q <= 0x40_0000_0000_0000 - 2
    ensures 0x10_0000_0000_0000 <= RoundedRoot(Nearest, q, exact) < 0x20_0000_0000_0000
  {
    RootSize(w, q);
    var top := 0x40_0000_0000_0000;
    assert Scale(w, 54) <= (top - 2) * top by {
      ScaleIsProduct(w, 54);
      Pow2Table();
      MulMono(w, top - 2, top);
    }
    SquareIsProduct(top - 1);
    assert (top - 1) * (top - 1) > (top - 2) * top;
    SquareMono(top - 1, q);
  }

  lemma RootOfProduct(w: nat, q: nat, h: nat, n: nat)
    requires n == w * (2 * h) == 2 * w * h && h <= 2 * w && w < 2 * h
    requires Square(q) <= n < Square(q + 1)
    ensures h <= q < 2 * h && n >= Square(h)
  {
    SquareBelowProduct(h, 2 * w, h);
    SquareAboveProduct(2 * h, w, 2 * h);
    SquareMono(q + 1, h);
    SquareMono(2 * h, q);
  }

  lemma SquareBelowProduct(s: nat, a: nat, b: nat)
    requires s <= a && s <= b
    ensures Square(s) <= a * b
  {
    SquareIsProduct(s);
    MulMono(s, b, s);
    MulMono(s, a, b);
  }

  lemma SquareAboveProduct(s: nat, a: nat, b: nat)
    requires a < s && b <= s && b > 0
    ensures Square(s) > a * b
  {
    SquareIsProduct(s);
    MulOrder(a, s, b);
    MulMono(b, s, s);
  }

  /** Lines 141-174: the 54 digits of the root of w * 2^54, and its remainder. */
  method Digits(w0: i32, w1: u32) returns (q: i32, q1: u32, ix0: i32, ix1: u32)
    requires 0x10_0000_0000_0000 <= Pair(w0, w1) < 0x40_0000_0000_0000
    ensures 0 <= q && 0 <= ix0 && 0x20_0000_0000_0000 <= Pair(q, q1) < 0x40_0000_0000_0000
    ensures Square(Pair(q, q1)) <= Scale(Pair(w0, w1), 54) < Square(Pair(q, q1) + 1)
    ensures Pair(ix0, ix1) == 0 <==> Scale(Pair(w0, w1), 54) == Square(Pair(q, q1))
  {
    ghost var w := Pair(w0, w1);
    FirstRoot(w);
    var s0;
    q, s0, ix0, ix1 := HighDigits(Scale(w, 54), w0, w1, 54);
    q1, ix0, ix1 := LowDigits(Scale(w, 54), q, s0, ix0, ix1);
    RootDigits(Scale(w, 54), Pair(q, q1), Pair(ix0, ix1));
    RootSize(w, Pair(q, q1));
  }

  /** Lines 121-194, past the special cases. */
  method PositiveRoot(hi: i32, lo: u32, mode: Rounding, countsModulo32: bool) returns (z: Double)
    requires 0 <= hi < 0x7ff0_0000 && Pair(hi, lo) > 0
    ensures z.IsFinite() && !z.Negative()
    ensures CorrectlyRounded(mode, MagnitudeOf(hi, lo), z.Mag())
  {
    var ix0, ix1, m := Normalize(hi, lo, countsModulo32);
    ghost var v, w := MagnitudeOf(hi, lo), Pair(ix0, ix1);
    var q, q1, y0, y1 := Digits(ix0, ix1);
    ghost var root, n := Pair(q, q1), Scale(w, 54);
    RootSize(w, root);
    RoundingIsCorrect(mode, n, root, Pair(y0, y1) == 0);
    q, q1 := Round(mode, q, q1, y0, y1);
    z := Pack(q, q1, m);
    ghost var k := Pair(q, q1) / 2;
    GridOfDigits(v, w, m);
    ScaleIsProduct(k, m + 1022);
    DigitsRoundCorrectly(mode, Scale(v, 1074), n, k, m + 1022, z.Mag());
  }

  /** __ieee754_sqrt, lines 97-195. */
  method Sqrt(x: Double, mode: Rounding, countsModulo32: bool) returns (z: Result)
    ensures x.IsNaN() || (x.Negative() && !x.IsZero()) ==> z == NaN
    ensures x.IsZero() || (x.IsInfinite() && !x.Negative()) ==> z == Number(x)
    ensures x.IsFinite() && !x.IsZero() && !x.Negative() ==>
              && z.Number? && z.d.IsFinite() && !z.d.Negative()
              && CorrectlyRounded(mode, x.Mag(), z.d.Mag())
  {
    var ix0: i32, ix1: u32 := x.High(), x.lo;
    HighWord(x);
    ExponentAllOnes(ToU32(ix0));
    if BitAnd(ToU32(ix0), 0x7ff0_0000) == 0x7ff0_0000 {
      // x * x + x, a NaN unless x is +infinity
      return if x.IsNaN() || x.Negative() then NaN else Number(x);
    }
    if ix0 <= 0 {
      ClearSign(ToU32(ix0));
      OrIsZero(BitAnd(ToU32(ix0), 0x7fff_ffff), ix1);
      if BitOr(BitAnd(ToU32(ix0), 0x7fff_ffff), ix1) == 0 {
        return Number(x);
      } else if ix0 < 0 {
        return NaN;
      }
    }
    var d := PositiveRoot(ix0, ix1, mode, countsModulo32);
    z := Number(d);
  }

}
