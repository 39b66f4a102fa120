/** 32-bit machine words and the bit operations the library code uses on them.

    A word is an `int` in a subset type, so every assignment to a word variable
    is a proof that the C expression does not overflow; wherever C wraps, the
    wrap is written out with ToU32 or ToI32.
  */
module Words {

  /** u_int32_t */
  type u32 = x: int | 0 <= x < 0x1_0000_0000

  /** int32_t */
  type i32 = x: int | -0x8000_0000 <= x < 0x8000_0000

  /** Conversion to an unsigned word. The first three cases are those of a word, a single
      borrow and a single carry. */
  function ToU32(x: int): u32 {
    if 0 <= x < 0x1_0000_0000 then x
    else if -0x1_0000_0000 <= x < 0 then x + 0x1_0000_0000
    else if 0x1_0000_0000 <= x < 0x2_0000_0000 then x - 0x1_0000_0000
    else Wrapped(x)
  }

  /** 2^32 is added or taken away until x fits. */
  function Wrapped(x: int): u32
    decreases if x < 0 then 0x1_0000_0000 - x else x
  {
    if x < 0 then Wrapped(x + 0x1_0000_0000)
    else if x >= 0x1_0000_0000 then Wrapped(x - 0x1_0000_0000)
    else x
  }

  /** Conversion to a signed word: the two's complement reading of the low 32 bits. */
  function ToI32(x: int): i32 {
    var u: int := ToU32(x);
    if u < 0x8000_0000 then u else u - 0x1_0000_0000
  }

  lemma {:induction false} WrappedIsModulus(x: int)
    ensures Wrapped(x) == x % 0x1_0000_0000
    decreases if x < 0 then 0x1_0000_0000 - x else x
  {
    if x < 0 {
      WrappedIsModulus(x + 0x1_0000_0000);
      ModShift(x, 1, 0x1_0000_0000);
    } else if x >= 0x1_0000_0000 {
      WrappedIsModulus(x - 0x1_0000_0000);
      ModShift(x, -1, 0x1_0000_0000);
    } else {
      DivModUnique(x, 0x1_0000_0000, 0, x);
    }
  }

  /** The wrap-around is reduction modulo 2^32. */
  lemma ToU32IsModulus(x: int)
    ensures ToU32(x) == x % 0x1_0000_0000
  {
    WrappedIsModulus(x);
  }

  /** -w on an unsigned word. */
  function Negated(w: u32): (n: u32)
    ensures w == 0 ==> n == 0
    ensures w > 0 ==> n == 0x1_0000_0000 - w
  {
    var i: int := w;
    ToU32(-i)
  }

  function Pow2(n: nat): (p: int)
    ensures p >= 1
  {
    if n == 0 then 1 else 2 * Pow2(n - 1)
  }

  /** w * 2^e, by repeated doubling so that the solver sees no product. */
  function Scale(w: int, e: nat): (r: int)
    ensures w >= 0 ==> r >= 0
    decreases e, w
  {
    if e == 0 then w else Scale(2 * w, e - 1)
  }

  /** x << n on an unsigned word. */
  function Shl(x: int, n: nat): u32 {
    ToU32(Scale(x, n))
  }

  /** x >> n on a non-negative value. */
  function Shr(x: nat, n: nat): (r: nat)
    ensures r <= x
    decreases n, x
  {
    if n == 0 then x else Shr(x / 2, n - 1)
  }

  function BitOr(a: nat, b: nat): nat
    decreases a + b
  {
    if a == 0 && b == 0 then 0
    else 2 * BitOr(a / 2, b / 2) + if a % 2 == 1 || b % 2 == 1 then 1 else 0
  }

  function BitAnd(a: nat, b: nat): nat
    decreases a + b
  {
    if a == 0 && b == 0 then 0
    else 2 * BitAnd(a / 2, b / 2) + if a % 2 == 1 && b % 2 == 1 then 1 else 0
  }

  /** (w & 0x80000000) >> 31, the bit that a doubling of w pushes out. */
  function TopBit(w: u32): (b: int)
    ensures b == if w >= 0x8000_0000 then 1 else 0
  {
    SignBit(w);
    BitAnd(w, 0x8000_0000) / 0x8000_0000
  }

  // ----- division and powers of two -----

  lemma DivNonNeg(a: nat, d: int)
    requires d > 0
    ensures a / d >= 0
  {}

  lemma MulMono(a: int, b: int, c: int)
    requires a <= b && 0 <= c
    ensures a * c <= b * c
  {}

  lemma Distribute(a: int, b: int, c: int)
    ensures (a + b) * c == a * c + b * c
  {}

  lemma MulOrder(a: int, b: int, c: int)
    requires c > 0
    ensures a <= b ==> a * c <= b * c
    ensures a < b ==> a * c < b * c
  {
    if a <= b { MulMono(a, b, c); }
  }

  /** Quotient and remainder are determined by a == q*d + r with 0 <= r < d. */
  lemma DivModUnique(a: int, d: int, q: int, r: int)
    requires d > 0 && a == q * d + r && 0 <= r < d
    ensures a / d == q && a % d == r
  {
    var q', r' := a / d, a % d;
    assert a == q' * d + r';
    assert (q - q') * d == r' - r;
    if q - q' >= 1 {
      MulMono(1, q - q', d);
    } else if q - q' <= -1 {
      MulMono(q - q', -1, d);
    }
  }

  lemma {:induction false} Pow2Add(a: nat, b: nat)
    ensures Pow2(a + b) == Pow2(a) * Pow2(b)
  {
    if a > 0 {
      Pow2Add(a - 1, b);
    }
  }

  /** The powers that occur as constants in the code. */
  lemma Pow2Table()
    ensures Pow2(1) == 2 && Pow2(2) == 4 && Pow2(3) == 8
    ensures Pow2(10) == 0x400 && Pow2(11) == 0x800
    ensures Pow2(20) == 0x10_0000 && Pow2(21) == 0x20_0000 && Pow2(22) == 0x40_0000
    ensures Pow2(23) == 0x80_0000 && Pow2(24) == 0x100_0000
    ensures Pow2(31) == 0x8000_0000 && Pow2(32) == 0x1_0000_0000
    ensures Pow2(52) == 0x10_0000_0000_0000 && Pow2(53) == 0x20_0000_0000_0000
    ensures Pow2(54) == 0x40_0000_0000_0000
  {
    assert Pow2(5) == 32;
    assert Pow2(10) == 32 * Pow2(5) by { Pow2Add(5, 5); }
    assert Pow2(20) == 0x400 * Pow2(10) by { Pow2Add(10, 10); }
    assert Pow2(31) == Pow2(11) * Pow2(20) by { Pow2Add(11, 20); }
    assert Pow2(52) == Pow2(32) * Pow2(20) by { Pow2Add(32, 20); }
  }

  lemma {:induction false} ScaleIsProduct(w: int, e: nat)
    ensures Scale(w, e) == w * Pow2(e)
    decreases e
  {
    if e > 0 {
      ScaleIsProduct(2 * w, e - 1);
    }
  }

  lemma {:induction false} ScaleAdd(w: int, a: nat, b: nat)
    ensures Scale(w, a + b) == Scale(Scale(w, a), b)
    decreases a
  {
    if a > 0 {
      ScaleAdd(2 * w, a - 1, b);
    }
  }

  lemma {:induction false} ScaleSum(w: int, u: int, e: nat)
    ensures Scale(w + u, e) == Scale(w, e) + Scale(u, e)
    decreases e
  {
    if e > 0 {
      ScaleSum(2 * w, 2 * u, e - 1);
    }
  }

  lemma {:induction false} ScaleMono(w: int, u: int, e: nat)
    ensures w < u <==> Scale(w, e) < Scale(u, e)
    ensures w == u <==> Scale(w, e) == Scale(u, e)
    decreases e
  {
    if e > 0 {
      ScaleMono(2 * w, 2 * u, e - 1);
    }
  }

  lemma {:induction false} ScaleGrows(w: nat, e: nat)
    ensures Scale(w, e) >= w
    decreases e
  {
    if e > 0 {
      ScaleGrows(2 * w, e - 1);
    }
  }

  lemma {:induction false} ScaleZero(e: nat)
    ensures Scale(0, e) == 0
  {
    if e > 0 {
      ScaleZero(e - 1);
    }
  }

  /** The last of the doublings. */
  lemma ScaleLast(w: int, e: nat)
    requires e > 0
    ensures Scale(w, e) == 2 * Scale(w, e - 1)
  {
    ScaleAdd(w, e - 1, 1);
    assert Scale(Scale(w, e - 1), 1) == 2 * Scale(w, e - 1);
  }

  lemma {:induction false} ShrIsQuotient(x: nat, n: nat)
    ensures Shr(x, n) == x / Pow2(n)
    decreases n
  {
    if n > 0 {
      ShrIsQuotient(x / 2, n - 1);
      ModHalf(x, Pow2(n - 1));
    }
  }

  lemma {:induction false} Pow2Mono(a: nat, b: nat)
    requires a < b
    ensures 2 * Pow2(a) <= Pow2(b)
    decreases b
  {
    if a + 1 < b {
      Pow2Mono(a, b - 1);
    }
  }

  lemma ModMultiple(h: int, p: int)
    requires p > 0
    ensures (h * p) % p == 0
  {
    DivModUnique(h * p, p, h, 0);
  }

  /** Splitting off the low bit commutes with reduction modulo an even number. */
  lemma ModHalf(a: nat, d: int)
    requires d > 0
    ensures (a % (2 * d)) / 2 == (a / 2) % d
    ensures (a % (2 * d)) % 2 == a % 2
    ensures a / (2 * d) == (a / 2) / d
  {
    var h, l := a / 2, a % 2;
    var q, r := h / d, h % d;
    assert h == q * d + r;
    assert a == q * (2 * d) + (2 * r + l);
    DivModUnique(a, 2 * d, q, 2 * r + l);
  }

  // ----- bit operations as arithmetic -----

  lemma {:induction false} OrZero(a: nat)
    ensures BitOr(a, 0) == a
  {
    if a > 0 {
      OrZero(a / 2);
    }
  }

  /** Or of words with no common bit position is their sum. */
  lemma {:induction false} OrDisjoint(a: nat, b: nat, k: nat)
    requires a % Pow2(k) == 0 && b < Pow2(k)
    ensures BitOr(a, b) == a + b
    decreases k
  {
    if k == 0 {
      OrZero(a);
    } else {
      ModHalf(a, Pow2(k - 1));
      OrDisjoint(a / 2, b / 2, k - 1);
    }
  }

  lemma {:induction false} OrSymmetric(a: nat, b: nat)
    ensures BitOr(a, b) == BitOr(b, a)
    decreases a + b
  {
    if a + b > 0 {
      OrSymmetric(a / 2, b / 2);
    }
  }

  lemma {:induction false} OrBounds(a: nat, b: nat)
    ensures a <= BitOr(a, b) <= a + b
    ensures b <= BitOr(a, b)
    decreases a + b
  {
    if a + b > 0 {
      OrBounds(a / 2, b / 2);
    }
  }

  lemma {:induction false} OrBelow(a: nat, b: nat, k: nat)
    requires a < Pow2(k) && b < Pow2(k)
    ensures BitOr(a, b) < Pow2(k)
    decreases k
  {
    if k > 0 {
      OrBelow(a / 2, b / 2, k - 1);
    }
  }

  lemma OrIsZero(a: nat, b: nat)
    ensures BitOr(a, b) == 0 <==> a == 0 && b == 0
  {
    OrBounds(a, b);
  }

  /** The k low bits of a. */
  function LowBits(a: nat, k: nat): nat
    decreases k
  {
    if k == 0 then 0 else 2 * LowBits(a / 2, k - 1) + a % 2
  }

  lemma {:induction false} LowBitsIsMod(a: nat, k: nat)
    ensures LowBits(a, k) == a % Pow2(k)
    decreases k
  {
    if k > 0 {
      LowBitsIsMod(a / 2, k - 1);
      ModHalf(a, Pow2(k - 1));
    }
  }

  lemma {:induction false} OrLowBits(a: nat, b: nat, k: nat)
    ensures LowBits(BitOr(a, b), k) == BitOr(LowBits(a, k), LowBits(b, k))
    decreases k
  {
    if k > 0 {
      OrLowBits(a / 2, b / 2, k - 1);
      OrHalves(a, b);
      OrHalves(LowBits(a, k), LowBits(b, k));
    }
  }

  /** The definition in terms of the halves and the lowest bits. */
  lemma OrHalves(a: nat, b: nat)
    ensures BitOr(a, b) / 2 == BitOr(a / 2, b / 2)
    ensures BitOr(a, b) % 2 == if a % 2 == 1 || b % 2 == 1 then 1 else 0
  {}

  lemma OrMod(a: nat, b: nat, k: nat)
    ensures BitOr(a, b) % Pow2(k) == BitOr(a % Pow2(k), b % Pow2(k))
  {
    LowBitsIsMod(a, k);
    LowBitsIsMod(b, k);
    LowBitsIsMod(BitOr(a, b), k);
    OrLowBits(a, b, k);
  }

  /** Bit k of an or is the or of the bits k, and so for an and. */
  lemma {:induction false} BitwiseOperations(a: nat, b: nat, k: nat)
    ensures Shr(BitOr(a, b), k) % 2 == if Shr(a, k) % 2 == 1 || Shr(b, k) % 2 == 1 then 1 else 0
    ensures Shr(BitAnd(a, b), k) % 2 == if Shr(a, k) % 2 == 1 && Shr(b, k) % 2 == 1 then 1 else 0
    decreases k
  {
    OrHalves(a, b);
    AndHalves(a, b);
    if k > 0 {
      BitwiseOperations(a / 2, b / 2, k - 1);
    }
  }

  lemma AndHalves(a: nat, b: nat)
    ensures BitAnd(a, b) / 2 == BitAnd(a / 2, b / 2)
    ensures BitAnd(a, b) % 2 == if a % 2 == 1 && b % 2 == 1 then 1 else 0
  {}

  lemma {:induction false} AndZero(a: nat)
    ensures BitAnd(a, 0) == 0
  {
    if a > 0 {
      AndZero(a / 2);
    }
  }

  /** And with 2^w - 1 keeps the low w bits. */
  lemma {:induction false} AndMask(a: nat, w: nat)
    ensures BitAnd(a, Pow2(w) - 1) == a % Pow2(w)
    decreases w
  {
    if w == 0 {
      AndZero(a);
    } else {
      ModHalf(a, Pow2(w - 1));
      AndMask(a / 2, w - 1);
    }
  }

  /** And with a mask whose k low bits are zero looks only at the bits above them. */
  lemma {:induction false} AndShifted(a: nat, m: nat, k: nat)
    ensures BitAnd(a, Scale(m, k)) == Scale(BitAnd(Shr(a, k), m), k)
    decreases k
  {
    if k > 0 {
      ScaleLast(m, k);
      AndEven(a, Scale(m, k - 1));
      AndShifted(a / 2, m, k - 1);
      ScaleLast(BitAnd(Shr(a, k), m), k);
    }
  }

  lemma AndEven(a: nat, m: nat)
    ensures BitAnd(a, 2 * m) == 2 * BitAnd(a / 2, m)
  {}

  /** And with a single bit. */
  lemma AndBit(a: nat, k: nat)
    ensures BitAnd(a, Scale(1, k)) == Scale(Shr(a, k) % 2, k)
  {
    AndShifted(a, 1, k);
    AndMask(Shr(a, k), 1);
    Pow2Table();
  }

  /** The code's constant `sign`, the top bit of a word. */
  lemma SignBit(w: u32)
    ensures BitAnd(w, 0x8000_0000) == if w >= 0x8000_0000 then 0x8000_0000 else 0
  {
    assert Scale(1, 31) == 0x8000_0000 && Scale(2, 31) == 0x1_0000_0000 by { ScaleTable(); }
    ScaleZero(31);
    AndBit(w, 31);
    ShrUnique(w, 31, if w >= 0x8000_0000 then 1 else 0);
  }

  // ----- double words -----

  /** The number held by a pair of words, most significant first. */
  function Pair(h: int, l: int): int {
    h * 0x1_0000_0000 + l
  }

  /** x == Scale(Shr(x, n), n) + remainder, the remainder being below 2^n. */
  lemma {:induction false} ShrRemainder(x: nat, n: nat)
    ensures Scale(Shr(x, n), n) <= x < Scale(Shr(x, n) + 1, n)
    decreases n
  {
    if n > 0 {
      ShrRemainder(x / 2, n - 1);
      ScaleLast(Shr(x, n), n);
      ScaleLast(Shr(x, n) + 1, n);
    }
  }

  lemma ShrUnique(x: nat, n: nat, q: nat)
    requires Scale(q, n) <= x < Scale(q + 1, n)
    ensures Shr(x, n) == q
  {
    ShrRemainder(x, n);
    ScaleMono(q, Shr(x, n) + 1, n);
    ScaleMono(Shr(x, n), q + 1, n);
  }

  lemma ShrBound(x: nat, n: nat, b: nat)
    requires x < Scale(b, n)
    ensures Shr(x, n) < b
  {
    ShrRemainder(x, n);
    ScaleMono(Shr(x, n), b, n);
  }

  /** Powers of two that occur as constants in the code, as scalings of 1. */
  lemma ScaleTable()
    ensures Scale(1, 10) == 0x400 && Scale(1, 11) == 0x800
    ensures Scale(1, 20) == 0x10_0000 && Scale(1, 21) == 0x20_0000
    ensures Scale(1, 31) == 0x8000_0000 && Scale(1, 32) == 0x1_0000_0000
    ensures Scale(1, 52) == 0x10_0000_0000_0000 && Scale(1, 53) == 0x20_0000_0000_0000
  {
    Pow2Table();
    forall e: nat ensures Scale(1, e) == Pow2(e) { ScaleIsProduct(1, e); }
  }

  /** Or of a word with n zero low bits and a word below 2^n. */
  lemma OrShifted(h: nat, c: nat, n: nat)
    requires c < Scale(1, n)
    ensures BitOr(Scale(h, n), c) == Scale(h, n) + c
  {
    ScaleIsProduct(h, n);
    ScaleIsProduct(1, n);
    DivModUnique(h * Pow2(n), Pow2(n), h, 0);
    OrDisjoint(Scale(h, n), c, n);
  }

  lemma {:induction false} ScalePull(c: int, w: int, e: nat)
    ensures Scale(c * w, e) == c * Scale(w, e)
    decreases e
  {
    if e > 0 {
      ScalePull(c, 2 * w, e - 1);
      assert 2 * (c * w) == c * (2 * w);
    }
  }

  lemma WordWidth(n: nat)
    requires n <= 32
    ensures Scale(Scale(1, n), 32 - n) == 0x1_0000_0000
  {
    ScaleAdd(1, n, 32 - n);
    ScaleTable();
  }

  /** x in terms of its quotient and remainder by 2^k, after a scaling by 2^n. */
  lemma RemainderScaled(x: nat, k: nat, n: nat) returns (s: nat)
    ensures s < Scale(1, k)
    ensures Scale(x, n) == Scale(Shr(x, k), k + n) + Scale(s, n)
  {
    var q := Shr(x, k);
    ShrRemainder(x, k);
    s := x - Scale(q, k);
    ScaleSum(q, 1, k);
    ScaleSum(Scale(q, k), s, n);
    ScaleAdd(q, k, n);
  }

  /** n bits shifted out of the top of a word are its high n bits. */
  lemma ShiftOutOfWord(l: u32, n: nat) returns (s: nat)
    requires n <= 32
    ensures Shl(l, n) == Scale(s, n)
    ensures Shr(l, 32 - n) < Scale(1, n)
    ensures Scale(l, n) == Shr(l, 32 - n) * 0x1_0000_0000 + Shl(l, n)
  {
    var k := 32 - n;
    var q := Shr(l, k);
    assert q < Scale(1, n) by { WordWidth(n); ShrBound(l, k, Scale(1, n)); }
    s := RemainderScaled(l, k, n);
    assert Scale(q, k + n) == q * 0x1_0000_0000 by { ScaleIsProduct(q, 32); Pow2Table(); }
    assert Scale(s, n) < 0x1_0000_0000 by { ScaleMono(s, Scale(1, k), n); WordWidth(k); }
    CutToWord(Scale(l, n), q, Scale(s, n));
  }

  /** Shifting a pair left by n bits, the bits leaving the low word entering the high
      one through an or. */
  lemma ShiftPairLeft(h: nat, l: u32, n: nat)
    requires n <= 32
    ensures BitOr(Scale(h, n), Shr(l, 32 - n)) == Scale(h, n) + Shr(l, 32 - n)
    ensures Shr(l, 32 - n) < Scale(1, n)
    ensures Pair(Scale(h, n) + Shr(l, 32 - n), Shl(l, n)) == Scale(Pair(h, l), n)
  {
    var q := Shr(l, 32 - n);
    var _ := ShiftOutOfWord(l, n);
    OrShifted(h, q, n);
    ScaleSum(0x1_0000_0000 * h, l, n);
    ScalePull(0x1_0000_0000, h, n);
  }

  /** Adding multiples of y does not change the remainder by y. */
  lemma ModShift(a: int, k: int, y: int)
    requires y > 0
    ensures (a + k * y) % y == a % y
  {
    assert a == a / y * y + a % y;
    Distribute(a / y, k, y);
    DivModUnique(a + k * y, y, a / y + k, a % y);
  }

  /** Remainders scale with their operands. */
  lemma ScaleMod(a: nat, b: nat, e: nat)
    requires b > 0
    ensures Scale(b, e) > 0
    ensures Scale(a, e) % Scale(b, e) == Scale(a % b, e)
  {
    var q, r := a / b, a % b;
    assert a == q * b + r;
    ScaleSum(q * b, r, e);
    ScalePull(q, b, e);
    ScaleGrows(b, e);
    ScaleMono(r, b, e);
    DivModUnique(Scale(a, e), Scale(b, e), q, Scale(r, e));
  }

  /** A pair shifted right by n places when its n low bits are zero, the inverse of the
      shift to the left: v is the value that was shifted left by n. */
  lemma ShiftPairRight(h: nat, l: u32, n: nat, v: nat)
    requires n <= 32 && Scale(v, n) == Pair(h, l)
    ensures BitOr(Shr(l, n), Shl(h, 32 - n)) < 0x1_0000_0000
    ensures Pair(Shr(h, n), BitOr(Shr(l, n), Shl(h, 32 - n))) == v
  {
    ShiftPartsRight(h, l, n, v / 0x1_0000_0000, v % 0x1_0000_0000);
  }

  lemma ShiftPartsRight(h: nat, l: u32, n: nat, vh: nat, vl: u32)
    requires n <= 32 && Scale(Pair(vh, vl), n) == Pair(h, l)
    ensures BitOr(Shr(l, n), Shl(h, 32 - n)) == vl && Shr(h, n) == vh
  {
    var q := Shr(vl, 32 - n);
    ShiftedParts(h, l, n, vh, vl);
    HighPartRight(h, n, vh, q);
    LowPartRight(l, n, vl);
  }

  /** What the two words of a pair shifted left are made of. */
  lemma ShiftedParts(h: nat, l: u32, n: nat, vh: nat, vl: u32)
    requires n <= 32 && Scale(Pair(vh, vl), n) == Pair(h, l)
    ensures h == Scale(vh, n) + Shr(vl, 32 - n) && l == Shl(vl, n) && Shr(vl, 32 - n) < Scale(1, n)
  {
    ShiftPairLeft(vh, vl, n);
    PairUnique(h, l, Scale(vh, n) + Shr(vl, 32 - n), Shl(vl, n));
  }

  lemma HighPartRight(h: nat, n: nat, vh: nat, q: nat)
    requires n <= 32 && q < Scale(1, n) && h == Scale(vh, n) + q
    ensures Shr(h, n) == vh && Shl(h, 32 - n) == Scale(q, 32 - n)
  {
    ShrOfSum(vh, q, n);
    ShlOfSum(vh, q, n);
  }

  lemma LowPartRight(l: u32, n: nat, vl: u32)
    requires n <= 32 && l == Shl(vl, n)
    ensures BitOr(Shr(l, n), Scale(Shr(vl, 32 - n), 32 - n)) == vl
  {
    var s := ShiftOutOfWord(vl, n);
    RejoinWord(vl, n, Shr(vl, 32 - n), s);
  }

  lemma PairUnique(h: int, l: u32, h': int, l': u32)
    requires Pair(h, l) == Pair(h', l')
    ensures h == h' && l == l'
  {}

  /** The bits pushed out of a word and the bits kept make up the word again. */
  lemma RejoinWord(w: u32, n: nat, q: nat, s: nat)
    requires n <= 32 && q == Shr(w, 32 - n) && Shl(w, n) == Scale(s, n)
    ensures BitOr(Shr(Scale(s, n), n), Scale(q, 32 - n)) == w
  {
    ScaleGrows(1, n);
    ShrOfSum(s, 0, n);
    LowBitsOfWord(w, n, q, s);
    OrSymmetric(s, Scale(q, 32 - n));
    OrShifted(q, s, 32 - n);
  }

  lemma ShrOfSum(x: nat, c: nat, n: nat)
    requires c < Scale(1, n)
    ensures Shr(Scale(x, n) + c, n) == x
  {
    ScaleSum(x, 1, n);
    ShrUnique(Scale(x, n) + c, n, x);
  }

  /** The bits a left shift by n keeps are those below 2^(32-n). */
  lemma LowBitsOfWord(w: u32, n: nat, q: nat, s: nat)
    requires n <= 32 && q == Shr(w, 32 - n) && Shl(w, n) == Scale(s, n)
    ensures s < Scale(1, 32 - n) && w == Scale(q, 32 - n) + s
  {
    var _ := ShiftOutOfWord(w, n);
    assert s < Scale(1, 32 - n) by { WordWidth(32 - n); ScaleMono(s, Scale(1, 32 - n), n); }
    var t := Scale(q, 32 - n);
    assert Scale(t, n) == q * 0x1_0000_0000 by {
      ScaleAdd(q, 32 - n, n);
      ScaleIsProduct(q, 32);
      Pow2Table();
    }
    ScaleSum(t, s, n);
    ScaleMono(w, t + s, n);
  }

  /** Shifting left by 32-n pushes out everything above the n low bits. */
  lemma ShlOfSum(x: nat, q: nat, n: nat)
    requires n <= 32 && q < Scale(1, n)
    ensures Shl(Scale(x, n) + q, 32 - n) == Scale(q, 32 - n)
  {
    var y := Scale(x, n);
    ScaleSum(y, q, 32 - n);
    ScaleAdd(x, n, 32 - n);
    assert Scale(y, 32 - n) == x * 0x1_0000_0000 by { ScaleIsProduct(x, 32); Pow2Table(); }
    assert Scale(q, 32 - n) < 0x1_0000_0000 by { WordWidth(n); ScaleMono(q, Scale(1, n), 32 - n); }
    CutToWord(Scale(y + q, 32 - n), x, Scale(q, 32 - n));
  }

  lemma CutToWord(v: int, q: int, r: int)
    requires v == q * 0x1_0000_0000 + r && 0 <= r < 0x1_0000_0000
    ensures ToU32(v) == r
  {
    ToU32IsModulus(v);
    DivModUnique(v, 0x1_0000_0000, q, r);
  }
}
