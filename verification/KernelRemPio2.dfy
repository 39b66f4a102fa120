/** The integer part of __kernel_rem_pio2: the product of x with the digits of 2/pi, its
    carry propagation, the integer part mod 8, and its recomputation (libm/k_rem_pio2.c:177-257).

    Every double up to line 257 holds an exact integer or, for z, an integer divided by a
    power of two; the model keeps those integers.
  */
module KernelRemPio2 {
  import opened Words
  import opened Digits

  /** Entries of q[] are sums of at most 20 products of 24-bit digits. */
  const ENTRY_BOUND: int := 0x14_0000_0000_0000

  /** 2^53: a double holds every integer below it exactly. */
  const EXACT: int := 0x20_0000_0000_0000

  lemma ExactIsPowerOfTwo()
    ensures EXACT == Pow2(53) && BASE == Pow2(24)
  {
    Pow2Table();
  }

  // ----- the product -----

  /** The k-th digit of 2/pi; nothing before the binary point. */
  function DigitAt(p: seq<int>, k: int): int {
    if 0 <= k < |p| then p[k] else 0
  }

  /** The coefficient of weight s in the product of x[0], x[1], ... with the digits p. */
  function Coefficient(x: seq<int>, p: seq<int>, s: int): int {
    if x == [] then 0
    else
      var n := |x| - 1;
      Coefficient(x[..n], p, s) + x[n] * DigitAt(p, s - n)
  }

  lemma {:induction false} CoefficientBound(x: seq<int>, p: seq<int>, s: int)
    requires IsDigits(x) && IsDigits(p)
    ensures 0 <= Coefficient(x, p, s) <= |x| * 0xffff_fe00_0001
  {
    if x != [] {
      var n := |x| - 1;
      CoefficientBound(x[..n], p, s);
      ProductBound(x[n], DigitAt(p, s - n));
    }
  }

  lemma ProductBound(a: int, b: int)
    requires 0 <= a < BASE && 0 <= b < BASE
    ensures 0 <= a * b <= 0xffff_fe00_0001
  {
    MulMono(a, BASE - 1, b);
    MulMono(0, a, b);
  }

  /** Lines 182-183: jv = max(0, (e0-3)/24) with C's division, which truncates. */
  function FirstDigit(e0: int): (jv: nat)
    ensures e0 >= 27 ==> 24 * jv + 3 <= e0 <= 24 * jv + 26
    ensures e0 < 27 ==> jv == 0
  {
    if e0 >= 3 then (e0 - 3) / 24 else 0
  }

  /** The exponent of q[0]. */
  function LeadExponent(e0: int): (q0: int)
    ensures q0 <= 2
    ensures FirstDigit(e0) > 0 ==> q0 >= -21
  {
    e0 - 24 * (FirstDigit(e0) + 1)
  }

  /** The digits skipped are exactly those whose product with x[0] has a weight of 8 or more. */
  lemma FirstDigitSkips(e0: int, i: nat)
    ensures i < FirstDigit(e0) <==> e0 - 24 * (i + 1) >= 3
    ensures i < FirstDigit(e0) <==> LeadExponent(e0) + 24 * (FirstDigit(e0) - i) >= 3
  {}

  /** Lines 187-188. */
  method FillFactors(f: array<int>, p: seq<int>, jv: nat, jx: nat, jk: nat)
    requires jx + jk < f.Length && jv + jk < |p|
    modifies f
    ensures forall t :: 0 <= t <= jx + jk ==> f[t] == if t < jx - jv then 0 else p[jv - jx + t]
  {
    var j, m := jv - jx, jx + jk;
    var i := 0;
    while i <= m
      invariant 0 <= i <= m + 1 && j == jv - jx + i
      invariant forall t :: 0 <= t < i ==> f[t] == if t < jx - jv then 0 else p[jv - jx + t]
    {
      f[i] := if j < 0 then 0 else p[j];
      i := i + 1;
      j := j + 1;
    }
  }

  lemma CoefficientStep(x: seq<int>, p: seq<int>, s: int, j: nat)
    requires j < |x|
    ensures Coefficient(x[..j + 1], p, s) == Coefficient(x[..j], p, s) + x[j] * DigitAt(p, s - j)
  {
    assert x[..j + 1][..j] == x[..j];
  }

  lemma PartialBound(x: seq<int>, p: seq<int>, s: int, j: nat)
    requires IsDigits(x) && IsDigits(p) && |x| <= 20 && j <= |x|
    ensures 0 <= Coefficient(x[..j], p, s) <= ENTRY_BOUND
  {
    CoefficientBound(x[..j], p, s);
  }

  /** One entry of q[], the inner loop of lines 192 and 251. The products and all partial
      sums are integers that doubles hold exactly. */
  method Convolve(x: seq<int>, f: array<int>, ghost p: seq<int>, i: nat, ghost jv: nat) returns (fw: int)
    requires 1 <= |x| && |x| - 1 + i < f.Length
    requires IsDigits(x) && IsDigits(p) && |x| <= 20
    requires forall t :: 0 <= t <= |x| - 1 + i ==> f[t] == DigitAt(p, jv - (|x| - 1) + t)
    ensures fw == Coefficient(x, p, jv + i) && 0 <= fw <= ENTRY_BOUND < EXACT
  {
    var jx := |x| - 1;
    var j := 0;
    fw := 0;
    while j <= jx
      invariant 0 <= j <= jx + 1
      invariant fw == Coefficient(x[..j], p, jv + i) && 0 <= fw <= ENTRY_BOUND
    {
      CoefficientStep(x, p, jv + i, j);
      PartialBound(x, p, jv + i, j + 1);
      assert 0 <= x[j] * f[jx + i - j] < EXACT by { ProductBound(x[j], f[jx + i - j]); }
      fw := fw + x[j] * f[jx + i - j];
      j := j + 1;
    }
    assert x[..j] == x;
  }

  /** Lines 190-193: q[i] is the coefficient of weight q0 - 24 i, computed exactly. */
  method FillProducts(x: seq<int>, f: array<int>, q: array<int>, ghost p: seq<int>, ghost jv: nat, jk: nat)
    requires f != q && 1 <= |x| && |x| - 1 + jk < f.Length && jk < q.Length
    requires IsDigits(x) && IsDigits(p) && |x| <= 20
    requires forall t :: 0 <= t <= |x| - 1 + jk ==> f[t] == DigitAt(p, jv - (|x| - 1) + t)
    modifies q
    ensures forall i :: 0 <= i <= jk ==> q[i] == Coefficient(x, p, jv + i) && 0 <= q[i] <= ENTRY_BOUND
  {
    var i := 0;
    while i <= jk
      invariant 0 <= i <= jk + 1
      invariant forall k :: 0 <= k < i ==> q[k] == Coefficient(x, p, jv + k) && 0 <= q[k] <= ENTRY_BOUND
    {
      var fw := Convolve(x, f, p, i, jv);
      q[i] := fw;
      i := i + 1;
    }
  }

  // ----- carry propagation -----

  /** A round of the loop at line 198. */
  method DistillDigit(q: array<int>, iq: array<int>, i: nat, j: nat, z0: int, ghost whole: int) returns (z: int)
    requires q != iq && i < iq.Length && 1 <= j <= q.Length && 0 <= q[j - 1] <= ENTRY_BOUND
    requires 0 <= z0 < EXACT && IsDigits(iq[..i]) && Distilled(whole, q[..j], z0, iq[..i])
    modifies iq
    ensures 0 <= z < EXACT && IsDigits(iq[..i + 1]) && Distilled(whole, q[..j - 1], z, iq[..i + 1])
  {
    var fw: i32 := z0 / BASE;
    var d := z0 - BASE * fw;
    ghost var before := iq[..i];
    DistillNext(whole, q[..j], z0, fw, d, before);
    assert q[..j][..j - 1] == q[..j - 1];
    iq[i] := d;
    assert iq[..i + 1] == before + [d];
    z := q[j - 1] + fw;
  }

  /** Lines 197-202: the entries of q are turned into digits, least significant first, and
      what is left over at the top is z. No double exceeds 2^53 and no cast an int. */
  method Distill(q: array<int>, iq: array<int>, jz: nat) returns (z: int)
    requires q != iq && jz < q.Length && jz < iq.Length
    requires forall i :: 0 <= i <= jz ==> 0 <= q[i] <= ENTRY_BOUND
    modifies iq
    ensures IsDigits(iq[..jz]) && 0 <= z < EXACT
    ensures Horner(q[..jz + 1]) == Lift(z, jz) + LittleEndian(iq[..jz])
  {
    var i, j := 0, jz;
    z := q[jz];
    ghost var whole := Horner(q[..jz + 1]);
    assert q[..jz + 1][..jz] == q[..jz];
    LiftNext(Horner(q[..jz]), 0);
    while j > 0
      invariant 0 <= j <= jz && i == jz - j
      invariant 0 <= z < EXACT
      invariant IsDigits(iq[..i])
      invariant Distilled(whole, q[..j], z, iq[..i])
    {
      z := DistillDigit(q, iq, i, j, z, whole);
      i := i + 1;
      j := j - 1;
    }
    assert q[..0] == [];
    LiftZero(jz + 1);
  }

  lemma DistillStep(whole: int, h: int, d1: int, z: int, fw: int, d: int, i: nat)
    requires whole == BASE * h + d1 && z == BASE * fw + d
    ensures Lift(whole, i + 1) + Lift(z, i) == Lift(h, i + 2) + Lift(d1 + fw, i + 1) + Lift(d, i)
  {
    LiftSum(BASE * h, d1, i + 1);
    LiftNext(h, i + 1);
    LiftSum(BASE * fw, d, i);
    LiftNext(fw, i);
    LiftSum(d1, fw, i + 1);
  }

  /** What the loop keeps: the entries not yet treated, z and the digits found, each at its
      place, add up to the whole. */
  predicate Distilled(whole: int, q: seq<int>, z: int, low: seq<int>) {
    whole == Lift(Horner(q), |low| + 1) + Lift(z, |low|) + LittleEndian(low)
  }

  /** A round of the loop: the last entry of q goes into z, the low digit of z into iq. */
  lemma DistillNext(whole: int, q: seq<int>, z: int, fw: int, d: int, low: seq<int>)
    requires q != [] && z == BASE * fw + d && Distilled(whole, q, z, low)
    ensures Distilled(whole, q[..|q| - 1], q[|q| - 1] + fw, low + [d])
  {
    DistillStep(Horner(q), Horner(q[..|q| - 1]), q[|q| - 1], z, fw, d, |low|);
    LittleEndianAppend(low, d);
  }

  // ----- the integer part and the fraction -----

  /** The double z is an integer divided by this power of two; q0 is the exponent of q[0]. */
  function Denominator(q0: int): (d: int)
    ensures d >= 1
  {
    ScaleGrows(1, if q0 < 0 then -q0 else 0);
    Scale(1, if q0 < 0 then -q0 else 0)
  }

  /** w counted in units of 2^(q0-24jz), the weight of the lowest digit. */
  function Units(w: int, q0: int, jz: nat): int
    requires 24 * jz >= q0
  {
    Scale(w, 24 * jz - q0)
  }

  /** What z and the digits below it add up to, in the same units. */
  function Fraction(z: int, iq: seq<int>): int {
    Lift(z, |iq|) + LittleEndian(iq)
  }

  /** Lines 205-208: z is scaled, multiples of 8 are dropped, and n is its integer part. */
  method Trim(z0: int, q0: int) returns (n: int, z: int, ghost k: int)
    requires z0 >= 0
    ensures 0 <= n < 8 && 0 <= z < Denominator(q0) && z <= z0
    ensures Scale(z0, if q0 > 0 then q0 else 0) == Scale(8 * k + n, if q0 < 0 then -q0 else 0) + z
  {
    var d := Denominator(q0);
    z := Scale(z0, if q0 > 0 then q0 else 0);
    ghost var scaled := z;
    DivideTwice(scaled, d);
    k := z / (8 * d);
    z := z - 8 * d * (z / (8 * d));
    n := z / d;
    z := z - n * d;
    assert z <= z0 by { if q0 < 0 { TrimShrinks(z0, d); } }
    ScaleIsProduct(8 * k + n, if q0 < 0 then -q0 else 0);
    ScaleIsProduct(1, if q0 < 0 then -q0 else 0);
  }

  lemma TrimShrinks(v: nat, d: int)
    requires d >= 1
    ensures var r := v - 8 * d * (v / (8 * d)); 0 <= r - r / d * d <= r <= v
  {
    var q := v / (8 * d);
    assert 0 <= v - 8 * d * q;
    DivNonNeg(v, 8 * d);
    MulMono(0, q, 8 * d);
    var r := v - 8 * d * q;
    DivNonNeg(r, d);
    MulMono(0, r / d, d);
  }

  lemma DivideTwice(v: nat, d: int)
    requires d >= 1
    ensures var r := v - 8 * d * (v / (8 * d));
            && 0 <= r / d < 8 && 0 <= r - r / d * d < d
            && v == (8 * (v / (8 * d)) + r / d) * d + (r - r / d * d)
  {
    var q := v / (8 * d);
    var r := v - 8 * d * q;
    assert 0 <= r < 8 * d;
    var n := r / d;
    assert r == n * d + r % d;
    DivNonNeg(r, d);
    if n >= 8 { MulMono(8, n, d); }
    assert (8 * q + n) * d == 8 * d * q + n * d;
  }

  /** After the trimming, z0 is a multiple of 8, plus n, plus the fraction z. */
  lemma AfterTrim(z0: int, q0: int, jz: nat, n: int, z: int, k: int)
    requires 24 * jz >= q0
    requires Scale(z0, if q0 > 0 then q0 else 0) == Scale(8 * k + n, if q0 < 0 then -q0 else 0) + z
    requires q0 >= 0 ==> z == 0
    ensures Lift(z0, jz) == Units(8 * k + n, q0, jz) + Lift(z, jz)
  {
    if q0 >= 0 {
      ScaleAdd(z0, q0, 24 * jz - q0);
      LiftZero(jz);
    } else {
      LiftSum(Scale(8 * k + n, -q0), z, jz);
      ScaleAdd(8 * k + n, -q0, 24 * jz);
    }
  }

  /** The top c bits of the highest digit stand for whole units. */
  lemma TopBits(s: seq<int>, c: nat, i: nat, r: int)
    requires IsDigits(s) && s != [] && c <= 23
    requires i == Shr(s[|s| - 1], 24 - c) && r == s[|s| - 1] - Scale(i, 24 - c)
    ensures 0 <= r < Scale(1, 24 - c)
    ensures IsDigits(s[|s| - 1 := r])
    ensures LittleEndian(s) == Units(i, c, |s|) + LittleEndian(s[|s| - 1 := r])
    ensures 0 <= LittleEndian(s[|s| - 1 := r]) < Units(1, c, |s|)
  {
    var m := |s| - 1;
    var t := s[m := r];
    assert t[..m] == s[..m];
    ShrRemainder(s[m], 24 - c);
    ScaleSum(i, 1, 24 - c);
    ScaleGrows(i, 24 - c);
    LiftSum(Scale(i, 24 - c), r, m);
    ScaleAdd(i, 24 - c, 24 * m);
    TopBound(t, c);
  }

  /** A number whose highest digit has c zero top bits is below one unit. */
  lemma TopBound(t: seq<int>, c: nat)
    requires t != [] && IsDigits(t[..|t| - 1]) && c <= 23
    requires 0 <= t[|t| - 1] < Scale(1, 24 - c)
    ensures 0 <= LittleEndian(t) < Units(1, c, |t|)
  {
    var m := |t| - 1;
    LittleEndianBound(t[..m]);
    LiftSum(t[m], 1, m);
    LiftOrder(t[m] + 1, Scale(1, 24 - c), m);
    ScaleAdd(1, 24 - c, 24 * m);
  }

  /** The bit below them tells whether the fraction reaches one half. */
  lemma HalfBit(s: seq<int>, c: nat)
    requires IsDigits(s) && s != [] && c <= 22 && s[|s| - 1] < Scale(1, 24 - c)
    ensures Shr(s[|s| - 1], 23 - c) == if 2 * LittleEndian(s) >= Units(1, c, |s|) then 1 else 0
  {
    var m := |s| - 1;
    var h := Scale(1, 23 - c);
    LittleEndianBound(s[..m]);
    ScaleAdd(1, 23 - c, 24 * m);
    ScaleLast(1, 24 * |s| - c);
    ScaleLast(1, 24 - c);
    LiftOrder(s[m] + 1, h, m);
    LiftOrder(s[m], h, m);
    LiftSum(s[m], 1, m);
    ScaleZero(23 - c);
    assert Scale(2, 23 - c) == Scale(1, 24 - c);
    ShrUnique(s[m], 23 - c, if s[m] >= h then 1 else 0);
  }

  /** The same question when z itself holds fraction bits. */
  lemma HalfOfZ(z: int, q0: int, s: seq<int>)
    requires q0 < 0 && 0 <= z < Denominator(q0) && IsDigits(s)
    ensures 2 * z >= Denominator(q0) <==> 2 * Fraction(z, s) >= Units(1, q0, |s|)
    ensures 0 <= Fraction(z, s) < Units(1, q0, |s|)
  {
    var d := Denominator(q0);
    LittleEndianBound(s);
    ScaleAdd(1, -q0, 24 * |s|);
    ScaleLast(1, -q0);
    var h := Scale(1, -q0 - 1);
    assert d == 2 * h;
    LiftSum(h, h, |s|);
    LiftSum(z, 1, |s|);
    LiftOrder(z + 1, h, |s|);
    LiftOrder(z, h, |s|);
    LiftOrder(z + 1, d, |s|);
  }

  /** A z of at least one half has no bits below 2^-53, so that one and z share a grid on which
      doubles are exact. */
  lemma HalfIsExact(z: int, q0: int)
    requires q0 < 0 && 0 <= z < EXACT && 2 * z >= Denominator(q0)
    ensures q0 >= -53 && Denominator(q0) <= EXACT
  {
    Pow2Table();
    ScaleIsProduct(1, 53);
    ScaleIsProduct(1, -q0);
    if -q0 > 53 {
      ScaleAdd(1, 54, -q0 - 54);
      ScaleGrows(Scale(1, 54), -q0 - 54);
      ScaleLast(1, 54);
    } else if -q0 < 53 {
      Pow2Mono(-q0, 53);
    }
  }

  /** Lines 211-212: the integer bits of the highest digit are taken out of it. */
  method TakeTopBits(q0: int, iq: array<int>, jz: nat) returns (i: nat)
    requires 1 <= q0 <= 2 && 1 <= jz <= iq.Length && IsDigits(iq[..jz])
    modifies iq
    ensures IsDigits(iq[..jz]) && iq[jz - 1] < Scale(1, 24 - q0)
    ensures LittleEndian(old(iq[..jz])) == Units(i, q0, jz) + LittleEndian(iq[..jz])
    ensures 0 <= LittleEndian(iq[..jz]) < Units(1, q0, jz)
  {
    ghost var s := iq[..jz];
    i := Shr(iq[jz - 1], 24 - q0);
    TopBits(s, q0, i, s[jz - 1] - Scale(i, 24 - q0));
    iq[jz - 1] := iq[jz - 1] - Scale(i, 24 - q0);
    assert iq[..jz] == s[jz - 1 := s[jz - 1] - Scale(i, 24 - q0)];
  }

  /** Lines 204-216. Afterwards the argument is 8k + n and a fraction below one, and ih says
      whether that fraction reaches one half. */
  method ExtractInteger(z0: int, q0: int, iq: array<int>, jz: nat)
    returns (n: int, ih: int, z: int, ghost k: int)
    requires q0 <= 2 && 1 <= jz <= iq.Length && 0 <= z0 < EXACT && IsDigits(iq[..jz])
    modifies iq
    ensures IsDigits(iq[..jz]) && 0 <= z < Denominator(q0) && z <= z0
    ensures ih == 2 ==> q0 >= -53
    ensures Lift(z0, jz) + LittleEndian(old(iq[..jz]))
         == Units(8 * k + n, q0, jz) + Fraction(z, iq[..jz])
    ensures 0 <= Fraction(z, iq[..jz]) < Units(1, q0, jz)
    ensures ih > 0 <==> 2 * Fraction(z, iq[..jz]) >= Units(1, q0, jz)
    ensures 0 <= ih <= 2 && (ih == 2 ==> q0 < 0) && (ih == 1 ==> q0 >= 0)
    ensures q0 >= 0 ==> z == 0 && iq[jz - 1] < Scale(1, 24 - q0)
  {
    n, z, k := Trim(z0, q0);
    assert q0 >= 0 ==> Denominator(q0) == 1;
    AfterTrim(z0, q0, jz, n, z, k);
    LiftZero(jz);
    ghost var s := iq[..jz];
    ih := 0;
    if q0 > 0 {
      var i := TakeTopBits(q0, iq, jz);
      ScaleSum(8 * k + n, i, 24 * jz - q0);
      n := n + i;
      HalfBit(iq[..jz], q0);
      ih := Shr(iq[jz - 1], 23 - q0);
    } else if q0 == 0 {
      assert Scale(1, 24) == BASE by { ScaleIsProduct(1, 24); Pow2Table(); }
      TopBound(s, 0);
      HalfBit(s, 0);
      ih := Shr(iq[jz - 1], 23);
    } else {
      HalfOfZ(z, q0, s);
      if 2 * z >= Denominator(q0) {
        ih := 2;
        HalfIsExact(z, q0);
      }
    }
  }

  /** A round of the loop at line 219. */
  method ComplementDigit(iq: array<int>, i: nat, carry0: int, ghost s: seq<int>) returns (carry: int)
    requires i < iq.Length && i < |s| && IsDigits(s) && iq[i] == s[i]
    requires Complemented(s[..i], iq[..i], carry0)
    modifies iq
    ensures Complemented(s[..i + 1], iq[..i + 1], carry)
    ensures forall t :: 0 <= t < iq.Length && t != i ==> iq[t] == old(iq[t])
  {
    carry := carry0;
    ghost var before := iq[..i];
    var j := iq[i];
    ComplementStep(s[..i], j, before, carry);
    if carry == 0 {
      if j != 0 {
        carry := 1;
        iq[i] := 0x100_0000 - j;
      }
    } else {
      iq[i] := 0xff_ffff - j;
    }
    assert s[..i + 1] == s[..i] + [j];
    assert iq[..i + 1] == before + [iq[i]];
  }

  /** Lines 219-227: the digits are subtracted from BASE^jz, by complementing every digit
      above the lowest non-zero one; a zero stays zero and leaves carry clear. */
  method ComplementDigits(iq: array<int>, jz: nat) returns (carry: int)
    requires jz <= iq.Length && IsDigits(iq[..jz])
    modifies iq
    ensures IsDigits(iq[..jz])
    ensures carry == if LittleEndian(old(iq[..jz])) == 0 then 0 else 1
    ensures carry == 0 ==> LittleEndian(iq[..jz]) == 0
    ensures carry == 1 ==> LittleEndian(iq[..jz]) == Lift(1, jz) - LittleEndian(old(iq[..jz]))
    ensures forall i :: jz <= i < iq.Length ==> iq[i] == old(iq[i])
  {
    ghost var s := iq[..jz];
    carry := 0;
    var i := 0;
    while i < jz
      invariant 0 <= i <= jz
      invariant forall t :: i <= t < jz ==> iq[t] == s[t]
      invariant forall t :: jz <= t < iq.Length ==> iq[t] == old(iq[t])
      invariant Complemented(s[..i], iq[..i], carry)
    {
      carry := ComplementDigit(iq, i, carry, s);
      i := i + 1;
    }
    assert s[..jz] == s;
  }

  /** t is the complement of the digits s, or both are zero. */
  predicate Complemented(s: seq<int>, t: seq<int>, carry: int) {
    && IsDigits(t) && |t| == |s|
    && carry == (if LittleEndian(s) == 0 then 0 else 1)
    && LittleEndian(t) == if carry == 0 then 0 else Lift(1, |s|) - LittleEndian(s)
  }

  /** One more digit d: a zero stays while there was no carry, the first other digit is taken
      from the base and starts the carry, the rest from the base less one. */
  lemma ComplementStep(s: seq<int>, d: int, before: seq<int>, carry: int)
    requires IsDigits(s) && 0 <= d < BASE && Complemented(s, before, carry)
    ensures carry == 0 && d == 0 ==> Complemented(s + [d], before + [0], 0)
    ensures carry == 0 && d != 0 ==> Complemented(s + [d], before + [BASE - d], 1)
    ensures carry == 1 ==> Complemented(s + [d], before + [BASE - 1 - d], 1)
  {
    if carry == 1 {
      ComplementRest(s, d, before);
    } else if d != 0 {
      ComplementFirst(s, d, before);
    } else {
      ComplementZero(s, before);
    }
  }

  lemma ComplementZero(s: seq<int>, before: seq<int>)
    requires IsDigits(s) && Complemented(s, before, 0)
    ensures Complemented(s + [0], before + [0], 0)
  {
    LittleEndianAppend(s, 0);
    LittleEndianAppend(before, 0);
    LiftZero(|s|);
  }

  lemma ComplementFirst(s: seq<int>, d: int, before: seq<int>)
    requires IsDigits(s) && 0 < d < BASE && Complemented(s, before, 0)
    ensures Complemented(s + [d], before + [BASE - d], 1)
  {
    var i, c := |s|, BASE - d;
    assert LittleEndian(s + [d]) == Lift(d, i) by { LittleEndianAppend(s, d); }
    assert LittleEndian(before + [c]) == Lift(c, i) by { LittleEndianAppend(before, c); }
    assert Lift(c, i) == Lift(1, i + 1) - Lift(d, i) by { LowComplement(d, i); }
    assert Lift(d, i) > 0 by { PositiveLift(d, i); }
  }

  lemma ComplementRest(s: seq<int>, d: int, before: seq<int>)
    requires IsDigits(s) && 0 <= d < BASE && Complemented(s, before, 1)
    ensures Complemented(s + [d], before + [BASE - 1 - d], 1)
  {
    var i, c := |s|, BASE - 1 - d;
    assert LittleEndian(s) > 0 by { LittleEndianBound(s); }
    assert LittleEndian(s + [d]) == LittleEndian(s) + Lift(d, i) by { LittleEndianAppend(s, d); }
    assert LittleEndian(before + [c]) == LittleEndian(before) + Lift(c, i) by { LittleEndianAppend(before, c); }
    assert Lift(c, i) == Lift(1, i + 1) - Lift(1, i) - Lift(d, i) by { TopComplement(d, i); }
  }

  lemma PositiveLift(d: int, i: nat)
    requires d > 0
    ensures Lift(d, i) > 0
  {
    LiftZero(i);
    LiftOrder(0, d, i);
  }

  lemma LowComplement(d: int, i: nat)
    ensures Lift(BASE - d, i) == Lift(1, i + 1) - Lift(d, i)
  {
    LiftNext(1, i);
    LiftSum(BASE - d, d, i);
  }

  lemma TopComplement(d: int, i: nat)
    ensures Lift(BASE - 1 - d, i) == Lift(1, i + 1) - Lift(1, i) - Lift(d, i)
  {
    LowComplement(d, i);
    LiftSum(BASE - 1 - d, 1, i);
  }

  /** Lines 231 and 233: a mask is a remainder. */
  lemma MaskTopBits(d: nat, w: nat, mask: nat)
    requires mask == Pow2(w) - 1
    ensures BitAnd(d, mask) == d - Scale(Shr(d, w), w)
  {
    AndMask(d, w);
    QuotientAndRemainder(d, w);
  }

  lemma QuotientAndRemainder(d: nat, w: nat)
    ensures d % Pow2(w) == d - Scale(Shr(d, w), w)
  {
    ShrIsQuotient(d, w);
    ScaleIsProduct(Shr(d, w), w);
  }

  /** Two numbers below one unit (one of them positive) that add up to whole units add up
      to exactly one. */
  lemma OneUnit(a: int, b: int, w: int, q0: int, jz: nat)
    requires 24 * jz >= q0
    requires 0 <= a < Units(1, q0, jz) && 0 < b < Units(1, q0, jz)
    requires a + b == Units(w, q0, jz)
    ensures a + b == Units(1, q0, jz)
  {
    ScaleZero(24 * jz - q0);
    ScaleMono(0, w, 24 * jz - q0);
    ScaleSum(1, 1, 24 * jz - q0);
    ScaleMono(w, 2, 24 * jz - q0);
  }

  /** Lines 228-235: what the complement left above one unit is cut off; t is the number
      that was complemented. */
  method ClearWholeUnits(q0: int, iq: array<int>, jz: nat, ghost t: int)
    requires 1 <= q0 <= 2 && 1 <= jz <= iq.Length && IsDigits(iq[..jz])
    requires 0 < t < Units(1, q0, jz) && LittleEndian(iq[..jz]) == Lift(1, jz) - t
    modifies iq
    ensures IsDigits(iq[..jz]) && LittleEndian(iq[..jz]) == Units(1, q0, jz) - t
  {
    ghost var s := iq[..jz];
    var mask := if q0 == 1 then 0x7f_ffff else 0x3f_ffff;
    assert mask == Pow2(24 - q0) - 1 by { Pow2Table(); }
    MaskTopBits(s[jz - 1], 24 - q0, mask);
    iq[jz - 1] := BitAnd(iq[jz - 1], mask);
    CutWholeUnits(s, t, q0, iq[jz - 1]);
    assert iq[..jz] == s[jz - 1 := iq[jz - 1]];
  }

  lemma CutWholeUnits(s: seq<int>, t: int, q0: int, r: int)
    requires 1 <= q0 <= 2 && s != [] && IsDigits(s)
    requires r == s[|s| - 1] - Scale(Shr(s[|s| - 1], 24 - q0), 24 - q0)
    requires 0 < t < Units(1, q0, |s|) && LittleEndian(s) == Lift(1, |s|) - t
    ensures IsDigits(s[|s| - 1 := r]) && LittleEndian(s[|s| - 1 := r]) == Units(1, q0, |s|) - t
  {
    var i, jz := Shr(s[|s| - 1], 24 - q0), |s|;
    TopBits(s, q0, i, r);
    ScaleAdd(1, q0, 24 * jz - q0);
    ScaleSum(Scale(1, q0) - i, i, 24 * jz - q0);
    OneUnit(LittleEndian(s[jz - 1 := r]), t, Scale(1, q0) - i, q0, jz);
  }

  /** Lines 220-239: the fraction is subtracted from one. */
  method NegateFraction(z0: int, q0: int, ih: int, iq: array<int>, jz: nat) returns (z: int)
    requires q0 <= 2 && 1 <= jz <= iq.Length && IsDigits(iq[..jz])
    requires 0 <= z0 < Denominator(q0) && (q0 >= 0 ==> z0 == 0) && (ih == 2 <==> q0 < 0)
    requires Units(1, q0, jz) <= 2 * Fraction(z0, iq[..jz]) < 2 * Units(1, q0, jz)
    requires z0 < EXACT
    modifies iq
    ensures IsDigits(iq[..jz]) && 0 <= z < EXACT && (ih == 2 ==> Denominator(q0) <= EXACT)
    ensures Fraction(z, iq[..jz]) == Units(1, q0, jz) - Fraction(z0, old(iq[..jz]))
  {
    ghost var s := iq[..jz];
    LiftZero(jz);
    ScaleGrows(1, 24 * jz - q0);
    z := z0;
    var carry := ComplementDigits(iq, jz);
    if q0 > 0 {
      ClearWholeUnits(q0, iq, jz, LittleEndian(s));
    }
    if ih == 2 {
      HalfOfZ(z0, q0, s);
      HalfIsExact(z0, q0);
      NegateZ(z0, q0, jz);
      z := Denominator(q0) - z;
      if carry != 0 {
        z := z - 1;
      }
    }
  }

  lemma NegateZ(z: int, q0: int, jz: nat)
    requires q0 < 0
    ensures Lift(Denominator(q0) - z, jz) == Units(1, q0, jz) - Lift(z, jz)
    ensures Lift(Denominator(q0) - z - 1, jz) == Units(1, q0, jz) - Lift(z, jz) - Lift(1, jz)
  {
    ScaleAdd(1, -q0, 24 * jz);
    LiftSum(Denominator(q0) - z, z, jz);
    LiftSum(Denominator(q0) - z - 1, 1, jz);
  }

  /** total, in units of 2^(q0-24jz), is n + g or n - g up to a multiple of 8. */
  predicate Octant(total: int, q0: int, jz: nat, n: int, ih: int, g: int, k: int)
    requires 24 * jz >= q0
  {
    total == Units(8 * k + n, q0, jz) + if ih > 0 then -g else g
  }

  /** Lines 204-240. */
  method IntegerPart(z0: int, q0: int, iq: array<int>, jz: nat)
    returns (n: int, ih: int, z: int, ghost k: int)
    requires q0 <= 2 && 1 <= jz <= iq.Length && 0 <= z0 < EXACT && IsDigits(iq[..jz])
    modifies iq
    ensures IsDigits(iq[..jz]) && 0 <= z < EXACT
    ensures Octant(Lift(z0, jz) + LittleEndian(old(iq[..jz])), q0, jz, n, ih, Fraction(z, iq[..jz]), k)
    ensures 0 <= 2 * Fraction(z, iq[..jz]) <= Units(1, q0, jz)
    ensures ih == 0 ==> 2 * Fraction(z, iq[..jz]) < Units(1, q0, jz)
  {
    n, ih, z, k := ExtractInteger(z0, q0, iq, jz);
    if ih > 0 {
      n := n + 1;
      ScaleSum(8 * k + n - 1, 1, 24 * jz - q0);
      z := NegateFraction(z, q0, ih, iq, jz);
    }
  }

  // ----- the meaning of the entries -----

  /** The product of x with the digits p, kept down to weight s. */
  function PartialProduct(x: seq<int>, p: seq<int>, s: int): int {
    if s < 0 then 0 else BASE * PartialProduct(x, p, s - 1) + Coefficient(x, p, s)
  }

  /** The entries of q[] are the lower end of the product. */
  lemma {:induction false} KeptEntries(x: seq<int>, p: seq<int>, jv: nat, qs: seq<int>)
    requires forall i :: 0 <= i < |qs| ==> qs[i] == Coefficient(x, p, jv + i)
    ensures PartialProduct(x, p, jv + |qs| - 1)
         == Lift(PartialProduct(x, p, jv - 1), |qs|) + Horner(qs)
    decreases |qs|
  {
    if qs != [] {
      var m := |qs| - 1;
      KeptEntries(x, p, jv, qs[..m]);
      var h := PartialProduct(x, p, jv - 1);
      LiftNext(h, m);
    }
  }

  /** The part of the product above the entries, skipped by the choice of jv, is a
      multiple of 8. */
  lemma SkippedIsMultipleOfEight(w: int, e0: int, jz: nat) returns (k: int)
    requires FirstDigit(e0) == 0 ==> w == 0
    requires jz >= 1
    ensures Lift(w, jz + 1) == Units(8 * k, LeadExponent(e0), jz)
  {
    var q0 := LeadExponent(e0);
    if FirstDigit(e0) == 0 {
      k := 0;
      LiftZero(jz + 1);
      ScaleZero(24 * jz - q0);
    } else {
      k := Scale(w, 21 + q0);
      ScaleAdd(w, 21 + q0, 24 * jz - q0 + 3);
      assert Scale(8 * k, 24 * jz - q0) == Scale(4 * k, 24 * jz - q0 + 1) == Scale(2 * k, 24 * jz - q0 + 2);
    }
  }

  // ----- the kernel up to line 240 -----

  /** The result at line 240 for jz + 1 entries: the product of x with the digits of 2/pi
      down to weight jv + jz is n + g or, when ih > 0, n - g, up to a multiple of 8, with
      0 <= g <= 1/2. One stands for 2^(24jz-q0) units of the lowest weight. */
  ghost predicate ReducedModEight(x: seq<int>, p: seq<int>, e0: int, jz: nat, n: int, ih: int, g: int)
    requires jz >= 1
  {
    && 0 <= 2 * g <= Units(1, LeadExponent(e0), jz)
    && (ih == 0 ==> 2 * g < Units(1, LeadExponent(e0), jz))
    && exists k :: ProductOctant(x, p, e0, jz, n, ih, g, k)
  }

  predicate ProductOctant(x: seq<int>, p: seq<int>, e0: int, jz: nat, n: int, ih: int, g: int, k: int)
    requires jz >= 1
  {
    Octant(PartialProduct(x, p, FirstDigit(e0) + jz), LeadExponent(e0), jz, n, ih, g, k)
  }

  lemma WholeProduct(x: seq<int>, p: seq<int>, e0: int, jz: nat, qs: seq<int>, n: int, ih: int, g: int, k: int)
    requires jz >= 1 && |qs| == jz + 1
    requires forall i :: 0 <= i < |qs| ==> qs[i] == Coefficient(x, p, FirstDigit(e0) + i)
    requires Octant(Horner(qs), LeadExponent(e0), jz, n, ih, g, k)
    ensures exists k' :: ProductOctant(x, p, e0, jz, n, ih, g, k')
  {
    var jv: int, q0 := FirstDigit(e0), LeadExponent(e0);
    KeptEntries(x, p, jv, qs);
    var j := SkippedIsMultipleOfEight(PartialProduct(x, p, jv - 1), e0, jz);
    ScaleSum(8 * j, 8 * k + n, 24 * jz - q0);
    assert ProductOctant(x, p, e0, jz, n, ih, g, j + k);
  }

  /** Lines 197-240: distilling and reducing whatever entries there are; the code comes back
      here with a larger jz when all the digits cancel. */
  method DistillAndReduce(ghost x: seq<int>, ghost p: seq<int>, e0: int, q: array<int>, iq: array<int>, jz: nat)
    returns (n: int, ih: int, z: int)
    requires q != iq && 1 <= jz < q.Length && jz < iq.Length
    requires IsDigits(x) && IsDigits(p) && |x| <= 20
    requires forall i :: 0 <= i <= jz ==> q[i] == Coefficient(x, p, FirstDigit(e0) + i)
    modifies iq
    ensures IsDigits(iq[..jz]) && 0 <= z < EXACT
    ensures ReducedModEight(x, p, e0, jz, n, ih, Fraction(z, iq[..jz]))
  {
    forall i | 0 <= i <= jz ensures 0 <= q[i] <= ENTRY_BOUND {
      CoefficientBound(x, p, FirstDigit(e0) + i);
    }
    ghost var qs := q[..jz + 1];
    z := Distill(q, iq, jz);
    ghost var k;
    n, ih, z, k := IntegerPart(z, LeadExponent(e0), iq, jz);
    WholeProduct(x, p, e0, jz, qs, n, ih, Fraction(z, iq[..jz]), k);
  }

  /** __kernel_rem_pio2 from its entry to line 240, before any recomputation. */
  method FirstPass(x: seq<int>, e0: int, jk: nat, p: seq<int>, f: array<int>, q: array<int>, iq: array<int>)
    returns (n: int, ih: int, z: int)
    requires f != q && f != iq && q != iq && f.Length == q.Length == iq.Length == 20
    requires 1 <= |x| && 1 <= jk && |x| - 1 + jk < 20
    requires IsDigits(x) && IsDigits(p) && FirstDigit(e0) + jk < |p|
    modifies f, q, iq
    ensures IsDigits(iq[..jk]) && 0 <= z < EXACT
    ensures forall i :: 0 <= i <= jk ==> q[i] == Coefficient(x, p, FirstDigit(e0) + i)
    ensures forall t :: 0 <= t <= |x| - 1 + jk ==> f[t] == DigitAt(p, FirstDigit(e0) - (|x| - 1) + t)
    ensures ReducedModEight(x, p, e0, jk, n, ih, Fraction(z, iq[..jk]))
  {
    var jv := FirstDigit(e0);
    FillFactors(f, p, jv, |x| - 1, jk);
    FillProducts(x, f, q, p, jv, jk);
    n, ih, z := DistillAndReduce(x, p, e0, q, iq, jk);
  }

  /** Lines 249-253: k more digits of 2/pi are taken in before the recomputation. */
  method TakeMoreDigits(x: seq<int>, e0: int, p: seq<int>, f: array<int>, q: array<int>, jz: nat, k: nat)
    requires f != q && f.Length == q.Length == 20
    requires 1 <= |x| && |x| - 1 + jz + k < 20 && FirstDigit(e0) + jz + k < |p|
    requires IsDigits(x) && IsDigits(p)
    requires forall i :: 0 <= i <= jz ==> q[i] == Coefficient(x, p, FirstDigit(e0) + i)
    requires forall t :: 0 <= t <= |x| - 1 + jz ==> f[t] == DigitAt(p, FirstDigit(e0) - (|x| - 1) + t)
    modifies f, q
    ensures forall i :: 0 <= i <= jz + k ==> q[i] == Coefficient(x, p, FirstDigit(e0) + i)
    ensures forall t :: 0 <= t <= |x| - 1 + jz + k ==> f[t] == DigitAt(p, FirstDigit(e0) - (|x| - 1) + t)
    ensures forall t :: |x| - 1 + jz < t <= |x| - 1 + jz + k ==> f[t] == p[FirstDigit(e0) - (|x| - 1) + t]
  {
    var jv, jx := FirstDigit(e0), |x| - 1;
    var i := jz + 1;
    while i <= jz + k
      invariant jz + 1 <= i <= jz + k + 1
      invariant forall m :: 0 <= m < i ==> q[m] == Coefficient(x, p, jv + m)
      invariant forall t :: 0 <= t < jx + i ==> f[t] == DigitAt(p, jv - jx + t)
      invariant forall t :: jx + jz < t < jx + i ==> f[t] == p[jv - jx + t]
    {
      f[jx + i] := p[jv + i];
      assert f[jx + i] == DigitAt(p, jv - jx + (jx + i));
      var fw := Convolve(x, f, p, i, jv);
      q[i] := fw;
      i := i + 1;
    }
  }

  // ----- the partial product and the product of the numbers -----

  /** The first s + 1 digits of p as a number, zero digits following the last. */
  function Prefix(p: seq<int>, s: int): int {
    if s < 0 then 0 else BASE * Prefix(p, s - 1) + DigitAt(p, s)
  }

  /** The partial product collects every digit of x times a prefix of 2/pi. */
  lemma {:induction false} ProductByDigits(x: seq<int>, p: seq<int>, s: int)
    requires x != []
    ensures PartialProduct(x, p, s)
         == PartialProduct(x[..|x| - 1], p, s) + x[|x| - 1] * Prefix(p, s - (|x| - 1))
    decreases if s < 0 then 0 else s + 1
  {
    var n := |x| - 1;
    if s >= 0 {
      ProductByDigits(x, p, s - 1);
      MoveBase(x[n], Prefix(p, s - 1 - n), DigitAt(p, s - n));
      if s < n {
        PrefixBeforePoint(p, s - n);
      }
    } else {
      PrefixBeforePoint(p, s - n);
    }
  }

  lemma MoveBase(d: int, h: int, c: int)
    ensures BASE * (d * h) + d * c == d * (BASE * h + c)
  {}

  lemma PrefixBeforePoint(p: seq<int>, s: int)
    requires s < 0
    ensures Prefix(p, s) == 0 && DigitAt(p, s) == 0
  {}

  /** The first digits of p are read in the order in which they stand. */
  lemma {:induction false} PrefixIsHorner(p: seq<int>, k: nat)
    requires k <= |p|
    ensures Prefix(p, k - 1) == Horner(p[..k])
  {
    if k > 0 {
      PrefixIsHorner(p, k - 1);
      assert p[..k][..k - 1] == p[..k - 1];
    }
  }

  lemma {:induction false} PrefixPadding(p: seq<int>, m: nat)
    ensures Prefix(p, |p| - 1 + m) == Lift(Prefix(p, |p| - 1), m)
    decreases m
  {
    if m > 0 {
      PrefixPadding(p, m - 1);
      LiftNext(Prefix(p, |p| - 1), m - 1);
    }
  }

  /** Taken far enough, the partial product is the product of the two numbers. */
  lemma FullProduct(x: seq<int>, p: seq<int>, m: nat)
    requires |x| <= m + 1
    ensures PartialProduct(x, p, |p| - 1 + m) == Lift(Horner(x) * Horner(p), m + 1 - |x|)
  {
    ProductWithPrefix(x, p, m);
    PrefixIsHorner(p, |p|);
    assert p[..|p|] == p;
  }

  lemma {:induction false} ProductWithPrefix(x: seq<int>, p: seq<int>, m: nat)
    requires |x| <= m + 1
    ensures PartialProduct(x, p, |p| - 1 + m) == Lift(Horner(x) * Prefix(p, |p| - 1), m + 1 - |x|)
    decreases |x|
  {
    var w := Prefix(p, |p| - 1);
    if x == [] {
      EmptyProduct(p, |p| - 1 + m);
      LiftZero(m + 1);
    } else {
      var n := |x| - 1;
      var h, d, e := Horner(x[..n]), x[n], m - n;
      assert PartialProduct(x[..n], p, |p| - 1 + m) == Lift(h * w, e + 1) by { ProductWithPrefix(x[..n], p, m); }
      assert Prefix(p, |p| - 1 + e) == Lift(w, e) by { PrefixPadding(p, e); }
      ProductByDigits(x, p, |p| - 1 + m);
      assert Lift(h * w, e + 1) + d * Lift(w, e) == Lift((BASE * h + d) * w, e) by { ProductStep(h, d, w, e); }
      assert Horner(x) == BASE * h + d;
    }
  }

  lemma ProductStep(h: int, d: int, w: int, e: nat)
    ensures Lift(h * w, e + 1) + d * Lift(w, e) == Lift((BASE * h + d) * w, e)
  {
    LiftNext(h * w, e);
    ScalePull(d, w, 24 * e);
    LiftSum(BASE * (h * w), d * w, e);
    MoveFactor(h, d, w);
  }

  lemma MoveFactor(h: int, d: int, w: int)
    ensures BASE * (h * w) + d * w == (BASE * h + d) * w
  {}

  lemma {:induction false} EmptyProduct(p: seq<int>, s: int)
    ensures PartialProduct([], p, s) == 0
    decreases if s < 0 then 0 else s + 1
  {
    if s >= 0 {
      EmptyProduct(p, s - 1);
    }
  }

  /** Stopping at weight s loses less than |x| * BASE units of that weight. */
  lemma {:induction false} Truncation(x: seq<int>, p: seq<int>, s: int, m: nat)
    requires IsDigits(x) && IsDigits(p) && s >= -1
    ensures 0 <= PartialProduct(x, p, s + m) - Lift(PartialProduct(x, p, s), m)
              <= |x| * (BASE - 1) * (Lift(1, m) - 1)
    decreases m
  {
    if m > 0 {
      Truncation(x, p, s, m - 1);
      LiftNext(PartialProduct(x, p, s), m - 1);
      LiftNext(1, m - 1);
      CoefficientBound(x, p, s + m);
      TruncationStep(|x|, Lift(1, m - 1));
    }
  }

  lemma TruncationStep(n: int, l: int)
    ensures BASE * (n * (BASE - 1) * (l - 1)) + n * 0xffff_fe00_0001
         == n * (BASE - 1) * (BASE * l - 1)
  {}

  // ----- the reduction of the whole product -----

  /** How many digits of the whole product lie below weight jv + jz. */
  function Below(x: seq<int>, p: seq<int>, e0: int, jz: nat): int {
    |x| + |p| - 2 - (FirstDigit(e0) + jz)
  }

  /** A unit is 2^e0 times as many of the last digits of x and p together as this power of two
      says: x[0] is worth 2^e0 and p[0] 2^-24. */
  function UnitBits(x: seq<int>, p: seq<int>, e0: int): int {
    24 * (|x| - 1) + 24 * |p| - e0
  }

  /** The number x times the number p, both with all their digits, is n + g or n - g up to a
      multiple of 8, 0 <= g <= 1/2, plus an error that is not negative and below |x| * BASE
      units of the last weight used. */
  predicate WholeOctant(x: seq<int>, p: seq<int>, e0: int, jz: nat, n: int, ih: int, g: int, k: int, error: int)
    requires Below(x, p, e0, jz) >= 0 && UnitBits(x, p, e0) >= 0
  {
    var m, one := Below(x, p, e0, jz), UnitBits(x, p, e0);
    && Horner(x) * Horner(p) == Scale(8 * k + n, one) + Lift(if ih > 0 then -g else g, m) + error
    && 0 <= 2 * Lift(g, m) <= Scale(1, one)
    && 0 <= error < |x| * BASE * Lift(1, m)
  }

  ghost predicate ReducesProduct(x: seq<int>, p: seq<int>, e0: int, jz: nat, n: int, ih: int, g: int)
    requires Below(x, p, e0, jz) >= 0 && UnitBits(x, p, e0) >= 0
  {
    exists k, error :: WholeOctant(x, p, e0, jz, n, ih, g, k, error)
  }

  lemma WholeReduction(x: seq<int>, p: seq<int>, e0: int, jz: nat, n: int, ih: int, g: int)
    requires IsDigits(x) && IsDigits(p) && x != [] && jz >= 1 && FirstDigit(e0) + jz < |p|
    requires ReducedModEight(x, p, e0, jz, n, ih, g)
    ensures UnitBits(x, p, e0) >= 0 && ReducesProduct(x, p, e0, jz, n, ih, g)
  {
    var k :| ProductOctant(x, p, e0, jz, n, ih, g, k);
    var s, m := FirstDigit(e0) + jz, Below(x, p, e0, jz);
    var whole, part := Horner(x) * Horner(p), PartialProduct(x, p, s);
    assert PartialProduct(x, p, s + m) == whole by { FullProduct(x, p, |x| - 1); LiftZeroPlaces(whole); }
    var error := whole - Lift(part, m);
    assert 0 <= error <= |x| * (BASE - 1) * (Lift(1, m) - 1) by { Truncation(x, p, s, m); }
    assert error < |x| * BASE * Lift(1, m) by { PositiveLift(1, m); ErrorBound(|x|, Lift(1, m)); }
    WholeUnits(8 * k + n, x, p, e0, jz);
    WholeUnits(1, x, p, e0, jz);
    var signed := if ih > 0 then -g else g;
    LiftSum(Units(8 * k + n, LeadExponent(e0), jz), signed, m);
    LiftSum(g, g, m);
    LiftAtMost(0, 2 * g, m);
    LiftAtMost(2 * g, Units(1, LeadExponent(e0), jz), m);
    LiftZero(m);
    assert WholeOctant(x, p, e0, jz, n, ih, g, k, error);
  }

  lemma LiftAtMost(w: int, u: int, m: nat)
    requires w <= u
    ensures Lift(w, m) <= Lift(u, m)
  {
    LiftOrder(u, w, m);
  }

  /** A unit of q0, counted in the last digits of the whole product. */
  lemma WholeUnits(w: int, x: seq<int>, p: seq<int>, e0: int, jz: nat)
    requires jz >= 1 && Below(x, p, e0, jz) >= 0
    ensures UnitBits(x, p, e0) >= 0
    ensures Lift(Units(w, LeadExponent(e0), jz), Below(x, p, e0, jz)) == Scale(w, UnitBits(x, p, e0))
  {
    ScaleAdd(w, 24 * jz - LeadExponent(e0), 24 * Below(x, p, e0, jz));
  }

  lemma LiftZeroPlaces(w: int)
    ensures Lift(w, 0) == w
  {}

  lemma ErrorBound(n: int, l: int)
    requires n >= 1 && l >= 1
    ensures n * (BASE - 1) * (l - 1) < n * BASE * l
  {
    var a := n * l;
    assert n * (BASE - 1) * (l - 1) == (BASE - 1) * a - (BASE - 1) * n;
    assert n * BASE * l == BASE * a;
    MulMono(1, n, l);
  }

  // ----- all passes -----

  /** Lines 243-245: nothing of the fraction is left in z or in the digits from jk on. */
  predicate Cancelled(z: int, digits: seq<int>, jk: nat) {
    z == 0 && forall i :: jk <= i < |digits| ==> digits[i] == 0
  }

  /** The loop at line 244. */
  method TestDigits(z: int, iq: array<int>, jk: nat, jz: nat) returns (cancelled: bool)
    requires jk <= jz <= iq.Length && IsDigits(iq[..jz])
    ensures cancelled <==> Cancelled(z, iq[..jz], jk)
  {
    if z != 0 {
      return false;
    }
    var i, j := jz - 1, 0;
    while i >= jk
      invariant jk - 1 <= i < jz && j >= 0
      invariant j == 0 <==> forall t :: i < t < jz ==> iq[t] == 0
    {
      var d := iq[..jz][i];
      OrIsZero(j, d);
      j := BitOr(j, d);
      i := i - 1;
    }
    cancelled := j == 0;
  }

  /** Line 247: how far below jk the first digit is that is not zero; more than jk if there is
      none, where the code would read on in front of the array. */
  method TermsNeeded(iq: array<int>, jk: nat) returns (k: nat)
    requires jk <= iq.Length
    ensures 1 <= k <= jk + 1
    ensures k <= jk ==> iq[jk - k] != 0
    ensures forall i :: jk - k < i < jk ==> iq[i] == 0
  {
    k := 1;
    while k <= jk && iq[jk - k] == 0
      invariant 1 <= k <= jk + 1
      invariant forall i :: jk - k < i < jk ==> iq[i] == 0
    {
      k := k + 1;
    }
  }

  /** jz + 1 entries fit into the arrays and the table. */
  predicate Fits(x: seq<int>, p: seq<int>, e0: int, jz: nat) {
    1 <= |x| && |x| - 1 + jz < 20 && FirstDigit(e0) + jz < |p|
  }

  /** Line 247 finds k, and k more digits do not fit. */
  predicate AsksTooMuch(x: seq<int>, p: seq<int>, e0: int, digits: seq<int>, jk: nat, k: nat)
    requires jk <= |digits|
  {
    1 <= k <= jk && digits[jk - k] != 0 && !Fits(x, p, e0, |digits| + k)
  }

  /** No more digits can be taken in: all there are have cancelled, or the next ones that are
      asked for lie outside the arrays or the table. */
  ghost predicate OutOfDigits(x: seq<int>, p: seq<int>, e0: int, digits: seq<int>, jk: nat)
    requires jk <= |digits|
  {
    LittleEndian(digits) == 0 || exists k :: AsksTooMuch(x, p, e0, digits, jk, k)
  }

  lemma NoTermsLeft(digits: seq<int>, jk: nat, z: int)
    requires IsDigits(digits) && Cancelled(z, digits, jk) && forall i :: 0 <= i < jk && i < |digits| ==> digits[i] == 0
    ensures LittleEndian(digits) == 0
  {
    LittleEndianZero(digits);
  }

  /** The entries and factors up to jz. */
  predicate Computed(x: seq<int>, p: seq<int>, e0: int, jz: nat, f: array<int>, q: array<int>)
    reads f, q
  {
    && x != [] && jz < q.Length && |x| - 1 + jz < f.Length
    && (forall i :: 0 <= i <= jz ==> q[i] == Coefficient(x, p, FirstDigit(e0) + i))
    && forall t :: 0 <= t <= |x| - 1 + jz ==> f[t] == DigitAt(p, FirstDigit(e0) - (|x| - 1) + t)
  }

  /** What a pass has found. */
  ghost predicate Found(x: seq<int>, p: seq<int>, e0: int, jz: nat, n: int, ih: int, z: int, iq: array<int>)
    reads iq
  {
    && 1 <= jz <= iq.Length && Fits(x, p, e0, jz) && IsDigits(iq[..jz]) && 0 <= z < EXACT
    && ReducedModEight(x, p, e0, jz, n, ih, Fraction(z, iq[..jz]))
  }

  /** Lines 249-256 and the next pass. */
  method NextPass(x: seq<int>, e0: int, p: seq<int>, f: array<int>, q: array<int>, iq: array<int>, jz0: nat, k: nat)
    returns (jz: nat, n: int, ih: int, z: int)
    requires f != q && f != iq && q != iq && f.Length == q.Length == iq.Length == 20
    requires Fits(x, p, e0, jz0 + k) && k >= 1 && IsDigits(x) && IsDigits(p) && Computed(x, p, e0, jz0, f, q)
    modifies f, q, iq
    ensures jz == jz0 + k && Computed(x, p, e0, jz, f, q) && Found(x, p, e0, jz, n, ih, z, iq)
  {
    TakeMoreDigits(x, e0, p, f, q, jz0, k);
    jz := jz0 + k;
    n, ih, z := DistillAndReduce(x, p, e0, q, iq, jz);
  }

  /** __kernel_rem_pio2 from its entry to line 257, with all recomputations: when it gets to
      line 259, with whatever number of digits, the product is reduced, and z or one of the
      digits from jk on is left. done is false where it would leave its arrays. */
  method Reduce(x: seq<int>, e0: int, jk: nat, p: seq<int>, f: array<int>, q: array<int>, iq: array<int>)
    returns (done: bool, jz: nat, n: int, ih: int, z: int)
    requires f != q && f != iq && q != iq && f.Length == q.Length == iq.Length == 20
    requires 1 <= jk && Fits(x, p, e0, jk) && IsDigits(x) && IsDigits(p)
    modifies f, q, iq
    ensures jk <= jz && Found(x, p, e0, jz, n, ih, z, iq)
    ensures UnitBits(x, p, e0) >= 0 && ReducesProduct(x, p, e0, jz, n, ih, Fraction(z, iq[..jz]))
    ensures done <==> !Cancelled(z, iq[..jz], jk)
    ensures !done ==> OutOfDigits(x, p, e0, iq[..jz], jk)
  {
    n, ih, z := FirstPass(x, e0, jk, p, f, q, iq);
    jz := jk;
    var again := TestDigits(z, iq, jk, jz);
    var stop := false;
    while again && !stop
      invariant jk <= jz && Computed(x, p, e0, jz, f, q) && Found(x, p, e0, jz, n, ih, z, iq)
      invariant again <==> Cancelled(z, iq[..jz], jk)
      invariant stop ==> OutOfDigits(x, p, e0, iq[..jz], jk)
      decreases 20 - jz, !stop
    {
      var k := TermsNeeded(iq, jk);
      if k > jk {
        NoTermsLeft(iq[..jz], jk, z);
        stop := true;
      } else if |x| - 1 + jz + k >= 20 || FirstDigit(e0) + jz + k >= |p| {
        assert AsksTooMuch(x, p, e0, iq[..jz], jk, k);
        stop := true;
      } else {
        jz, n, ih, z := NextPass(x, e0, p, f, q, iq, jz, k);
        again := TestDigits(z, iq, jk, jz);
      }
    }
    done := !again;
    WholeReduction(x, p, e0, jz, n, ih, Fraction(z, iq[..jz]));
  }
}
