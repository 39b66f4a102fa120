/** The large-argument path of __ieee754_rem_pio2: |x| is split into 24-bit pieces for the
    kernel (libm/e_rem_pio2.c:166-185).
  */
module RemPio2 {
  import opened Words
  import opened Doubles
  import opened Digits
  import Kernel = KernelRemPio2

  /** z is kept as an integer count of 2^-29, the unit in the last place of 2^23. */
  const Z_UNIT: int := 0x2000_0000

  type Digit = d: int | 0 <= d < BASE

  /** The first 66 digits of 2/pi, 24 bits each. */
  const TWO_OVER_PI: seq<Digit> := [
    0xa2f983, 0x6e4e44, 0x1529fc, 0x2757d1, 0xf534dd, 0xc0db62,
    0x95993c, 0x439041, 0xfe5163, 0xabdebb, 0xc561b7, 0x246e3a,
    0x424dd2, 0xe00649, 0x2eea09, 0xd1921c, 0xfe1deb, 0x1cb129,
    0xa73ee8, 0x8235f5, 0x2ebb44, 0x84e99c, 0x7026b4, 0x5f7e41,
    0x3991d6, 0x398353, 0x39f49c, 0x845f8b, 0xbdf928, 0x3b1ff8,
    0x97ffde, 0x05980f, 0xef2f11, 0x8b5a0a, 0x6d1f6d, 0x367ecf,
    0x27cb09, 0xb74f46, 0x3f669e, 0x5fea2d, 0x7527ba, 0xc7ebe5,
    0xf17b3d, 0x0739f7, 0x8a5292, 0xea6bfb, 0x5fb11f, 0x8d5d08,
    0x560330, 0x46fc7b, 0x6babf0, 0xcfbc20, 0x9af436, 0x1da9e3,
    0x91615e, 0xe61b08, 0x659985, 0x5f14a0, 0x68408d, 0xffd880,
    0x4d7327, 0x310606, 0x1556ca, 0x73a8c9, 0x60e27b, 0xc08c6b
  ]

  lemma TableIsDigits()
    ensures |TWO_OVER_PI| == 66 && IsDigits(TWO_OVER_PI)
  {
    EntriesAreDigits(TWO_OVER_PI);
  }

  lemma EntriesAreDigits(s: seq<Digit>)
    ensures IsDigits(s)
  {}

  /** Lines 172-176: the exponent field of z is set so that 2^23 <= z < 2^24, and x is
      z * 2^e0. Besides the double z, its value as a count of 2^-29 is returned. */
  method ScaleArgument(ix: i32, low: u32) returns (e0: i32, z: Double, count: int)
    requires 0x4139_21fb < ix < 0x7ff0_0000
    ensures -3 <= e0 <= 1000
    ensures 0x10_0000_0000_0000 <= count < 0x20_0000_0000_0000
    ensures z.IsFinite() && !z.Negative() && z.Mag() == Scale(count, 1045)
    ensures MagnitudeOf(ix, low) == Scale(count, e0 + 1045)
  {
    ExponentField(ix);
    e0 := Shr(ix, 20) - 1046;
    var high: i32 := ix - e0 * 0x10_0000;
    z := Double(high, low);
    count := Pair(high - 1045 * 0x10_0000, low);
    SignificandAndExponent(ix, low);
    MagnitudeWithExponent(count, 1045, high, low);
  }

  /** Lines 177-183: three pieces of 24 bits, the last one exact, and the number of them
      that are needed. */
  method SplitPieces(z0: int, tx: array<int>) returns (nx: nat)
    requires tx.Length == 3 && 0x10_0000_0000_0000 <= z0 < 0x20_0000_0000_0000
    modifies tx
    ensures 1 <= nx <= 3 && IsDigits(tx[..]) && tx[nx - 1] != 0 && tx[0] >= 0x80_0000
    ensures forall i :: nx <= i < 3 ==> tx[i] == 0
    ensures Horner(tx[..]) == Scale(z0, 19)
  {
    var z := z0;
    var i := 0;
    while i < 2
      invariant 0 <= i <= 2
      invariant i == 0 ==> z == z0
      invariant i == 1 ==> z == z0 % Z_UNIT * BASE && tx[0] == z0 / Z_UNIT
      invariant i == 2 ==> (z == z0 % 0x20 * 0x1_0000_0000_0000
                            && tx[0] == z0 / Z_UNIT && tx[1] == z0 % Z_UNIT / 0x20)
    {
      SplitWord(z0);
      tx[i] := z / Z_UNIT;
      z := (z - tx[i] * Z_UNIT) * BASE;
      i := i + 1;
    }
    SplitWord(z0);
    tx[2] := z / Z_UNIT;
    assert tx[..] == [tx[0], tx[1], tx[2]];
    PiecesValue(tx[0], tx[1], tx[2], z0);
    nx := 3;
    while tx[nx - 1] == 0
      invariant 1 <= nx <= 3
      invariant forall i :: nx <= i < 3 ==> tx[i] == 0
      decreases nx
    {
      nx := nx - 1;
    }
  }

  /** The 53 bits as pieces of 24, 24 and 5 bits. */
  lemma SplitWord(z: nat)
    requires 0x10_0000_0000_0000 <= z < 0x20_0000_0000_0000
    ensures 0x80_0000 <= z / Z_UNIT < BASE
    ensures (z % Z_UNIT * BASE) / Z_UNIT == z % Z_UNIT / 0x20 < BASE
    ensures z % Z_UNIT * BASE - z % Z_UNIT / 0x20 * Z_UNIT == z % 0x20 * BASE
    ensures z % 0x20 * 0x1_0000_0000_0000 / Z_UNIT == z % 0x20 * 0x8_0000 < BASE
  {
    var b := z % Z_UNIT;
    var c, d := b / 0x20, b % 0x20;
    assert z == z / Z_UNIT * Z_UNIT + b && b == c * 0x20 + d;
    DivModUnique(z, 0x20, z / Z_UNIT * 0x100_0000 + c, d);
    DivModUnique(b * BASE, Z_UNIT, c, d * BASE);
    DivModUnique(d * 0x1_0000_0000_0000, Z_UNIT, d * 0x8_0000, 0);
  }

  lemma PiecesValue(t0: int, t1: int, t2: int, z: nat)
    requires t0 == z / Z_UNIT && t1 == z % Z_UNIT / 0x20 && t2 == z % 0x20 * 0x8_0000
    requires z < 0x20_0000_0000_0000
    ensures Horner([t0, t1, t2]) == Scale(z, 19)
  {
    HornerAppend([], t0);
    HornerAppend([t0], t1);
    HornerAppend([t0, t1], t2);
    assert [] + [t0] == [t0] && [t0] + [t1] == [t0, t1] && [t0, t1] + [t2] == [t0, t1, t2];
    var b := z % Z_UNIT;
    DivModUnique(z, 0x20, z / Z_UNIT * 0x100_0000 + b / 0x20, b % 0x20);
    ScaleAdd(z, 19, 1);
    ScaleIsProduct(z, 19);
    assert Pow2(19) == 0x8_0000 by { Pow2Table(); assert Pow2(20) == 2 * Pow2(19); }
  }

  /** Zero pieces at the end only scale the number. */
  lemma {:induction false} DropZeros(s: seq<int>, n: nat)
    requires n <= |s| && forall i :: n <= i < |s| ==> s[i] == 0
    ensures Horner(s) == Lift(Horner(s[..n]), |s| - n)
    decreases |s|
  {
    if n == |s| {
      assert s[..n] == s;
    } else {
      var m := |s| - 1;
      DropZeros(s[..m], n);
      assert s[..m][..n] == s[..n];
      LiftNext(Horner(s[..n]), m - n);
    }
  }

  /** Lines 172-183: the pieces are |x| exactly, with weights 2^e0, 2^(e0-24), 2^(e0-48). */
  method Pieces(x: Double) returns (e0: int, pieces: seq<int>)
    requires x.IsFinite() && x.AbsHi() > 0x4139_21fb
    ensures -3 <= e0 <= 1000 && IsDigits(pieces)
    ensures 1 <= |pieces| <= 3 && pieces[|pieces| - 1] != 0 && pieces[0] >= 0x80_0000
    ensures Scale(x.Mag(), 19) == Scale(Lift(Horner(pieces), 3 - |pieces|), e0 + 1045)
  {
    var z, count;
    e0, z, count := ScaleArgument(x.AbsHi(), x.lo);
    var tx := new int[3];
    var nx := SplitPieces(count, tx);
    pieces := tx[..nx];
    ghost var all := tx[..];
    assert all[..nx] == pieces;
    DropZeros(all, nx);
    ScaleAdd(count, 19, e0 + 1045);
    ScaleAdd(count, e0 + 1045, 19);
  }

  /** Lines 172-184 for |x| above 2^19 * pi/2, with the kernel up to its line 257: after all the
      passes it makes, the kernel has reduced the product of the pieces with 2/pi, all 66
      digits of it up to an error below |pieces| * 2^24 units of the last weight used. It runs
      out of its arrays only; the table is always long enough. */
  method LargeArgument(x: Double)
    returns (e0: int, pieces: seq<int>, done: bool, jz: nat, n: int, ih: int, z: int, iq: array<int>)
    requires x.IsFinite() && x.AbsHi() > 0x4139_21fb
    ensures 1 <= |pieces| <= 3 && e0 >= -3
    ensures Scale(x.Mag(), 19) == Scale(Lift(Horner(pieces), 3 - |pieces|), e0 + 1045)
    ensures 4 <= jz <= iq.Length == 20 && 0 <= z < Kernel.EXACT && Kernel.FirstDigit(e0) + jz < |TWO_OVER_PI| == 66
    ensures Kernel.ReducedModEight(pieces, TWO_OVER_PI, e0, jz, n, ih, Kernel.Fraction(z, iq[..jz]))
    ensures Kernel.UnitBits(pieces, TWO_OVER_PI, e0) >= 0
    ensures Kernel.ReducesProduct(pieces, TWO_OVER_PI, e0, jz, n, ih, Kernel.Fraction(z, iq[..jz]))
    ensures done <==> !Kernel.Cancelled(z, iq[..jz], 4)
    ensures !done && LittleEndian(iq[..jz]) != 0 ==>
              exists k :: Kernel.AsksTooMuch(pieces, TWO_OVER_PI, e0, iq[..jz], 4, k) && |pieces| - 1 + jz + k >= 20
  {
    e0, pieces := Pieces(x);
    TableIsDigits();
    var f, q := new int[20], new int[20];
    iq := new int[20];
    done, jz, n, ih, z := Kernel.Reduce(pieces, e0, 4, TWO_OVER_PI, f, q, iq);
  }
}
