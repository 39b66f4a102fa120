/** Numbers written as digits of 24 bits, in both orders the kernel uses. */
module Digits {
  import opened Words

  const BASE: int := 0x100_0000

  /** w * BASE^i */
  function Lift(w: int, i: nat): (r: int)
    ensures w >= 0 ==> r >= 0
  {
    Scale(w, 24 * i)
  }

  predicate IsDigits(s: seq<int>) {
    forall i :: 0 <= i < |s| ==> 0 <= s[i] < BASE
  }

  /** Most significant entry first; entries may exceed the base. */
  function Horner(s: seq<int>): int {
    if s == [] then 0 else BASE * Horner(s[..|s| - 1]) + s[|s| - 1]
  }

  /** Least significant digit first. */
  function LittleEndian(s: seq<int>): int {
    if s == [] then 0 else LittleEndian(s[..|s| - 1]) + Lift(s[|s| - 1], |s| - 1)
  }

  lemma LiftNext(w: int, i: nat)
    ensures Lift(BASE * w, i) == Lift(w, i + 1)
    ensures Lift(w, i + 1) == BASE * Lift(w, i)
  {
    ScalePull(BASE, w, 24 * i);
    ScaleAdd(w, 24 * i, 24);
    ScaleIsProduct(Scale(w, 24 * i), 24);
    Pow2Table();
  }

  lemma LiftSum(w: int, u: int, i: nat)
    ensures Lift(w + u, i) == Lift(w, i) + Lift(u, i)
  {
    ScaleSum(w, u, 24 * i);
  }

  lemma LiftOrder(w: int, u: int, i: nat)
    ensures w < u <==> Lift(w, i) < Lift(u, i)
    ensures w == u <==> Lift(w, i) == Lift(u, i)
  {
    ScaleMono(w, u, 24 * i);
  }

  lemma LiftZero(i: nat)
    ensures Lift(0, i) == 0
  {
    ScaleZero(24 * i);
  }

  lemma HornerAppend(s: seq<int>, d: int)
    ensures Horner(s + [d]) == BASE * Horner(s) + d
  {
    assert (s + [d])[..|s|] == s;
  }

  lemma LittleEndianAppend(s: seq<int>, d: int)
    ensures LittleEndian(s + [d]) == LittleEndian(s) + Lift(d, |s|)
  {
    assert (s + [d])[..|s|] == s;
  }

  lemma {:induction false} LittleEndianBound(s: seq<int>)
    requires IsDigits(s)
    ensures 0 <= LittleEndian(s) < Lift(1, |s|)
  {
    if s != [] {
      var n := |s| - 1;
      LittleEndianBound(s[..n]);
      LiftOrder(s[n], BASE - 1, n);
      LiftSum(BASE - 1, 1, n);
      LiftNext(1, n);
    }
  }

  /** All digits zero exactly when the number is zero. */
  lemma {:induction false} LittleEndianZero(s: seq<int>)
    requires IsDigits(s)
    ensures LittleEndian(s) == 0 <==> forall i :: 0 <= i < |s| ==> s[i] == 0
  {
    if s != [] {
      var n := |s| - 1;
      var p := s[..n];
      LittleEndianZero(p);
      LittleEndianBound(p);
      LiftZero(n);
      LiftOrder(0, s[n], n);
      assert forall i :: 0 <= i < n ==> p[i] == s[i];
    }
  }
}
