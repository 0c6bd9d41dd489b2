/**
 * common/e2e/crc8.c: the bit loop computes the polynomial remainder, and the transmission errors that pass the
 * check are exactly the multiples of the generator.
 */
module CrcErrors {
  import opened Crc

  function BitsOf(d: seq<bv8>): (p: Poly)
    ensures |p| == 8 * |d|
  {
    if d == [] then [] else BitsOf(d[..|d| - 1]) + Bits(d[|d| - 1])
  }

  /** The initial value 0xFF inverts the first eight coefficients. */
  function Inverted(p: Poly): (r: Poly)
    requires |p| >= 8
    ensures |r| == |p|
  {
    Xor(p, seq(8, _ => true) + Zeros(|p| - 8))
  }

  function Raw(d: seq<bv8>): bv8 { Rem(Inverted(BitsOf(d) + Zeros(8))) }

  /** The check value of a message: multiply by x^8, divide, invert. */
  function CrcOf(d: seq<bv8>): bv8 { Raw(d) ^ 0xFF }

  /** Remainders are added without carry. */
  function Add(a: bv8, b: bv8): bv8 { a ^ b }

  /** c * x^n modulo the generator. */
  function Shift(c: bv8, n: nat): bv8 { if n == 0 then c else Step(Shift(c, n - 1), false) }

  // ---------------------------------------------------------------------------------------------
  // Remainders are linear
  // ---------------------------------------------------------------------------------------------

  lemma RemAppend(p: Poly, b: bool)
    ensures Rem(p + [b]) == Step(Rem(p), b)
  {
    hide Step;
    assert (p + [b])[..|p|] == p;
  }

  lemma AddFacts(a: bv8, b: bv8, c: bv8, d: bv8)
    ensures Add(Add(a, b), Add(c, d)) == Add(Add(a, c), Add(b, d))
    ensures Add(a, a) == 0 && Add(a, 0) == a && Add(a, b) == Add(b, a)
    ensures Add(a, b) == 0 <==> a == b
  {}

  lemma ShiftAdd(a: bv8, b: bv8)
    ensures Add(a, b) << 1 == Add(a << 1, b << 1)
    ensures On(Add(a, b), 0x80) == (On(a, 0x80) != On(b, 0x80))
  {}

  lemma StepIsAdd(c: bv8, t: bool)
    ensures Step(c, t) == Add(Add(c << 1, if On(c, 0x80) then POLY else 0), if t then 1 else 0)
  {}

  lemma StepAdd(a: bv8, b: bv8, s: bool, t: bool)
    ensures Step(Add(a, b), s != t) == Add(Step(a, s), Step(b, t))
  {
    hide Step, Add, On;
    ShiftAdd(a, b);
    StepIsAdd(a, s);
    StepIsAdd(b, t);
    StepIsAdd(Add(a, b), s != t);
    var pa, pb: bv8 := if On(a, 0x80) then POLY else 0, if On(b, 0x80) then POLY else 0;
    var sa, sb: bv8 := if s then 1 else 0, if t then 1 else 0;
    AddFacts(a << 1, b << 1, pa, pb);
    AddFacts(Add(a << 1, pa), Add(b << 1, pb), sa, sb);
    AddFacts(pb, pa, 0, 0);
    AddFacts(sb, sa, 0, 0);
    AddFacts(pa, pb, 0, 0);
    AddFacts(sa, sb, 0, 0);
  }

  lemma {:induction false} RemXor(a: Poly, b: Poly)
    requires |a| == |b|
    ensures Rem(Xor(a, b)) == Add(Rem(a), Rem(b))
    decreases |a|
  {
    hide Step, Add;
    AddFacts(0, 0, 0, 0);
    if |a| > 0 {
      var n := |a| - 1;
      RemXor(a[..n], b[..n]);
      assert Xor(a, b)[..n] == Xor(a[..n], b[..n]);
      assert Xor(a, b)[n] == (a[n] != b[n]);
      StepAdd(Rem(a[..n]), Rem(b[..n]), a[n], b[n]);
    }
  }

  lemma {:induction false} RemShift(p: Poly, n: nat)
    ensures Rem(p + Zeros(n)) == Shift(Rem(p), n)
    decreases n
  {
    hide Step;
    if n == 0 { assert p + Zeros(0) == p; }
    else {
      RemShift(p, n - 1);
      assert p + Zeros(n) == (p + Zeros(n - 1)) + [false];
      RemAppend(p + Zeros(n - 1), false);
    }
  }

  lemma {:induction false} ShiftZero(n: nat)
    ensures Shift(0, n) == 0
  {
    if n > 0 { ShiftZero(n - 1); }
  }

  lemma {:induction false} RemLeadingZeros(n: nat, p: Poly)
    ensures Rem(Zeros(n) + p) == Rem(p)
    decreases |p|
  {
    hide Step;
    if p == [] {
      assert Zeros(n) + p == [] + Zeros(n);
      RemShift([], n);
      ShiftZero(n);
    } else {
      var k := |p| - 1;
      RemLeadingZeros(n, p[..k]);
      assert Zeros(n) + p == (Zeros(n) + p[..k]) + [p[k]];
      RemAppend(Zeros(n) + p[..k], p[k]);
    }
  }

  /** The first i bits of b, as a number. */
  function Top(b: bv8, i: nat): bv8 {
    match i
    case 0 => 0
    case 1 => b >> 7
    case 2 => b >> 6
    case 3 => b >> 5
    case 4 => b >> 4
    case 5 => b >> 3
    case 6 => b >> 2
    case 7 => b >> 1
    case _ => b
  }

  lemma TopStep(b: bv8, i: nat)
    requires i < 8
    ensures Step(Top(b, i), Bits(b)[i]) == Top(b, i + 1)
  {
    BitsAt(b);
    StepsUp(b);
    hide Step, On, Bits;
  }

  lemma StepsUp(b: bv8)
    ensures Step(0, On(b, 0x80)) == b >> 7 && Step(b >> 7, On(b, 0x40)) == b >> 6 && Step(b >> 6, On(b, 0x20)) == b >> 5
    ensures Step(b >> 5, On(b, 0x10)) == b >> 4 && Step(b >> 4, On(b, 8)) == b >> 3 && Step(b >> 3, On(b, 4)) == b >> 2
    ensures Step(b >> 2, On(b, 2)) == b >> 1 && Step(b >> 1, On(b, 1)) == b
  {}

  lemma {:induction false} RemPrefix(b: bv8, i: nat)
    requires i <= 8
    ensures Rem(Bits(b)[..i]) == Top(b, i)
  {
    hide Bits, Step;
    if i > 0 {
      hide Top;
      RemPrefix(b, i - 1);
      TopStep(b, i - 1);
      assert Bits(b)[..i] == Bits(b)[..i - 1] + [Bits(b)[i - 1]];
      RemAppend(Bits(b)[..i - 1], Bits(b)[i - 1]);
    }
  }

  /** Eight coefficients are their own remainder. */
  lemma RemBits(b: bv8)
    ensures Rem(Bits(b)) == b
  {
    hide Bits, Step, Rem;
    RemPrefix(b, 8);
    assert Bits(b)[..8] == Bits(b);
  }

  /** Appending eight coefficients. */
  lemma RemByte(p: Poly, b: bv8)
    ensures Rem(p + Bits(b)) == Add(Shift(Rem(p), 8), b)
  {
    hide Bits, Step, Rem, Shift, Add;
    assert p + Bits(b) == Xor(p + Zeros(8), Zeros(|p|) + Bits(b));
    RemXor(p + Zeros(8), Zeros(|p|) + Bits(b));
    RemShift(p, 8);
    RemLeadingZeros(|p|, Bits(b));
    RemBits(b);
  }

  // ---------------------------------------------------------------------------------------------
  // The bit loop
  // ---------------------------------------------------------------------------------------------

  lemma RawNothing()
    ensures Raw([]) == 0xFF
  {
    assert Bits(0xFF) == Inverted(BitsOf([]) + Zeros(8));
    RemBits(0xFF);
  }

  /** One turn of the outer loop. */
  lemma RawNext(d: seq<bv8>, b: bv8)
    ensures Raw(d + [b]) == Shift(Add(Raw(d), b), 8)
  {
    hide Bits, Step, Rem, Shift, Add;
    assert (d + [b])[..|d|] == d;
    var p := Inverted(BitsOf(d) + Zeros(8));
    var q := Zeros(8 * |d|) + Bits(b);
    assert Inverted(BitsOf(d + [b]) + Zeros(8)) == Xor(p, q) + Zeros(8);
    RemShift(Xor(p, q), 8);
    RemXor(p, q);
    RemLeadingZeros(8 * |d|, Bits(b));
    RemBits(b);
  }

  lemma AddXor(a: bv8, b: bv8)
    ensures Add(a, b) == a ^ b
  {}

  lemma StepPlain(c: bv8)
    ensures Step(c, false) == if c & 0x80 != 0 then (c << 1) ^ POLY else c << 1
  {}

  /** Crc8_SaeJ1850: the loop is the polynomial division, for every length. */
  method Crc8(data: array<bv8>, length: nat) returns (crc: bv8)
    requires length <= data.Length
    ensures crc == CrcOf(data[..length])
  {
    hide Step, Add, Raw;
    crc := 0xFF;
    RawNothing();
    var i := 0;
    while i < length
      invariant 0 <= i <= length && crc == Raw(data[..i])
    {
      AddXor(crc, data[i]);
      crc := crc ^ data[i];
      ghost var c := crc;
      var bit := 0;
      while bit < 8
        invariant 0 <= bit <= 8 && crc == Shift(c, bit)
      {
        StepPlain(crc);
        if crc & 0x80 != 0 { crc := (crc << 1) ^ POLY; } else { crc := crc << 1; }
        bit := bit + 1;
      }
      RawNext(data[..i], data[i]);
      assert data[..i + 1] == data[..i] + [data[i]];
      i := i + 1;
    }
    crc := crc ^ 0xFF;
  }

  // ---------------------------------------------------------------------------------------------
  // Which errors pass the check
  // ---------------------------------------------------------------------------------------------

  /** A message followed by its check value. */
  predicate Intact(f: seq<bv8>) { |f| >= 1 && CrcOf(f[..|f| - 1]) == f[|f| - 1] }

  /** The bits in which the received bytes differ from the sent ones. */
  function Damage(f: seq<bv8>, e: seq<bv8>): (r: seq<bv8>)
    requires |f| == |e|
    ensures |r| == |f|
  {
    seq(|f|, i requires 0 <= i < |f| => Add(f[i], e[i]))
  }

  lemma OnAdd(a: bv8, b: bv8, m: bv8)
    requires m & (m - 1) == 0
    ensures On(Add(a, b), m) == (On(a, m) != On(b, m))
  {}

  lemma BitsAdd(a: bv8, b: bv8)
    ensures Bits(Add(a, b)) == Xor(Bits(a), Bits(b))
  {
    hide Bits, On, Add;
    BitsAt(a);
    BitsAt(b);
    BitsAt(Add(a, b));
    OnAdd(a, b, 0x80);
    OnAdd(a, b, 0x40);
    OnAdd(a, b, 0x20);
    OnAdd(a, b, 0x10);
    OnAdd(a, b, 8);
    OnAdd(a, b, 4);
    OnAdd(a, b, 2);
    OnAdd(a, b, 1);
  }

  lemma {:induction false} DamageBits(f: seq<bv8>, e: seq<bv8>)
    requires |f| == |e|
    ensures BitsOf(Damage(f, e)) == Xor(BitsOf(f), BitsOf(e))
    decreases |f|
  {
    hide Bits, Add;
    if |f| > 0 {
      var n := |f| - 1;
      DamageBits(f[..n], e[..n]);
      assert Damage(f, e)[..n] == Damage(f[..n], e[..n]);
      BitsAdd(f[n], e[n]);
    }
  }

  /** The check value of a damaged message. */
  lemma DamagedCrc(d: seq<bv8>, e: seq<bv8>)
    requires |d| == |e|
    ensures Raw(Damage(d, e)) == Add(Raw(d), Shift(Rem(BitsOf(e)), 8))
  {
    hide Rem, BitsOf, Shift, Add;
    DamageBits(d, e);
    var p, q := Inverted(BitsOf(d) + Zeros(8)), BitsOf(e) + Zeros(8);
    assert Inverted(BitsOf(Damage(d, e)) + Zeros(8)) == Xor(p, q);
    RemXor(p, q);
    RemShift(BitsOf(e), 8);
  }

  lemma CheckDiffers(raw: bv8, s: bv8, c: bv8, e: bv8)
    requires raw ^ 0xFF == c
    ensures Add(raw, s) ^ 0xFF == Add(c, e) <==> Add(s, e) == 0
  {}

  /** Damage to a checked message passes the check exactly when the error polynomial leaves no remainder. */
  lemma PassesByRemainder(f: seq<bv8>, e: seq<bv8>)
    requires |f| == |e| && Intact(f)
    ensures Intact(Damage(f, e)) <==> Rem(BitsOf(e)) == 0
  {
    hide Rem, Shift, Add, Raw, Bits;
    var n := |f| - 1;
    var d, x := f[..n], e[..n];
    DamagedCrc(d, x);
    assert Damage(f, e)[..n] == Damage(d, x);
    assert Damage(f, e)[n] == Add(f[n], e[n]);
    assert BitsOf(e) == BitsOf(x) + Bits(e[n]);
    RemByte(BitsOf(x), e[n]);
    CheckDiffers(Raw(d), Shift(Rem(BitsOf(x)), 8), f[n], e[n]);
  }

  /** Damage passes the check exactly when it is a multiple of the generator polynomial. */
  lemma Undetected(f: seq<bv8>, e: seq<bv8>)
    requires |f| == |e| && Intact(f)
    ensures Intact(Damage(f, e)) <==> exists q :: Division(BitsOf(e), q, 0)
  {
    hide Division, Rem, Intact;
    PassesByRemainder(f, e);
    DivisionUnique(BitsOf(e), Quotient(BitsOf(e)), 0);
    if exists q :: Division(BitsOf(e), q, 0) {
      var q :| Division(BitsOf(e), q, 0);
      DivisionUnique(BitsOf(e), q, 0);
    }
  }
}
