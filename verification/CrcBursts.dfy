/**
 * common/e2e/crc8.c: what the generator polynomial is chosen for. Every error burst of at most eight bits is
 * detected in a message of any length, and two flipped bits are missed exactly at distances divisible by 255.
 */
module CrcBursts {
  import opened Crc
  import opened CrcErrors

  // ---------------------------------------------------------------------------------------------
  // Bursts
  // ---------------------------------------------------------------------------------------------

  /** At least one coefficient is set, and all set coefficients lie within eight places. */
  ghost predicate Burst(p: Poly) {
    exists i :: 0 <= i < |p| && p[i] && forall k :: 0 <= k < |p| && p[k] ==> i <= k < i + 8
  }

  function Byte(w: Poly): bv8
    requires |w| == 8
  {
    (if w[0] then 0x80 else 0) | (if w[1] then 0x40 else 0) | (if w[2] then 0x20 else 0) | (if w[3] then 0x10 else 0)
    | (if w[4] then 8 else 0) | (if w[5] then 4 else 0) | (if w[6] then 2 else 0) | (if w[7] then 1 else 0)
  }

  lemma OnByte(w: Poly)
    requires |w| == 8
    ensures On(Byte(w), 0x80) == w[0] && On(Byte(w), 0x40) == w[1] && On(Byte(w), 0x20) == w[2]
        && On(Byte(w), 0x10) == w[3]
    ensures On(Byte(w), 8) == w[4] && On(Byte(w), 4) == w[5] && On(Byte(w), 2) == w[6] && On(Byte(w), 1) == w[7]
  {}

  lemma ByteBits(w: Poly)
    requires |w| == 8
    ensures Bits(Byte(w)) == w
  {
    hide Bits, On, Byte;
    OnByte(w);
    BitsAt(Byte(w));
  }

  lemma ZeroBits(k: nat)
    requires k < 8
    ensures !Bits(0)[k]
  {
    BitsAt(0);
  }

  /** At most eight coefficients, not all zero, leave a remainder. */
  lemma ShortRem(w: Poly, k: nat)
    requires k < |w| <= 8 && w[k]
    ensures Rem(w) != 0
  {
    hide Bits, Rem, Byte;
    var z := 8 - |w|;
    var full := Zeros(z) + w;
    ByteBits(full);
    RemBits(Byte(full));
    RemLeadingZeros(z, w);
    assert full[z + k];
    ZeroBits(z + k);
  }

  lemma StepNonzero(c: bv8)
    requires c != 0
    ensures Step(c, false) != 0
  {}

  lemma {:induction false} ShiftNonzero(c: bv8, n: nat)
    requires c != 0
    ensures Shift(c, n) != 0
  {
    hide Step;
    if n > 0 {
      ShiftNonzero(c, n - 1);
      StepNonzero(Shift(c, n - 1));
    }
  }

  /** A burst is no multiple of the generator. */
  lemma BurstRem(p: Poly)
    requires Burst(p)
    ensures Rem(p) != 0
  {
    hide Rem, Shift;
    var i :| 0 <= i < |p| && p[i] && forall k :: 0 <= k < |p| && p[k] ==> i <= k < i + 8;
    var j := if i + 8 < |p| then i + 8 else |p|;
    var w := p[i..j];
    assert p == (Zeros(i) + w) + Zeros(|p| - j);
    RemShift(Zeros(i) + w, |p| - j);
    RemLeadingZeros(i, w);
    ShortRem(w, 0);
    ShiftNonzero(Rem(w), |p| - j);
  }

  /** Every error burst of at most eight bits is detected, whatever the length of the message. */
  lemma BurstDetected(f: seq<bv8>, e: seq<bv8>)
    requires |f| == |e| && Intact(f) && Burst(BitsOf(e))
    ensures !Intact(Damage(f, e))
  {
    hide Rem, Burst, Intact;
    PassesByRemainder(f, e);
    BurstRem(BitsOf(e));
  }

  // ---------------------------------------------------------------------------------------------
  // Two flipped bits: the order of x modulo the generator is 255
  // ---------------------------------------------------------------------------------------------

  lemma {:induction false} ShiftSplit(c: bv8, a: nat, b: nat)
    ensures Shift(Shift(c, a), b) == Shift(c, a + b)
  {
    hide Step;
    if b > 0 { ShiftSplit(c, a, b - 1); }
  }

  function Times(c: bv8): bv8 { Step(c, false) }

  /** The next fifteen powers: d is the last, and none before it is 1. */
  predicate Stretch(c: bv8, d: bv8) {
    var a := Times(c); var b := Times(a); var e := Times(b); var f := Times(e); var g := Times(f);
    var h := Times(g); var i := Times(h); var j := Times(i); var k := Times(j); var l := Times(k);
    var m := Times(l); var n := Times(m); var o := Times(n); var p := Times(o);
    && a != 1 && b != 1 && e != 1 && f != 1 && g != 1 && h != 1 && i != 1 && j != 1 && k != 1 && l != 1 && m != 1
    && n != 1 && o != 1 && p != 1 && Times(p) == d
  }

  lemma StretchesA()
    ensures Stretch(0x01, 0x26) && Stretch(0x26, 0x60) && Stretch(0x60, 0xC1) && Stretch(0xC1, 0xB9)
        && Stretch(0xB9, 0x0F)
  {}

  lemma StretchesB()
    ensures Stretch(0x0F, 0xDF) && Stretch(0xDF, 0x1A) && Stretch(0x1A, 0x3B) && Stretch(0x3B, 0xA9)
        && Stretch(0xA9, 0x55) && Stretch(0x55, 0x91)
  {}

  lemma StretchesC()
    ensures Stretch(0x91, 0x96) && Stretch(0x96, 0x64) && Stretch(0x64, 0x59) && Stretch(0x59, 0x24)
        && Stretch(0x24, 0x2C) && Stretch(0x2C, 0x01)
  {}

  lemma StretchShift(c: bv8, d: bv8)
    requires Stretch(c, d)
    ensures Shift(c, 15) == d && forall j :: 1 <= j < 15 ==> Shift(c, j) != 1
  {
    hide Step, Shift;
    Shift0(c);
    ShiftNext(c, 0); ShiftNext(c, 1); ShiftNext(c, 2); ShiftNext(c, 3); ShiftNext(c, 4);
    ShiftNext(c, 5); ShiftNext(c, 6); ShiftNext(c, 7); ShiftNext(c, 8); ShiftNext(c, 9);
    ShiftNext(c, 10); ShiftNext(c, 11); ShiftNext(c, 12); ShiftNext(c, 13); ShiftNext(c, 14);
  }

  lemma Shift0(c: bv8)
    ensures Shift(c, 0) == c
  {}

  lemma ShiftNext(c: bv8, j: nat)
    ensures Shift(c, j + 1) == Times(Shift(c, j))
  {}

  ghost predicate NoneUpTo(n: nat) { forall k :: 1 <= k <= n ==> Shift(1, k) != 1 }

  /** x^n is c, and none of the powers from x to x^n is 1. */
  ghost predicate Reached(n: nat, c: bv8) { NoneUpTo(n) && Shift(1, n) == c }

  lemma Start()
    ensures Reached(0, 1)
  {}

  lemma Continue(n: nat, c: bv8, d: bv8)
    requires Reached(n, c) && Stretch(c, d)
    ensures NoneUpTo(n + 14) && Shift(1, n + 15) == d && (d != 1 ==> Reached(n + 15, d))
  {
    hide Step, Stretch, Shift;
    StretchShift(c, d);
    ShiftSplit(1, n, 15);
    forall k | n < k < n + 15 ensures Shift(1, k) != 1 {
      ShiftSplit(1, n, k - n);
    }
  }

  lemma Further(n: nat, c: bv8, d: bv8)
    requires Reached(n, c) && Stretch(c, d) && d != 1
    ensures Reached(n + 15, d)
  {
    Continue(n, c, d);
  }

  lemma FirstThird()
    ensures Reached(75, 0x0F)
  {
    StretchesA();
    Start();
    hide *;
    Further(0, 0x01, 0x26);
    Further(15, 0x26, 0x60);
    Further(30, 0x60, 0xC1);
    Further(45, 0xC1, 0xB9);
    Further(60, 0xB9, 0x0F);
  }

  lemma SecondThird()
    ensures Reached(165, 0x91)
  {
    FirstThird();
    StretchesB();
    hide *;
    Further(75, 0x0F, 0xDF);
    Further(90, 0xDF, 0x1A);
    Further(105, 0x1A, 0x3B);
    Further(120, 0x3B, 0xA9);
    Further(135, 0xA9, 0x55);
    Further(150, 0x55, 0x91);
  }

  lemma WholeRound()
    ensures NoneUpTo(254) && Shift(1, 255) == 1
  {
    SecondThird();
    StretchesC();
    hide *;
    Further(165, 0x91, 0x96);
    Further(180, 0x96, 0x64);
    Further(195, 0x64, 0x59);
    Further(210, 0x59, 0x24);
    Further(225, 0x24, 0x2C);
    Continue(240, 0x2C, 0x01);
  }

  /** x^k is 1 modulo the generator exactly when 255 divides k. */
  lemma {:induction false} Order255(k: nat)
    ensures Shift(1, k) == 1 <==> k % 255 == 0
  {
    hide Step, Shift;
    WholeRound();
    if k == 0 { Shift0(1); }
    else if k >= 255 {
      ShiftSplit(1, 255, k - 255);
      Order255(k - 255);
    }
  }

  /** Exactly the coefficients i and j are set. */
  ghost predicate TwoBits(p: Poly, i: nat, j: nat) {
    i < j < |p| && forall k :: 0 <= k < |p| ==> (p[k] <==> k == i || k == j)
  }

  lemma StepLast(c: bv8)
    ensures Step(c, true) == Add(Step(c, false), 1)
  {}

  lemma TwoBitsRem(p: Poly, i: nat, j: nat)
    requires TwoBits(p, i, j)
    ensures Rem(p) == Shift(Add(Shift(1, j - i), 1), |p| - 1 - j)
  {
    hide Rem, Shift, Step, Add;
    var w := ([true] + Zeros(j - i - 1)) + [true];
    assert p == (Zeros(i) + w) + Zeros(|p| - 1 - j);
    RemShift(Zeros(i) + w, |p| - 1 - j);
    RemLeadingZeros(i, w);
    RemAppend([true] + Zeros(j - i - 1), true);
    RemShift([true], j - i - 1);
    RemOne();
    StepLast(Shift(1, j - i - 1));
    ShiftNext(1, j - i - 1);
  }

  lemma RemOne()
    ensures Rem([true]) == 1
  {
    RemAppend([], true);
    assert [] + [true] == [true];
  }

  /** Two flipped bits pass the check exactly when their distance is a multiple of 255. */
  lemma TwoBitsMissed(f: seq<bv8>, e: seq<bv8>, i: nat, j: nat)
    requires |f| == |e| && Intact(f) && TwoBits(BitsOf(e), i, j)
    ensures Intact(Damage(f, e)) <==> (j - i) % 255 == 0
  {
    hide Rem, Shift, Step, Intact, TwoBits, Add;
    PassesByRemainder(f, e);
    TwoBitsRem(BitsOf(e), i, j);
    TwoBitsInside(BitsOf(e), i, j);
    Order255(j - i);
    AddFacts(Shift(1, j - i), 1, 0, 0);
    var n := |BitsOf(e)| - 1 - j;
    if (j - i) % 255 == 0 { ShiftZero(n); } else { ShiftNonzero(Add(Shift(1, j - i), 1), n); }
  }

  lemma TwoBitsInside(p: Poly, i: nat, j: nat)
    requires TwoBits(p, i, j)
    ensures i < j < |p|
  {}

  /** In a protected eight-byte frame every one- or two-bit error is detected. */
  lemma FrameErrorsDetected(f: seq<bv8>, e: seq<bv8>)
    requires |f| == |e| == 8 && Intact(f)
    ensures (forall i, j :: TwoBits(BitsOf(e), i, j) ==> !Intact(Damage(f, e)))
    ensures (exists i :: 0 <= i < 64 && BitsOf(e)[i] && forall k :: 0 <= k < 64 && BitsOf(e)[k] ==> k == i)
        ==> !Intact(Damage(f, e))
  {
    hide Intact, TwoBits, BitsOf, Burst;
    forall i, j | TwoBits(BitsOf(e), i, j) ensures !Intact(Damage(f, e)) {
      TwoBitsMissed(f, e, i, j);
      TwoBitsInside(BitsOf(e), i, j);
    }
    if i :| 0 <= i < 64 && BitsOf(e)[i] && forall k :: 0 <= k < 64 && BitsOf(e)[k] ==> k == i {
      SingleIsBurst(BitsOf(e), i);
      BurstDetected(f, e);
    }
  }

  lemma SingleIsBurst(p: Poly, i: nat)
    requires i < |p| && p[i] && forall k :: 0 <= k < |p| && p[k] ==> k == i
    ensures Burst(p)
  {}

  // ---------------------------------------------------------------------------------------------
  // Known values
  // ---------------------------------------------------------------------------------------------

  function Octet(c: bv8): bv8 { Times(Times(Times(Times(Times(Times(Times(Times(c)))))))) }

  lemma ShiftOctet(c: bv8)
    ensures Shift(c, 8) == Octet(c)
  {
    hide Step, Shift;
    Shift0(c);
    ShiftNext(c, 0); ShiftNext(c, 1); ShiftNext(c, 2); ShiftNext(c, 3);
    ShiftNext(c, 4); ShiftNext(c, 5); ShiftNext(c, 6); ShiftNext(c, 7);
  }

  /** One more byte, in numbers. */
  lemma Turn(m: seq<bv8>, k: nat, raw: bv8, x: bv8, next: bv8)
    requires k < |m| && Raw(m[..k]) == raw && raw ^ m[k] == x && Octet(x) == next
    ensures Raw(m[..k + 1]) == next
  {
    hide Step, Shift, Raw, Octet;
    assert m[..k + 1] == m[..k] + [m[k]];
    RawNext(m[..k], m[k]);
    AddXor(raw, m[k]);
    ShiftOctet(x);
  }

  lemma Octets()
    ensures Octet(0xCE) == 0x93 && Octet(0xA1) == 0xBC && Octet(0x8F) == 0x9D && Octet(0xA9) == 0x54
    ensures Octet(0x61) == 0x89 && Octet(0xBF) == 0xD7 && Octet(0xE0) == 0xB2 && Octet(0x8A) == 0xF4
    ensures Octet(0xCD) == 0xB4
  {}

  lemma ZeroOctets()
    ensures Octet(0xFF) == 0xC4 && Octet(0xC4) == 0x41 && Octet(0x41) == 0x0E && Octet(0x0E) == 0xA6
    ensures Octet(0xA6) == 0xEF && Octet(0xEF) == 0x09 && Octet(0x09) == 0xF5
  {}

  /** The catalogue value of CRC-8 SAE-J1850: the digits 1 to 9 in ASCII give 4B. */
  lemma CheckValue()
    ensures CrcOf([0x31, 0x32, 0x33, 0x34, 0x35, 0x36, 0x37, 0x38, 0x39]) == 0x4B
  {
    Octets();
    RawNothing();
    hide *;
    var m: seq<bv8> := [0x31, 0x32, 0x33, 0x34, 0x35, 0x36, 0x37, 0x38, 0x39];
    assert m[..0] == [];
    Turn(m, 0, 0xFF, 0xCE, 0x93);
    Turn(m, 1, 0x93, 0xA1, 0xBC);
    Turn(m, 2, 0xBC, 0x8F, 0x9D);
    Turn(m, 3, 0x9D, 0xA9, 0x54);
    Turn(m, 4, 0x54, 0x61, 0x89);
    Turn(m, 5, 0x89, 0xBF, 0xD7);
    Turn(m, 6, 0xD7, 0xE0, 0xB2);
    Turn(m, 7, 0xB2, 0x8A, 0xF4);
    Turn(m, 8, 0xF4, 0xCD, 0xB4);
    assert m[..9] == m;
    CrcFromRaw(m, 0xB4);
  }

  lemma CrcFromRaw(d: seq<bv8>, raw: bv8)
    requires Raw(d) == raw
    ensures CrcOf(d) == raw ^ 0xFF
  {}

  /** An empty message has check value 0, but a frame of eight zero bytes is not intact. */
  lemma ZerosAreNotIntact()
    ensures CrcOf([]) == 0 && CrcOf([0, 0, 0, 0, 0, 0, 0]) == 0x0A
    ensures !Intact([0, 0, 0, 0, 0, 0, 0, 0])
  {
    ZeroOctets();
    RawNothing();
    hide *;
    var m: seq<bv8> := [0, 0, 0, 0, 0, 0, 0];
    assert m[..0] == [];
    Turn(m, 0, 0xFF, 0xFF, 0xC4);
    Turn(m, 1, 0xC4, 0xC4, 0x41);
    Turn(m, 2, 0x41, 0x41, 0x0E);
    Turn(m, 3, 0x0E, 0x0E, 0xA6);
    Turn(m, 4, 0xA6, 0xA6, 0xEF);
    Turn(m, 5, 0xEF, 0xEF, 0x09);
    Turn(m, 6, 0x09, 0x09, 0xF5);
    assert m[..7] == m;
    CrcFromRaw([], 0xFF);
    CrcFromRaw(m, 0xF5);
    assert m + [0] == [0, 0, 0, 0, 0, 0, 0, 0];
    IntactIs(m, 0);
  }

  lemma IntactIs(d: seq<bv8>, c: bv8)
    ensures Intact(d + [c]) <==> CrcOf(d) == c
  {
    hide CrcOf;
    assert (d + [c])[..|d|] == d;
  }
}
