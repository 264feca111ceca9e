/**
 The CRC register as a natural number: exclusive or by binary digits, the one-bit shift,
 and the algebra the error-detection proofs rest on.
 */
module Register {

  const POLYNOMIAL: nat := 0xA001

  // ---- binary digits ----

  predicate Odd(a: nat) {
    a % 2 == 1
  }

  function Bit(bit: bool): nat {
    if bit then 1 else 0
  }

  function Pow2(n: nat): (p: nat)
    ensures p > 0
  {
    if n == 0 then 1 else 2 * Pow2(n - 1)
  }

  lemma Pow2Values()
    ensures Pow2(8) == 0x100 && Pow2(14) == 0x4000 && Pow2(15) == 0x8000 && Pow2(16) == 0x1_0000
  {
  }

  lemma {:induction false} Pow2Monotone(m: nat, n: nat)
    requires m <= n
    ensures Pow2(m) <= Pow2(n)
    decreases n
  {
    if m < n { Pow2Monotone(m, n - 1); }
  }

  // ---- exclusive or ----

  function Xor(a: nat, b: nat): nat
    decreases a + b
  {
    if a == 0 && b == 0 then 0 else 2 * Xor(a / 2, b / 2) + Bit(Odd(a) != Odd(b))
  }

  lemma XorDigits(a: nat, b: nat)
    ensures Xor(a, b) / 2 == Xor(a / 2, b / 2) && Odd(Xor(a, b)) == (Odd(a) != Odd(b))
  {
  }

  lemma {:induction false} XorComm(a: nat, b: nat)
    ensures Xor(a, b) == Xor(b, a)
    decreases a + b
  {
    if a != 0 || b != 0 { XorComm(a / 2, b / 2); }
  }

  lemma {:induction false} XorZero(a: nat)
    ensures Xor(a, 0) == a && Xor(0, a) == a
    decreases a
  {
    if a != 0 { XorZero(a / 2); }
  }

  lemma {:induction false} XorAssoc(a: nat, b: nat, c: nat)
    ensures Xor(Xor(a, b), c) == Xor(a, Xor(b, c))
    decreases a + b + c
  {
    if a != 0 || b != 0 || c != 0 {
      XorAssoc(a / 2, b / 2, c / 2);
      XorDigits(a, b);
      XorDigits(b, c);
      XorDigits(Xor(a, b), c);
      XorDigits(a, Xor(b, c));
    }
  }

  /** Equal numbers, and only those, cancel. */
  lemma {:induction false} XorCancels(a: nat, b: nat)
    ensures Xor(a, b) == 0 <==> a == b
    decreases a + b
  {
    if a != 0 || b != 0 { XorCancels(a / 2, b / 2); }
  }

  lemma XorMiddle(a: nat, b: nat, p: nat, q: nat)
    ensures Xor(Xor(a, p), Xor(b, q)) == Xor(Xor(a, b), Xor(p, q))
  {
    calc {
      Xor(Xor(a, p), Xor(b, q));
      { XorAssoc(a, p, Xor(b, q)); }
      Xor(a, Xor(p, Xor(b, q)));
      { XorAssoc(p, b, q); XorComm(p, b); XorAssoc(b, p, q); }
      Xor(a, Xor(b, Xor(p, q)));
      { XorAssoc(a, b, Xor(p, q)); }
      Xor(Xor(a, b), Xor(p, q));
    }
  }

  lemma {:induction false} XorBound(a: nat, b: nat, n: nat)
    requires a < Pow2(n) && b < Pow2(n)
    ensures Xor(a, b) < Pow2(n)
    decreases n
  {
    if n > 0 {
      XorBound(a / 2, b / 2, n - 1);
      XorDigits(a, b);
    }
  }

  /** A digit set on one side only survives. */
  lemma {:induction false} XorTop(a: nat, b: nat, n: nat)
    requires a < Pow2(n) <= b < Pow2(n + 1)
    ensures Pow2(n) <= Xor(a, b)
    decreases n
  {
    XorDigits(a, b);
    if n > 0 { XorTop(a / 2, b / 2, n - 1); }
  }

  // ---- one bit ----

  /** One turn of the inner loop. */
  function Shift(crc: nat): nat {
    if Odd(crc) then Xor(crc / 2, POLYNOMIAL) else crc / 2
  }

  /** The bit-serial register: mix one bit in, then shift. */
  function Step(crc: nat, bit: bool): nat {
    Shift(Xor(crc, Bit(bit)))
  }

  lemma ShiftBound(crc: nat)
    requires crc < 0x1_0000
    ensures Shift(crc) < 0x1_0000
  {
    Pow2Values();
    XorBound(crc / 2, POLYNOMIAL, 16);
  }

  lemma ShiftLinear(a: nat, b: nat)
    ensures Shift(Xor(a, b)) == Xor(Shift(a), Shift(b))
  {
    var x, y, p := a / 2, b / 2, POLYNOMIAL;
    XorDigits(a, b);
    XorMiddle(x, y, p, p);
    XorMiddle(x, y, p, 0);
    XorMiddle(x, y, 0, p);
    XorCancels(p, p);
    XorZero(x);
    XorZero(y);
    XorZero(p);
    XorZero(Xor(x, y));
  }

  lemma StepLinear(a: nat, b: nat, p: bool, q: bool)
    ensures Xor(Step(a, p), Step(b, q)) == Step(Xor(a, b), p != q)
  {
    ShiftLinear(Xor(a, Bit(p)), Xor(b, Bit(q)));
    XorMiddle(a, b, Bit(p), Bit(q));
    XorDigits(Bit(p), Bit(q));
    assert Xor(0, 0) == 0;
  }

  lemma XorBit(c: nat, bit: bool)
    ensures Xor(c, Bit(bit)) / 2 == c / 2 && Odd(Xor(c, Bit(bit))) == (Odd(c) != bit)
  {
    XorDigits(c, Bit(bit));
    XorZero(c / 2);
  }

  /** Mixing in a whole number can be done one digit at a time. */
  lemma ShiftCarries(c: nat, w: nat)
    ensures Shift(Xor(c, w)) == Xor(Step(c, Odd(w)), w / 2)
  {
    var p := POLYNOMIAL;
    XorDigits(c, w);
    XorBit(c, Odd(w));
    XorAssoc(c / 2, w / 2, p);
    XorAssoc(c / 2, p, w / 2);
    XorComm(w / 2, p);
  }

  lemma ShiftZero(c: nat)
    requires c < 0x1_0000
    ensures Shift(c) == 0 <==> c == 0
  {
    if Odd(c) { XorCancels(c / 2, POLYNOMIAL); }
  }

  lemma ShiftInjective(a: nat, b: nat)
    requires a < 0x1_0000 && b < 0x1_0000 && Shift(a) == Shift(b)
    ensures a == b
  {
    ShiftLinear(a, b);
    XorCancels(Shift(a), Shift(b));
    Pow2Values();
    XorBound(a, b, 16);
    ShiftZero(Xor(a, b));
    XorCancels(a, b);
  }

  /** A shift that leaves the top digit clear added no feedback. */
  lemma NoFeedback(d: nat, bit: bool)
    requires d < 0x1_0000 && Step(d, bit) < 0x8000
    ensures Step(d, bit) == d / 2
  {
    Pow2Values();
    XorBit(d, bit);
    if Odd(Xor(d, Bit(bit))) { XorTop(d / 2, POLYNOMIAL, 15); }
  }

  lemma StepBound(c: nat, bit: bool)
    requires c < 0x1_0000
    ensures Step(c, bit) < 0x1_0000
  {
    Pow2Values();
    XorBound(c, Bit(bit), 16);
    ShiftBound(Xor(c, Bit(bit)));
  }
}
