/**
 CRC-16/MODBUS (section 6.2.2 of MODBUS over Serial Line Specification V1.02) as
 `crc16_le` computes it, byte by byte; the bit-serial register it refines; and the
 errors it is certain to detect.
 */
module Crc {
  import opened Bytes
  import opened Register

  const INITIAL: nat := 0xFFFF

  // ---- the source's computation ----

  function Shifts(crc: nat, n: nat): nat
    decreases n
  {
    if n == 0 then crc else Shifts(Shift(crc), n - 1)
  }

  /** The register after one more byte. */
  function Update(crc: nat, b: byte): nat {
    Shifts(Xor(crc, b as nat), 8)
  }

  function CrcFrom(crc: nat, data: seq<byte>): nat
    decreases |data|
  {
    if data == [] then crc else CrcFrom(Update(crc, data[0]), data[1..])
  }

  lemma {:induction false} ShiftsBound(crc: nat, n: nat)
    requires crc < 0x1_0000
    ensures Shifts(crc, n) < 0x1_0000
    decreases n
  {
    if n > 0 {
      ShiftBound(crc);
      ShiftsBound(Shift(crc), n - 1);
    }
  }

  lemma MixBound(crc: nat, b: byte)
    requires crc < 0x1_0000
    ensures Xor(crc, b as nat) < 0x1_0000
  {
    Pow2Values();
    XorBound(crc, b as nat, 16);
  }

  lemma {:induction false} CrcBound(crc: nat, data: seq<byte>)
    requires crc < 0x1_0000
    ensures CrcFrom(crc, data) < 0x1_0000
    decreases |data|
  {
    if data != [] {
      MixBound(crc, data[0]);
      ShiftsBound(Xor(crc, data[0] as nat), 8);
      CrcBound(Update(crc, data[0]), data[1..]);
    }
  }

  /** `crc.to_bytes(2, "little")`. */
  function LittleEndian(crc: nat): (s: seq<byte>)
    requires crc < 0x1_0000
    ensures |s| == 2 && U16(s[1], s[0]) == crc
  {
    [(crc % 256) as byte, (crc / 256) as byte]
  }

  function Crc16(data: seq<byte>): (c: seq<byte>)
    ensures |c| == 2
  {
    CrcBound(INITIAL, data);
    LittleEndian(CrcFrom(INITIAL, data))
  }

  method ComputeCrc(data: seq<byte>) returns (out: seq<byte>)
    ensures out == Crc16(data)
  {
    var crc := INITIAL;
    for i := 0 to |data|
      invariant CrcFrom(crc, data[i..]) == CrcFrom(INITIAL, data)
    {
      ghost var updated := Update(crc, data[i]);
      crc := Xor(crc, data[i] as nat);
      for k := 0 to 8
        invariant Shifts(crc, 8 - k) == updated
      {
        if crc % 2 == 1 {
          crc := Xor(crc / 2, POLYNOMIAL);
        } else {
          crc := crc / 2;
        }
      }
      assert data[i..][1..] == data[i + 1..];
    }
    CrcBound(INITIAL, data);
    out := LittleEndian(crc);
  }

  lemma {:induction false} CrcFromAppend(crc: nat, s: seq<byte>, t: seq<byte>)
    ensures CrcFrom(crc, s + t) == CrcFrom(CrcFrom(crc, s), t)
    decreases |s|
  {
    if s == [] {
      assert s + t == t;
    } else {
      assert (s + t)[1..] == s[1..] + t;
      CrcFromAppend(Update(crc, s[0]), s[1..], t);
    }
  }

  // ---- the bit-serial register ----

  function Feed(crc: nat, bits: seq<bool>): nat
    decreases |bits|
  {
    if bits == [] then crc else Feed(Step(crc, bits[0]), bits[1..])
  }

  /** The `n` low digits of `w`, least significant first: the order of transmission. */
  function BitsOf(w: nat, n: nat): (bits: seq<bool>)
    ensures |bits| == n
    decreases n
  {
    if n == 0 then [] else [Odd(w)] + BitsOf(w / 2, n - 1)
  }

  function Stream(data: seq<byte>): (bits: seq<bool>)
    ensures |bits| == 8 * |data|
    decreases |data|
  {
    if data == [] then [] else BitsOf(data[0] as nat, 8) + Stream(data[1..])
  }

  /** Feeding a number digit by digit is mixing it in at once and shifting. */
  lemma {:induction false} FeedWord(c: nat, w: nat, n: nat)
    requires w < Pow2(n)
    ensures Feed(c, BitsOf(w, n)) == Shifts(Xor(c, w), n)
    decreases n
  {
    if n == 0 {
      XorZero(c);
    } else {
      ShiftCarries(c, w);
      FeedWord(Step(c, Odd(w)), w / 2, n - 1);
      assert BitsOf(w, n)[1..] == BitsOf(w / 2, n - 1);
    }
  }

  lemma {:induction false} FeedAppend(c: nat, p: seq<bool>, q: seq<bool>)
    ensures Feed(c, p + q) == Feed(Feed(c, p), q)
    decreases |p|
  {
    if p == [] {
      assert p + q == q;
    } else {
      assert (p + q)[1..] == p[1..] + q;
      FeedAppend(Step(c, p[0]), p[1..], q);
    }
  }

  lemma {:induction false} FeedBound(c: nat, bits: seq<bool>)
    requires c < 0x1_0000
    ensures Feed(c, bits) < 0x1_0000
    decreases |bits|
  {
    if bits != [] {
      StepBound(c, bits[0]);
      FeedBound(Step(c, bits[0]), bits[1..]);
    }
  }

  /** The byte-wise loop computes exactly what the bit-serial register does. */
  lemma {:induction false} SerialRefinement(crc: nat, data: seq<byte>)
    ensures CrcFrom(crc, data) == Feed(crc, Stream(data))
    decreases |data|
  {
    if data != [] {
      var w := data[0] as nat;
      Pow2Values();
      FeedWord(crc, w, 8);
      FeedAppend(crc, BitsOf(w, 8), Stream(data[1..]));
      SerialRefinement(Update(crc, data[0]), data[1..]);
    }
  }

  lemma {:induction false} StreamAppend(s: seq<byte>, t: seq<byte>)
    ensures Stream(s + t) == Stream(s) + Stream(t)
    decreases |s|
  {
    if s == [] {
      assert s + t == t;
    } else {
      assert (s + t)[1..] == s[1..] + t;
      StreamAppend(s[1..], t);
    }
  }

  lemma {:induction false} BitsInjective(v: nat, w: nat, n: nat)
    requires v < Pow2(n) && w < Pow2(n) && BitsOf(v, n) == BitsOf(w, n)
    ensures v == w
    decreases n
  {
    if n > 0 {
      assert BitsOf(v, n)[0] == BitsOf(w, n)[0];
      assert BitsOf(v, n)[1..] == BitsOf(v / 2, n - 1);
      assert BitsOf(w, n)[1..] == BitsOf(w / 2, n - 1);
      BitsInjective(v / 2, w / 2, n - 1);
    }
  }

  lemma {:induction false} StreamInjective(s: seq<byte>, t: seq<byte>)
    requires |s| == |t| && Stream(s) == Stream(t)
    ensures s == t
    decreases |s|
  {
    if s != [] {
      var v, w := s[0] as nat, t[0] as nat;
      assert Stream(s)[..8] == BitsOf(v, 8) && Stream(t)[..8] == BitsOf(w, 8);
      assert Stream(s)[8..] == Stream(s[1..]) && Stream(t)[8..] == Stream(t[1..]);
      Pow2Values();
      BitsInjective(v, w, 8);
      StreamInjective(s[1..], t[1..]);
    }
  }

  // ---- known values ----

  /** The CRC of no bytes is the initial register, all ones. */
  lemma NoBytes()
    ensures Crc16([]) == [0xFF, 0xFF]
  {
    assert CrcFrom(INITIAL, []) == 0xFFFF;
  }

  /** A single bit that is mixed in last leaves the reflected polynomial of the standard. */
  lemma SingleBit()
    ensures Update(0, 0x80) == 0xA001
  {
    XorZero(0x80);
    XorZero(0xA001);
    assert Shifts(0x80, 8) == Shifts(0x40, 7) == Shifts(0x20, 6) == Shifts(0x10, 5);
    assert Shifts(0x10, 5) == Shifts(0x8, 4) == Shifts(0x4, 3) == Shifts(0x2, 2) == Shifts(0x1, 1);
    assert Shift(0x1) == Xor(0, 0xA001);
    assert Shifts(0x1, 1) == Shifts(Shift(0x1), 0);
  }

  // ---- bursts ----

  function Differences(p: seq<bool>, q: seq<bool>): (e: seq<bool>)
    requires |p| == |q|
    ensures |e| == |p| && forall i :: 0 <= i < |p| ==> e[i] == (p[i] != q[i])
  {
    seq(|p|, i requires 0 <= i < |p| => p[i] != q[i])
  }

  /** The distance between two runs is a run on the differing bits. */
  lemma {:induction false} FeedLinear(a: nat, b: nat, p: seq<bool>, q: seq<bool>)
    requires |p| == |q|
    ensures Xor(Feed(a, p), Feed(b, q)) == Feed(Xor(a, b), Differences(p, q))
    decreases |p|
  {
    if p != [] {
      StepLinear(a, b, p[0], q[0]);
      FeedLinear(Step(a, p[0]), Step(b, q[0]), p[1..], q[1..]);
      assert Differences(p, q)[1..] == Differences(p[1..], q[1..]);
    }
  }

  /** Bits that do not differ neither create nor remove a distance. */
  lemma {:induction false} FeedEqualBits(c: nat, e: seq<bool>)
    requires c < 0x1_0000 && forall i :: 0 <= i < |e| ==> !e[i]
    ensures Feed(c, e) == 0 <==> c == 0
    decreases |e|
  {
    if e != [] {
      XorZero(c);
      ShiftZero(c);
      ShiftBound(c);
      FeedEqualBits(Step(c, false), e[1..]);
    }
  }

  /** Only a distance below 2^n can be cancelled by n further bits. */
  lemma {:induction false} Cancellable(d: nat, e: seq<bool>)
    requires d < 0x1_0000 && |e| <= 15 && Feed(d, e) == 0
    ensures d < Pow2(|e|)
    decreases |e|
  {
    if e != [] {
      StepBound(d, e[0]);
      Cancellable(Step(d, e[0]), e[1..]);
      Pow2Monotone(|e| - 1, 14);
      Pow2Values();
      NoFeedback(d, e[0]);
    }
  }

  lemma {:induction false} FirstDifference(p: seq<bool>, q: seq<bool>) returns (j: nat)
    requires |p| == |q| && p != q
    ensures j < |p| && p[j] != q[j] && p[..j] == q[..j]
    decreases |p|
  {
    if p[0] != q[0] {
      j := 0;
    } else {
      assert p == [p[0]] + p[1..] && q == [q[0]] + q[1..];
      var k := FirstDifference(p[1..], q[1..]);
      j := k + 1;
      assert p[..j] == [p[0]] + p[1..][..k] && q[..j] == [q[0]] + q[1..][..k];
    }
  }

  ghost predicate AgreeOutside(p: seq<bool>, q: seq<bool>, from: nat, to: nat) {
    && |p| == |q|
    && forall k :: 0 <= k < |p| && !(from <= k < to) ==> p[k] == q[k]
  }

  lemma FirstBit(e: seq<bool>)
    ensures Feed(0, [true] + e) == Feed(POLYNOMIAL, e)
  {
    assert ([true] + e)[1..] == e;
    XorZero(1);
    XorZero(POLYNOMIAL);
  }

  lemma BurstSurvives(before: seq<bool>, burst: seq<bool>, after: seq<bool>)
    requires forall i :: 0 <= i < |before| ==> !before[i]
    requires |burst| <= 15
    requires forall i :: 0 <= i < |after| ==> !after[i]
    ensures Feed(0, before + ([true] + (burst + after))) != 0
  {
    FeedEqualBits(0, before);
    FeedAppend(0, before, [true] + (burst + after));
    FirstBit(burst + after);
    FeedAppend(POLYNOMIAL, burst, after);
    if Feed(POLYNOMIAL, burst) == 0 {
      Cancellable(POLYNOMIAL, burst);
      Pow2Monotone(|burst|, 15);
      Pow2Values();
    }
    FeedBound(POLYNOMIAL, burst);
    FeedEqualBits(Feed(POLYNOMIAL, burst), after);
  }

  lemma Pieces(e: seq<bool>, j: nat, end: nat)
    requires j < end <= |e| && e[j]
    ensures e == e[..j] + ([true] + (e[j + 1..end] + e[end..]))
  {
  }

  /** Two bit strings that differ, all within 16 consecutive places, never collide. */
  lemma BitBurst(c: nat, p: seq<bool>, q: seq<bool>, from: nat)
    requires AgreeOutside(p, q, from, from + 16) && p != q
    ensures Feed(c, p) != Feed(c, q)
  {
    var e := Differences(p, q);
    FeedLinear(c, c, p, q);
    XorCancels(c, c);
    XorCancels(Feed(c, p), Feed(c, q));
    var j := FirstDifference(p, q);
    var end := if from + 16 < |e| then from + 16 else |e|;
    assert from <= j < end;
    forall k | 0 <= k < j
      ensures !e[k]
    {
      assert p[k] == p[..j][k] && q[k] == q[..j][k];
    }
    BurstSurvives(e[..j], e[j + 1..end], e[end..]);
    Pieces(e, j, end);
  }

  lemma SameCrc(s: seq<byte>, t: seq<byte>)
    requires Crc16(s) == Crc16(t)
    ensures Feed(INITIAL, Stream(s)) == Feed(INITIAL, Stream(t))
  {
    SerialRefinement(INITIAL, s);
    SerialRefinement(INITIAL, t);
  }

  /** Every burst error of up to 16 bits is detected. */
  lemma BurstDetected(s: seq<byte>, t: seq<byte>, from: nat)
    requires s != t && AgreeOutside(Stream(s), Stream(t), from, from + 16)
    ensures Crc16(s) != Crc16(t)
  {
    if Stream(s) == Stream(t) { StreamInjective(s, t); }
    BitBurst(INITIAL, Stream(s), Stream(t), from);
    if Crc16(s) == Crc16(t) { SameCrc(s, t); }
  }

  lemma StreamOfThree(p: seq<byte>, u: seq<byte>, q: seq<byte>)
    ensures Stream(p + u + q) == Stream(p) + Stream(u) + Stream(q)
  {
    StreamAppend(p + u, q);
    StreamAppend(p, u);
  }

  lemma AgreeAround(p: seq<bool>, u: seq<bool>, v: seq<bool>, q: seq<bool>)
    requires |u| == |v|
    ensures AgreeOutside(p + u + q, p + v + q, |p|, |p| + |u|)
  {
  }

  /** In particular, any change confined to two adjacent bytes. */
  lemma AdjacentBytesDetected(p: seq<byte>, u: seq<byte>, v: seq<byte>, q: seq<byte>)
    requires |u| == |v| == 2 && u != v
    ensures Crc16(p + u + q) != Crc16(p + v + q)
  {
    StreamOfThree(p, u, q);
    StreamOfThree(p, v, q);
    AgreeAround(Stream(p), Stream(u), Stream(v), Stream(q));
    assert (p + u + q)[|p|..|p| + 2] == u && (p + v + q)[|p|..|p| + 2] == v;
    BurstDetected(p + u + q, p + v + q, 8 * |p|);
  }

  // ---- parity ----

  /** Whether an odd number of the digits of `w` are set. */
  predicate OddWord(w: nat) {
    if w == 0 then false else Odd(w) != OddWord(w / 2)
  }

  predicate OddBits(bits: seq<bool>)
    decreases |bits|
  {
    if bits == [] then false else bits[0] != OddBits(bits[1..])
  }

  lemma {:induction false} OddWordXor(a: nat, b: nat)
    ensures OddWord(Xor(a, b)) == (OddWord(a) != OddWord(b))
    decreases a + b
  {
    XorDigits(a, b);
    if a != 0 || b != 0 { OddWordXor(a / 2, b / 2); }
  }

  /** 1010 0000 0000 0001 has three digits set. */
  lemma OddPolynomial()
    ensures OddWord(POLYNOMIAL)
  {
    assert OddWord(0x5) == (true != OddWord(0x2)) && OddWord(0x2) == OddWord(0x1);
    assert OddWord(0xA0) == OddWord(0x50) == OddWord(0x28) == OddWord(0x14) == OddWord(0xA) == OddWord(0x5);
    assert OddWord(0xA00) == OddWord(0x500) == OddWord(0x280) == OddWord(0x140) == OddWord(0xA0);
    assert OddWord(0x5000) == OddWord(0x2800) == OddWord(0x1400) == OddWord(0xA00);
  }

  lemma OddStep(c: nat, bit: bool)
    ensures OddWord(Step(c, bit)) == (OddWord(c) != bit)
  {
    var mixed := Xor(c, Bit(bit));
    OddWordXor(c, Bit(bit));
    OddWordXor(mixed / 2, POLYNOMIAL);
    OddPolynomial();
  }

  lemma {:induction false} OddFeed(c: nat, bits: seq<bool>)
    ensures OddWord(Feed(c, bits)) == (OddWord(c) != OddBits(bits))
    decreases |bits|
  {
    if bits != [] {
      OddStep(c, bits[0]);
      OddFeed(Step(c, bits[0]), bits[1..]);
    }
  }

  /** Every error that flips an odd number of bits is detected, wherever they lie. */
  lemma OddErrorDetected(s: seq<byte>, t: seq<byte>)
    requires OddBits(Stream(s)) != OddBits(Stream(t))
    ensures Crc16(s) != Crc16(t)
  {
    OddFeed(INITIAL, Stream(s));
    OddFeed(INITIAL, Stream(t));
    if Crc16(s) == Crc16(t) { SameCrc(s, t); }
  }

  // ---- the zero residue ----

  lemma {:induction false} ShiftsInjective(a: nat, b: nat, n: nat)
    requires a < 0x1_0000 && b < 0x1_0000 && Shifts(a, n) == Shifts(b, n)
    ensures a == b
    decreases n
  {
    if n > 0 {
      ShiftBound(a);
      ShiftBound(b);
      ShiftsInjective(Shift(a), Shift(b), n - 1);
      ShiftInjective(a, b);
    }
  }

  /** Digits above the ones being shifted out fall through without feedback. */
  lemma {:induction false} FallsThrough(hi: nat, n: nat)
    ensures Shifts(Pow2(n) * hi, n) == hi
    decreases n
  {
    if n > 0 {
      var w := Pow2(n - 1) * hi;
      assert Pow2(n) * hi == 2 * w;
      assert Shifts(2 * w, n) == Shifts(w, n - 1) by { assert Shift(2 * w) == w; }
      FallsThrough(hi, n - 1);
    }
  }

  lemma {:induction false} ShiftsZero(n: nat)
    ensures Shifts(0, n) == 0
    decreases n
  {
    if n > 0 { ShiftsZero(n - 1); }
  }

  lemma TwoBytes(s: nat, c: seq<byte>)
    requires |c| == 2
    ensures CrcFrom(s, c) == Update(Update(s, c[0]), c[1])
  {
    assert c[1..][0] == c[1] && c[1..][1..] == [];
    assert CrcFrom(s, c) == CrcFrom(Update(s, c[0]), c[1..]);
    assert CrcFrom(Update(s, c[0]), c[1..]) == CrcFrom(Update(Update(s, c[0]), c[1]), []);
  }

  /** Exclusive or with a low part leaves a multiple of 2^n exactly for the low digits. */
  lemma {:induction false} ClearLow(s: nat, lo: nat, hi: nat, n: nat)
    requires lo < Pow2(n)
    ensures Xor(s, lo) == Pow2(n) * hi <==> s == Pow2(n) * hi + lo
    decreases n
  {
    if n == 0 {
      XorZero(s);
    } else {
      var w := Pow2(n - 1) * hi;
      assert Pow2(n) * hi == 2 * w;
      ClearLow(s / 2, lo / 2, hi, n - 1);
      XorDigits(s, lo);
    }
  }

  /** The register reaches zero on exactly one pair of bytes. */
  lemma ZeroUpdate(s: nat, lo: byte, hi: byte)
    requires s < 0x1_0000
    ensures Update(Update(s, lo), hi) == 0 <==> s == U16(hi, lo)
  {
    var mid := Update(s, lo);
    var h := hi as nat;
    MixBound(s, lo);
    ShiftsBound(Xor(s, lo as nat), 8);
    MixBound(mid, hi);
    ShiftsZero(8);
    if Update(mid, hi) == 0 { ShiftsInjective(Xor(mid, h), 0, 8); }
    XorCancels(mid, h);
    Pow2Values();
    FallsThrough(h, 8);
    if mid == h { ShiftsInjective(Xor(s, lo as nat), 256 * h, 8); }
    ClearLow(s, lo as nat, h, 8);
  }

  /** A body followed by two bytes leaves residue zero exactly when they are its CRC. */
  lemma ZeroResidue(body: seq<byte>, c: seq<byte>)
    requires |c| == 2
    ensures CrcFrom(INITIAL, body + c) == 0 <==> c == Crc16(body)
  {
    var s := CrcFrom(INITIAL, body);
    CrcBound(INITIAL, body);
    CrcFromAppend(INITIAL, body, c);
    TwoBytes(s, c);
    ZeroUpdate(s, c[0], c[1]);
    assert c == Crc16(body) <==> c[0] == Crc16(body)[0] && c[1] == Crc16(body)[1];
  }
}
