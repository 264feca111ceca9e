/** Modbus PDUs inside 7f7f frames: the builders, parsers and classifiers of the gateway. */
module Modbus {
  import opened Bytes
  import opened Frames
  import opened Deframer

  const READ_HOLDING: byte := 0x03
  const READ_INPUT: byte := 0x04
  const WRITE_SINGLE: byte := 0x06
  const WRITE_MULTIPLE: byte := 0x10
  const ENVELOPE: byte := 0xE2

  // ---- builders ----

  function Pdu(function_: byte, address: nat, word: nat): (p: seq<byte>)
    requires address < 0x1_0000 && word < 0x1_0000
    ensures |p| == 6
  {
    [1, function_] + U16Bytes(address) + U16Bytes(word)
  }

  function Envelope(device: seq<byte>, pdu: seq<byte>): seq<byte>
    requires |pdu| < 0x1_0000
  {
    MakeFrame(START_7F, device, ENVELOPE, pdu, END_7F)
  }

  function BuildWriteSingle(device: seq<byte>, address: nat, value: nat): seq<byte>
    requires address < 0x1_0000 && value < 0x1_0000
  {
    Envelope(device, Pdu(WRITE_SINGLE, address, value))
  }

  function BuildReadHolding(device: seq<byte>, address: nat, count: nat): seq<byte>
    requires address < 0x1_0000 && count < 0x1_0000
  {
    Envelope(device, Pdu(READ_HOLDING, address, count))
  }

  // ---- commands ----

  datatype Command =
    | Nothing
    | ReadCommand(slave: byte, function_: byte, address: nat, count: nat)
    | WriteCommand(slave: byte, function_: byte, address: nat, value: nat)
    | WriteMany(slave: byte, function_: byte, address: nat, count: nat, byteCount: byte, values: seq<nat>)

  predicate IsModbusCommand(f: Frame) {
    && f.start == START_7F && |f.payload| >= 6
    && f.payload[1] in {READ_HOLDING, READ_INPUT, WRITE_SINGLE, WRITE_MULTIPLE}
  }

  /** The big-endian words from `base` on, at most `count` of them and only whole ones. */
  function Words(payload: seq<byte>, base: nat, count: nat): (ws: seq<nat>)
    ensures |ws| <= count
    decreases count
  {
    if count == 0 || base + 2 > |payload| then
      []
    else
      [U16(payload[base], payload[base + 1])] + Words(payload, base + 2, count - 1)
  }

  function ParseCommand(f: Frame): Command {
    if !IsModbusCommand(f) then
      Nothing
    else
      var p := f.payload;
      var address, word := U16(p[2], p[3]), U16(p[4], p[5]);
      if p[1] == READ_HOLDING || p[1] == READ_INPUT then
        ReadCommand(p[0], p[1], address, word)
      else if p[1] == WRITE_SINGLE then
        WriteCommand(p[0], p[1], address, word)
      else if p[1] == WRITE_MULTIPLE && |p| >= 7 then
        WriteMany(p[0], p[1], address, word, p[6], Words(p, 7, word))
      else
        Nothing
  }

  lemma {:induction false} WordsAt(payload: seq<byte>, base: nat, count: nat, i: nat)
    requires base + 2 * count <= |payload| && i < count
    ensures |Words(payload, base, count)| == count
    ensures Words(payload, base, count)[i] == U16(payload[base + 2 * i], payload[base + 2 * i + 1])
    decreases count
  {
    if i > 0 {
      WordsAt(payload, base + 2, count - 1, i - 1);
    } else if count > 1 {
      WordsAt(payload, base + 2, count - 1, 0);
    }
  }

  /** The loop that collects the values of a multiple write. */
  method CollectWords(payload: seq<byte>, count: nat) returns (values: seq<nat>)
    ensures values == Words(payload, 7, count)
  {
    values := [];
    for i := 0 to count
      invariant values + Words(payload, 7 + 2 * i, count - i) == Words(payload, 7, count)
    {
      var base := 7 + i * 2;
      if base + 2 > |payload| {
        assert values + [] == values;
        break;
      }
      assert values + ([U16(payload[base], payload[base + 1])] + Words(payload, base + 2, count - i - 1))
        == (values + [U16(payload[base], payload[base + 1])]) + Words(payload, base + 2, count - i - 1);
      values := values + [U16(payload[base], payload[base + 1])];
    }
  }

  /** The classifier accepts exactly one shape its parser cannot decode. */
  lemma UndecodableCommand(f: Frame)
    requires IsModbusCommand(f)
    ensures ParseCommand(f) == Nothing <==> f.payload[1] == WRITE_MULTIPLE && |f.payload| == 6
  {
  }

  /** The word at `i`, high byte first. */
  function WordAt(p: seq<byte>, i: nat): nat
    requires i + 1 < |p|
  {
    256 * p[i] as nat + p[i + 1] as nat
  }

  /** What a command is, and which fields it has, by its bytes. */
  lemma CommandFields(f: Frame)
    ensures IsModbusCommand(f) <==> f.start == START_7F && |f.payload| >= 6 && f.payload[1] in {3, 4, 6, 16}
    ensures IsModbusCommand(f) && ParseCommand(f) != Nothing ==>
      match ParseCommand(f)
      case ReadCommand(slave, function_, address, count) =>
        && slave == f.payload[0] && function_ == f.payload[1] && function_ in {3, 4}
        && address == WordAt(f.payload, 2) && count == WordAt(f.payload, 4)
      case WriteCommand(slave, function_, address, value) =>
        && slave == f.payload[0] && function_ == f.payload[1] == 6
        && address == WordAt(f.payload, 2) && value == WordAt(f.payload, 4)
      case WriteMany(slave, function_, address, count, byteCount, values) =>
        && slave == f.payload[0] && function_ == f.payload[1] == 16
        && address == WordAt(f.payload, 2) && count == WordAt(f.payload, 4)
        && |f.payload| >= 7 && byteCount == f.payload[6] && values == Words(f.payload, 7, count)
      case Nothing => true
  {
  }

  /** The values are as many of the whole words as `count` allows, in order; `whole` words are there. */
  lemma {:induction false} WordsAre(payload: seq<byte>, base: nat, count: nat, whole: nat)
    requires base + 2 * whole <= |payload| < base + 2 * whole + 2
    ensures |Words(payload, base, count)| == if count < whole then count else whole
    ensures forall i :: 0 <= i < |Words(payload, base, count)| ==>
      base + 2 * i + 1 < |payload| && Words(payload, base, count)[i] == WordAt(payload, base + 2 * i)
    decreases count
  {
    if count > 0 && whole > 0 {
      WordsAre(payload, base + 2, count - 1, whole - 1);
      var ws := Words(payload, base, count);
      forall i | 0 <= i < |ws|
        ensures base + 2 * i + 1 < |payload| && ws[i] == WordAt(payload, base + 2 * i)
      {
        assert i > 0 ==> ws[i] == Words(payload, base + 2, count - 1)[i - 1];
      }
    }
  }

  // ---- responses ----

  predicate IsWriteSuccess(f: Frame) {
    && f.start == START_7F
    && (ParseCommand(f).WriteCommand? || (|f.payload| == 2 && f.payload[1] == WRITE_SINGLE))
  }

  predicate IsReadResponse(f: Frame) {
    && f.start == START_7F && |f.payload| >= 5
    && (f.payload[1] == READ_HOLDING || f.payload[1] == READ_INPUT)
    && f.payload[2] > 0 && f.payload[2] % 2 == 0 && |f.payload| == 3 + f.payload[2] as nat
  }

  function ReadValues(f: Frame): seq<nat>
    requires IsReadResponse(f)
  {
    Words(f.payload, 3, f.payload[2] as nat / 2)
  }

  predicate IsReadException(f: Frame) {
    && f.start == START_7F && |f.payload| == 3
    && (f.payload[1] == READ_HOLDING + 0x80 || f.payload[1] == READ_INPUT + 0x80)
  }

  /** What counts as an acknowledgement, said without the parser. */
  lemma WriteSuccessShape(f: Frame)
    ensures IsWriteSuccess(f) <==>
      f.start == START_7F && (|f.payload| == 2 || |f.payload| >= 6) && f.payload[1] == WRITE_SINGLE
  {
  }

  /** The payload that answers a read with these values. */
  function ResponsePayload(slave: byte, function_: byte, values: seq<nat>): seq<byte>
    requires |values| <= 127 && forall i :: 0 <= i < |values| ==> values[i] < 0x1_0000
  {
    [slave, function_, 2 * |values| as byte] + WordBytes(values)
  }

  function WordBytes(values: seq<nat>): (b: seq<byte>)
    requires forall i :: 0 <= i < |values| ==> values[i] < 0x1_0000
    ensures |b| == 2 * |values|
  {
    if values == [] then [] else U16Bytes(values[0]) + WordBytes(values[1..])
  }

  lemma {:induction false} WordBytesRead(payload: seq<byte>, base: nat, values: seq<nat>)
    requires forall i :: 0 <= i < |values| ==> values[i] < 0x1_0000
    requires base <= |payload| && payload[base..] == WordBytes(values)
    ensures Words(payload, base, |values|) == values
    decreases |values|
  {
    if values != [] {
      assert payload[base..][0] == U16Bytes(values[0])[0] && payload[base..][1] == U16Bytes(values[0])[1];
      assert payload[base + 2..] == payload[base..][2..] == WordBytes(values[1..]);
      WordBytesRead(payload, base + 2, values[1..]);
    }
  }

  /** A response that carries 1 to 127 values is recognised, and its values come back. */
  lemma ResponseRoundTrip(f: Frame, slave: byte, function_: byte, values: seq<nat>)
    requires 1 <= |values| <= 127 && forall i :: 0 <= i < |values| ==> values[i] < 0x1_0000
    requires f.start == START_7F && (function_ == 3 || function_ == 4)
    requires f.payload == ResponsePayload(slave, function_, values)
    ensures IsReadResponse(f) && ReadValues(f) == values
  {
    assert f.payload[3..] == WordBytes(values);
    WordBytesRead(f.payload, 3, values);
  }

  lemma {:induction false} WordsRebuild(payload: seq<byte>, base: nat, n: nat)
    requires base + 2 * n == |payload|
    ensures var ws := Words(payload, base, n);
      |ws| == n && (forall i :: 0 <= i < n ==> ws[i] < 0x1_0000) && WordBytes(ws) == payload[base..]
    decreases n
  {
    if n > 0 {
      WordsRebuild(payload, base + 2, n - 1);
      var ws := Words(payload, base, n);
      assert ws[1..] == Words(payload, base + 2, n - 1);
      U16Injective(payload[base..base + 2], ws[0]);
      assert payload[base..] == payload[base..base + 2] + payload[base + 2..];
    }
  }

  /** And nothing else is taken for a response: each one is that encoding of its values. */
  lemma ResponseIsEncoding(f: Frame)
    requires IsReadResponse(f)
    ensures f.start == START_7F && f.payload[1] in {3, 4} && 1 <= |ReadValues(f)| <= 127
    ensures forall i :: 0 <= i < |ReadValues(f)| ==> ReadValues(f)[i] < 0x1_0000
    ensures f.payload == ResponsePayload(f.payload[0], f.payload[1], ReadValues(f))
  {
    WordsRebuild(f.payload, 3, f.payload[2] as nat / 2);
  }

  /** An exception is three bytes, the second the function read with its top bit set. */
  lemma ExceptionShape(f: Frame)
    ensures IsReadException(f) <==> f.start == START_7F && |f.payload| == 3 && f.payload[1] in {0x83, 0x84}
  {
  }

  /** A read response yields one value per register, in order. */
  lemma ReadValuesAt(f: Frame, i: nat)
    requires IsReadResponse(f) && 2 * i < f.payload[2] as nat
    ensures |ReadValues(f)| == f.payload[2] as nat / 2
    ensures ReadValues(f)[i] == U16(f.payload[3 + 2 * i], f.payload[4 + 2 * i])
  {
    WordsAt(f.payload, 3, f.payload[2] as nat / 2, i);
  }

  /** No frame is two of: an acknowledgement, a read response, a read exception. */
  lemma ResponsesDisjoint(f: Frame)
    ensures !(IsWriteSuccess(f) && IsReadResponse(f))
    ensures !(IsWriteSuccess(f) && IsReadException(f))
    ensures !(IsReadResponse(f) && IsReadException(f))
  {
  }

  /** A six-byte read request is never taken for a read response, whatever its address. */
  lemma RequestIsNoResponse(f: Frame)
    requires |f.payload| == 6
    ensures !IsReadResponse(f)
  {
  }

  // ---- round trips ----

  function CommandFrame(device: seq<byte>, pdu: seq<byte>): Frame
    requires |pdu| < 0x1_0000
  {
    FrameOf(START_7F, device, ENVELOPE, pdu, END_7F)
  }

  lemma EnvelopeParses(device: seq<byte>, pdu: seq<byte>)
    requires |device| == 4 && |pdu| < 0x1_0000
    ensures ParseFrame(Envelope(device, pdu)) == Some(CommandFrame(device, pdu))
  {
    MakeThenParse(START_7F, device, ENVELOPE, pdu, END_7F);
  }

  lemma PduParses(f: Frame, function_: byte, address: nat, word: nat)
    requires address < 0x1_0000 && word < 0x1_0000
    requires f.start == START_7F && f.payload == Pdu(function_, address, word)
    ensures function_ == WRITE_SINGLE ==> ParseCommand(f) == WriteCommand(1, WRITE_SINGLE, address, word)
    ensures function_ == READ_HOLDING ==> ParseCommand(f) == ReadCommand(1, READ_HOLDING, address, word)
  {
  }

  /** The inverter reads back the register and value the gateway wrote. */
  lemma WriteRoundTrip(device: seq<byte>, address: nat, value: nat)
    requires |device| == 4 && address < 0x1_0000 && value < 0x1_0000
    ensures ParseFrame(BuildWriteSingle(device, address, value))
      == Some(CommandFrame(device, Pdu(WRITE_SINGLE, address, value)))
    ensures ParseCommand(CommandFrame(device, Pdu(WRITE_SINGLE, address, value)))
      == WriteCommand(1, WRITE_SINGLE, address, value)
  {
    EnvelopeParses(device, Pdu(WRITE_SINGLE, address, value));
    PduParses(CommandFrame(device, Pdu(WRITE_SINGLE, address, value)), WRITE_SINGLE, address, value);
  }

  lemma ReadRoundTrip(device: seq<byte>, address: nat, count: nat)
    requires |device| == 4 && address < 0x1_0000 && count < 0x1_0000
    ensures ParseFrame(BuildReadHolding(device, address, count))
      == Some(CommandFrame(device, Pdu(READ_HOLDING, address, count)))
    ensures ParseCommand(CommandFrame(device, Pdu(READ_HOLDING, address, count)))
      == ReadCommand(1, READ_HOLDING, address, count)
  {
    EnvelopeParses(device, Pdu(READ_HOLDING, address, count));
    PduParses(CommandFrame(device, Pdu(READ_HOLDING, address, count)), READ_HOLDING, address, count);
  }
}
