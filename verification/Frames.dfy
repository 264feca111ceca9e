/** The frame envelope: `make_frame`, `parse_frame` and what a valid CRC means. */
module Frames {
  import opened Bytes
  import opened Crc

  datatype Frame = Frame(
    start: seq<byte>,
    device: seq<byte>,
    func: byte,
    payload: seq<byte>,
    crc: seq<byte>,
    end: seq<byte>,
    raw: seq<byte>,
    validCrc: bool)

  const START_7E: seq<byte> := [0x7E, 0x7E]
  const START_7F: seq<byte> := [0x7F, 0x7F]
  const END_7E: seq<byte> := [0xE7, 0xE7]
  const END_7F: seq<byte> := [0xF7, 0xF7]

  /** Bytes around the payload: start 2, device 4, function 1, length 2, CRC 2, end 2. */
  const OVERHEAD: nat := 13
  const MAX_FRAME: nat := 4096

  function Body(device: seq<byte>, func: byte, payload: seq<byte>): seq<byte>
    requires |payload| < 0x1_0000
  {
    device + [func] + U16Bytes(|payload|) + payload
  }

  function MakeFrame(start: seq<byte>, device: seq<byte>, func: byte, payload: seq<byte>, end: seq<byte>): seq<byte>
    requires |payload| < 0x1_0000
  {
    start + Body(device, func, payload) + Crc16(Body(device, func, payload)) + end
  }

  /** `parse_frame`; `None` is its ValueError. */
  function ParseFrame(raw: seq<byte>): Option<Frame> {
    if |raw| < OVERHEAD then
      None
    else
      var n := U16(raw[7], raw[8]);
      if |raw| != OVERHEAD + n then
        None
      else
        Some(Frame(
          raw[..2], raw[2..6], raw[6], raw[9..9 + n], raw[9 + n..11 + n], raw[11 + n..], raw,
          raw[9 + n..11 + n] == Crc16(raw[2..9 + n])))
  }

  /** The frame that `make_frame` encodes. */
  function FrameOf(start: seq<byte>, device: seq<byte>, func: byte, payload: seq<byte>, end: seq<byte>): Frame
    requires |payload| < 0x1_0000
  {
    Frame(start, device, func, payload, Crc16(Body(device, func, payload)), end,
      MakeFrame(start, device, func, payload, end), true)
  }

  /** Where the fields of a frame lie: lengths high byte first, and the CRC over all between start and CRC. */
  lemma Layout(start: seq<byte>, device: seq<byte>, func: byte, payload: seq<byte>, end: seq<byte>)
    requires |start| == 2 && |device| == 4 && |payload| < 0x1_0000 && |end| == 2
    ensures var raw, n := MakeFrame(start, device, func, payload, end), |payload|;
      && |raw| == 13 + n && raw[..2] == start && raw[2..6] == device && raw[6] == func
      && 256 * raw[7] as nat + raw[8] as nat == n && raw[9..9 + n] == payload
      && raw[9 + n..11 + n] == Crc16(raw[2..9 + n]) && raw[11 + n..] == end
  {
    MakeThenParse(start, device, func, payload, end);
    ParsedLayout(MakeFrame(start, device, func, payload, end));
    var raw := MakeFrame(start, device, func, payload, end);
    assert raw[2..9 + |payload|] == Body(device, func, payload);
  }

  lemma MakeThenParse(start: seq<byte>, device: seq<byte>, func: byte, payload: seq<byte>, end: seq<byte>)
    requires |start| == 2 && |device| == 4 && |payload| < 0x1_0000 && |end| == 2
    ensures ParseFrame(MakeFrame(start, device, func, payload, end)) == Some(FrameOf(start, device, func, payload, end))
  {
    var raw := MakeFrame(start, device, func, payload, end);
    var body := Body(device, func, payload);
    var n := |payload|;
    assert raw[7] == U16Bytes(n)[0] && raw[8] == U16Bytes(n)[1];
    assert raw[..2] == start && raw[2..9 + n] == body && raw[9 + n..11 + n] == Crc16(body) && raw[11 + n..] == end;
    assert body[..4] == device && body[4] == func && body[7..] == payload;
    assert raw[2..6] == body[..4] && raw[6] == body[4] && raw[9..9 + n] == body[7..];
  }

  lemma ParsedLayout(raw: seq<byte>)
    requires ParseFrame(raw).Some?
    ensures var f := ParseFrame(raw).value;
      && |f.payload| < 0x1_0000 && |f.start| == 2 && |f.device| == 4 && |f.crc| == 2 && |f.end| == 2 && f.raw == raw
      && raw == f.start + Body(f.device, f.func, f.payload) + f.crc + f.end
      && f.validCrc == (f.crc == Crc16(Body(f.device, f.func, f.payload)))
  {
    var n := U16(raw[7], raw[8]);
    var f := ParseFrame(raw).value;
    U16Injective(raw[7..9], n);
    assert raw[2..9 + n] == Body(f.device, f.func, f.payload) by {
      assert raw[2..9 + n] == raw[2..6] + [raw[6]] + raw[7..9] + raw[9..9 + n];
    }
    assert raw == raw[..2] + raw[2..9 + n] + raw[9 + n..11 + n] + raw[11 + n..];
  }

  /** A frame's CRC is valid exactly when encoding its fields gives its own bytes back. */
  lemma ValidIffReencodes(raw: seq<byte>)
    requires ParseFrame(raw).Some?
    ensures var f := ParseFrame(raw).value;
      && |f.payload| < 0x1_0000
      && (f.validCrc <==> MakeFrame(f.start, f.device, f.func, f.payload, f.end) == raw)
  {
    ParsedLayout(raw);
    var f := ParseFrame(raw).value;
    var body := Body(f.device, f.func, f.payload);
    var head := f.start + body;
    assert raw[|head|..|head| + 2] == f.crc;
    var made := MakeFrame(f.start, f.device, f.func, f.payload, f.end);
    assert made[|head|..|head| + 2] == Crc16(body);
  }

  /** The protected part of a frame: everything between the two markers. */
  function Protected(raw: seq<byte>): seq<byte>
    requires |raw| >= OVERHEAD
  {
    raw[2..|raw| - 2]
  }

  lemma ProtectedIs(raw: seq<byte>)
    requires ParseFrame(raw).Some?
    ensures var f := ParseFrame(raw).value;
      && |f.payload| < 0x1_0000 && |f.crc| == 2
      && Protected(raw) == Body(f.device, f.func, f.payload) + f.crc
      && f.validCrc == (f.crc == Crc16(Body(f.device, f.func, f.payload)))
  {
    ParsedLayout(raw);
    var f := ParseFrame(raw).value;
    WithoutEnds(raw, f.start, Body(f.device, f.func, f.payload), f.crc, f.end);
  }

  lemma WithoutEnds(raw: seq<byte>, start: seq<byte>, body: seq<byte>, crc: seq<byte>, end: seq<byte>)
    requires raw == start + body + crc + end && |start| == 2 == |end|
    ensures raw[2..|raw| - 2] == body + crc
  {
  }

  lemma ValidIffZeroResidue(raw: seq<byte>)
    requires ParseFrame(raw).Some?
    ensures ParseFrame(raw).value.validCrc <==> CrcFrom(INITIAL, Protected(raw)) == 0
  {
    ProtectedIs(raw);
    var f := ParseFrame(raw).value;
    ZeroResidue(Body(f.device, f.func, f.payload), f.crc);
  }

  /**
   No burst of up to 16 bits between the markers, and no odd number of flipped bits
   there, turns one valid frame into another.
   */
  lemma CorruptionDetected(raw: seq<byte>, received: seq<byte>, from: nat)
    requires ParseFrame(raw).Some? && ParseFrame(received).Some?
    requires ParseFrame(raw).value.validCrc && Protected(raw) != Protected(received)
    requires
      || AgreeOutside(Stream(Protected(raw)), Stream(Protected(received)), from, from + 16)
      || OddBits(Stream(Protected(raw))) != OddBits(Stream(Protected(received)))
    ensures !ParseFrame(received).value.validCrc
  {
    ValidIffZeroResidue(raw);
    ValidIffZeroResidue(received);
    if AgreeOutside(Stream(Protected(raw)), Stream(Protected(received)), from, from + 16) {
      BurstDetected(Protected(raw), Protected(received), from);
    } else {
      OddErrorDetected(Protected(raw), Protected(received));
    }
    assert CrcFrom(INITIAL, Protected(received)) != CrcFrom(INITIAL, Protected(raw));
  }
}
