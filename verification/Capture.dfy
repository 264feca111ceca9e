/**
 `FirmwareCapture`: the receiver that collects a pushed image while it impersonates the
 inverter. `Step` is its reaction to one frame from the cloud; the class keeps the state.
 */
module Capture {
  import opened Bytes
  import opened Crc
  import opened Frames
  import opened FrameStream
  import opened Firmware

  datatype State = State(metadata: Option<Metadata>, variant: Option<Variant>, data: seq<byte>, expected: nat)

  const IDLE: State := State(None, None, [], 0)

  datatype Reason =
    InvalidCrc | SerialMismatch | NoMetadata | ProtocolChanged | TooLarge | CrcMismatch | SaveFailed

  /**
   What the cloud and the relay see: the frame is not a firmware frame; it is removed without
   an answer; it is answered; it completes an image; or the handler fails on a chunk number
   that does not fit its two bytes.
   */
  datatype Reply =
    | Pass
    | Withheld(reason: Reason)
    | Ack(payload: seq<byte>)
    | Complete(payload: seq<byte>, image: seq<byte>)
    | Raised

  datatype Outcome = Outcome(state: State, reply: Reply)

  const ACK_MARK: byte := 0xA1
  const FINAL_MARK: byte := 0xA2

  /** The acknowledgement that asks for chunk `k`. */
  function ChunkAck(v: Variant, k: nat): seq<byte>
    requires k < 0x1_0000
  {
    v.magic + U16Bytes(k) + [5]
  }

  function FinalAck(v: Variant): seq<byte> {
    v.magic + v.finalSuffix
  }

  /** The bytes that ask for chunk `k`. */
  predicate AsksForChunk(payload: seq<byte>, v: Variant, k: nat) {
    && |payload| == 8 && payload[..5] == v.magic
    && 256 * payload[5] as nat + payload[6] as nat == k && payload[7] == 5
  }

  lemma AckNumber(v: Variant, k: nat)
    requires v.Valid() && k < 0x1_0000
    ensures AsksForChunk(ChunkAck(v, k), v, k)
  {
  }

  /** No two acknowledgements of a transfer are alike. */
  lemma AcksDiffer(v: Variant, i: nat, k: nat)
    requires v.Valid() && i < 0x1_0000 && k < 0x1_0000 && i != k
    ensures ChunkAck(v, i) != ChunkAck(v, k) && ChunkAck(v, i) != FinalAck(v)
  {
    AckNumber(v, i);
    AckNumber(v, k);
  }

  function AskFor(c: State, v: Variant): Outcome {
    Outcome(c, if c.expected < 0x1_0000 then Ack(ChunkAck(v, c.expected)) else Raised)
  }

  /** The state after a chunk was appended, judged. */
  function Judge(c: State, size: nat, crc: seq<byte>, v: Variant, saved: bool): Outcome {
    if |c.data| > size then
      Outcome(c, Withheld(TooLarge))
    else if |c.data| < size then
      AskFor(c, v)
    else if v.CrcField(Crc16(c.data)) != crc then
      Outcome(c, Withheld(CrcMismatch))
    else if !saved then
      Outcome(c, Withheld(SaveFailed))
    else
      Outcome(IDLE, Complete(FinalAck(v), c.data))
  }

  function OnChunk(c: State, p: seq<byte>, v: Variant, saved: bool): Outcome {
    if c.metadata.None? || c.variant.None? || |p| < 7 then
      Outcome(c, Withheld(NoMetadata))
    else if Some(v) != c.variant then
      Outcome(c, Withheld(ProtocolChanged))
    else if U16(p[5], p[6]) != c.expected then
      AskFor(c, v)
    else
      Judge(c.(data := c.data + p[7..], expected := c.expected + 1),
        c.metadata.value.size, c.metadata.value.crc, v, saved)
  }

  function OnFirmware(c: State, p: seq<byte>, v: Variant, serial: seq<byte>, saved: bool): Outcome
    requires v.Valid()
  {
    var m := ParseMetadata(p, v);
    if m.None? then
      OnChunk(c, p, v, saved)
    else if serial == [] || m.value.serial != serial then
      Outcome(c, Withheld(SerialMismatch))
    else
      Outcome(State(m, Some(v), [], 0), Ack(ChunkAck(v, 0)))
  }

  /** `handle_upstream_frame`; `saved` says whether saving the file would succeed. */
  function Step(c: State, f: Frame, serial: seq<byte>, saved: bool): Outcome {
    var v := VariantOf(f);
    if v.None? then
      Outcome(c, Pass)
    else if !f.validCrc then
      Outcome(c, Withheld(InvalidCrc))
    else
      OnFirmware(c, f.payload, v.value, serial, saved)
  }

  /** The frame that answers `request`; its end marker is that of its start. */
  function AckMessage(request: Frame, v: Variant, reply: Reply): Message
    requires request.device != [] && (reply.Ack? || reply.Complete?)
  {
    var mark := if reply.Complete? then FINAL_MARK else ACK_MARK;
    Message(v.start, [mark] + request.device[1..], request.func, reply.payload)
  }

  /** The percentages of a simulated installation. */
  const PROGRESS: seq<byte> := [18, 38, 58, 77, 97, 100]

  function ProgressPayload(v: Variant, percent: byte): seq<byte> {
    v.magic + [0, percent]
  }

  function ProgressTail(tail: seq<byte>): (t: seq<byte>)
    ensures |t| == 3
  {
    if |tail| == 3 then tail else [0, 0, 0]
  }

  /** The progress frame that reports `percent`, the `i`-th; the function byte counts on from `func`. */
  function ProgressMessage(v: Variant, tail: seq<byte>, func: byte, i: nat, percent: byte): Message {
    Message(START_7F, [0xAF] + ProgressTail(tail), ((func as nat + i + 1) % 256) as byte, ProgressPayload(v, percent))
  }

  class FirmwareCapture {
    var metadata: Option<Metadata>
    var variant: Option<Variant>
    var data: seq<byte>
    var expectedChunk: nat

    constructor ()
      ensures View() == IDLE
    {
      metadata, variant, data, expectedChunk := None, None, [], 0;
    }

    function View(): State
      reads this
    {
      State(metadata, variant, data, expectedChunk)
    }

    method Announce(m: Metadata, v: Variant)
      modifies this
      ensures View() == State(Some(m), Some(v), [], 0)
    {
      metadata := Some(m);
      variant := Some(v);
      data := [];
      expectedChunk := 0;
    }

    method Append(p: seq<byte>, v: Variant, saved: bool) returns (reply: Reply)
      requires metadata.Some? && 7 <= |p|
      modifies this
      ensures Outcome(View(), reply) == Judge(
        old(View()).(data := old(data) + p[7..], expected := old(expectedChunk) + 1),
        old(metadata).value.size, old(metadata).value.crc, v, saved)
    {
      data := data + p[7..];
      expectedChunk := expectedChunk + 1;
      if |data| > metadata.value.size {
        return Withheld(TooLarge);
      }
      if |data| < metadata.value.size {
        return if expectedChunk < 0x1_0000 then Ack(ChunkAck(v, expectedChunk)) else Raised;
      }
      var crc := ComputeCrc(data);
      if v.CrcField(crc) != metadata.value.crc {
        return Withheld(CrcMismatch);
      }
      if !saved {
        return Withheld(SaveFailed);
      }
      reply := Complete(FinalAck(v), data);
      metadata, variant, data, expectedChunk := None, None, [], 0;
    }

    method HandleUpstreamFrame(f: Frame, serial: seq<byte>, saved: bool) returns (reply: Reply)
      modifies this
      ensures Outcome(View(), reply) == Step(old(View()), f, serial, saved)
    {
      var v := VariantOf(f);
      if v.None? {
        return Pass;
      }
      if !f.validCrc {
        return Withheld(InvalidCrc);
      }
      var m := ParseMetadata(f.payload, v.value);
      if m.Some? {
        if serial == [] || m.value.serial != serial {
          return Withheld(SerialMismatch);
        }
        Announce(m.value, v.value);
        return Ack(ChunkAck(v.value, 0));
      }
      if metadata.None? || variant.None? || |f.payload| < 7 {
        return Withheld(NoMetadata);
      }
      if v.value != variant.value {
        return Withheld(ProtocolChanged);
      }
      if U16(f.payload[5], f.payload[6]) != expectedChunk {
        return if expectedChunk < 0x1_0000 then Ack(ChunkAck(v.value, expectedChunk)) else Raised;
      }
      reply := Append(f.payload, v.value, saved);
    }

    /** `_simulate_flash_progress`: the frames it writes. */
    method SimulateProgress(v: Variant, tail: seq<byte>, startingFunc: byte) returns (written: seq<Message>)
      ensures |written| == |PROGRESS|
      ensures forall i :: 0 <= i < |PROGRESS| ==> written[i] == ProgressMessage(v, tail, startingFunc, i, PROGRESS[i])
    {
      written := [];
      var func := startingFunc;
      for i := 0 to |PROGRESS|
        invariant |written| == i && func as nat == (startingFunc as nat + i) % 256
        invariant forall k :: 0 <= k < i ==> written[k] == ProgressMessage(v, tail, startingFunc, k, PROGRESS[k])
      {
        func := ((func as nat + 1) % 256) as byte;
        written := written +
          [Message(START_7F, [0xAF] + ProgressTail(tail), func, ProgressPayload(v, PROGRESS[i]))];
      }
    }
  }
}
