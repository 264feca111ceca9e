/**
 The relay from the cloud to the inverter. Every frame is first looked at, which can fail,
 and then shown to the firmware receiver; only when all frames of a read are through is
 anything forwarded. A failure ends the relay, and the read is lost.
 */
module Upstream {
  import opened Bytes
  import opened Frames
  import opened Deframer
  import opened Chunking
  import opened FrameStream
  import opened Search
  import opened Relay
  import opened RelayFrames
  import opened RelayRuns
  import opened Subsequence
  import opened Modbus
  import opened Firmware
  import opened Capture
  import opened CaptureRuns

  // ---- one frame ----

  /** `handle_upstream_frame` looks up the function of a command, and finds nothing to look it up in. */
  predicate Undecodable(f: Frame) {
    IsModbusCommand(f) && ParseCommand(f) == Nothing
  }

  lemma UndecodableShape(f: Frame)
    ensures Undecodable(f) <==> f.start == START_7F && |f.payload| == 6 && f.payload[1] == WRITE_MULTIPLE
  {
  }

  datatype Answer = Passed | Captured | Raises

  datatype Verdict = Verdict(capture: Option<State>, answer: Answer)

  /** What becomes of a frame; without a receiver (`None`) nothing is captured. */
  function Handle(capture: Option<State>, f: Frame, context: Context): Verdict {
    if Undecodable(f) then
      Verdict(capture, Raises)
    else if capture.None? then
      Verdict(None, Passed)
    else
      var o := Capture.Step(capture.value, f, context.serial, context.saved);
      Verdict(Some(o.state), if o.reply.Raised? then Raises else if o.reply.Pass? then Passed else Captured)
  }

  /**
   What the session has at hand for a frame: the serial it knows by then, which can change while
   the frames of a read are handled, and whether saving a file would succeed.
   */
  datatype Context = Context(serial: seq<byte>, saved: bool)

  function Current(contexts: seq<Context>): Context {
    if contexts == [] then Context([], false) else contexts[0]
  }

  function Coming(contexts: seq<Context>): seq<Context> {
    if contexts == [] then [] else contexts[1..]
  }

  /** The frames of one read: the receiver's new state, which frames it owns, and whether something raised. */
  datatype Handled = Handled(capture: Option<State>, owned: seq<bool>, raised: bool)

  function HandleAll(capture: Option<State>, frames: seq<Frame>, contexts: seq<Context>): Handled
    decreases |frames|
  {
    if frames == [] then
      Handled(capture, [], false)
    else
      var look := Handle(capture, frames[0], Current(contexts));
      if look.answer.Raises? then
        Handled(look.capture, [], true)
      else
        var h := HandleAll(look.capture, frames[1..], Coming(contexts));
        h.(owned := [look.answer.Captured?] + h.owned)
  }

  // ---- the loop ----

  /** Where the loop stands before frame `k`: the rest of the read ends as the whole of it does. */
  ghost predicate OnTrack(
      consumed: seq<byte>, frames: seq<Frame>, whole: Handled, forward: seq<byte>, k: nat, rest: Handled)
  {
    && k <= |frames| && rest.capture == whole.capture && rest.raised == whole.raised
    && (!whole.raised ==> Filtered(forward, frames[k..], rest.owned) == Filtered(consumed, frames, whole.owned))
  }

  /** The bytes to forward after a verdict on a frame. */
  function Remaining(forward: seq<byte>, f: Frame, answer: Answer): seq<byte> {
    if answer.Captured? then DeleteFirst(forward, f.raw) else forward
  }

  lemma {:induction false} NextOnTrack(
      consumed: seq<byte>, frames: seq<Frame>, whole: Handled, forward: seq<byte>, k: nat,
      capture: Option<State>, contexts: seq<Context>)
    requires k < |frames|
    requires OnTrack(consumed, frames, whole, forward, k, HandleAll(capture, frames[k..], contexts))
    ensures var look := Handle(capture, frames[k], Current(contexts));
      if look.answer.Raises? then
        whole.raised && whole.capture == look.capture
      else
        OnTrack(consumed, frames, whole, Remaining(forward, frames[k], look.answer), k + 1,
          HandleAll(look.capture, frames[k + 1..], Coming(contexts)))
  {
    var left := frames[k..];
    assert left[0] == frames[k] && left[1..] == frames[k + 1..];
    var look := Handle(capture, left[0], Current(contexts));
    OneHandled(look, capture, left, contexts);
    if !look.answer.Raises? {
      var h := HandleAll(look.capture, left[1..], Coming(contexts));
      OneFiltered(forward, left, look.answer.Captured?, h.owned);
    }
  }

  lemma {:induction false} OneHandled(look: Verdict, capture: Option<State>, left: seq<Frame>, contexts: seq<Context>)
    requires left != [] && look == Handle(capture, left[0], Current(contexts))
    ensures HandleAll(capture, left, contexts)
      == if look.answer.Raises? then
           Handled(look.capture, [], true)
         else
           var h := HandleAll(look.capture, left[1..], Coming(contexts));
           h.(owned := [look.answer.Captured?] + h.owned)
  {
  }

  lemma OneFiltered(forward: seq<byte>, left: seq<Frame>, ours: bool, owned: seq<bool>)
    requires left != []
    ensures Filtered(forward, left, [ours] + owned)
      == Filtered(if ours then DeleteFirst(forward, left[0].raw) else forward, left[1..], owned)
  {
    assert ([ours] + owned)[1..] == owned;
  }

  class UpstreamPump {
    const buffer: StreamBuffer
    const capture: FirmwareCapture?

    constructor (capture: FirmwareCapture?)
      ensures this.capture == capture && fresh(buffer) && buffer.data == []
    {
      this.capture := capture;
      buffer := new StreamBuffer();
    }

    ghost function Receiver(): set<object> {
      if capture == null then {} else {capture}
    }

    ghost function CaptureState(): Option<State>
      reads Receiver()
    {
      if capture == null then None else Some(capture.View())
    }

    /** One frame of the read. */
    method Look(f: Frame, context: Context) returns (answer: Answer)
      modifies Receiver()
      ensures Verdict(CaptureState(), answer) == Handle(old(CaptureState()), f, context)
    {
      if Undecodable(f) {
        return Raises;
      }
      if capture == null {
        return Passed;
      }
      var reply := capture.HandleUpstreamFrame(f, context.serial, context.saved);
      answer := if reply.Raised? then Raises else if reply.Pass? then Passed else Captured;
    }

    /** One turn of the relay loop; no result means that a handler failed and nothing is written. */
    method OnRead(data: seq<byte>, contexts: seq<Context>) returns (forward: Option<seq<byte>>)
      modifies buffer, Receiver()
      ensures var snapshot := old(buffer.data) + data;
        var h := HandleAll(old(CaptureState()), Extract(snapshot).frames, contexts);
        && buffer.data == Extract(snapshot).leftover && CaptureState() == h.capture
        && forward == if h.raised then None else Some(Forwarded(snapshot, h.owned))
    {
      buffer.data := buffer.data + data;
      var snapshot := buffer.data;
      ghost var before := CaptureState();
      var frames := buffer.ExtractFrames();
      var leftover := buffer.data;
      assert Extract(snapshot) == Extraction(frames, leftover);
      LeftoverBounded(snapshot);
      var consumed := snapshot[..|snapshot| - |leftover|];
      assert consumed == Consumed(snapshot);
      assert CaptureState() == before;
      forward := Filter(consumed, frames, contexts);
    }

    /** The loop body: no result means that a handler failed. */
    method HandleOne(forward: seq<byte>, f: Frame, context: Context) returns (left: Option<seq<byte>>)
      modifies Receiver()
      ensures var look := Handle(old(CaptureState()), f, context);
        && CaptureState() == look.capture
        && left == if look.answer.Raises? then None else Some(Remaining(forward, f, look.answer))
    {
      var answer := Look(f, context);
      if answer.Raises? {
        return None;
      }
      left := Some(forward);
      if answer.Captured? {
        var idx := Find(forward, f.raw);
        if idx.Some? {
          left := Some(forward[..idx.value] + forward[idx.value + |f.raw|..]);
        }
      }
    }

    /** The loop over the frames of one read. */
    method Filter(consumed: seq<byte>, frames: seq<Frame>, contexts: seq<Context>)
        returns (result: Option<seq<byte>>)
      modifies Receiver()
      ensures var h := HandleAll(old(CaptureState()), frames, contexts);
        && CaptureState() == h.capture
        && result == if h.raised then None else Some(Filtered(consumed, frames, h.owned))
    {
      ghost var whole := HandleAll(CaptureState(), frames, contexts);
      var forward := consumed;
      var remaining := contexts;
      assert frames[0..] == frames;
      for k := 0 to |frames|
        invariant OnTrack(consumed, frames, whole, forward, k, HandleAll(CaptureState(), frames[k..], remaining))
      {
        NextOnTrack(consumed, frames, whole, forward, k, CaptureState(), remaining);
        var left := HandleOne(forward, frames[k], Current(remaining));
        if left.None? {
          return None;
        }
        forward := left.value;
        remaining := Coming(remaining);
      }
      result := Some(forward);
    }
  }

  // ---- when a read is lost ----

  /** There is no receiver, or none of the frames is for it. */
  ghost predicate Plain(capture: Option<State>, frames: seq<Frame>) {
    capture.None? || forall f :: f in frames ==> VariantOf(f).None?
  }

  ghost predicate SomeUndecodable(frames: seq<Frame>) {
    exists f :: f in frames && Undecodable(f)
  }

  lemma SomeOfRest(frames: seq<Frame>)
    requires frames != []
    ensures SomeUndecodable(frames) <==> Undecodable(frames[0]) || SomeUndecodable(frames[1..])
  {
    assert frames == [frames[0]] + frames[1..];
    if SomeUndecodable(frames) && !Undecodable(frames[0]) {
      var f :| f in frames && Undecodable(f);
      assert f in frames[1..];
    }
    if Undecodable(frames[0]) { assert frames[0] in frames; }
  }

  /** An undecodable frame loses its read, whatever the receiver does and wherever the frame is. */
  lemma {:induction false} UndecodableRaises(
      capture: Option<State>, frames: seq<Frame>, contexts: seq<Context>)
    requires SomeUndecodable(frames)
    ensures HandleAll(capture, frames, contexts).raised
    decreases |frames|
  {
    SomeOfRest(frames);
    var look := Handle(capture, frames[0], Current(contexts));
    OneHandled(look, capture, frames, contexts);
    if !look.answer.Raises? {
      UndecodableRaises(look.capture, frames[1..], Coming(contexts));
    }
  }

  /**
   The receiver has to name a chunk whose number does not fit two bytes: it took chunk 65535 and
   still lacks data, or it has more than 65535 chunks already and gets one with another number.
   */
  predicate Overflows(c: State, f: Frame) {
    var v, p := VariantOf(f), f.payload;
    && v.Some? && f.validCrc && ParseMetadata(p, v.value).None?
    && c.metadata.Some? && c.variant == v && |p| >= 7
    && if U16(p[5], p[6]) == c.expected then
         c.expected == 0xFFFF && |c.data| + |p| - 7 < c.metadata.value.size
       else
         c.expected >= 0x1_0000
  }

  /** The receiver itself fails exactly on these frames. */
  lemma RaisesIff(c: State, f: Frame, serial: seq<byte>, saved: bool)
    ensures Capture.Step(c, f, serial, saved).reply.Raised? <==> Overflows(c, f)
  {
  }

  lemma CountsAtMostOne(c: State, f: Frame, serial: seq<byte>, saved: bool)
    ensures Capture.Step(c, f, serial, saved).state.expected <= c.expected + 1
  {
  }

  /** There is a number for each of the next `n` chunks. */
  predicate Room(capture: Option<State>, n: nat) {
    capture.Some? ==> capture.value.expected + n < 0x1_0000
  }

  lemma LookHasRoom(capture: Option<State>, f: Frame, context: Context, n: nat)
    requires Room(capture, n + 1)
    ensures var look := Handle(capture, f, context);
      Room(look.capture, n) && (look.answer.Raises? <==> Undecodable(f))
  {
    if capture.Some? {
      RaisesIff(capture.value, f, context.serial, context.saved);
      CountsAtMostOne(capture.value, f, context.serial, context.saved);
    }
  }

  /** While there are chunk numbers left, a read is lost if and only if one of its frames is undecodable. */
  lemma {:induction false} ReadLostIff(capture: Option<State>, frames: seq<Frame>, contexts: seq<Context>)
    requires Room(capture, |frames|)
    ensures HandleAll(capture, frames, contexts).raised <==> SomeUndecodable(frames)
    decreases |frames|
  {
    if frames != [] {
      var look := Handle(capture, frames[0], Current(contexts));
      SomeOfRest(frames);
      OneHandled(look, capture, frames, contexts);
      LookHasRoom(capture, frames[0], Current(contexts), |frames| - 1);
      if !look.answer.Raises? { ReadLostIff(look.capture, frames[1..], Coming(contexts)); }
    }
  }

  /** A read uses at most as many numbers as it has frames. */
  lemma {:induction false} RoomLeft(capture: Option<State>, frames: seq<Frame>, contexts: seq<Context>, n: nat)
    requires Room(capture, |frames| + n)
    ensures Room(HandleAll(capture, frames, contexts).capture, n)
    decreases |frames|
  {
    if frames != [] {
      var look := Handle(capture, frames[0], Current(contexts));
      OneHandled(look, capture, frames, contexts);
      LookHasRoom(capture, frames[0], Current(contexts), |frames| - 1 + n);
      if !look.answer.Raises? { RoomLeft(look.capture, frames[1..], Coming(contexts), n); }
    }
  }

  lemma PlainLook(capture: Option<State>, f: Frame, context: Context)
    requires capture.None? || VariantOf(f).None?
    ensures Handle(capture, f, context) == Verdict(capture, if Undecodable(f) then Raises else Passed)
  {
  }

  /** A read of frames that are not for the receiver is lost if and only if one of them is undecodable. */
  lemma {:induction false} PlainRead(capture: Option<State>, frames: seq<Frame>, contexts: seq<Context>)
    requires Plain(capture, frames)
    ensures var h := HandleAll(capture, frames, contexts);
      h.capture == capture && (h.raised <==> SomeUndecodable(frames)) && forall k :: 0 <= k < |h.owned| ==> !h.owned[k]
    decreases |frames|
  {
    if frames != [] {
      SomeOfRest(frames);
      PlainLook(capture, frames[0], Current(contexts));
      OneHandled(Handle(capture, frames[0], Current(contexts)), capture, frames, contexts);
      if !Undecodable(frames[0]) { PlainRead(capture, frames[1..], Coming(contexts)); }
    }
  }

  // ---- whole runs ----

  datatype Push = Push(data: seq<byte>, contexts: seq<Context>)

  datatype Passage = Passage(sent: seq<byte>, buffer: seq<byte>, capture: Option<State>, closed: bool)

  function AfterPush(before: Passage, push: Push): Passage {
    if before.closed then
      before
    else
      var snapshot := before.buffer + push.data;
      var h := HandleAll(before.capture, Extract(snapshot).frames, push.contexts);
      Passage(
        before.sent + if h.raised then [] else Forwarded(snapshot, h.owned), Extract(snapshot).leftover,
        h.capture, h.raised)
  }

  function UpstreamRun(capture: Option<State>, run: seq<Push>): Passage {
    if run == [] then
      Passage([], [], capture, false)
    else
      AfterPush(UpstreamRun(capture, run[..|run| - 1]), run[|run| - 1])
  }

  /** What the cloud sent, read by read. */
  function Chunks(run: seq<Push>): seq<seq<byte>> {
    if run == [] then [] else Chunks(run[..|run| - 1]) + [run[|run| - 1].data]
  }

  /** What the run should have come to, had nothing been lost. */
  ghost predicate Intact(p: Passage, capture: Option<State>, chunks: seq<seq<byte>>) {
    && !p.closed && p.capture == capture && p.buffer == Run(chunks).leftover
    && p.sent + p.buffer == Flatten(chunks)
  }

  ghost predicate Lost(p: Passage, chunks: seq<seq<byte>>) {
    p.closed && |p.sent| + |p.buffer| < |Flatten(chunks)|
  }

  lemma FramesTakeBytes(b: seq<byte>)
    ensures Extract(b).frames != [] ==> |Extract(b).leftover| < |b|
  {
    ExtractTurn(b);
    TurnConserves(b);
    if TakeTurn(b).Go? { LeftoverBounded(TakeTurn(b).rest); }
  }

  lemma SomeOfBoth(fs: seq<Frame>, gs: seq<Frame>)
    ensures SomeUndecodable(fs + gs) <==> SomeUndecodable(fs) || SomeUndecodable(gs)
  {
    if f :| f in fs && Undecodable(f) { assert f in fs + gs; }
    if g :| g in gs && Undecodable(g) { assert g in fs + gs; }
    if h :| h in fs + gs && Undecodable(h) { assert h in fs || h in gs; }
  }

  lemma PushLost(before: Passage, capture: Option<State>, chunks: seq<seq<byte>>, push: Push)
    requires Intact(before, capture, chunks) && SomeUndecodable(Extract(before.buffer + push.data).frames)
    ensures Lost(AfterPush(before, push), chunks + [push.data])
  {
    var snapshot := before.buffer + push.data;
    UndecodableRaises(capture, Extract(snapshot).frames, push.contexts);
    FramesTakeBytes(snapshot);
    MoreChunks(chunks, push.data);
  }

  lemma PushIntact(before: Passage, capture: Option<State>, chunks: seq<seq<byte>>, push: Push)
    requires Intact(before, capture, chunks) && !SomeUndecodable(Extract(before.buffer + push.data).frames)
    requires Plain(capture, Extract(before.buffer + push.data).frames)
    ensures Intact(AfterPush(before, push), capture, chunks + [push.data])
  {
    var snapshot := before.buffer + push.data;
    var e := Extract(snapshot);
    PlainRead(capture, e.frames, push.contexts);
    var h := HandleAll(capture, e.frames, push.contexts);
    NothingToFilter(Consumed(snapshot), e.frames, h.owned);
    ConsumedParts(snapshot);
    MoreChunks(chunks, push.data);
    Chain(before.sent, before.buffer, push.data, Consumed(snapshot), e.leftover);
  }

  /** The run is intact until the first undecodable frame, and loses bytes from then on. */
  lemma {:induction false} IntactOrLost(capture: Option<State>, run: seq<Push>)
    requires Plain(capture, Run(Chunks(run)).frames)
    ensures if SomeUndecodable(Run(Chunks(run)).frames) then
        Lost(UpstreamRun(capture, run), Chunks(run))
      else
        Intact(UpstreamRun(capture, run), capture, Chunks(run))
    decreases |run|
  {
    if run != [] {
      var init, last := run[..|run| - 1], run[|run| - 1];
      var chunks, before := Chunks(init), UpstreamRun(capture, init);
      var fs, gs := Run(chunks).frames, Extract(Run(chunks).leftover + last.data).frames;
      MoreChunks(chunks, last.data);
      SomeOfBoth(fs, gs);
      assert forall f :: f in fs || f in gs ==> f in fs + gs;
      IntactOrLost(capture, init);
      if SomeUndecodable(fs) {
      } else if SomeUndecodable(gs) {
        PushLost(before, capture, chunks, last);
      } else {
        PushIntact(before, capture, chunks, last);
      }
    }
  }

  /**
   Over any run in which no frame is for the receiver: what was forwarded and the buffer together
   are what was read if and only if no frame is undecodable; and otherwise the relay has ended.
   */
  lemma {:induction false} TransparentIff(capture: Option<State>, run: seq<Push>)
    requires Plain(capture, Run(Chunks(run)).frames)
    ensures var p := UpstreamRun(capture, run);
      && (p.sent + p.buffer == Flatten(Chunks(run)) <==> !SomeUndecodable(Run(Chunks(run)).frames))
      && (p.closed <==> SomeUndecodable(Run(Chunks(run)).frames))
  {
    IntactOrLost(capture, run);
  }

  // ---- conservation ----

  lemma {:induction false} PushWithin(before: Passage, push: Push, received: seq<byte>)
    requires Within(before.sent + before.buffer, received) && !before.closed
    ensures var p := AfterPush(before, push); Within(p.sent + p.buffer, received + push.data)
  {
    var snapshot := before.buffer + push.data;
    var h := HandleAll(before.capture, Extract(snapshot).frames, push.contexts);
    if h.raised {
      LeftoverWithin(snapshot);
    } else {
      ReadWithin(snapshot, h.owned);
    }
    WithinChain(before.sent, before.buffer, received, push.data,
      if h.raised then [] else Forwarded(snapshot, h.owned), Extract(snapshot).leftover);
  }

  lemma LeftoverWithin(snapshot: seq<byte>)
    ensures Within([] + Extract(snapshot).leftover, snapshot)
  {
    ConsumedParts(snapshot);
    NothingWithin(Consumed(snapshot));
    WithinSelf(Extract(snapshot).leftover);
    WithinAppend([], Consumed(snapshot), Extract(snapshot).leftover, Extract(snapshot).leftover);
  }

  lemma StillWithin(a: seq<byte>, received: seq<byte>, data: seq<byte>)
    requires Within(a, received)
    ensures Within(a, received + data)
  {
    NothingWithin(data);
    WithinAppend(a, received, [], data);
    assert a + [] == a;
  }

  /**
   For every run, whatever is captured or fails: what was forwarded, with the buffer, is what the
   cloud sent with some bytes taken out.
   */
  lemma {:induction false} NothingInvented(capture: Option<State>, run: seq<Push>)
    ensures var p := UpstreamRun(capture, run); Within(p.sent + p.buffer, Flatten(Chunks(run)))
    decreases |run|
  {
    if run != [] {
      var init, last := run[..|run| - 1], run[|run| - 1];
      NothingInvented(capture, init);
      MoreChunks(Chunks(init), last.data);
      var before := UpstreamRun(capture, init);
      if before.closed {
        StillWithin(before.sent + before.buffer, Flatten(Chunks(init)), last.data);
      } else {
        PushWithin(before, last, Flatten(Chunks(init)));
      }
    }
  }

  // ---- one read of whole frames ----

  /** One undecodable frame in a read: nothing of the read is sent, not even the frames before it. */
  lemma {:induction false} UndecodableReadLost(
      capture: Option<State>, before: seq<Message>, m: Message, after: seq<Message>,
      contexts: seq<Context>)
    requires AllSendable(before) && m.Sendable() && AllSendable(after)
    requires m.start == START_7F && |m.payload| == 6 && m.payload[1] == 0x10
    ensures AllSendable(before + ([m] + after))
    ensures var p := UpstreamRun(capture, [Push(EncodeAll(before + ([m] + after)), contexts)]);
      p.sent == [] && p.closed
  {
    var ms := before + ([m] + after);
    ThreeParts(before, m, after);
    UndecodableShape(Decoded(m));
    assert Decoded(m) in [Decoded(m)] + DecodedAll(after);
    assert Decoded(m) in DecodedAll(ms);
    UndecodableRaises(capture, DecodedAll(ms), contexts);
    OnePush(capture, ms, contexts);
  }

  /** One read of whole frames. */
  lemma {:induction false} OnePush(capture: Option<State>, ms: seq<Message>, contexts: seq<Context>)
    requires AllSendable(ms)
    ensures var h := HandleAll(capture, DecodedAll(ms), contexts);
      UpstreamRun(capture, [Push(EncodeAll(ms), contexts)])
        == Passage(if h.raised then [] else Forwarded(EncodeAll(ms), h.owned), [], h.capture, h.raised)
  {
    var push := Push(EncodeAll(ms), contexts);
    StreamRoundTrip(ms);
    assert [push][..0] == [] && [] + EncodeAll(ms) == EncodeAll(ms);
    var h := HandleAll(capture, DecodedAll(ms), contexts);
    NothingSent(if h.raised then [] else Forwarded(EncodeAll(ms), h.owned));
  }

  lemma NothingSent(forward: seq<byte>)
    ensures [] + forward == forward
  {
  }
}
