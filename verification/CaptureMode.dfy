/**
 The promise of capture mode, that no firmware frame reaches the inverter, over whole runs: what
 the inverter deframes from everything it is sent, however the cloud's frames are divided into reads.
 */
module CaptureMode {
  import opened Bytes
  import opened Frames
  import opened Search
  import opened Deframer
  import opened Chunking
  import opened FrameStream
  import opened Relay
  import opened RelayFrames
  import opened RelayRuns
  import opened RelayDivisions
  import opened Firmware
  import opened Capture
  import opened CaptureRuns
  import opened Upstream

  // ---- what the receiver owns ----

  /** Which frames are firmware. */
  function FirmwareFlags(frames: seq<Frame>): (flags: seq<bool>)
    ensures |flags| == |frames|
  {
    if frames == [] then [] else [VariantOf(frames[0]).Some?] + FirmwareFlags(frames[1..])
  }

  lemma LookOwns(c: State, f: Frame, context: Context)
    ensures var look := Handle(Some(c), f, context);
      look.capture.Some? && (!look.answer.Raises? ==> (look.answer.Captured? <==> VariantOf(f).Some?))
  {
    OwnsExactlyFirmware(c, f, context.serial, context.saved);
  }

  /** Without a failure the receiver owns exactly the firmware frames. */
  lemma {:induction false} OwnsFirmware(c: State, frames: seq<Frame>, contexts: seq<Context>)
    requires !HandleAll(Some(c), frames, contexts).raised
    ensures var h := HandleAll(Some(c), frames, contexts);
      h.capture.Some? && h.owned == FirmwareFlags(frames)
    decreases |frames|
  {
    if frames != [] {
      var look := Handle(Some(c), frames[0], Current(contexts));
      OneHandled(look, Some(c), frames, contexts);
      LookOwns(c, frames[0], Current(contexts));
      OwnsFirmware(look.capture.value, frames[1..], Coming(contexts));
    }
  }

  lemma {:induction false} FlagsAppend(fs: seq<Frame>, gs: seq<Frame>)
    ensures FirmwareFlags(fs + gs) == FirmwareFlags(fs) + FirmwareFlags(gs)
    decreases |fs|
  {
    if fs == [] {
      assert fs + gs == gs;
    } else {
      assert (fs + gs)[1..] == fs[1..] + gs;
      FlagsAppend(fs[1..], gs);
    }
  }

  /** The messages that are not firmware. */
  function OtherMessages(ms: seq<Message>): (us: seq<Message>)
    requires AllSendable(ms)
    ensures AllSendable(us)
  {
    if ms == [] then [] else (if VariantOf(Decoded(ms[0])).Some? then [] else [ms[0]]) + OtherMessages(ms[1..])
  }

  lemma {:induction false} UnownedAreOthers(ms: seq<Message>)
    requires AllSendable(ms)
    ensures Unowned(ms, FirmwareFlags(DecodedAll(ms))) == OtherMessages(ms)
    decreases |ms|
  {
    if ms != [] {
      DecodedRest(ms);
      UnownedAreOthers(ms[1..]);
    }
  }

  lemma DecodedRest(ms: seq<Message>)
    requires AllSendable(ms) && ms != []
    ensures DecodedAll(ms)[0] == Decoded(ms[0]) && DecodedAll(ms)[1..] == DecodedAll(ms[1..])
    ensures var flags := FirmwareFlags(DecodedAll(ms));
      flags[0] == VariantOf(Decoded(ms[0])).Some? && flags[1..] == FirmwareFlags(DecodedAll(ms[1..]))
  {
  }

  lemma {:induction false} NoneIsFirmware(ms: seq<Message>)
    requires AllSendable(ms)
    ensures forall f :: f in DecodedAll(OtherMessages(ms)) ==> VariantOf(f).None?
    decreases |ms|
  {
    if ms != [] {
      NoneIsFirmware(ms[1..]);
      var us := OtherMessages(ms[1..]);
      if VariantOf(Decoded(ms[0])).Some? {
        assert [] + us == us;
      } else {
        DecodedFront(ms[0], us);
      }
    }
  }

  // ---- the relay's reads ----

  /** The frames that the last read of a run completes. */
  function NewFrames(run: seq<Push>): seq<Frame>
    requires run != []
  {
    Extract(Run(Chunks(run[..|run| - 1])).leftover + run[|run| - 1].data).frames
  }

  /** The reads of a run, the firmware frames owned. */
  function FirmwareReads(run: seq<Push>): seq<Read> {
    if run == [] then
      []
    else
      FirmwareReads(run[..|run| - 1]) + [Read(run[|run| - 1].data, FirmwareFlags(NewFrames(run)))]
  }

  lemma {:induction false} ReadsHold(run: seq<Push>)
    ensures Datas(FirmwareReads(run)) == Chunks(run) && Received(FirmwareReads(run)) == Flatten(Chunks(run))
    ensures OwnedIn(FirmwareReads(run)) == FirmwareFlags(Run(Chunks(run)).frames)
    ensures RelayRun(FirmwareReads(run)).buffer == Run(Chunks(run)).leftover
    decreases |run|
  {
    if run != [] {
      var init, last := run[..|run| - 1], run[|run| - 1];
      var fs := NewFrames(run);
      ReadsHold(init);
      assert FirmwareReads(run)[..|FirmwareReads(run)| - 1] == FirmwareReads(init);
      LastOfRun(FirmwareReads(run));
      MoreChunks(Chunks(init), last.data);
      AnswersAre(FirmwareFlags(fs), []);
      assert FirmwareFlags(fs) + [] == FirmwareFlags(fs);
      FlagsAppend(Run(Chunks(init)).frames, fs);
    }
  }

  /** The relay still runs, has numbers left, and stands as one that cuts out the firmware frames. */
  ghost predicate Withholds(p: Passage, taken: seq<Read>, n: nat) {
    && !p.closed && p.capture.Some? && Room(p.capture, n)
    && p.sent == RelayRun(taken).sent && p.buffer == RelayRun(taken).buffer
  }

  lemma PushWithholds(before: Passage, push: Push, taken: seq<Read>, n: nat)
    requires var frames := Extract(before.buffer + push.data).frames;
      Withholds(before, taken, |frames| + n) && !SomeUndecodable(frames)
    ensures var frames := Extract(before.buffer + push.data).frames;
      Withholds(AfterPush(before, push), taken + [Read(push.data, FirmwareFlags(frames))], n)
  {
    var frames := Extract(before.buffer + push.data).frames;
    ReadLostIff(before.capture, frames, push.contexts);
    RoomLeft(before.capture, frames, push.contexts, n);
    OwnsFirmware(before.capture.value, frames, push.contexts);
    var read := Read(push.data, FirmwareFlags(frames));
    assert (taken + [read])[..|taken|] == taken;
  }

  /** A run without undecodable frames cuts out the firmware frames, read by read. */
  lemma {:induction false} RunWithholds(c: State, run: seq<Push>, n: nat)
    requires Room(Some(c), |Run(Chunks(run)).frames| + n) && !SomeUndecodable(Run(Chunks(run)).frames)
    ensures Withholds(UpstreamRun(Some(c), run), FirmwareReads(run), n)
    decreases |run|
  {
    if run != [] {
      var init, last := run[..|run| - 1], run[|run| - 1];
      var fs, gs := Run(Chunks(init)).frames, NewFrames(run);
      MoreChunks(Chunks(init), last.data);
      SomeOfBoth(fs, gs);
      RunWithholds(c, init, |gs| + n);
      ReadsHold(init);
      PushWithholds(UpstreamRun(Some(c), init), last, FirmwareReads(init), n);
    }
  }

  // ---- the promise ----

  /** Frames the relay gets through: none undecodable, and a number left for each. */
  ghost predicate Bearable(c: State, ms: seq<Message>)
    requires AllSendable(ms)
  {
    !SomeUndecodable(DecodedAll(ms)) && c.expected + |ms| < 0x1_0000
  }

  lemma {:induction false} AsManyReads(run: seq<Push>)
    ensures |FirmwareReads(run)| == |run|
    decreases |run|
  {
    if run != [] { AsManyReads(run[..|run| - 1]); }
  }

  /** The reads together are the frames, and none ends between the two start bytes of one. */
  ghost predicate Divided(ms: seq<Message>, run: seq<Push>)
    requires AllSendable(ms)
  {
    && Flatten(Chunks(run)) == EncodeAll(ms)
    && forall k :: 0 <= k < |run| ==> !InsideMarker(ms, |Flatten(Chunks(run[..k]))|)
  }

  lemma {:induction false} OneMoreFirmwareRead(run: seq<Push>, push: Push)
    ensures FirmwareReads(run) <= FirmwareReads(run + [push])
  {
    assert (run + [push])[..|run|] == run;
  }

  /** What grows by one element at a time has earlier values as prefixes. */
  lemma {:induction false} Prefixes<A, B>(f: seq<A> -> seq<B>, a: seq<A>, b: seq<A>)
    requires forall s: seq<A>, x: A :: f(s) <= f(s + [x])
    ensures f(a) <= f(a + b)
    decreases |b|
  {
    if b == [] {
      assert a + b == a;
    } else {
      var init, last := b[..|b| - 1], b[|b| - 1];
      Prefixes(f, a, init);
      assert a + b == (a + init) + [last];
    }
  }

  lemma FirstReads(a: seq<Push>, b: seq<Push>)
    ensures FirmwareReads(a) <= FirmwareReads(a + b)
  {
    forall s: seq<Push>, x: Push
      ensures FirmwareReads(s) <= FirmwareReads(s + [x])
    {
      OneMoreFirmwareRead(s, x);
    }
    Prefixes(FirmwareReads, a, b);
  }

  lemma ReceivedBefore(run: seq<Push>, first: seq<Push>, others: seq<Push>)
    requires run == first + others
    ensures |first| <= |FirmwareReads(run)|
    ensures Received(FirmwareReads(run)[..|first|]) == Flatten(Chunks(first))
  {
    FirstReads(first, others);
    AsManyReads(first);
    FrontOf(FirmwareReads(first), FirmwareReads(run));
    ReadsHold(first);
  }

  lemma FrontOf<T>(front: seq<T>, s: seq<T>)
    requires front <= s
    ensures s[..|front|] == front
  {
  }

  lemma Halves<T>(s: seq<T>, k: nat)
    requires k <= |s|
    ensures s == s[..k] + s[k..]
  {
  }

  lemma ReceivedUpTo(run: seq<Push>, k: nat)
    requires k <= |run| <= |FirmwareReads(run)|
    ensures Received(FirmwareReads(run)[..k]) == Flatten(Chunks(run[..k]))
  {
    Halves(run, k);
    ReceivedBefore(run, run[..k], run[k..]);
  }

  lemma DividedReads(ms: seq<Message>, run: seq<Push>)
    requires AllSendable(ms)
    ensures Divided(ms, run) <==> Divides(ms, FirmwareReads(run))
  {
    ReadsHold(run);
    AsManyReads(run);
    forall k | 0 <= k < |run|
      ensures Received(FirmwareReads(run)[..k]) == Flatten(Chunks(run[..k]))
    {
      ReceivedUpTo(run, k);
    }
  }

  lemma DivisionHolds(ms: seq<Message>, run: seq<Push>)
    requires AllSendable(ms) && Divided(ms, run)
    ensures Run(Chunks(run)).frames == DecodedAll(ms) && |DecodedAll(ms)| == |ms|
    ensures OwnedIn(FirmwareReads(run)) == FirmwareFlags(DecodedAll(ms))
  {
    ReadsHold(run);
    DividedReads(ms, run);
    DivisionIsClean(ms, FirmwareReads(run));
    var front, part := Stands(ms, Chunks(run));
    DecodedCount(ms);
  }

  lemma {:induction false} SameAsReads(c: State, ms: seq<Message>, run: seq<Push>)
    requires AllSendable(ms) && Bearable(c, ms) && Divided(ms, run)
    ensures var p := UpstreamRun(Some(c), run);
      !p.closed && p.sent == RelayRun(FirmwareReads(run)).sent && p.buffer == RelayRun(FirmwareReads(run)).buffer
  {
    DivisionHolds(ms, run);
    RunWithholds(c, run, 0);
  }

  /** The inverter sees exactly the frames that are no firmware. */
  ghost predicate OthersArrive(c: State, ms: seq<Message>, run: seq<Push>)
    requires AllSendable(ms)
  {
    Extract(UpstreamRun(Some(c), run).sent) == Extraction(DecodedAll(OtherMessages(ms)), [])
  }

  /**
   However the frames of the cloud are divided into reads that leave their markers whole: if in
   every read the firmware frames are undisturbed by the frames in front of them, the inverter
   sees exactly the other frames, none of them firmware.
   */
  lemma {:induction false} NoFirmwareArrives(c: State, ms: seq<Message>, run: seq<Push>)
    requires AllSendable(ms) && Bearable(c, ms)
    requires Divided(ms, run) && ReadsPlaced(FirmwareReads(run))
    ensures var p := UpstreamRun(Some(c), run);
      Extract(p.sent) == Extraction(DecodedAll(OtherMessages(ms)), []) && !p.closed && p.buffer == []
    ensures forall f :: f in DecodedAll(OtherMessages(ms)) ==> VariantOf(f).None?
  {
    SameAsReads(c, ms, run);
    DivisionHolds(ms, run);
    DividedReads(ms, run);
    UnownedArrive(ms, FirmwareReads(run));
    UnownedAreOthers(ms);
    NoneIsFirmware(ms);
  }

  /** In every division of the frames that leaves their markers whole. */
  ghost predicate PromiseKept(c: State, ms: seq<Message>)
    requires AllSendable(ms)
  {
    forall run :: Divided(ms, run) ==> OthersArrive(c, ms, run)
  }

  /** Only as many answers matter as a read has frames. */
  lemma {:induction false} FilteredByAnswers(forward: seq<byte>, frames: seq<Frame>, owned: seq<bool>)
    ensures Filtered(forward, frames, Answers(owned, |frames|)) == Filtered(forward, frames, owned)
    decreases |frames|
  {
    if frames != [] {
      assert Answers(owned, |frames|)[1..] == Answers(Later(owned), |frames[1..]|);
      FilteredByAnswers(
        if First(owned) then DeleteFirst(forward, frames[0].raw) else forward, frames[1..], Later(owned));
    }
  }

  /** Runs with the same bytes and the same answers send the same. */
  lemma {:induction false} SameSent(a: seq<Read>, b: seq<Read>)
    requires Datas(a) == Datas(b) && OwnedIn(a) == OwnedIn(b)
    ensures RelayRun(a).sent == RelayRun(b).sent
    decreases |a|
  {
    if a != [] && b != [] {
      LastOfRun(a);
      LastOfRun(b);
      var x, y := a[..|a| - 1], b[..|b| - 1];
      var snapshot := Run(Datas(x)).leftover + a[|a| - 1].data;
      var frames := Extract(snapshot).frames;
      SameLast(Datas(x), a[|a| - 1].data, Datas(y), b[|b| - 1].data);
      SameEnds(OwnedIn(x), Answers(a[|a| - 1].owned, |frames|), OwnedIn(y), Answers(b[|b| - 1].owned, |frames|));
      FilteredByAnswers(Consumed(snapshot), frames, a[|a| - 1].owned);
      FilteredByAnswers(Consumed(snapshot), frames, b[|b| - 1].owned);
      SameSent(x, y);
    }
  }

  lemma SameLast(a: seq<seq<byte>>, x: seq<byte>, b: seq<seq<byte>>, y: seq<byte>)
    requires a + [x] == b + [y]
    ensures a == b && x == y
  {
    assert (a + [x])[..|a|] == a && (b + [y])[..|b|] == b && (a + [x])[|a|] == x;
  }

  lemma SameEnds(a: seq<bool>, x: seq<bool>, b: seq<bool>, y: seq<bool>)
    requires a + x == b + y && |x| == |y|
    ensures a == b && x == y
  {
    assert (a + x)[..|a|] == a && (a + x)[|a|..] == x && (b + y)[..|b|] == b && (b + y)[|b|..] == y;
  }

  /** The same bytes, as the cloud would send them. */
  function Pushes(taken: seq<Read>): seq<Push> {
    if taken == [] then [] else Pushes(taken[..|taken| - 1]) + [Push(taken[|taken| - 1].data, [])]
  }

  lemma {:induction false} PushesHold(taken: seq<Read>)
    ensures Chunks(Pushes(taken)) == Datas(taken) && |Pushes(taken)| == |taken|
    decreases |taken|
  {
    if taken != [] { PushesHold(taken[..|taken| - 1]); }
  }

  lemma {:induction false} ReceivedAlike(a: seq<Read>, b: seq<Read>, k: nat)
    requires Datas(a) == Datas(b) && k <= |a| == |b|
    ensures Received(a[..k]) == Received(b[..k])
    decreases |a|
  {
    if k == |a| {
      assert a[..k] == a && b[..k] == b;
      BufferIsLeftover(a);
      BufferIsLeftover(b);
    } else {
      var x, y := a[..|a| - 1], b[..|b| - 1];
      SameLast(Datas(x), a[|a| - 1].data, Datas(y), b[|b| - 1].data);
      assert x[..k] == a[..k] && y[..k] == b[..k];
      ReceivedAlike(x, y, k);
    }
  }

  lemma DividesAlike(ms: seq<Message>, a: seq<Read>, b: seq<Read>)
    requires AllSendable(ms) && Divides(ms, a) && Datas(a) == Datas(b) && |a| == |b|
    ensures Divides(ms, b)
  {
    BufferIsLeftover(a);
    BufferIsLeftover(b);
    forall k | 0 <= k < |b|
      ensures !InsideMarker(ms, |Received(b[..k])|)
    {
      ReceivedAlike(a, b, k);
    }
  }

  /** A division that the relay from the inverter would take is one the relay to it can take. */
  lemma AnyDivision(ms: seq<Message>, taken: seq<Read>) returns (run: seq<Push>)
    requires AllSendable(ms) && Divides(ms, taken) && OwnedIn(taken) == FirmwareFlags(DecodedAll(ms))
    ensures Divided(ms, run) && RelayRun(FirmwareReads(run)).sent == RelayRun(taken).sent
  {
    run := Pushes(taken);
    PushesHold(taken);
    AsManyReads(run);
    ReadsHold(run);
    DividesAlike(ms, taken, FirmwareReads(run));
    DividedReads(ms, run);
    DivisionHolds(ms, run);
    SameSent(taken, FirmwareReads(run));
  }

  lemma {:induction false} ThisDivisionKept(c: State, ms: seq<Message>, run: seq<Push>)
    requires AllSendable(ms) && PromiseKept(c, ms) && Divided(ms, run)
    ensures OthersArrive(c, ms, run)
  {
  }

  lemma {:induction false} KeptIsPlaced(c: State, ms: seq<Message>)
    requires AllSendable(ms) && Bearable(c, ms) && PromiseKept(c, ms)
    ensures PlacedFromAny(ms, FirmwareFlags(DecodedAll(ms)))
  {
    var flags := FirmwareFlags(DecodedAll(ms));
    DecodedCount(ms);
    UnownedAreOthers(ms);
    forall taken | Divides(ms, taken) && OwnedIn(taken) == flags
      ensures Extract(RelayRun(taken).sent) == Extraction(DecodedAll(Unowned(ms, flags)), [])
    {
      var run := AnyDivision(ms, taken);
      SameAsReads(c, ms, run);
      ThisDivisionKept(c, ms, run);
    }
    ArriveAlwaysIff(ms, flags);
  }

  /**
   The promise is kept in every division if and only if, from any frame on, each firmware frame
   is undisturbed by the frames in front of it that are none.
   */
  lemma {:induction false} PromiseIff(c: State, ms: seq<Message>)
    requires AllSendable(ms) && Bearable(c, ms)
    ensures PromiseKept(c, ms) <==> PlacedFromAny(ms, FirmwareFlags(DecodedAll(ms)))
  {
    if PlacedFromAny(ms, FirmwareFlags(DecodedAll(ms))) {
      forall run | Divided(ms, run)
        ensures OthersArrive(c, ms, run)
      {
        DivisionHolds(ms, run);
        SameAsReads(c, ms, run);
        DividedReads(ms, run);
        PlacedArrives(ms, FirmwareFlags(DecodedAll(ms)), FirmwareReads(run));
        UnownedAreOthers(ms);
      }
    }
    if PromiseKept(c, ms) { KeptIsPlaced(c, ms); }
  }

  /** It is kept if the bytes of no firmware frame occur among the frames in front of it. */
  lemma {:induction false} KeptWithoutCopies(c: State, ms: seq<Message>)
    requires AllSendable(ms) && Bearable(c, ms) && Uncopied([], ms, FirmwareFlags(DecodedAll(ms)))
    ensures PromiseKept(c, ms)
  {
    UncopiedPlaced(ms, FirmwareFlags(DecodedAll(ms)));
    PromiseIff(c, ms);
  }

  // ---- where the promise fails ----

  /**
   A frame that is no firmware but carries a firmware frame as its payload, any frame as long as
   that, and the firmware frame itself, in one read: the firmware frame arrives intact.
   */
  lemma {:induction false} FirmwareArrives(
      c: State, outer: Message, filler: Message, inner: Message, contexts: seq<Context>)
    requires outer.Sendable() && filler.Sendable() && inner.Sendable() && Bearable(c, [outer, filler, inner])
    requires outer.payload == Encode(inner) && |Encode(filler)| == |Encode(inner)|
    requires Find(Encode(outer), Encode(inner)) == Some(9)
    requires VariantOf(Decoded(outer)).None? && VariantOf(Decoded(filler)).None? && VariantOf(Decoded(inner)).Some?
    ensures var p := UpstreamRun(Some(c), [Push(EncodeAll([outer, filler, inner]), contexts)]);
      var arrived := Extract(p.sent).frames;
      !p.closed && arrived != [] && arrived[|arrived| - 1] == Decoded(inner)
  {
    LastWithheld(c, outer, filler, inner, contexts);
    OwnedFrameArrives(outer, filler, inner);
  }

  lemma {:induction false} LastWithheld(c: State, a: Message, b: Message, m: Message, contexts: seq<Context>)
    requires a.Sendable() && b.Sendable() && m.Sendable() && Bearable(c, [a, b, m])
    requires VariantOf(Decoded(a)).None? && VariantOf(Decoded(b)).None? && VariantOf(Decoded(m)).Some?
    ensures var p := UpstreamRun(Some(c), [Push(EncodeAll([a, b, m]), contexts)]);
      !p.closed && p.sent == Forwarded(EncodeAll([a, b, m]), [false, false, true])
  {
    var fs := DecodedAll([a, b, m]);
    DecodedThree(a, b, m);
    ReadLostIff(Some(c), fs, contexts);
    OwnsFirmware(c, fs, contexts);
    FlagsOfThree(fs);
    OnePush(Some(c), [a, b, m], contexts);
  }

  lemma FlagsOfThree(fs: seq<Frame>)
    requires |fs| == 3
    ensures FirmwareFlags(fs) == [VariantOf(fs[0]).Some?, VariantOf(fs[1]).Some?, VariantOf(fs[2]).Some?]
  {
    assert fs[1..][1..] == [fs[2]] && fs[1..][1..][1..] == [];
    assert FirmwareFlags(fs[1..][1..]) == [VariantOf(fs[2]).Some?] + FirmwareFlags([]);
  }

  lemma DecodedThree(a: Message, b: Message, c: Message)
    requires a.Sendable() && b.Sendable() && c.Sendable()
    ensures DecodedAll([a, b, c]) == [Decoded(a), Decoded(b), Decoded(c)]
  {
    assert [a, b, c] == [a] + [b, c];
    DecodedFront(a, [b, c]);
    Pair(b, c);
  }

  lemma OneChunk(push: Push)
    ensures Flatten(Chunks([push])) == push.data && Flatten(Chunks([push][..0])) == []
  {
    RunMore(None, [], push);
    assert [] + [push] == [push] && [push][..0] == [];
    MoreChunks([], push.data);
    NothingSent(push.data);
  }

  lemma OneReadDivides(ms: seq<Message>, contexts: seq<Context>)
    requires AllSendable(ms)
    ensures Divided(ms, [Push(EncodeAll(ms), contexts)])
  {
    OneChunk(Push(EncodeAll(ms), contexts));
    assert ms[..0] == [];
    BetweenFrames(ms, 0);
  }

  /** A run in which some firmware frame arrives breaks the promise. */
  lemma {:induction false} ArrivalBreaks(c: State, ms: seq<Message>, contexts: seq<Context>, f: Frame)
    requires AllSendable(ms) && VariantOf(f).Some?
    requires f in Extract(UpstreamRun(Some(c), [Push(EncodeAll(ms), contexts)]).sent).frames
    ensures !PromiseKept(c, ms)
  {
    OneReadDivides(ms, contexts);
    NoneIsFirmware(ms);
    if PromiseKept(c, ms) { ThisDivisionKept(c, ms, [Push(EncodeAll(ms), contexts)]); }
  }

  /** Three frames of the kind that `FirmwareArrives` is about. */
  ghost predicate Breaking(ms: seq<Message>)
    requires AllSendable(ms)
  {
    && |ms| == 3 && ms[0].payload == Encode(ms[2]) && |Encode(ms[1])| == |Encode(ms[2])|
    && Find(Encode(ms[0]), Encode(ms[2])) == Some(9)
    && VariantOf(Decoded(ms[0])).None? && VariantOf(Decoded(ms[1])).None? && VariantOf(Decoded(ms[2])).Some?
  }

  lemma CopyBreaks(c: State, ms: seq<Message>)
    requires AllSendable(ms) && Breaking(ms) && Bearable(c, ms)
    ensures !PromiseKept(c, ms)
  {
    assert ms == [ms[0], ms[1], ms[2]];
    FirmwareArrives(c, ms[0], ms[1], ms[2], []);
    ArrivalBreaks(c, ms, [], Decoded(ms[2]));
  }

  /** Neither firmware nor undecodable. */
  predicate Ordinary(m: Message)
    requires m.Sendable()
  {
    VariantOf(Decoded(m)).None? && !Undecodable(Decoded(m))
  }

  lemma FirmwareFrame(m: Message)
    requires m.Sendable() && m.start == START_7F && m.func == ENVELOPE_A2 && |m.payload| >= 7 && MAGIC <= m.payload
    ensures VariantOf(Decoded(m)) == Some(VARIANT_7F_A2) && !Undecodable(Decoded(m))
  {
    UndecodableShape(Decoded(m));
  }

  lemma FirstByte(m: Message)
    requires m.Sendable() && m.start == START_7F
    ensures Encode(m)[0] == 0x7F
  {
    assert Encode(m)[..2] == START_7F;
  }

  lemma SomeFirmware() returns (m: Message)
    ensures m.Sendable() && VariantOf(Decoded(m)).Some? && !Undecodable(Decoded(m))
    ensures |m.payload| == 7 && Encode(m)[0] == 0x7F
  {
    m := Message(START_7F, [0x22, 0, 0, 1], ENVELOPE_A2, MAGIC + [0, 0]);
    FirmwareFrame(m);
    FirstByte(m);
  }

  function SevenE(payload: seq<byte>): Message {
    Message(START_7E, [1, 0, 0, 0], 0, payload)
  }

  lemma Header(m: Message)
    requires m.Sendable()
    ensures Encode(m)[..9] == m.start + (m.device + [m.func] + U16Bytes(|m.payload|))
  {
  }

  lemma SmallSize(n: nat)
    requires n < 100
    ensures U16Bytes(n)[0] == 0 && U16Bytes(n)[1] < 100
  {
  }

  /** The header of a short frame of this kind has no byte 7f. */
  lemma SevenEHead(payload: seq<byte>, j: nat)
    requires |payload| < 100 && j < 9 && SevenE(payload).Sendable()
    ensures Encode(SevenE(payload))[j] != 0x7F
  {
    Header(SevenE(payload));
    SmallSize(|payload|);
    NoMark(Encode(SevenE(payload))[..9], U16Bytes(|payload|), j);
  }

  lemma NoMark(head: seq<byte>, size: seq<byte>, j: nat)
    requires |size| == 2 && size[0] < 100 && size[1] < 100 && j < 9
    requires head == START_7E + ([1, 0, 0, 0] + [0] + size)
    ensures head[j] != 0x7F
  {
  }

  lemma SomeOrdinary(payload: seq<byte>) returns (m: Message)
    requires |payload| < 100
    ensures m.Sendable() && Ordinary(m) && m == SevenE(payload)
  {
    m := SevenE(payload);
  }

  lemma SomeCarrier(inner: Message) returns (m: Message)
    requires inner.Sendable() && |inner.payload| == 7 && Encode(inner)[0] == 0x7F
    ensures m.Sendable() && Ordinary(m) && m.payload == Encode(inner)
    ensures Find(Encode(m), Encode(inner)) == Some(9)
  {
    m := SomeOrdinary(Encode(inner));
    forall j | 0 <= j < 9
      ensures Encode(m)[j] != 0x7F
    {
      SevenEHead(Encode(inner), j);
    }
    PayloadIsFirstCopy(m, inner);
  }

  lemma ThreeBreak(outer: Message, filler: Message, inner: Message) returns (ms: seq<Message>)
    requires outer.Sendable() && filler.Sendable() && inner.Sendable() && outer.payload == Encode(inner)
    requires |filler.payload| == |inner.payload| && Find(Encode(outer), Encode(inner)) == Some(9)
    requires Ordinary(outer) && Ordinary(filler) && VariantOf(Decoded(inner)).Some? && !Undecodable(Decoded(inner))
    ensures AllSendable(ms) && Breaking(ms) && !SomeUndecodable(DecodedAll(ms))
  {
    ms := [outer, filler, inner];
    DecodedThree(outer, filler, inner);
    NoneUndecodable(DecodedAll(ms));
  }

  lemma BreakingFrames() returns (ms: seq<Message>)
    ensures AllSendable(ms) && Breaking(ms) && !SomeUndecodable(DecodedAll(ms))
  {
    var inner := SomeFirmware();
    var filler := SomeOrdinary(inner.payload);
    var outer := SomeCarrier(inner);
    ms := ThreeBreak(outer, filler, inner);
  }

  lemma NoneUndecodable(fs: seq<Frame>)
    requires |fs| == 3 && !Undecodable(fs[0]) && !Undecodable(fs[1]) && !Undecodable(fs[2])
    ensures !SomeUndecodable(fs)
  {
  }

  /** There are such frames: while three chunk numbers are left, the promise fails for some three frames. */
  lemma PromiseFails(c: State) returns (ms: seq<Message>)
    requires c.expected + 3 < 0x1_0000
    ensures AllSendable(ms) && Bearable(c, ms) && !PromiseKept(c, ms)
  {
    ms := BreakingFrames();
    CopyBreaks(c, ms);
  }

  // ---- running out of chunk numbers ----

  /** Chunk `k` of a variant, with its number and no data. */
  ghost predicate EmptyChunk(m: Message, v: Variant, k: nat) {
    && m.Sendable() && VariantOf(Decoded(m)) == Some(v)
    && |m.payload| == 7 && U16(m.payload[5], m.payload[6]) == k
  }

  /** An announcement of the variant was accepted, and data is still to come. */
  ghost predicate Awaiting(c: State, v: Variant) {
    c.metadata.Some? && c.variant == Some(v) && v.Valid() && |c.data| < c.metadata.value.size
  }

  /** A read for each frame. */
  function OneByOne(ms: seq<Message>): seq<Push>
    requires AllSendable(ms)
  {
    if ms == [] then [] else OneByOne(ms[..|ms| - 1]) + [Push(Encode(ms[|ms| - 1]), [])]
  }

  lemma TooShortForMetadata(p: seq<byte>, v: Variant)
    requires v.Valid() && |p| == 7
    ensures ParseMetadata(p, v).None?
  {
    if ParseMetadata(p, v).Some? { MetadataLength(p, v); }
  }

  lemma EmptyCounted(c: State, v: Variant, f: Frame, serial: seq<byte>, saved: bool)
    requires Awaiting(c, v) && c.expected < 0x1_0000 && VariantOf(f) == Some(v) && f.validCrc
    requires ParseMetadata(f.payload, v).None? && |f.payload| == 7 && U16(f.payload[5], f.payload[6]) == c.expected
    ensures var o := Capture.Step(c, f, serial, saved);
      o.state == Counted(c, 1) && !o.reply.Pass? && (o.reply.Raised? <==> c.expected == 0xFFFF)
  {
    assert f.payload[7..] == [] && c.data + [] == c.data;
  }

  /** The state `n` empty chunks later. */
  function Counted(c: State, n: nat): State {
    c.(expected := c.expected + n)
  }

  lemma EmptyStep(c: State, v: Variant, m: Message, context: Context)
    requires Awaiting(c, v) && c.expected < 0x1_0000 && EmptyChunk(m, v, c.expected)
    ensures Handle(Some(c), Decoded(m), context)
      == Verdict(Some(Counted(c, 1)), if c.expected == 0xFFFF then Raises else Captured)
    ensures !Undecodable(Decoded(m))
  {
    UndecodableShape(Decoded(m));
    TooShortForMetadata(m.payload, v);
    EmptyCounted(c, v, Decoded(m), context.serial, context.saved);
  }

  lemma OnlyFrame(m: Message)
    requires m.Sendable()
    ensures Extract(Encode(m)) == Extraction([Decoded(m)], []) && Forwarded(Encode(m), [true]) == []
  {
    AloneArrives(m);
    FilterOne(Encode(m), Decoded(m), [true]);
    AllConsumed(Encode(m));
    DeleteFront(Encode(m), []);
    assert Encode(m) + [] == Encode(m);
  }

  lemma {:induction false} HandleOneFrame(capture: Option<State>, f: Frame, look: Verdict)
    requires look == Handle(capture, f, Current([])) && !look.answer.Passed?
    ensures HandleAll(capture, [f], [])
      == Handled(look.capture, if look.answer.Raises? then [] else [true], look.answer.Raises?)
  {
    OneHandled(look, capture, [f], []);
    assert [f][1..] == [] && [true] + [] == [true];
  }

  lemma {:induction false} PushIs(before: Passage, push: Push, frames: seq<Frame>, h: Handled)
    requires !before.closed && Extract(before.buffer + push.data) == Extraction(frames, [])
    requires h == HandleAll(before.capture, frames, push.contexts)
    requires !h.raised ==> Forwarded(before.buffer + push.data, h.owned) == []
    ensures AfterPush(before, push) == Passage(before.sent + [], [], h.capture, h.raised)
  {
  }

  /** A read with one frame that is captured, or cannot be handled. */
  lemma OneFramePush(capture: Option<State>, m: Message, look: Verdict)
    requires m.Sendable() && look == Handle(capture, Decoded(m), Current([])) && !look.answer.Passed?
    ensures AfterPush(Passage([], [], capture, false), Push(Encode(m), []))
      == Passage([], [], look.capture, look.answer.Raises?)
  {
    OnlyFrame(m);
    HandleOneFrame(capture, Decoded(m), look);
    NothingSent(Encode(m));
    NothingSent([]);
    PushIs(Passage([], [], capture, false), Push(Encode(m), []), [Decoded(m)],
      Handled(look.capture, if look.answer.Raises? then [] else [true], look.answer.Raises?));
  }

  lemma {:induction false} RunMore(capture: Option<State>, run: seq<Push>, push: Push)
    ensures UpstreamRun(capture, run + [push]) == AfterPush(UpstreamRun(capture, run), push)
    ensures Chunks(run + [push]) == Chunks(run) + [push.data]
  {
    assert (run + [push])[..|run|] == run;
  }

  /** No frame of the run was undecodable, and no byte is left over. */
  ghost predicate AllDecodable(run: seq<Push>) {
    !SomeUndecodable(Run(Chunks(run)).frames) && Run(Chunks(run)).leftover == []
  }

  lemma StillDecodable(run: seq<Push>, m: Message)
    requires AllDecodable(run) && m.Sendable() && !Undecodable(Decoded(m))
    ensures AllDecodable(run + [Push(Encode(m), [])])
  {
    RunMore(None, run, Push(Encode(m), []));
    MoreChunks(Chunks(run), Encode(m));
    assert [] + Encode(m) == Encode(m);
    OnlyFrame(m);
    SomeOfBoth(Run(Chunks(run)).frames, [Decoded(m)]);
  }

  /** The receiver took a run of empty chunks up to the state `c`, and the last number ended it. */
  ghost predicate CountedUp(from: Option<State>, run: seq<Push>, c: State) {
    UpstreamRun(from, run) == Passage([], [], Some(c), c.expected == 0x1_0000) && AllDecodable(run)
  }

  lemma OneMoreEmpty(from: Option<State>, run: seq<Push>, c: State, v: Variant, m: Message)
    requires CountedUp(from, run, c) && Awaiting(c, v) && c.expected < 0x1_0000 && EmptyChunk(m, v, c.expected)
    ensures CountedUp(from, run + [Push(Encode(m), [])], Counted(c, 1))
  {
    EmptyStep(c, v, m, Current([]));
    OneFramePush(Some(c), m, Handle(Some(c), Decoded(m), Current([])));
    RunMore(from, run, Push(Encode(m), []));
    StillDecodable(run, m);
  }

  /** Chunks without data, numbered from `k` on. */
  ghost predicate EmptyChunks(ms: seq<Message>, v: Variant, k: nat) {
    forall i :: 0 <= i < |ms| ==> EmptyChunk(ms[i], v, k + i)
  }

  /** There are such chunks. */
  lemma {:induction false} EmptyChunksExist(k: nat, n: nat) returns (ms: seq<Message>)
    requires k + n <= 0x1_0000
    ensures AllSendable(ms) && |ms| == n && EmptyChunks(ms, VARIANT_7F_A2, k)
    decreases n
  {
    if n == 0 {
      ms := [];
    } else {
      var init := EmptyChunksExist(k, n - 1);
      var m := SomeEmptyChunk(k + (n - 1));
      OneMoreChunk(init, m, VARIANT_7F_A2, k);
      ms := init + [m];
    }
  }

  lemma OneMoreChunk(init: seq<Message>, m: Message, v: Variant, k: nat)
    requires AllSendable(init) && EmptyChunks(init, v, k) && EmptyChunk(m, v, k + |init|)
    ensures AllSendable(init + [m]) && EmptyChunks(init + [m], v, k)
  {
  }

  lemma SomeEmptyChunk(k: nat) returns (m: Message)
    requires k < 0x1_0000
    ensures EmptyChunk(m, VARIANT_7F_A2, k)
  {
    m := Message(START_7F, [0x22, 0, 0, 1], ENVELOPE_A2, MAGIC + U16Bytes(k));
    FirmwareFrame(m);
  }

  lemma FirstEmpty(ms: seq<Message>, v: Variant, k: nat)
    requires ms != [] && EmptyChunks(ms, v, k)
    ensures EmptyChunks(ms[..|ms| - 1], v, k) && EmptyChunk(ms[|ms| - 1], v, k + (|ms| - 1))
  {
  }

  lemma StillAwaiting(c: State, v: Variant, n: nat)
    requires Awaiting(c, v)
    ensures Awaiting(Counted(c, n), v) && Counted(c, n).expected == c.expected + n
    ensures Counted(Counted(c, n), 1) == Counted(c, n + 1)
  {
  }

  lemma {:induction false} EmptyChunksCount(c: State, v: Variant, ms: seq<Message>)
    requires AllSendable(ms) && Awaiting(c, v) && c.expected < 0x1_0000 && c.expected + |ms| <= 0x1_0000
    requires EmptyChunks(ms, v, c.expected)
    ensures CountedUp(Some(c), OneByOne(ms), Counted(c, |ms|))
    decreases |ms|
  {
    if ms != [] {
      var init, n := ms[..|ms| - 1], |ms| - 1;
      FirstEmpty(ms, v, c.expected);
      EmptyChunksCount(c, v, init);
      StillAwaiting(c, v, n);
      OneMoreEmpty(Some(c), OneByOne(init), Counted(c, n), v, ms[n]);
    }
  }

  /**
   Chunks without data use up the two-byte chunk numbers: at the last number the acknowledgement
   cannot be written, and the relay ends though no frame was undecodable.
   */
  lemma {:induction false} NumbersRunOut(c: State, v: Variant, ms: seq<Message>)
    requires AllSendable(ms) && Awaiting(c, v) && c.expected < 0x1_0000 && c.expected + |ms| == 0x1_0000
    requires EmptyChunks(ms, v, c.expected)
    ensures UpstreamRun(Some(c), OneByOne(ms)).closed && !SomeUndecodable(Run(Chunks(OneByOne(ms))).frames)
  {
    EmptyChunksCount(c, v, ms);
    LastNumber(Some(c), OneByOne(ms), Counted(c, |ms|));
  }

  lemma {:induction false} LastNumber(from: Option<State>, run: seq<Push>, c: State)
    requires CountedUp(from, run, c) && c.expected == 0x1_0000
    ensures UpstreamRun(from, run).closed && !SomeUndecodable(Run(Chunks(run)).frames)
  {
  }
}
