/** Well-formed frames sent back to back come out of the deframer as they went in. */
module FrameStream {
  import opened Bytes
  import opened Crc
  import opened Frames
  import opened Deframer
  import opened Chunking

  /** What a peer sends: the fields `make_frame` takes, with the end matching the start. */
  datatype Message = Message(start: seq<byte>, device: seq<byte>, func: byte, payload: seq<byte>) {
    predicate Sendable() {
      (start == START_7E || start == START_7F) && |device| == 4 && |payload| <= MAX_FRAME - OVERHEAD
    }
  }

  function Encode(m: Message): (s: seq<byte>)
    requires m.Sendable()
    ensures |s| == OVERHEAD + |m.payload|
  {
    MakeFrame(m.start, m.device, m.func, m.payload, EndFor(m.start))
  }

  /** The frame a receiver should see; its CRC is valid. */
  function Decoded(m: Message): (f: Frame)
    requires m.Sendable()
    ensures f.validCrc && f.raw == Encode(m)
  {
    FrameOf(m.start, m.device, m.func, m.payload, EndFor(m.start))
  }

  predicate AllSendable(ms: seq<Message>) {
    forall i :: 0 <= i < |ms| ==> ms[i].Sendable()
  }

  function EncodeAll(ms: seq<Message>): seq<byte>
    requires AllSendable(ms)
  {
    if ms == [] then [] else Encode(ms[0]) + EncodeAll(ms[1..])
  }

  function DecodedAll(ms: seq<Message>): seq<Frame>
    requires AllSendable(ms)
  {
    if ms == [] then [] else [Decoded(ms[0])] + DecodedAll(ms[1..])
  }

  lemma EncodedLength(m: Message, c: seq<byte>)
    requires m.Sendable() && OVERHEAD <= |c| && c[..9] == Encode(m)[..9]
    ensures FrameLength(c) == |Encode(m)|
  {
  }

  lemma EncodeParses(m: Message)
    requires m.Sendable()
    ensures FrameIn(Cut(Encode(m))) == [Decoded(m)] && Cut(Encode(m)) == Whole(Encode(m))
  {
    var raw := Encode(m);
    MakeThenParse(m.start, m.device, m.func, m.payload, EndFor(m.start));
    assert raw[|raw| - 2..] == EndFor(m.start) && raw[..2] == m.start;
  }

  lemma StartsAtZero(m: Message, c: seq<byte>)
    requires m.Sendable() && 2 <= |c| && c[..2] == m.start
    ensures FirstStart(c) == Some(0) && c[0..] == c
  {
  }

  lemma EncodeTurn(m: Message, tail: seq<byte>)
    requires m.Sendable()
    ensures TakeTurn(Encode(m) + tail) == Go(Whole(Encode(m)), tail)
  {
    var raw := Encode(m);
    var c := raw + tail;
    assert raw[..2] == m.start && c[..2] == raw[..2] && c[..9] == raw[..9];
    StartsAtZero(m, c);
    EncodedLength(m, c);
    assert c[..|raw|] == raw && c[|raw|..] == tail;
    EncodeParses(m);
  }

  lemma {:induction false} OneFrameInFront(m: Message, later: seq<byte>)
    requires m.Sendable()
    ensures Extract(Encode(m) + later) == Join([Decoded(m)], Extract(later))
    ensures Split(Encode(m) + later).residual == Split(later).residual
  {
    EncodeTurn(m, later);
    ExtractTurn(Encode(m) + later);
    EncodeParses(m);
  }

  /** Whatever follows, the frames in front of it are returned and removed. */
  lemma {:induction false} FramesInFront(ms: seq<Message>, tail: seq<byte>)
    requires AllSendable(ms)
    ensures Extract(EncodeAll(ms) + tail) == Join(DecodedAll(ms), Extract(tail))
    ensures Split(EncodeAll(ms) + tail).residual == Split(tail).residual
    decreases |ms|
  {
    if ms == [] {
      assert EncodeAll(ms) + tail == tail;
      JoinNothing(Extract(tail));
    } else {
      var later := EncodeAll(ms[1..]) + tail;
      Reassociate(Encode(ms[0]), EncodeAll(ms[1..]), tail);
      OneFrameInFront(ms[0], later);
      FramesInFront(ms[1..], tail);
      JoinAssoc([Decoded(ms[0])], DecodedAll(ms[1..]), Extract(tail));
    }
  }

  /** Round trip: any list of frames, whatever bytes their payloads hold. */
  lemma StreamRoundTrip(ms: seq<Message>)
    requires AllSendable(ms)
    ensures Extract(EncodeAll(ms)) == Extraction(DecodedAll(ms), [])
  {
    FramesInFront(ms, []);
    assert EncodeAll(ms) + [] == EncodeAll(ms) && DecodedAll(ms) + [] == DecodedAll(ms);
    FirstStartMeans([]);
    NoStart([]);
  }

  // ---- a stream cut anywhere ----

  /** Part of a frame is left alone until the rest arrives. */
  lemma PartialFrame(m: Message, q: nat)
    requires m.Sendable() && q < |Encode(m)|
    ensures Split(Encode(m)[..q]).residual == Encode(m)[..q]
    ensures TakeTurn(Encode(m)[..q]) == Halt(Encode(m)[..q])
    ensures FirstStart(Encode(m)[..q]).None? <==> q < 2
    ensures q == 1 ==> IsMarker(Encode(m)[..q][0])
  {
    var c := Encode(m)[..q];
    assert Encode(m)[..2] == m.start;
    if q < 2 {
      FirstStartMeans(c);
      if q == 1 { assert c[0] == Encode(m)[..2][0]; }
    } else {
      assert c[..2] == Encode(m)[..2];
      StartsAtZero(m, c);
      if OVERHEAD <= q {
        assert c[..9] == Encode(m)[..9];
        EncodedLength(m, c);
      }
      assert TakeTurn(c) == Halt(c);
    }
  }

  /** The first `t` bytes of a stream are some whole frames and part of the next. */
  lemma {:induction false} Locate(ms: seq<Message>, t: nat) returns (k: nat, q: nat)
    requires AllSendable(ms) && t <= |EncodeAll(ms)|
    ensures k <= |ms| && q <= t
    ensures k == |ms| ==> q == 0 && EncodeAll(ms)[..t] == EncodeAll(ms[..k])
    ensures k < |ms| ==> q < |Encode(ms[k])| && EncodeAll(ms)[..t] == EncodeAll(ms[..k]) + Encode(ms[k])[..q]
    decreases |ms|
  {
    if ms == [] || t < |Encode(ms[0])| {
      k, q := 0, t;
      if ms != [] {
        TakePrefix(Encode(ms[0]), EncodeAll(ms[1..]), t);
        assert [] + Encode(ms[0])[..t] == Encode(ms[0])[..t];
      }
    } else {
      var n := |Encode(ms[0])|;
      var j;
      j, q := Locate(ms[1..], t - n);
      k := j + 1;
      EncodeAllPrefix(ms, k);
      TakePrefix(Encode(ms[0]), EncodeAll(ms[1..]), t);
      if k < |ms| {
        assert ms[k] == ms[1..][j];
        Reassociate(Encode(ms[0]), EncodeAll(ms[1..][..j]), Encode(ms[k])[..q]);
      }
    }
  }

  lemma TakePrefix(a: seq<byte>, b: seq<byte>, t: nat)
    requires t <= |a| + |b|
    ensures t <= |a| ==> (a + b)[..t] == a[..t]
    ensures |a| <= t ==> (a + b)[..t] == a + b[..t - |a|]
  {
  }

  lemma EncodeAllPrefix(ms: seq<Message>, k: nat)
    requires AllSendable(ms) && 1 <= k <= |ms|
    ensures EncodeAll(ms[..k]) == Encode(ms[0]) + EncodeAll(ms[1..][..k - 1])
  {
    assert ms[..k][1..] == ms[1..][..k - 1];
  }

  /** Position `t` of the stream lies between the two start bytes of a frame. */
  ghost predicate InsideMarker(ms: seq<Message>, t: nat)
    requires AllSendable(ms)
  {
    exists k :: 0 <= k < |ms| && t == |EncodeAll(ms[..k])| + 1
  }

  lemma DanglingIsInsideMarker(ms: seq<Message>, t: nat)
    requires AllSendable(ms) && t <= |EncodeAll(ms)| && Dangling(EncodeAll(ms)[..t])
    ensures InsideMarker(ms, t)
  {
    var k, q := Locate(ms, t);
    if k == |ms| {
      assert EncodeAll(ms[..k]) == EncodeAll(ms[..k]) + [];
      FramesInFront(ms[..k], []);
      FirstStartMeans([]);
      assert false;
    } else {
      var part := Encode(ms[k])[..q];
      FramesInFront(ms[..k], part);
      PartialFrame(ms[k], q);
      assert |EncodeAll(ms)[..t]| == |EncodeAll(ms[..k])| + q;
    }
  }

  lemma {:induction false} FlattenPrefix(chunks: seq<seq<byte>>, k: nat)
    requires k <= |chunks|
    ensures |Flatten(chunks[..k])| <= |Flatten(chunks)|
    ensures Flatten(chunks)[..|Flatten(chunks[..k])|] == Flatten(chunks[..k])
    decreases |chunks|
  {
    if k < |chunks| {
      var init := chunks[..|chunks| - 1];
      FlattenPrefix(init, k);
      assert init[..k] == chunks[..k];
    } else {
      assert chunks[..k] == chunks;
    }
  }

  /** A stream of frames survives every division into reads that leaves its markers whole. */
  lemma SurvivesChunking(ms: seq<Message>, chunks: seq<seq<byte>>)
    requires AllSendable(ms) && Flatten(chunks) == EncodeAll(ms)
    requires forall k :: 0 <= k < |chunks| ==> !InsideMarker(ms, |Flatten(chunks[..k])|)
    ensures Run(chunks) == Extraction(DecodedAll(ms), [])
  {
    forall k | 0 <= k < |chunks|
      ensures !BadCut(chunks, k)
    {
      FlattenPrefix(chunks, k);
      var read := Flatten(chunks[..k]);
      if Dangling(read) { DanglingIsInsideMarker(ms, |read|); }
    }
    RunIsExtract(chunks);
    StreamRoundTrip(ms);
  }

  // ---- and only those divisions ----

  function RawLength(frames: seq<Frame>): nat {
    if frames == [] then 0 else |frames[0].raw| + RawLength(frames[1..])
  }

  /** The bytes that an extraction accounts for. */
  function Weight(e: Extraction): nat {
    RawLength(e.frames) + |e.leftover|
  }

  lemma {:induction false} RawLengthAppend(f: seq<Frame>, g: seq<Frame>)
    ensures RawLength(f + g) == RawLength(f) + RawLength(g)
    decreases |f|
  {
    if f == [] {
      assert f + g == g;
    } else {
      assert (f + g)[1..] == f[1..] + g;
      RawLengthAppend(f[1..], g);
    }
  }

  lemma SegmentWeight(s: Segment)
    ensures RawLength(FrameIn(s)) <= |s.bytes|
  {
    if FrameIn(s) != [] { assert FrameIn(s)[1..] == []; }
  }

  /** No extraction accounts for more bytes than it was given. */
  lemma {:induction false} WeightBounded(b: seq<byte>)
    ensures Weight(Extract(b)) <= |b|
    decreases |b|
  {
    ExtractTurn(b);
    TurnConserves(b);
    match TakeTurn(b)
    case Halt(_) =>
    case Go(segment, rest) =>
      SegmentWeight(segment);
      RawLengthAppend(FrameIn(segment), Extract(rest).frames);
      WeightBounded(rest);
  }

  lemma ReadWeight(before: Extraction, data: seq<byte>)
    ensures Weight(Join(before.frames, Extract(before.leftover + data))) <= Weight(before) + |data|
  {
    WeightBounded(before.leftover + data);
    RawLengthAppend(before.frames, Extract(before.leftover + data).frames);
  }

  lemma LastRead(chunks: seq<seq<byte>>)
    requires chunks != []
    ensures var init, data := chunks[..|chunks| - 1], chunks[|chunks| - 1];
      && Weight(Run(chunks)) <= Weight(Run(init)) + |data|
      && |Flatten(chunks)| == |Flatten(init)| + |data|
  {
    ReadWeight(Run(chunks[..|chunks| - 1]), chunks[|chunks| - 1]);
  }

  /** A byte lost in an early read stays lost. */
  lemma {:induction false} WeightLost(chunks: seq<seq<byte>>, k: nat)
    requires k <= |chunks|
    ensures Weight(Run(chunks)) + |Flatten(chunks[..k])| <= Weight(Run(chunks[..k])) + |Flatten(chunks)|
    decreases |chunks|
  {
    if k == |chunks| {
      assert chunks[..k] == chunks;
    } else {
      var init := chunks[..|chunks| - 1];
      WeightLost(init, k);
      LastRead(chunks);
      assert init[..k] == chunks[..k];
    }
  }

  lemma {:induction false} DecodedWeight(ms: seq<Message>)
    requires AllSendable(ms)
    ensures RawLength(DecodedAll(ms)) == |EncodeAll(ms)|
    decreases |ms|
  {
    if ms != [] {
      DecodedWeight(ms[1..]);
      RawLengthAppend([Decoded(ms[0])], DecodedAll(ms[1..]));
      assert [Decoded(ms[0])][1..] == [];
    }
  }

  lemma {:induction false} EncodeAllSplit(ms: seq<Message>, k: nat)
    requires AllSendable(ms) && k <= |ms|
    ensures EncodeAll(ms) == EncodeAll(ms[..k]) + EncodeAll(ms[k..])
    decreases k
  {
    if k == 0 {
      assert ms[..0] == [] && ms[0..] == ms;
    } else {
      EncodeAllSplit(ms[1..], k - 1);
      EncodeAllPrefix(ms, k);
      assert ms[1..][k - 1..] == ms[k..];
      Reassociate(Encode(ms[0]), EncodeAll(ms[1..][..k - 1]), EncodeAll(ms[k..]));
    }
  }

  lemma {:induction false} DecodedAllSplit(ms: seq<Message>, k: nat)
    requires AllSendable(ms) && k <= |ms|
    ensures DecodedAll(ms) == DecodedAll(ms[..k]) + DecodedAll(ms[k..])
    decreases k
  {
    if k == 0 {
      assert ms[..0] == [] && ms[0..] == ms;
    } else {
      DecodedAllSplit(ms[1..], k - 1);
      DecodedAllPrefix(ms, k);
      assert ms[1..][k - 1..] == ms[k..];
      Reassociate([Decoded(ms[0])], DecodedAll(ms[1..][..k - 1]), DecodedAll(ms[k..]));
    }
  }

  lemma DecodedAllPrefix(ms: seq<Message>, k: nat)
    requires AllSendable(ms) && 1 <= k <= |ms|
    ensures DecodedAll(ms[..k]) == [Decoded(ms[0])] + DecodedAll(ms[1..][..k - 1])
  {
    assert ms[..k][1..] == ms[1..][..k - 1];
  }

  lemma CutInsideMarker(ms: seq<Message>, k: nat)
    requires AllSendable(ms) && k < |ms|
    ensures |EncodeAll(ms[..k])| < |EncodeAll(ms)|
    ensures EncodeAll(ms)[..|EncodeAll(ms[..k])| + 1] == EncodeAll(ms[..k]) + Encode(ms[k])[..1]
  {
    EncodeAllSplit(ms, k);
    assert ms[k..][1..] == ms[k + 1..];
    TakePrefix(Encode(ms[k]), EncodeAll(ms[k + 1..]), 1);
    TakePrefix(EncodeAll(ms[..k]), EncodeAll(ms[k..]), |EncodeAll(ms[..k])| + 1);
  }

  /** A read that ends between two start bytes leaves the whole frames before it, and forgets the byte. */
  lemma InsideMarkerForgets(ms: seq<Message>, t: nat)
    requires AllSendable(ms) && InsideMarker(ms, t) && t <= |EncodeAll(ms)|
    ensures Weight(Extract(EncodeAll(ms)[..t])) < t
  {
    var k :| 0 <= k < |ms| && t == |EncodeAll(ms[..k])| + 1;
    CutInsideMarker(ms, k);
    HalfMarkerForgotten(ms[..k], ms[k], EncodeAll(ms)[..t]);
  }

  lemma {:induction false} HalfMarkerForgotten(ms: seq<Message>, next: Message, stream: seq<byte>)
    requires AllSendable(ms) && next.Sendable() && stream == EncodeAll(ms) + Encode(next)[..1]
    ensures Weight(Extract(stream)) < |stream|
  {
    var part := Encode(next)[..1];
    PartialFrame(next, 1);
    NoStart(part);
    FramesInFront(ms, part);
    DecodedWeight(ms);
    assert DecodedAll(ms) + [] == DecodedAll(ms);
  }

  /** The first read that ends inside a marker, if there is one. */
  lemma {:induction false} FirstInside(ms: seq<Message>, chunks: seq<seq<byte>>, n: nat) returns (k: nat)
    requires AllSendable(ms) && n < |chunks| && InsideMarker(ms, |Flatten(chunks[..n])|)
    ensures k <= n && InsideMarker(ms, |Flatten(chunks[..k])|)
    ensures forall i :: 0 <= i < k ==> !InsideMarker(ms, |Flatten(chunks[..i])|)
    decreases n
  {
    if i :| 0 <= i < n && InsideMarker(ms, |Flatten(chunks[..i])|) {
      k := FirstInside(ms, chunks, i);
    } else {
      k := n;
    }
  }

  /** Up to the first cut inside a marker, reads act like one. */
  lemma RunBefore(ms: seq<Message>, chunks: seq<seq<byte>>, n: nat)
    requires AllSendable(ms) && Flatten(chunks) == EncodeAll(ms) && n < |chunks|
    requires forall i :: 0 <= i < n ==> !InsideMarker(ms, |Flatten(chunks[..i])|)
    ensures Run(chunks[..n]) == Extract(Flatten(chunks[..n]))
  {
    forall i | 0 <= i < n
      ensures !BadCut(chunks[..n], i)
    {
      assert chunks[..n][..i] == chunks[..i];
      FlattenPrefix(chunks, i);
      var read := Flatten(chunks[..i]);
      if Dangling(read) { DanglingIsInsideMarker(ms, |read|); }
    }
    RunIsExtract(chunks[..n]);
  }

  lemma InsideMarkerSpoils(ms: seq<Message>, chunks: seq<seq<byte>>, n: nat)
    requires AllSendable(ms) && Flatten(chunks) == EncodeAll(ms)
    requires n < |chunks| && InsideMarker(ms, |Flatten(chunks[..n])|)
    ensures Run(chunks) != Extraction(DecodedAll(ms), [])
  {
    var k := FirstInside(ms, chunks, n);
    RunBefore(ms, chunks, k);
    FlattenPrefix(chunks, k);
    InsideMarkerForgets(ms, |Flatten(chunks[..k])|);
    WeightLost(chunks, k);
    DecodedWeight(ms);
  }

  /** A stream of frames survives exactly the divisions that never cut between a frame's two start bytes. */
  lemma SurvivesIff(ms: seq<Message>, chunks: seq<seq<byte>>)
    requires AllSendable(ms) && Flatten(chunks) == EncodeAll(ms)
    ensures Run(chunks) == Extraction(DecodedAll(ms), [])
      <==> forall k :: 0 <= k < |chunks| ==> !InsideMarker(ms, |Flatten(chunks[..k])|)
  {
    if n :| 0 <= n < |chunks| && InsideMarker(ms, |Flatten(chunks[..n])|) {
      InsideMarkerSpoils(ms, chunks, n);
    } else {
      SurvivesChunking(ms, chunks);
    }
  }

  lemma {:induction false} DecodedCount(ms: seq<Message>)
    requires AllSendable(ms)
    ensures |DecodedAll(ms)| == |ms|
    decreases |ms|
  {
    if ms != [] { DecodedCount(ms[1..]); }
  }

  lemma FramesWeigh(b: seq<byte>, ms: seq<Message>)
    requires AllSendable(ms) && Extract(b).frames == DecodedAll(ms)
    ensures |EncodeAll(ms)| <= |b|
  {
    WeightBounded(b);
    DecodedWeight(ms);
  }

  /** Frames that account for every byte determine the stream they came from. */
  lemma {:induction false} FramesDetermineStream(b: seq<byte>, ms: seq<Message>)
    requires AllSendable(ms) && |b| <= |EncodeAll(ms)| && Extract(b).frames == DecodedAll(ms)
    ensures b == EncodeAll(ms)
    decreases |b|
  {
    ExtractTurn(b);
    TurnConserves(b);
    match TakeTurn(b)
    case Halt(_) =>
      DecodedCount(ms);
    case Go(segment, rest) =>
      var later := Extract(rest).frames;
      if FrameIn(segment) == [] {
        assert FrameIn(segment) + later == later;
        FramesWeigh(rest, ms);
      } else {
        FirstDecoded(segment, later, ms);
        FramesWeigh(rest, ms[1..]);
        FramesDetermineStream(rest, ms[1..]);
        NothingSkipped(b, Skipped(b), Encode(ms[0]), rest);
      }
  }

  lemma NothingSkipped(b: seq<byte>, skipped: seq<byte>, raw: seq<byte>, rest: seq<byte>)
    requires b == skipped + (raw + rest) && |b| <= |raw| + |rest|
    ensures b == raw + rest
  {
  }

  lemma {:induction false} FirstDecoded(s: Segment, frames: seq<Frame>, ms: seq<Message>)
    requires AllSendable(ms) && FrameIn(s) != [] && FrameIn(s) + frames == DecodedAll(ms)
    ensures ms != [] && s.bytes == Encode(ms[0]) && frames == DecodedAll(ms[1..])
  {
    assert ms != [];
    assert FrameIn(s) + frames == [FrameIn(s)[0]] + frames;
    assert ([FrameIn(s)[0]] + frames)[1..] == frames;
    assert DecodedAll(ms)[0] == Decoded(ms[0]) && DecodedAll(ms)[1..] == DecodedAll(ms[1..]);
  }
}
