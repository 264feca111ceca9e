/**
 A stream of frames relayed over many reads, which may end anywhere inside a frame: what the
 other side deframes from everything it is sent.
 */
module RelayRuns {
  import opened Bytes
  import opened Frames
  import opened Deframer
  import opened Chunking
  import opened FrameStream
  import opened Relay
  import opened RelayFrames

  // ---- where a stream of frames stands after some reads ----

  /** No read so far ended between the two start bytes of a frame. */
  ghost predicate CleanCuts(ms: seq<Message>, chunks: seq<seq<byte>>)
    requires AllSendable(ms)
  {
    !InsideMarker(ms, |Flatten(chunks)|) && (chunks == [] || CleanCuts(ms, chunks[..|chunks| - 1]))
  }

  lemma {:induction false} CleanCut(ms: seq<Message>, chunks: seq<seq<byte>>, k: nat)
    requires AllSendable(ms) && CleanCuts(ms, chunks) && k <= |chunks|
    ensures !InsideMarker(ms, |Flatten(chunks[..k])|)
    decreases |chunks|
  {
    if k == |chunks| {
      assert chunks[..k] == chunks;
    } else {
      assert chunks[..|chunks| - 1][..k] == chunks[..k];
      CleanCut(ms, chunks[..|chunks| - 1], k);
    }
  }

  lemma PartialExtract(m: Message, q: nat)
    requires m.Sendable() && q < |Encode(m)| && q != 1
    ensures Extract(Encode(m)[..q]) == Extraction([], Encode(m)[..q])
  {
    PartialFrame(m, q);
    ExtractTurn(Encode(m)[..q]);
  }

  lemma NotBad(ms: seq<Message>, chunks: seq<seq<byte>>, k: nat)
    requires AllSendable(ms) && Flatten(chunks) <= EncodeAll(ms) && CleanCuts(ms, chunks) && k < |chunks|
    ensures !Dangling(Flatten(chunks[..k]))
  {
    var read := Flatten(chunks[..k]);
    FlattenPrefix(chunks, k);
    PrefixOfPrefix(read, Flatten(chunks), EncodeAll(ms));
    CleanCut(ms, chunks, k);
    if Dangling(read) { DanglingIsInsideMarker(ms, |read|); }
  }

  lemma PrefixOfPrefix(a: seq<byte>, b: seq<byte>, c: seq<byte>)
    requires |a| <= |b| && a == b[..|a|] && b <= c
    ensures |a| <= |c| && a == c[..|a|]
  {
  }

  /** After clean cuts the reads so far act like one. */
  lemma RunSoFar(ms: seq<Message>, chunks: seq<seq<byte>>)
    requires AllSendable(ms) && Flatten(chunks) <= EncodeAll(ms) && CleanCuts(ms, chunks)
    ensures Run(chunks) == Extract(Flatten(chunks))
  {
    forall k | 0 <= k < |chunks|
      ensures !BadCut(chunks, k)
    {
      NotBad(ms, chunks, k);
    }
    RunIsExtract(chunks);
  }

  /** The reads so far hold the frames `front`, and `part` of the next. */
  ghost predicate StandsAt(chunks: seq<seq<byte>>, front: seq<Message>, part: seq<byte>)
    requires AllSendable(front)
  {
    Flatten(chunks) == EncodeAll(front) + part && Run(chunks) == Extraction(DecodedAll(front), part)
  }

  lemma Stands(ms: seq<Message>, chunks: seq<seq<byte>>) returns (front: seq<Message>, part: seq<byte>)
    requires AllSendable(ms) && Flatten(chunks) <= EncodeAll(ms) && CleanCuts(ms, chunks)
    ensures AllSendable(front) && front <= ms && StandsAt(chunks, front, part)
    ensures Flatten(chunks) == EncodeAll(ms) ==> front == ms && part == []
  {
    RunSoFar(ms, chunks);
    front, part := StandsIn(ms, Flatten(chunks));
  }

  lemma StandsIn(ms: seq<Message>, stream: seq<byte>) returns (front: seq<Message>, part: seq<byte>)
    requires AllSendable(ms) && stream <= EncodeAll(ms) && !InsideMarker(ms, |stream|)
    ensures AllSendable(front) && front <= ms && stream == EncodeAll(front) + part
    ensures Extract(stream) == Extraction(DecodedAll(front), part)
    ensures stream == EncodeAll(ms) ==> front == ms && part == []
  {
    var j, q := Locate(ms, |stream|);
    front := ms[..j];
    if j < |ms| {
      part := Encode(ms[j])[..q];
      NotAfterOneByte(ms, j, q);
      CutInsideFrame(ms, j, q);
      PartialExtract(ms[j], q);
    } else {
      part := [];
      NothingLeft();
      NothingBehind(EncodeAll(front));
    }
    FramesThenPart(front, part);
  }

  lemma NothingBehind(stream: seq<byte>)
    ensures stream + [] == stream
  {
  }

  lemma NotAfterOneByte(ms: seq<Message>, j: nat, q: nat)
    requires AllSendable(ms) && j < |ms| && !InsideMarker(ms, |EncodeAll(ms[..j])| + q)
    ensures q != 1
  {
  }

  lemma NothingLeft()
    ensures Extract([]) == Extraction([], [])
  {
    FirstStartMeans([]);
    NoStart([]);
  }

  lemma FramesThenPart(front: seq<Message>, part: seq<byte>)
    requires AllSendable(front) && Extract(part) == Extraction([], part)
    ensures Extract(EncodeAll(front) + part) == Extraction(DecodedAll(front), part)
  {
    FramesInFront(front, part);
    assert DecodedAll(front) + [] == DecodedAll(front);
  }

  lemma CutInsideFrame(ms: seq<Message>, j: nat, q: nat)
    requires AllSendable(ms) && j < |ms| && q < |Encode(ms[j])|
    ensures |EncodeAll(ms[..j])| + q < |EncodeAll(ms)|
  {
    EncodeAllSplit(ms, j);
    assert ms[j..][1..] == ms[j + 1..];
  }

  /** The frames of the next read, and what of them is consumed. */
  lemma NextRead(chunks: seq<seq<byte>>, data: seq<byte>, before: seq<Message>, after: seq<Message>, part: seq<byte>)
      returns (ns: seq<Message>)
    requires AllSendable(before) && AllSendable(after) && (before <= after || after <= before)
    requires StandsAt(chunks, before, Run(chunks).leftover) && StandsAt(chunks + [data], after, part)
    ensures AllSendable(ns) && after == before + ns
    ensures var snapshot := Run(chunks).leftover + data;
      snapshot == EncodeAll(ns) + part && Extract(snapshot) == Extraction(DecodedAll(ns), part)
    ensures |Extract(Run(chunks).leftover + data).frames| == |ns|
  {
    var left := Run(chunks).leftover;
    MoreChunks(chunks, data);
    var e := Extract(left + data);
    ns := MoreFrames(before, after, e.frames);
    CancelBytes(EncodeAll(before), left, data, EncodeAll(ns), part);
  }

  lemma MoreFrames(before: seq<Message>, after: seq<Message>, frames: seq<Frame>) returns (ns: seq<Message>)
    requires AllSendable(before) && AllSendable(after) && (before <= after || after <= before)
    requires DecodedAll(after) == DecodedAll(before) + frames
    ensures AllSendable(ns) && after == before + ns
    ensures frames == DecodedAll(ns) && |frames| == |ns| && EncodeAll(after) == EncodeAll(before) + EncodeAll(ns)
  {
    DecodedCount(before);
    DecodedCount(after);
    assert |before| <= |after|;
    ns := after[|before|..];
    assert after == before + ns;
    BothParts(before, ns);
    CancelFrames(DecodedAll(before), frames, DecodedAll(ns));
  }

  lemma CancelFrames(a: seq<Frame>, b: seq<Frame>, c: seq<Frame>)
    requires a + b == a + c
    ensures b == c
  {
    assert (a + b)[|a|..] == b && (a + c)[|a|..] == c;
  }

  lemma CancelBytes(a: seq<byte>, before: seq<byte>, data: seq<byte>, b: seq<byte>, part: seq<byte>)
    requires (a + before) + data == (a + b) + part
    ensures before + data == b + part
  {
    Reassociate(a, before, data);
    Reassociate(a, b, part);
    assert (a + (before + data))[|a|..] == before + data && (a + (b + part))[|a|..] == b + part;
  }

  lemma MoreChunks(chunks: seq<seq<byte>>, data: seq<byte>)
    ensures var snapshot := Run(chunks).leftover + data;
      && Flatten(chunks + [data]) == Flatten(chunks) + data
      && Run(chunks + [data]) == Join(Run(chunks).frames, Extract(snapshot))
  {
    assert (chunks + [data])[..|chunks|] == chunks;
  }

  /** Bytes of an unfinished frame behind them do not matter to the frames of a read. */
  lemma ForwardedWhole(snapshot: seq<byte>, ns: seq<Message>, part: seq<byte>, owned: seq<bool>)
    requires AllSendable(ns)
    requires snapshot == EncodeAll(ns) + part && Extract(snapshot) == Extraction(DecodedAll(ns), part)
    ensures Forwarded(snapshot, owned) == Forwarded(EncodeAll(ns), owned)
  {
    assert Consumed(snapshot) == EncodeAll(ns);
    ForwardedMessages(ns, owned);
  }

  // ---- a whole run ----

  function Datas(run: seq<Read>): seq<seq<byte>> {
    if run == [] then [] else Datas(run[..|run| - 1]) + [run[|run| - 1].data]
  }

  lemma {:induction false} BufferIsLeftover(run: seq<Read>)
    ensures RelayRun(run).buffer == Run(Datas(run)).leftover && Received(run) == Flatten(Datas(run))
    decreases |run|
  {
    if run != [] {
      BufferIsLeftover(run[..|run| - 1]);
      MoreChunks(Datas(run[..|run| - 1]), run[|run| - 1].data);
    }
  }

  /** The answers for `n` frames; frames without an answer are not owned. */
  function Answers(owned: seq<bool>, n: nat): (answers: seq<bool>)
    ensures |answers| == n
  {
    if n == 0 then [] else [First(owned)] + Answers(Later(owned), n - 1)
  }

  /** The frames of the last read of a run. */
  function LastFrames(run: seq<Read>): seq<Frame>
    requires run != []
  {
    Extract(RelayRun(run[..|run| - 1]).buffer + run[|run| - 1].data).frames
  }

  /** The answers for all frames of a run. */
  function OwnedIn(run: seq<Read>): seq<bool> {
    if run == [] then [] else OwnedIn(run[..|run| - 1]) + Answers(run[|run| - 1].owned, |LastFrames(run)|)
  }

  /** Each owned frame is undisturbed by the unowned frames in front of it in its read. */
  predicate FramesPlaced(kept: seq<byte>, frames: seq<Frame>, owned: seq<bool>)
    decreases |frames|
  {
    frames == [] || (
      if First(owned) then
        Undisturbed(kept, frames[0].raw) && FramesPlaced(kept, frames[1..], Later(owned))
      else
        FramesPlaced(kept + frames[0].raw, frames[1..], Later(owned)))
  }

  /** In every read of the run. */
  predicate ReadsPlaced(run: seq<Read>) {
    run == [] || (ReadsPlaced(run[..|run| - 1]) && FramesPlaced([], LastFrames(run), run[|run| - 1].owned))
  }

  lemma {:induction false} PlacedAsFrames(kept: seq<byte>, ms: seq<Message>, owned: seq<bool>)
    requires AllSendable(ms)
    ensures Placed(kept, ms, owned) <==> FramesPlaced(kept, DecodedAll(ms), owned)
    decreases |ms|
  {
    if ms != [] {
      assert DecodedAll(ms)[0] == Decoded(ms[0]) && DecodedAll(ms)[1..] == DecodedAll(ms[1..]);
      PlacedAsFrames(if First(owned) then kept else kept + Encode(ms[0]), ms[1..], Later(owned));
    }
  }

  lemma {:induction false} UnownedByAnswers(ms: seq<Message>, owned: seq<bool>)
    requires AllSendable(ms)
    ensures Unowned(ms, Answers(owned, |ms|)) == Unowned(ms, owned)
    decreases |ms|
  {
    if ms != [] {
      var answers := Answers(owned, |ms|);
      assert answers[1..] == Answers(Later(owned), |ms[1..]|);
      UnownedByAnswers(ms[1..], Later(owned));
    }
  }

  lemma {:induction false} UnownedAppend(ms: seq<Message>, ns: seq<Message>, owned: seq<bool>, more: seq<bool>)
    requires AllSendable(ms) && AllSendable(ns) && |owned| == |ms|
    ensures Unowned(ms + ns, owned + more) == Unowned(ms, owned) + Unowned(ns, more)
    decreases |ms|
  {
    if ms == [] {
      assert ms + ns == ns && owned + more == more;
    } else {
      assert (ms + ns)[0] == ms[0] && (ms + ns)[1..] == ms[1..] + ns;
      assert (owned + more)[0] == owned[0] && (owned + more)[1..] == owned[1..] + more;
      UnownedAppend(ms[1..], ns, owned[1..], more);
      Reassociate(if owned[0] then [] else [ms[0]], Unowned(ms[1..], owned[1..]), Unowned(ns, more));
    }
  }

  /** Of the frames `front`, those that are not owned were sent. */
  ghost predicate SentUnowned(front: seq<Message>, sent: seq<byte>, owned: seq<bool>)
    requires AllSendable(front)
  {
    |owned| == |front| && sent == EncodeAll(Unowned(front, owned))
  }

  lemma UnownedOfBoth(ms: seq<Message>, ns: seq<Message>, owned: seq<bool>, last: seq<bool>)
    requires AllSendable(ms) && AllSendable(ns) && |owned| == |ms|
    ensures EncodeAll(Unowned(ms + ns, owned + Answers(last, |ns|)))
      == EncodeAll(Unowned(ms, owned)) + EncodeAll(Unowned(ns, last))
  {
    UnownedByAnswers(ns, last);
    UnownedAppend(ms, ns, owned, Answers(last, |ns|));
    BothParts(Unowned(ms, owned), Unowned(ns, last));
  }

  lemma SentMore(
      front: seq<Message>, ns: seq<Message>, sent: seq<byte>, owned: seq<bool>, forward: seq<byte>, last: seq<bool>)
    requires AllSendable(front) && AllSendable(ns) && SentUnowned(front, sent, owned)
    requires forward == EncodeAll(Unowned(ns, last))
    ensures SentUnowned(front + ns, sent + forward, owned + Answers(last, |ns|))
  {
    UnownedOfBoth(front, ns, owned, last);
  }

  lemma FirstCuts(ms: seq<Message>, chunks: seq<seq<byte>>, data: seq<byte>)
    requires AllSendable(ms) && Flatten(chunks + [data]) <= EncodeAll(ms) && CleanCuts(ms, chunks + [data])
    ensures Flatten(chunks) <= EncodeAll(ms) && CleanCuts(ms, chunks)
  {
    MoreChunks(chunks, data);
    assert (chunks + [data])[..|chunks|] == chunks;
  }

  /** What a read forwards when its owned frames are undisturbed. */
  lemma ReadForwards(ns: seq<Message>, snapshot: seq<byte>, part: seq<byte>, owned: seq<bool>)
    requires AllSendable(ns) && FramesPlaced([], DecodedAll(ns), owned)
    requires snapshot == EncodeAll(ns) + part && Extract(snapshot) == Extraction(DecodedAll(ns), part)
    ensures Forwarded(snapshot, owned) == EncodeAll(Unowned(ns, owned))
  {
    ForwardedWhole(snapshot, ns, part, owned);
    PlacedAsFrames([], ns, owned);
    OnlyUnownedArrive(ns, owned);
    ArriveMeansExact(ns, owned);
  }

  lemma LastOfRun(run: seq<Read>)
    requires run != []
    ensures var init, last := run[..|run| - 1], run[|run| - 1];
      var snapshot := Run(Datas(init)).leftover + last.data;
      && Datas(run) == Datas(init) + [last.data]
      && RelayRun(run).sent == RelayRun(init).sent + Forwarded(snapshot, last.owned)
      && OwnedIn(run) == OwnedIn(init) + Answers(last.owned, |LastFrames(run)|)
      && LastFrames(run) == Extract(snapshot).frames
  {
    BufferIsLeftover(run[..|run| - 1]);
  }

  /** One more read whose frames arrive. */
  lemma {:induction false} ReadSends(
      chunks: seq<seq<byte>>, read: Read, before: seq<Message>, after: seq<Message>, part: seq<byte>,
      sent: seq<byte>, owned: seq<bool>)
    requires AllSendable(before) && AllSendable(after) && (before <= after || after <= before)
    requires StandsAt(chunks, before, Run(chunks).leftover) && StandsAt(chunks + [read.data], after, part)
    requires SentUnowned(before, sent, owned)
    requires FramesPlaced([], Extract(Run(chunks).leftover + read.data).frames, read.owned)
    ensures var snapshot := Run(chunks).leftover + read.data;
      SentUnowned(after, sent + Forwarded(snapshot, read.owned),
        owned + Answers(read.owned, |Extract(snapshot).frames|))
  {
    var snapshot := Run(chunks).leftover + read.data;
    var ns := NextRead(chunks, read.data, before, after, part);
    ReadForwards(ns, snapshot, part, read.owned);
    SentMore(before, ns, sent, owned, Forwarded(snapshot, read.owned), read.owned);
  }

  /** What is behind the reads so far: the frames `front`, and `part` of the next. */
  ghost predicate Through(run: seq<Read>, front: seq<Message>, part: seq<byte>) {
    AllSendable(front) && StandsAt(Datas(run), front, part) && SentUnowned(front, RelayRun(run).sent, OwnedIn(run))
  }

  lemma OneMoreRead(run: seq<Read>, before: seq<Message>, left: seq<byte>, after: seq<Message>, part: seq<byte>)
    requires run != [] && AllSendable(before) && AllSendable(after) && (before <= after || after <= before)
    requires Through(run[..|run| - 1], before, left) && StandsAt(Datas(run), after, part)
    requires FramesPlaced([], LastFrames(run), run[|run| - 1].owned)
    ensures Through(run, after, part)
  {
    LastOfRun(run);
    var init, last := run[..|run| - 1], run[|run| - 1];
    ReadSends(Datas(init), last, before, after, part, RelayRun(init).sent, OwnedIn(init));
  }

  lemma InitInStream(ms: seq<Message>, run: seq<Read>)
    requires run != [] && AllSendable(ms) && Received(run) <= EncodeAll(ms) && CleanCuts(ms, Datas(run))
    ensures var init := run[..|run| - 1]; Received(init) <= EncodeAll(ms) && CleanCuts(ms, Datas(init))
  {
    BufferIsLeftover(run);
    BufferIsLeftover(run[..|run| - 1]);
    FirstCuts(ms, Datas(run[..|run| - 1]), run[|run| - 1].data);
  }

  lemma NoReads()
    ensures Through([], [], [])
  {
  }

  lemma {:induction false} SentSoFar(ms: seq<Message>, run: seq<Read>) returns (front: seq<Message>, part: seq<byte>)
    requires AllSendable(ms) && Received(run) <= EncodeAll(ms) && CleanCuts(ms, Datas(run)) && ReadsPlaced(run)
    ensures front <= ms && Through(run, front, part)
    ensures Received(run) == EncodeAll(ms) ==> front == ms && part == []
    decreases |run|
  {
    BufferIsLeftover(run);
    front, part := Stands(ms, Datas(run));
    if run == [] {
      NoFrames(front, part);
      NoReads();
    } else {
      InitInStream(ms, run);
      var before, left := SentSoFar(ms, run[..|run| - 1]);
      BothPrefixes(ms, before, front);
      OneMoreRead(run, before, left, front, part);
    }
  }

  lemma NoFrames(front: seq<Message>, part: seq<byte>)
    requires AllSendable(front) && StandsAt([], front, part)
    ensures front == [] && part == []
  {
    DecodedCount(front);
  }

  lemma BothPrefixes(ms: seq<Message>, a: seq<Message>, b: seq<Message>)
    requires a <= ms && b <= ms
    ensures a <= b || b <= a
  {
  }

  // ---- the theorem ----

  /** The reads together are the frames, and none ends between the two start bytes of one. */
  ghost predicate Divides(ms: seq<Message>, run: seq<Read>)
    requires AllSendable(ms)
  {
    && Received(run) == EncodeAll(ms)
    && forall k :: 0 <= k < |run| ==> !InsideMarker(ms, |Received(run[..k])|)
  }

  /** A position between two frames is not inside a marker. */
  lemma BetweenFrames(ms: seq<Message>, j: nat)
    requires AllSendable(ms) && j <= |ms|
    ensures !InsideMarker(ms, |EncodeAll(ms[..j])|)
  {
    forall k | 0 <= k < |ms|
      ensures |EncodeAll(ms[..j])| != |EncodeAll(ms[..k])| + 1
    {
      if k < j {
        FrontIsShorter(ms, k, j);
      } else {
        ShorterOrSame(ms, j, k);
      }
    }
  }

  lemma ShorterOrSame(ms: seq<Message>, j: nat, k: nat)
    requires AllSendable(ms) && j <= k <= |ms|
    ensures |EncodeAll(ms[..j])| <= |EncodeAll(ms[..k])|
  {
    assert ms[..k][..j] == ms[..j];
    EncodeAllSplit(ms[..k], j);
  }

  lemma FrontIsShorter(ms: seq<Message>, k: nat, j: nat)
    requires AllSendable(ms) && k < j <= |ms|
    ensures |EncodeAll(ms[..k])| + OVERHEAD <= |EncodeAll(ms[..j])|
  {
    assert ms[..k + 1] == ms[..k] + [ms[k]];
    LastOne(ms[..k], ms[k]);
    ShorterOrSame(ms, k + 1, j);
  }

  lemma {:induction false} ReadsAreClean(ms: seq<Message>, run: seq<Read>)
    requires AllSendable(ms)
    requires forall k :: 0 <= k <= |run| ==> !InsideMarker(ms, |Received(run[..k])|)
    ensures CleanCuts(ms, Datas(run))
    decreases |run|
  {
    assert run[..|run|] == run;
    if run != [] {
      var init := run[..|run| - 1];
      forall k | 0 <= k <= |init|
        ensures !InsideMarker(ms, |Received(init[..k])|)
      {
        assert init[..k] == run[..k];
      }
      ReadsAreClean(ms, init);
    }
    OneMoreClean(ms, run);
  }

  lemma OneMoreClean(ms: seq<Message>, run: seq<Read>)
    requires AllSendable(ms) && !InsideMarker(ms, |Received(run)|)
    requires run != [] ==> CleanCuts(ms, Datas(run[..|run| - 1]))
    ensures CleanCuts(ms, Datas(run))
  {
    BufferIsLeftover(run);
    if run != [] { assert Datas(run)[..|Datas(run)| - 1] == Datas(run[..|run| - 1]); }
  }

  lemma DivisionIsClean(ms: seq<Message>, run: seq<Read>)
    requires AllSendable(ms) && Divides(ms, run)
    ensures CleanCuts(ms, Datas(run))
  {
    assert run[..|run|] == run && ms[..|ms|] == ms;
    BetweenFrames(ms, |ms|);
    ReadsAreClean(ms, run);
  }

  /**
   However a stream of frames is divided into reads that leave its markers whole: if in every read
   the owned frames are undisturbed, the other side sees exactly the frames that are not owned.
   */
  lemma UnownedArrive(ms: seq<Message>, run: seq<Read>)
    requires AllSendable(ms) && Divides(ms, run) && ReadsPlaced(run)
    ensures |OwnedIn(run)| == |ms| && RelayRun(run).buffer == []
    ensures Extract(RelayRun(run).sent) == Extraction(DecodedAll(Unowned(ms, OwnedIn(run))), [])
  {
    DivisionIsClean(ms, run);
    BufferIsLeftover(run);
    var front, part := SentSoFar(ms, run);
    StreamRoundTrip(Unowned(ms, OwnedIn(run)));
  }
}
