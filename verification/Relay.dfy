/**
 The transparent relay: each read is deframed, and the frames the gateway owns are cut out
 of the bytes it forwards by find-and-delete on the raw bytes.
 */
module Relay {
  import opened Bytes
  import opened Frames
  import opened Search
  import opened Deframer
  import opened FrameStream
  import opened Subsequence

  // ---- find and delete ----

  function DeleteFirst(forward: seq<byte>, raw: seq<byte>): seq<byte> {
    match Find(forward, raw)
    case Some(i) => forward[..i] + forward[i + |raw|..]
    case None => forward
  }

  /** Whether the first frame still to be handled is owned; owners answer in order. */
  predicate First(owned: seq<bool>) {
    owned != [] && owned[0]
  }

  function Later(owned: seq<bool>): seq<bool> {
    if owned == [] then [] else owned[1..]
  }

  function Filtered(forward: seq<byte>, frames: seq<Frame>, owned: seq<bool>): seq<byte>
    decreases |frames|
  {
    if frames == [] then
      forward
    else
      Filtered(if First(owned) then DeleteFirst(forward, frames[0].raw) else forward, frames[1..], Later(owned))
  }

  /** Everything up to the part of the buffer that was kept. */
  function Consumed(snapshot: seq<byte>): seq<byte> {
    LeftoverBounded(snapshot);
    snapshot[..|snapshot| - |Extract(snapshot).leftover|]
  }

  function Forwarded(snapshot: seq<byte>, owned: seq<bool>): seq<byte> {
    Filtered(Consumed(snapshot), Extract(snapshot).frames, owned)
  }

  class Pump {
    var buffer: StreamBuffer

    constructor ()
      ensures buffer.data == [] && fresh(buffer)
    {
      buffer := new StreamBuffer();
    }

    /** One turn of a relay loop; `owned` are the answers of the owners, frame by frame. */
    method OnRead(data: seq<byte>, owned: seq<bool>) returns (forward: seq<byte>)
      modifies buffer
      ensures forward == Forwarded(old(buffer.data) + data, owned)
      ensures buffer.data == Extract(old(buffer.data) + data).leftover
    {
      buffer.data := buffer.data + data;
      var snapshot := buffer.data;
      var frames := buffer.ExtractFrames();
      var leftover := buffer.data;
      assert Extract(snapshot) == Extraction(frames, leftover);
      LeftoverBounded(snapshot);
      var consumed := snapshot[..|snapshot| - |leftover|];
      assert consumed == Consumed(snapshot);
      forward := Strip(consumed, frames, owned);
    }
  }

  /** The loop over the frames of one read. */
  method Strip(consumed: seq<byte>, frames: seq<Frame>, owned: seq<bool>) returns (forward: seq<byte>)
    ensures forward == Filtered(consumed, frames, owned)
  {
    forward := consumed;
    var answers := owned;
    for k := 0 to |frames|
      invariant Filtered(forward, frames[k..], answers) == Filtered(consumed, frames, owned)
    {
      FilteredStep(forward, frames, k, answers);
      if answers != [] && answers[0] {
        var idx := Find(forward, frames[k].raw);
        if idx.Some? {
          forward := forward[..idx.value] + forward[idx.value + |frames[k].raw|..];
        }
      }
      answers := Later(answers);
    }
  }

  lemma FilteredStep(forward: seq<byte>, frames: seq<Frame>, k: nat, owned: seq<bool>)
    requires k < |frames|
    ensures Filtered(forward, frames[k..], owned)
      == Filtered(if First(owned) then DeleteFirst(forward, frames[k].raw) else forward, frames[k + 1..], Later(owned))
  {
  }

  // ---- the obvious filter ----

  /** The bytes of the segments without the owned frames. */
  function Kept(segments: seq<Segment>, owned: seq<bool>): seq<byte>
    decreases |segments|
  {
    if segments == [] then
      []
    else if FrameIn(segments[0]) == [] then
      segments[0].bytes + Kept(segments[1..], owned)
    else
      (if First(owned) then [] else segments[0].bytes) + Kept(segments[1..], Later(owned))
  }

  function OwnedLength(segments: seq<Segment>, owned: seq<bool>): nat
    decreases |segments|
  {
    if segments == [] then
      0
    else if FrameIn(segments[0]) == [] then
      OwnedLength(segments[1..], owned)
    else
      (if First(owned) then |segments[0].bytes| else 0) + OwnedLength(segments[1..], Later(owned))
  }

  lemma {:induction false} KeptLength(segments: seq<Segment>, owned: seq<bool>)
    ensures |Kept(segments, owned)| + OwnedLength(segments, owned) == |BytesOf(segments)|
    decreases |segments|
  {
    if segments != [] {
      KeptLength(segments[1..], if FrameIn(segments[0]) == [] then owned else Later(owned));
    }
  }

  /** Every owned frame is found when its turn comes. */
  predicate AllFound(forward: seq<byte>, frames: seq<Frame>, owned: seq<bool>)
    decreases |frames|
  {
    frames == [] || (
      && (First(owned) ==> Find(forward, frames[0].raw).Some?)
      && AllFound(if First(owned) then DeleteFirst(forward, frames[0].raw) else forward, frames[1..], Later(owned)))
  }

  lemma CutOutOf(front: seq<byte>, rest: seq<byte>, i: nat, n: nat)
    requires i + n <= |front|
    ensures (front + rest)[..i] + (front + rest)[i + n..] == front[..i] + front[i + n..] + rest
  {
    assert (front + rest)[..i] == front[..i];
    assert (front + rest)[i + n..] == front[i + n..] + rest;
  }

  lemma FrameInPlace(kept: seq<byte>, raw: seq<byte>, rest: seq<byte>)
    ensures OccursAt(kept + (raw + rest), raw, |kept|)
  {
  }

  /** Deleting a copy at or before the frame leaves everything after the frame alone. */
  lemma DeleteBefore(kept: seq<byte>, raw: seq<byte>, rest: seq<byte>)
    ensures Find(kept + (raw + rest), raw).Some?
    ensures var i := Find(kept + (raw + rest), raw).value;
      && i <= |kept|
      && DeleteFirst(kept + (raw + rest), raw) == (kept + raw)[..i] + (kept + raw)[i + |raw|..] + rest
  {
    FrameInPlace(kept, raw, rest);
    Reassociate(kept, raw, rest);
    var i := Find(kept + (raw + rest), raw).value;
    CutOutOf(kept + raw, rest, i, |raw|);
  }

  lemma FrameOfSegment(s: Segment)
    requires FrameIn(s) != []
    ensures FrameIn(s) == [FrameIn(s)[0]] && FrameIn(s)[0].raw == s.bytes
  {
  }

  /** Handling one frame keeps the bytes behind it and the length in front of it. */
  lemma HandleFrame(kept: seq<byte>, raw: seq<byte>, rest: seq<byte>, ours: bool) returns (left: seq<byte>)
    ensures ours ==> Find(kept + (raw + rest), raw).Some?
    ensures (if ours then DeleteFirst(kept + (raw + rest), raw) else kept + (raw + rest)) == left + rest
    ensures |left| == |kept| + if ours then 0 else |raw|
  {
    if ours {
      DeleteBefore(kept, raw, rest);
      var i := Find(kept + (raw + rest), raw).value;
      left := (kept + raw)[..i] + (kept + raw)[i + |raw|..];
    } else {
      left := kept + raw;
      assert kept + (raw + rest) == (kept + raw) + rest;
    }
  }

  /**
   Whatever the bytes are, each owned frame is found, and what is forwarded is as long as
   if exactly the owned frames had been cut out; bytes behind the last frame are untouched.
   */
  lemma {:induction false} FilterConserves(kept: seq<byte>, segments: seq<Segment>, rest: seq<byte>, owned: seq<bool>)
      returns (out: seq<byte>)
    ensures AllFound(kept + (BytesOf(segments) + rest), FramesOf(segments), owned)
    ensures Filtered(kept + (BytesOf(segments) + rest), FramesOf(segments), owned) == out + rest
    ensures |out| == |kept| + |Kept(segments, owned)|
    decreases |segments|
  {
    if segments == [] {
      out := kept;
      assert BytesOf(segments) + rest == rest;
    } else {
      var s, later := segments[0], segments[1..];
      Regroup(kept, s.bytes, BytesOf(later), rest);
      if FrameIn(s) == [] {
        out := FilterConserves(kept + s.bytes, later, rest, owned);
        assert FramesOf(segments) == FramesOf(later);
      } else {
        FrameOfSegment(s);
        assert FramesOf(segments)[0] == FrameIn(s)[0] && FramesOf(segments)[1..] == FramesOf(later);
        var left := HandleFrame(kept, s.bytes, BytesOf(later) + rest, First(owned));
        out := FilterConserves(left, later, rest, Later(owned));
      }
    }
  }

  lemma Regroup(kept: seq<byte>, s: seq<byte>, later: seq<byte>, rest: seq<byte>)
    ensures kept + ((s + later) + rest) == kept + (s + (later + rest))
    ensures kept + ((s + later) + rest) == (kept + s) + (later + rest)
  {
    Reassociate(s, later, rest);
    Reassociate(kept, s, later + rest);
  }

  // ---- when find-and-delete is the obvious filter ----

  /** No copy of `raw` begins in front of the frame itself. */
  ghost predicate NoEarlierCopy(kept: seq<byte>, raw: seq<byte>) {
    forall j :: 0 <= j < |kept| ==> !OccursAt(kept + raw, raw, j)
  }

  ghost predicate NoCopies(kept: seq<byte>, segments: seq<Segment>, owned: seq<bool>)
    decreases |segments|
  {
    segments == [] || (
      var s, later := segments[0], segments[1..];
      if FrameIn(s) == [] then
        NoCopies(kept + s.bytes, later, owned)
      else if First(owned) then
        NoEarlierCopy(kept, s.bytes) && NoCopies(kept, later, Later(owned))
      else
        NoCopies(kept + s.bytes, later, Later(owned)))
  }

  lemma NoCopyAt(kept: seq<byte>, raw: seq<byte>, rest: seq<byte>, j: nat)
    requires j < |kept| && !OccursAt(kept + raw, raw, j)
    ensures !OccursAt(kept + (raw + rest), raw, j)
  {
  }

  lemma CopyOnlyInPlace(kept: seq<byte>, raw: seq<byte>, rest: seq<byte>)
    requires NoEarlierCopy(kept, raw)
    ensures DeleteFirst(kept + (raw + rest), raw) == kept + rest
  {
    forall j | 0 <= j < |kept|
      ensures !OccursAt(kept + (raw + rest), raw, j)
    {
      NoCopyAt(kept, raw, rest, j);
    }
    FrameInPlace(kept, raw, rest);
    Reassociate(kept, raw, rest);
    FindIs(kept + (raw + rest), raw, |kept|);
    CutOutOf(kept + raw, rest, |kept|, |raw|);
    assert (kept + raw)[..|kept|] == kept && (kept + raw)[|kept| + |raw|..] == [];
    assert kept + [] == kept;
  }

  lemma SameWindow(kept: seq<byte>, raw: seq<byte>, rest: seq<byte>, i: nat)
    requires i <= |kept|
    ensures var both := kept + raw;
      && both[i..i + |raw|] == (kept + (raw + rest))[i..i + |raw|]
      && kept[i..] + raw == both[i..] == both[i..i + |raw|] + both[i + |raw|..]
  {
  }

  /** One deletion is a cut in place exactly when the bytes from the first copy on commute with the frame. */
  lemma DeleteIsCutIff(kept: seq<byte>, raw: seq<byte>, rest: seq<byte>)
    ensures Find(kept + (raw + rest), raw).Some? && Find(kept + (raw + rest), raw).value <= |kept|
    ensures var i := Find(kept + (raw + rest), raw).value;
      DeleteFirst(kept + (raw + rest), raw) == kept + rest <==> kept[i..] + raw == raw + kept[i..]
  {
    DeleteBefore(kept, raw, rest);
    var forward := kept + (raw + rest);
    var i := Find(forward, raw).value;
    var both := kept + raw;
    SameWindow(kept, raw, rest, i);
    var left := both[..i] + both[i + |raw|..];
    assert both[..i] == kept[..i] && kept == kept[..i] + kept[i..];
    Cancel(left, kept, rest);
    Cancel2(kept[..i], both[i + |raw|..], kept[i..]);
    Cancel2(raw, both[i + |raw|..], kept[i..]);
  }

  lemma Cancel(a: seq<byte>, b: seq<byte>, c: seq<byte>)
    requires |a| == |b|
    ensures a + c == b + c <==> a == b
  {
    if a + c == b + c {
      assert a == (a + c)[..|a|] && b == (b + c)[..|b|];
    }
  }

  lemma Cancel2(a: seq<byte>, b: seq<byte>, c: seq<byte>)
    requires |b| == |c|
    ensures a + b == a + c <==> b == c
  {
    if a + b == a + c {
      assert b == (a + b)[|a|..] && c == (a + c)[|a|..];
    }
  }

  /** Deleting the first copy of `raw` is as good as deleting the last: what is between them commutes with it. */
  predicate Undisturbed(kept: seq<byte>, raw: seq<byte>) {
    var first := Find(kept + raw, raw);
    first.Some? && first.value < |kept| ==> kept[first.value..] + raw == raw + kept[first.value..]
  }

  lemma OccursAlike(kept: seq<byte>, raw: seq<byte>, rest: seq<byte>, j: nat)
    requires j <= |kept|
    ensures OccursAt(kept + raw, raw, j) <==> OccursAt(kept + (raw + rest), raw, j)
  {
    SameWindow(kept, raw, rest, j);
  }

  lemma FirstCopy(kept: seq<byte>, raw: seq<byte>, rest: seq<byte>)
    ensures Find(kept + raw, raw) == Find(kept + (raw + rest), raw)
    ensures Find(kept + raw, raw).Some? && Find(kept + raw, raw).value <= |kept|
  {
    FrameInPlace(kept, raw, rest);
    OccursAlike(kept, raw, rest, |kept|);
    var i := Find(kept + raw, raw).value;
    OccursAlike(kept, raw, rest, i);
    forall j | 0 <= j < i
      ensures !OccursAt(kept + (raw + rest), raw, j)
    {
      OccursAlike(kept, raw, rest, j);
    }
    FindIs(kept + (raw + rest), raw, i);
  }

  /** A deletion does not depend on what comes behind the frame. */
  lemma DeleteIgnoresRest(kept: seq<byte>, raw: seq<byte>, rest: seq<byte>)
    ensures DeleteFirst(kept + (raw + rest), raw) == DeleteFirst(kept + raw, raw) + rest
    ensures |DeleteFirst(kept + raw, raw)| == |kept|
  {
    FirstCopy(kept, raw, rest);
    DeleteBefore(kept, raw, rest);
    DeleteFound(kept + raw, raw, Find(kept + raw, raw).value);
  }

  lemma DeleteFound(b: seq<byte>, raw: seq<byte>, i: nat)
    requires Find(b, raw) == Some(i)
    ensures i + |raw| <= |b| && DeleteFirst(b, raw) == b[..i] + b[i + |raw|..]
  {
  }

  /** One deletion cuts out the frame itself if and only if the frame is undisturbed. */
  lemma DeletedInPlaceIff(kept: seq<byte>, raw: seq<byte>, rest: seq<byte>)
    ensures DeleteFirst(kept + (raw + rest), raw) == kept + rest <==> Undisturbed(kept, raw)
  {
    FirstCopy(kept, raw, rest);
    DeleteIsCutIff(kept, raw, rest);
    assert kept[|kept|..] == [] && [] + raw == raw == raw + [];
  }

  lemma NoCopyIsUndisturbed(kept: seq<byte>, raw: seq<byte>)
    requires NoEarlierCopy(kept, raw)
    ensures Undisturbed(kept, raw)
  {
    CopyOnlyInPlace(kept, raw, []);
    DeletedInPlaceIff(kept, raw, []);
  }

  /** Each owned frame is undisturbed by the bytes retained in front of it. */
  predicate InPlace(kept: seq<byte>, segments: seq<Segment>, owned: seq<bool>)
    decreases |segments|
  {
    segments == [] || (
      var s, later := segments[0], segments[1..];
      if FrameIn(s) == [] then
        InPlace(kept + s.bytes, later, owned)
      else if First(owned) then
        Undisturbed(kept, s.bytes) && InPlace(kept, later, Later(owned))
      else
        InPlace(kept + s.bytes, later, Later(owned)))
  }

  lemma {:induction false} NoCopiesInPlace(kept: seq<byte>, segments: seq<Segment>, owned: seq<bool>)
    requires NoCopies(kept, segments, owned)
    ensures InPlace(kept, segments, owned)
    decreases |segments|
  {
    if segments != [] {
      var s, later := segments[0], segments[1..];
      if FrameIn(s) == [] {
        NoCopiesInPlace(kept + s.bytes, later, owned);
      } else if First(owned) {
        NoCopyIsUndisturbed(kept, s.bytes);
        NoCopiesInPlace(kept, later, Later(owned));
      } else {
        NoCopiesInPlace(kept + s.bytes, later, Later(owned));
      }
    }
  }

  lemma {:induction false} FilterIsKept(kept: seq<byte>, segments: seq<Segment>, rest: seq<byte>, owned: seq<bool>)
    requires InPlace(kept, segments, owned)
    ensures Filtered(kept + (BytesOf(segments) + rest), FramesOf(segments), owned)
      == kept + (Kept(segments, owned) + rest)
    decreases |segments|
  {
    if segments != [] {
      var s, later := segments[0], segments[1..];
      Regroup(kept, s.bytes, BytesOf(later), rest);
      if FrameIn(s) == [] {
        assert FramesOf(segments) == FramesOf(later);
        FilterIsKept(kept + s.bytes, later, rest, owned);
        Regroup(kept, s.bytes, Kept(later, owned), rest);
      } else {
        FrameOfSegment(s);
        assert FramesOf(segments)[0] == FrameIn(s)[0] && FramesOf(segments)[1..] == FramesOf(later);
        if First(owned) {
          DeletedInPlaceIff(kept, s.bytes, BytesOf(later) + rest);
          FilterIsKept(kept, later, rest, Later(owned));
          assert Kept(segments, owned) == Kept(later, Later(owned));
        } else {
          FilterIsKept(kept + s.bytes, later, rest, Later(owned));
          Regroup(kept, s.bytes, Kept(later, Later(owned)), rest);
        }
      }
    }
  }

  // ---- one read ----

  /** The bytes a clearing loop throws away count as consumed. */
  function Cleared(snapshot: seq<byte>): seq<byte> {
    if Extract(snapshot).leftover == [] then Split(snapshot).residual else []
  }

  lemma ConsumedParts(snapshot: seq<byte>)
    ensures Consumed(snapshot) == BytesOf(Split(snapshot).segments) + Cleared(snapshot)
    ensures Consumed(snapshot) + Extract(snapshot).leftover == snapshot
  {
    SplitConserves(snapshot);
    LeftoverBounded(snapshot);
    var p := Split(snapshot);
    assert Extract(snapshot).leftover == Leftover(p.residual);
    assert snapshot[..|BytesOf(p.segments)|] == BytesOf(p.segments);
  }

  /** With no copies in the way, a read forwards the consumed bytes minus exactly the owned frames. */
  lemma ReadForwardsKept(snapshot: seq<byte>, owned: seq<bool>)
    requires InPlace([], Split(snapshot).segments, owned)
    ensures Forwarded(snapshot, owned) == Kept(Split(snapshot).segments, owned) + Cleared(snapshot)
  {
    ConsumedParts(snapshot);
    var p := Split(snapshot);
    FilterIsKept([], p.segments, Cleared(snapshot), owned);
    assert [] + (BytesOf(p.segments) + Cleared(snapshot)) == Consumed(snapshot);
    assert [] + (Kept(p.segments, owned) + Cleared(snapshot)) == Kept(p.segments, owned) + Cleared(snapshot);
  }

  /** In any case it finds every owned frame and forwards that many bytes fewer. */
  lemma ReadConserves(snapshot: seq<byte>, owned: seq<bool>)
    ensures AllFound(Consumed(snapshot), Extract(snapshot).frames, owned)
    ensures |Forwarded(snapshot, owned)| + OwnedLength(Split(snapshot).segments, owned)
      + |Extract(snapshot).leftover| == |snapshot|
  {
    ConsumedParts(snapshot);
    var p := Split(snapshot);
    var out := FilterConserves([], p.segments, Cleared(snapshot), owned);
    assert [] + (BytesOf(p.segments) + Cleared(snapshot)) == Consumed(snapshot);
    KeptLength(p.segments, owned);
  }

  // ---- whole runs, from the inverter to the cloud ----

  datatype Read = Read(data: seq<byte>, owned: seq<bool>)

  /** All that was forwarded, the buffer, and the total length of the owned frames. */
  datatype Progress = Progress(sent: seq<byte>, buffer: seq<byte>, removed: nat)

  function RelayRun(run: seq<Read>): Progress {
    if run == [] then
      Progress([], [], 0)
    else
      var before := RelayRun(run[..|run| - 1]);
      var last := run[|run| - 1];
      var snapshot := before.buffer + last.data;
      Progress(
        before.sent + Forwarded(snapshot, last.owned),
        Extract(snapshot).leftover,
        before.removed + OwnedLength(Split(snapshot).segments, last.owned))
  }

  function Received(run: seq<Read>): seq<byte> {
    if run == [] then [] else Received(run[..|run| - 1]) + run[|run| - 1].data
  }

  predicate NoneOwned(run: seq<Read>) {
    forall i, k :: 0 <= i < |run| && 0 <= k < |run[i].owned| ==> !run[i].owned[k]
  }

  lemma {:induction false} NothingToFilter(forward: seq<byte>, frames: seq<Frame>, owned: seq<bool>)
    requires forall k :: 0 <= k < |owned| ==> !owned[k]
    ensures Filtered(forward, frames, owned) == forward
    decreases |frames|
  {
    if frames != [] { NothingToFilter(forward, frames[1..], Later(owned)); }
  }

  /** Transparency: nothing is lost, changed, added or reordered on the way through. */
  lemma {:induction false} Transparent(run: seq<Read>)
    requires NoneOwned(run)
    ensures RelayRun(run).sent + RelayRun(run).buffer == Received(run)
    decreases |run|
  {
    if run != [] {
      var init, last := run[..|run| - 1], run[|run| - 1];
      Transparent(init);
      var before := RelayRun(init);
      var snapshot := before.buffer + last.data;
      NothingToFilter(Consumed(snapshot), Extract(snapshot).frames, last.owned);
      ConsumedParts(snapshot);
      Chain(before.sent, before.buffer, last.data, Consumed(snapshot), Extract(snapshot).leftover);
    }
  }

  lemma Chain(sent: seq<byte>, buffer: seq<byte>, data: seq<byte>, consumed: seq<byte>, left: seq<byte>)
    requires consumed + left == buffer + data
    ensures (sent + consumed) + left == (sent + buffer) + data
  {
    assert (sent + consumed) + left == sent + (consumed + left);
    assert (sent + buffer) + data == sent + (buffer + data);
  }

  lemma {:induction false} FilteredWithin(forward: seq<byte>, frames: seq<Frame>, owned: seq<bool>)
    ensures Within(Filtered(forward, frames, owned), forward)
    decreases |frames|
  {
    if frames == [] {
      WithinSelf(forward);
    } else if First(owned) && Find(forward, frames[0].raw).Some? {
      CutWithin(forward, Find(forward, frames[0].raw).value, |frames[0].raw|);
      FilteredWithin(DeleteFirst(forward, frames[0].raw), frames[1..], Later(owned));
      WithinTransitive(Filtered(forward, frames, owned), DeleteFirst(forward, frames[0].raw), forward);
    } else {
      FilteredWithin(forward, frames[1..], Later(owned));
    }
  }

  /** What is forwarded, with the buffer, is left when bytes are taken out of buffer and read. */
  lemma ReadWithin(snapshot: seq<byte>, owned: seq<bool>)
    ensures Within(Forwarded(snapshot, owned) + Extract(snapshot).leftover, snapshot)
  {
    ConsumedParts(snapshot);
    FilteredWithin(Consumed(snapshot), Extract(snapshot).frames, owned);
    WithinSelf(Extract(snapshot).leftover);
    var left := Extract(snapshot).leftover;
    WithinAppend(Forwarded(snapshot, owned), Consumed(snapshot), left, left);
  }

  lemma WithinChain(
      sent: seq<byte>, buffer: seq<byte>, received: seq<byte>, data: seq<byte>, forward: seq<byte>, left: seq<byte>)
    requires Within(sent + buffer, received) && Within(forward + left, buffer + data)
    ensures Within((sent + forward) + left, received + data)
  {
    WithinSelf(sent);
    WithinAppend(sent, sent, forward + left, buffer + data);
    WithinSelf(data);
    WithinAppend(sent + buffer, received, data, data);
    Reassociate(sent, forward, left);
    Reassociate(sent, buffer, data);
    WithinTransitive(sent + (forward + left), sent + (buffer + data), received + data);
  }

  /**
   For every run and every ownership: what was forwarded, with the buffer, is what was read with
   some bytes taken out, as many as the owned frames have; and at most 4095 bytes are withheld.
   */
  lemma {:induction false} Conservation(run: seq<Read>)
    ensures var end := RelayRun(run);
      && Within(end.sent + end.buffer, Received(run))
      && |end.sent| + end.removed + |end.buffer| == |Received(run)| && |end.buffer| <= 4095
    decreases |run|
  {
    if run != [] {
      var init, last := run[..|run| - 1], run[|run| - 1];
      Conservation(init);
      var before := RelayRun(init);
      var snapshot := before.buffer + last.data;
      ReadConserves(snapshot, last.owned);
      LeftoverBounded(snapshot);
      ReadWithin(snapshot, last.owned);
      WithinChain(before.sent, before.buffer, Received(init), last.data, Forwarded(snapshot, last.owned),
        Extract(snapshot).leftover);
    }
  }

  // ---- the copies do matter ----

  lemma PayloadInPlace(m: Message)
    requires m.Sendable()
    ensures OccursAt(Encode(m), m.payload, 9)
  {
    var body := Body(m.device, m.func, m.payload);
    assert Encode(m)[2..2 + |body|] == body;
    assert body[7..] == m.payload;
    assert Encode(m)[9..9 + |m.payload|] == body[7..];
  }

  /**
   A frame that is not owned may carry the bytes of an owned one that follows it. The
   relay then cuts the copy out of the first, and the second goes out as it came in.
   */
  lemma CopyIsForwarded(outer: Message, inner: Message) returns (head: seq<byte>)
    requires outer.Sendable() && inner.Sendable() && outer.payload == Encode(inner)
    ensures Extract(Encode(outer) + Encode(inner)) == Extraction([Decoded(outer), Decoded(inner)], [])
    ensures Forwarded(Encode(outer) + Encode(inner), [false, true]) == head + Encode(inner)
    ensures |head| == OVERHEAD
  {
    var a, raw := Encode(outer), Encode(inner);
    TwoFrames(outer, inner);
    AllConsumed(a + raw);
    PayloadInPlace(outer);
    head := CopyDeleted(a, raw);
    FilterSecond(a + raw, Decoded(outer), Decoded(inner));
  }

  lemma AllConsumed(b: seq<byte>)
    requires Extract(b).leftover == []
    ensures Consumed(b) == b
  {
  }

  lemma OccursInFront(a: seq<byte>, raw: seq<byte>, tail: seq<byte>, i: nat)
    requires OccursAt(a, raw, i)
    ensures OccursAt(a + tail, raw, i)
  {
  }

  lemma CopyFound(a: seq<byte>, raw: seq<byte>) returns (i: nat)
    requires OccursAt(a, raw, 9)
    ensures i <= 9 && Find(a + raw, raw) == Some(i)
  {
    OccursInFront(a, raw, raw, 9);
    i := Find(a + raw, raw).value;
  }

  lemma CopyDeleted(a: seq<byte>, raw: seq<byte>) returns (head: seq<byte>)
    requires |a| == |raw| + OVERHEAD && OccursAt(a, raw, 9)
    ensures |head| == OVERHEAD && DeleteFirst(a + raw, raw) == head + raw
  {
    var i := CopyFound(a, raw);
    head := a[..i] + a[i + |raw|..];
    CopyCutOut(a, raw, i);
  }

  lemma CopyCutOut(a: seq<byte>, raw: seq<byte>, i: nat)
    requires i + |raw| <= |a| && Find(a + raw, raw) == Some(i)
    ensures DeleteFirst(a + raw, raw) == (a[..i] + a[i + |raw|..]) + raw
  {
    CutOutOf(a, raw, i, |raw|);
  }

  lemma {:induction false} FilterSecond(b: seq<byte>, f: Frame, g: Frame)
    ensures Filtered(b, [f, g], [false, true]) == DeleteFirst(b, g.raw)
  {
    assert [f, g][1..] == [g] && [g][1..] == [] && [false, true][1..] == [true];
    assert Filtered(b, [g], [true]) == Filtered(DeleteFirst(b, g.raw), [], Later([true]));
  }

  lemma TwoFrames(m: Message, n: Message)
    requires m.Sendable() && n.Sendable()
    ensures Extract(Encode(m) + Encode(n)) == Extraction([Decoded(m), Decoded(n)], [])
  {
    OneFrameInFront(m, Encode(n));
    OneFrameInFront(n, []);
    assert Encode(n) + [] == Encode(n);
    FirstStartMeans([]);
    ExtractTurn([]);
  }
}
