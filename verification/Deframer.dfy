/**
 `extract_frames`: the resynchronising loop that cuts frames out of a growing buffer.
 `Split` says what the loop makes of a buffer; `StreamBuffer.ExtractFrames` is the loop.
 */
module Deframer {
  import opened Bytes
  import opened Crc
  import opened Frames
  import opened Search

  predicate IsMarker(b: byte) {
    b == 0x7E || b == 0x7F
  }

  /** Two equal marker bytes at `i`. */
  predicate StartAt(b: seq<byte>, i: int) {
    0 <= i && i + 1 < |b| && IsMarker(b[i]) && b[i] == b[i + 1]
  }

  function Earlier(a: Option<nat>, b: Option<nat>): Option<nat> {
    if a.None? then b
    else if b.None? then a
    else if a.value <= b.value then a else b
  }

  /** The smaller of the two `find` results. */
  function FirstStart(b: seq<byte>): (r: Option<nat>)
    ensures r.Some? ==> r.value + 2 <= |b|
  {
    Earlier(Find(b, START_7E), Find(b, START_7F))
  }

  /** It is the first place where two equal marker bytes stand side by side. */
  lemma FirstStartMeans(b: seq<byte>)
    ensures match FirstStart(b)
      case Some(i) => StartAt(b, i) && forall j :: 0 <= j < i ==> !StartAt(b, j)
      case None => forall j :: !StartAt(b, j)
  {
    forall i | StartAt(b, i) || OccursAt(b, START_7E, i) || OccursAt(b, START_7F, i)
      ensures StartAt(b, i) <==> OccursAt(b, START_7E, i) || OccursAt(b, START_7F, i)
    {
      assert b[i..i + 2] == [b[i], b[i + 1]];
    }
  }

  lemma FirstStartIs(b: seq<byte>, i: nat)
    requires StartAt(b, i) && forall j :: 0 <= j < i ==> !StartAt(b, j)
    ensures FirstStart(b) == Some(i)
  {
    FirstStartMeans(b);
  }

  /** A buffer that begins with a marker is kept when the loop stops. */
  lemma DropToStart(b: seq<byte>)
    requires FirstStart(b).Some?
    ensures FirstStart(b[FirstStart(b).value..]) == Some(0)
  {
  }

  // ---- what the loop makes of a buffer ----

  /** A stretch of the buffer the loop removes: bytes it skips, or a frame it returns. */
  datatype Segment = Junk(bytes: seq<byte>) | Whole(bytes: seq<byte>)

  /** One iteration on a buffer: it stops there, or it removes a segment and goes on. */
  datatype Turn = Halt(residual: seq<byte>) | Go(segment: Segment, rest: seq<byte>)

  function EndFor(start: seq<byte>): seq<byte> {
    if start == START_7E then END_7E else END_7F
  }

  function FrameLength(c: seq<byte>): nat
    requires |c| >= OVERHEAD
  {
    OVERHEAD + U16(c[7], c[8])
  }

  /** The segment made of `raw`, once all its bytes are there. */
  function Cut(raw: seq<byte>): Segment
    requires |raw| >= OVERHEAD
  {
    if raw[|raw| - 2..] != EndFor(raw[..2]) then Junk(raw) else Whole(raw)
  }

  /** An iteration, once the buffer begins with a marker. */
  function Front(c: seq<byte>): Turn {
    if |c| < OVERHEAD then
      Halt(c)
    else if FrameLength(c) > MAX_FRAME then
      Go(Junk(c[..2]), c[2..])
    else if |c| < FrameLength(c) then
      Halt(c)
    else
      Go(Cut(c[..FrameLength(c)]), c[FrameLength(c)..])
  }

  function TakeTurn(b: seq<byte>): Turn {
    var start := FirstStart(b);
    if start.None? then Halt(b) else Front(b[start.value..])
  }

  /** What the iteration drops in front of the marker. */
  function Skipped(b: seq<byte>): seq<byte> {
    var start := FirstStart(b);
    if start.None? then [] else b[..start.value]
  }

  ghost predicate Conserves(t: Turn, c: seq<byte>) {
    match t
    case Halt(residual) => c == residual
    case Go(segment, rest) => c == segment.bytes + rest && |segment.bytes| >= 2
  }

  lemma FrontConserves(c: seq<byte>)
    ensures Conserves(Front(c), c)
  {
  }

  lemma TurnConserves(b: seq<byte>)
    ensures match TakeTurn(b)
      case Halt(residual) => b == Skipped(b) + residual
      case Go(segment, rest) => b == Skipped(b) + (segment.bytes + rest) && |rest| + 2 <= |b|
  {
    var start := FirstStart(b);
    if start.Some? {
      FrontConserves(b[start.value..]);
      assert b == b[..start.value] + b[start.value..];
    }
  }

  /** The removed segments in order, and the buffer as it was when the loop stopped. */
  datatype Parsed = Parsed(segments: seq<Segment>, residual: seq<byte>)

  function Split(b: seq<byte>): Parsed
    decreases |b|
  {
    TurnConserves(b);
    match TakeTurn(b)
    case Halt(residual) => Parsed([Junk(Skipped(b))], residual)
    case Go(segment, rest) =>
      var later := Split(rest);
      Parsed([Junk(Skipped(b)), segment] + later.segments, later.residual)
  }

  /** The frame a segment yields. */
  function FrameIn(s: Segment): seq<Frame> {
    if s.Junk? then
      []
    else
      var parsed := ParseFrame(s.bytes);
      if parsed.None? then [] else [parsed.value]
  }

  function FramesOf(segments: seq<Segment>): seq<Frame> {
    if segments == [] then [] else FrameIn(segments[0]) + FramesOf(segments[1..])
  }

  function BytesOf(segments: seq<Segment>): seq<byte> {
    if segments == [] then [] else segments[0].bytes + BytesOf(segments[1..])
  }

  /** The loop clears the buffer when it stops for want of a marker. */
  function Leftover(residual: seq<byte>): seq<byte> {
    if FirstStart(residual).None? then [] else residual
  }

  datatype Extraction = Extraction(frames: seq<Frame>, leftover: seq<byte>)

  function Outcome(p: Parsed): Extraction {
    Extraction(FramesOf(p.segments), Leftover(p.residual))
  }

  function Extract(b: seq<byte>): Extraction {
    Outcome(Split(b))
  }

  function Join(frames: seq<Frame>, e: Extraction): Extraction {
    Extraction(frames + e.frames, e.leftover)
  }

  lemma {:induction false} FramesOfAppend(s: seq<Segment>, t: seq<Segment>)
    ensures FramesOf(s + t) == FramesOf(s) + FramesOf(t)
    decreases |s|
  {
    if s == [] {
      assert s + t == t;
    } else {
      assert (s + t)[1..] == s[1..] + t;
      FramesOfAppend(s[1..], t);
    }
  }

  lemma {:induction false} BytesOfAppend(s: seq<Segment>, t: seq<Segment>)
    ensures BytesOf(s + t) == BytesOf(s) + BytesOf(t)
    decreases |s|
  {
    if s == [] {
      assert s + t == t;
    } else {
      assert (s + t)[1..] == s[1..] + t;
      BytesOfAppend(s[1..], t);
    }
  }

  lemma TwoSegments(skipped: seq<byte>, s: Segment)
    ensures FramesOf([Junk(skipped), s]) == FrameIn(s) && BytesOf([Junk(skipped), s]) == skipped + s.bytes
    ensures FramesOf([Junk(skipped)]) == [] && BytesOf([Junk(skipped)]) == skipped
  {
    var junk := Junk(skipped);
    assert [junk, s][1..] == [s] && [s][1..] == [] && [junk][1..] == [];
    assert FramesOf([s]) == FrameIn(s) + FramesOf([]) && BytesOf([s]) == s.bytes + BytesOf([]);
    assert FramesOf([junk]) == [] + FramesOf([]) && BytesOf([junk]) == skipped + BytesOf([]);
    assert FramesOf([junk, s]) == [] + FramesOf([s]) && BytesOf([junk, s]) == skipped + BytesOf([s]);
  }

  /** Extraction, one iteration at a time. */
  lemma ExtractTurn(b: seq<byte>)
    ensures match TakeTurn(b)
      case Halt(residual) => Extract(b) == Extraction([], Leftover(residual))
      case Go(segment, rest) => Extract(b) == Join(FrameIn(segment), Extract(rest))
  {
    var skipped := Skipped(b);
    match TakeTurn(b)
    case Halt(residual) =>
      TwoSegments(skipped, Junk([]));
      assert Split(b) == Parsed([Junk(skipped)], residual);
      assert Outcome(Split(b)) == Extraction([], Leftover(residual));
    case Go(segment, rest) =>
      TwoSegments(skipped, segment);
      FramesOfAppend([Junk(skipped), segment], Split(rest).segments);
      assert Split(b) == Parsed([Junk(skipped), segment] + Split(rest).segments, Split(rest).residual);
      assert Outcome(Split(b)) == Join(FrameIn(segment), Outcome(Split(rest)));
  }

  /** The internal `parse_frame` never raises. */
  lemma ParseNeverFails(c: seq<byte>)
    requires |c| >= OVERHEAD && FrameLength(c) <= |c|
    ensures ParseFrame(c[..FrameLength(c)]).Some?
  {
  }

  // ---- the loop itself ----

  class StreamBuffer {
    var data: seq<byte>

    constructor ()
      ensures data == []
    {
      data := [];
    }

    /** First half of the loop body: drop what precedes the first marker. */
    method DropToMarker() returns (found: bool)
      modifies this
      ensures found == FirstStart(old(data)).Some?
      ensures data == (if found then old(data)[FirstStart(old(data)).value..] else [])
    {
      var first7E := Find(data, START_7E);
      var first7F := Find(data, START_7F);
      var start := Earlier(first7E, first7F);
      if start.None? {
        data := [];
        return false;
      }
      if start.value > 0 {
        data := data[start.value..];
      }
      return true;
    }

    /** Second half, up to the parse: stop, or remove a bad marker or a whole frame. */
    method CutFront() returns (stop: bool, complete: Option<seq<byte>>)
      modifies this
      ensures match Front(old(data))
        case Halt(residual) => stop && complete.None? && data == residual
        case Go(segment, rest) =>
          && !stop && data == rest
          && complete == (if segment.Whole? then Some(segment.bytes) else None)
    {
      if |data| < OVERHEAD {
        return true, None;
      }
      var end := if data[..2] == START_7E then END_7E else END_7F;
      var total := OVERHEAD + U16(data[7], data[8]);
      if total < OVERHEAD || total > MAX_FRAME {
        data := data[2..];
        return false, None;
      }
      if |data| < total {
        return true, None;
      }
      var raw := data[..total];
      assert raw[..2] == data[..2];
      data := data[total..];
      if raw[|raw| - 2..] != end {
        return false, None;
      }
      return false, Some(raw);
    }

    method ExtractFrames() returns (frames: seq<Frame>)
      modifies this
      ensures Extraction(frames, data) == Extract(old(data))
    {
      frames := [];
      while true
        invariant Extract(old(data)) == Join(frames, Extract(data))
        decreases |data|
      {
        IterationProgress(old(data), frames, data);
        var found := DropToMarker();
        if !found {
          return;
        }
        ghost var turn := Front(data);
        var stop, raw := CutFront();
        if stop {
          return;
        }
        assert frames + [] == frames;
        if raw.Some? {
          var parsed := ParseFrame(raw.value);
          if parsed.Some? {
            frames := frames + [parsed.value];
          }
        }
      }
    }
  }

  /** Each iteration keeps account of the buffer the loop started with. */
  lemma IterationProgress(original: seq<byte>, frames: seq<Frame>, b: seq<byte>)
    requires Extract(original) == Join(frames, Extract(b))
    ensures match FirstStart(b)
      case None => Extract(original) == Extraction(frames, [])
      case Some(i) =>
        match Front(b[i..])
        case Halt(residual) => Extract(original) == Extraction(frames, residual)
        case Go(segment, rest) =>
          Extract(original) == Join(frames + FrameIn(segment), Extract(rest)) && |rest| < |b|
  {
    ExtractTurn(b);
    TurnConserves(b);
    match TakeTurn(b)
    case Halt(_) =>
      if FirstStart(b).Some? { DropToStart(b); }
    case Go(segment, rest) =>
      JoinAssoc(frames, FrameIn(segment), Extract(rest));
  }

  lemma JoinAssoc(f: seq<Frame>, g: seq<Frame>, e: Extraction)
    ensures Join(f, Join(g, e)) == Join(f + g, e)
  {
  }

  // ---- conservation ----

  /** The segments and the residual are the buffer, cut up but otherwise untouched. */
  lemma {:induction false} SplitConserves(b: seq<byte>)
    ensures BytesOf(Split(b).segments) + Split(b).residual == b
    decreases |b|
  {
    TurnConserves(b);
    var skipped := Skipped(b);
    match TakeTurn(b)
    case Halt(_) =>
      TwoSegments(skipped, Junk([]));
    case Go(segment, rest) =>
      TwoSegments(skipped, segment);
      var later := Split(rest);
      BytesOfAppend([Junk(skipped), segment], later.segments);
      SplitConserves(rest);
      Reassociate(skipped + segment.bytes, BytesOf(later.segments), later.residual);
      Reassociate(skipped, segment.bytes, rest);
  }

  /** The loop stops on a buffer without a marker, or on a short one that begins with one. */
  lemma {:induction false} ResidualShape(b: seq<byte>)
    ensures var r := Split(b).residual;
      FirstStart(r).None? || (FirstStart(r) == Some(0) && |r| < MAX_FRAME)
    decreases |b|
  {
    TurnConserves(b);
    match TakeTurn(b)
    case Halt(residual) =>
      if FirstStart(b).Some? { DropToStart(b); }
    case Go(_, rest) =>
      ResidualShape(rest);
  }

  /**
   What stays in the buffer is a suffix of it, at most 4095 bytes long, and begins with
   a marker unless it is empty.
   */
  lemma LeftoverBounded(b: seq<byte>)
    ensures var left := Extract(b).leftover;
      && |left| <= 4095
      && |left| <= |b| && b[|b| - |left|..] == left
      && (left == [] || StartAt(left, 0))
  {
    ResidualShape(b);
    SplitConserves(b);
    var p := Split(b);
    FirstStartMeans(p.residual);
    assert b[|BytesOf(p.segments)|..] == p.residual;
  }
}
