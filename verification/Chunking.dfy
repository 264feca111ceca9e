/**
 The daemon calls `extract_frames` once per socket read. When is the way the stream was
 cut into reads invisible?
 */
module Chunking {
  import opened Bytes
  import opened Frames
  import opened Deframer

  /** Bytes before the first marker do not matter. */
  lemma SkipToStart(b: seq<byte>)
    requires FirstStart(b).Some?
    ensures Extract(b) == Extract(b[FirstStart(b).value..])
  {
    var i := FirstStart(b).value;
    DropToStart(b);
    assert b[i..][0..] == b[i..];
    ExtractTurn(b);
    ExtractTurn(b[i..]);
  }

  // ---- the deframer, by its input alone ----

  /** The payload length in a header. */
  function Announced(c: seq<byte>): nat
    requires |c| >= 9
  {
    256 * c[7] as nat + c[8] as nat
  }

  /** The bytes end as a frame that begins like them should. */
  predicate EndsLikeItsStart(raw: seq<byte>)
    requires |raw| >= 13
  {
    raw[|raw| - 2..] == if raw[0] == 0x7E then [0xE7, 0xE7] else [0xF7, 0xF7]
  }

  lemma StartsHere(c: seq<byte>)
    requires StartAt(c, 0)
    ensures FirstStart(c) == Some(0) && c[0..] == c && TakeTurn(c) == Front(c)
  {
    FirstStartIs(c, 0);
  }

  /** Bytes in front of the first two equal marker bytes are skipped; without any, nothing is kept. */
  lemma SkipsToStart(b: seq<byte>)
    ensures (forall j :: !StartAt(b, j)) ==> Extract(b) == Extraction([], [])
    ensures forall i :: StartAt(b, i) && (forall j :: 0 <= j < i ==> !StartAt(b, j)) ==> Extract(b) == Extract(b[i..])
  {
    FirstStartMeans(b);
    if FirstStart(b).None? {
      NoStart(b);
    } else {
      SkipToStart(b);
    }
  }

  /** An incomplete frame is kept until more comes. */
  lemma WaitsForRest(c: seq<byte>)
    requires StartAt(c, 0) && (|c| < 13 || (Announced(c) <= 4083 && |c| < 13 + Announced(c)))
    ensures Extract(c) == Extraction([], c)
  {
    StartsHere(c);
    ExtractTurn(c);
  }

  /** An impossible length makes the marker void: the search goes on right behind its two bytes. */
  lemma DropsVoidMarker(c: seq<byte>)
    requires StartAt(c, 0) && |c| >= 13 && Announced(c) > 4083
    ensures Extract(c) == Extract(c[2..])
  {
    StartsHere(c);
    ExtractTurn(c);
    JoinNothing(Extract(c[2..]));
  }

  /** Once all its bytes are there, a frame comes out, or is dropped as a whole if it has the wrong end. */
  lemma CutsFrame(c: seq<byte>)
    requires StartAt(c, 0) && |c| >= 13 && Announced(c) <= 4083 && |c| >= 13 + Announced(c)
    ensures var n := 13 + Announced(c);
      if EndsLikeItsStart(c[..n]) then
        ParseFrame(c[..n]).Some? && Extract(c) == Join([ParseFrame(c[..n]).value], Extract(c[n..]))
      else
        Extract(c) == Extract(c[n..])
  {
    var n := 13 + Announced(c);
    TurnCuts(c);
    SegmentFrame(c, n);
    ExtractTurn(c);
    JoinNothing(Extract(c[n..]));
  }

  lemma TurnCuts(c: seq<byte>)
    requires StartAt(c, 0) && |c| >= 13 && Announced(c) <= 4083 && |c| >= 13 + Announced(c)
    ensures TakeTurn(c) == Go(Cut(c[..13 + Announced(c)]), c[13 + Announced(c)..])
  {
    StartsHere(c);
  }

  lemma SegmentFrame(c: seq<byte>, n: nat)
    requires StartAt(c, 0) && |c| >= 13 && n == 13 + Announced(c) <= |c|
    ensures ParseFrame(c[..n]).Some?
    ensures FrameIn(Cut(c[..n])) == if EndsLikeItsStart(c[..n]) then [ParseFrame(c[..n]).value] else []
  {
    ParseNeverFails(c);
    RightEnd(c[..n]);
  }

  lemma RightEnd(raw: seq<byte>)
    requires |raw| >= 13 && StartAt(raw, 0)
    ensures Cut(raw) == if EndsLikeItsStart(raw) then Whole(raw) else Junk(raw)
  {
    assert raw[..2] == [raw[0], raw[1]];
  }

  lemma NoStart(b: seq<byte>)
    requires FirstStart(b).None?
    ensures Extract(b) == Extraction([], [])
  {
    ExtractTurn(b);
  }

  // ---- appending to the buffer ----

  lemma StartAppend(a: seq<byte>, b: seq<byte>)
    requires FirstStart(a).Some?
    ensures FirstStart(a + b) == FirstStart(a)
    ensures (a + b)[FirstStart(a).value..] == a[FirstStart(a).value..] + b
  {
    FirstStartMeans(a);
    forall j | 0 <= j < FirstStart(a).value
      ensures !StartAt(a + b, j)
    {
      assert !StartAt(a, j);
    }
    FirstStartIs(a + b, FirstStart(a).value);
  }

  lemma FrontAppend(c: seq<byte>, b: seq<byte>)
    requires Front(c).Go?
    ensures Front(c + b) == Front(c).(rest := Front(c).rest + b)
  {
    assert (c + b)[7] == c[7] && (c + b)[8] == c[8];
    var total := FrameLength(c);
    if total > MAX_FRAME {
      assert (c + b)[..2] == c[..2] && (c + b)[2..] == c[2..] + b;
    } else {
      assert (c + b)[..total] == c[..total] && (c + b)[total..] == c[total..] + b;
    }
  }

  /** An iteration that goes on does the same on a longer buffer. */
  lemma TurnAppend(a: seq<byte>, b: seq<byte>)
    requires TakeTurn(a).Go?
    ensures TakeTurn(a + b) == TakeTurn(a).(rest := TakeTurn(a).rest + b)
  {
    StartAppend(a, b);
    FrontAppend(a[FirstStart(a).value..], b);
  }

  lemma HaltAppend(a: seq<byte>, b: seq<byte>)
    requires TakeTurn(a).Halt?
    ensures Extract(a + b) == Extract(TakeTurn(a).residual + b)
  {
    if FirstStart(a).Some? {
      StartAppend(a, b);
      SkipToStart(a + b);
    }
  }

  /** The loop could always be resumed from the buffer at which it stopped. */
  lemma {:induction false} ResumeFromResidual(a: seq<byte>, b: seq<byte>)
    ensures Extract(a + b) == Join(Extract(a).frames, Extract(Split(a).residual + b))
    decreases |a|
  {
    ExtractTurn(a);
    TurnConserves(a);
    match TakeTurn(a)
    case Halt(residual) =>
      HaltAppend(a, b);
      JoinNothing(Extract(residual + b));
    case Go(segment, rest) =>
      TurnAppend(a, b);
      ExtractTurn(a + b);
      ResumeFromResidual(rest, b);
      JoinAssoc(FrameIn(segment), Extract(rest).frames, Extract(Split(rest).residual + b));
  }

  lemma JoinNothing(e: Extraction)
    ensures Join([], e) == e
  {
  }

  // ---- the half marker that `buffer.clear()` forgets ----

  /** The loop stopped for want of a marker on bytes that end in half of one. */
  predicate Dangling(a: seq<byte>) {
    var r := Split(a).residual;
    r != [] && FirstStart(r).None? && IsMarker(r[|r| - 1])
  }

  predicate Completes(r: seq<byte>, b: seq<byte>) {
    r != [] && b != [] && IsMarker(b[0]) && r[|r| - 1] == b[0]
  }

  lemma NoneBefore(r: seq<byte>, b: seq<byte>)
    requires FirstStart(r).None? && !Completes(r, b)
    ensures forall j :: 0 <= j < |r| ==> !StartAt(r + b, j)
  {
    FirstStartMeans(r);
    forall j | 0 <= j < |r|
      ensures !StartAt(r + b, j)
    {
      assert !StartAt(r, j);
    }
  }

  lemma StartShifts(r: seq<byte>, b: seq<byte>)
    ensures forall j :: |r| <= j ==> (StartAt(r + b, j) <==> StartAt(b, j - |r|))
  {
  }

  lemma StartBeyond(r: seq<byte>, b: seq<byte>)
    requires FirstStart(r).None? && !Completes(r, b)
    ensures match FirstStart(b)
      case Some(i) => FirstStart(r + b) == Some(|r| + i)
      case None => FirstStart(r + b).None?
  {
    NoneBefore(r, b);
    StartShifts(r, b);
    FirstStartMeans(b);
    match FirstStart(b)
    case Some(i) =>
      forall j | |r| <= j < |r| + i
        ensures !StartAt(r + b, j)
      {
        assert !StartAt(b, j - |r|);
      }
      assert StartAt(r + b, |r| + i);
      FirstStartIs(r + b, |r| + i);
    case None =>
      FirstStartMeans(r + b);
      if FirstStart(r + b).Some? {
        assert !StartAt(b, FirstStart(r + b).value - |r|);
      }
  }

  lemma DropPrefix(r: seq<byte>, b: seq<byte>, i: nat)
    requires i <= |b|
    ensures (r + b)[|r| + i..] == b[i..]
  {
  }

  lemma SameTail(x: seq<byte>, y: seq<byte>)
    requires FirstStart(x).Some? && FirstStart(y).Some?
    requires x[FirstStart(x).value..] == y[FirstStart(y).value..]
    ensures Extract(x) == Extract(y)
  {
    SkipToStart(x);
    SkipToStart(y);
  }

  lemma MarkerlessPrefix(r: seq<byte>, b: seq<byte>)
    requires FirstStart(r).None? && !Completes(r, b)
    ensures Extract(r + b) == Extract(b)
  {
    StartBeyond(r, b);
    match FirstStart(b)
    case Some(i) =>
      DropPrefix(r, b, i);
      SameTail(r + b, b);
    case None =>
      NoStart(b);
      NoStart(r + b);
  }

  lemma HalfMarker(r: seq<byte>, b: seq<byte>)
    requires FirstStart(r).None? && Completes(r, b)
    ensures Extract(r + b) == Extract([b[0]] + b)
  {
    FirstStartMeans(r);
    forall j | 0 <= j < |r| - 1
      ensures !StartAt(r + b, j)
    {
      assert !StartAt(r, j);
    }
    FirstStartIs(r + b, |r| - 1);
    LastAndRest(r, b);
    SkipToStart(r + b);
  }

  lemma LastAndRest(r: seq<byte>, b: seq<byte>)
    requires r != []
    ensures (r + b)[|r| - 1..] == [r[|r| - 1]] + b
  {
  }

  /** Two reads act like one. */
  predicate Seamless(a: seq<byte>, b: seq<byte>) {
    Extract(a + b) == Join(Extract(a).frames, Extract(Extract(a).leftover + b))
  }

  lemma ResidualEnd(a: seq<byte>)
    ensures var r := Split(a).residual;
      r != [] ==> a != [] && a[|a| - 1] == r[|r| - 1]
  {
    SplitConserves(a);
    LastOf(a, BytesOf(Split(a).segments), Split(a).residual);
  }

  lemma LastOf(a: seq<byte>, x: seq<byte>, y: seq<byte>)
    requires x + y == a
    ensures y != [] ==> a != [] && a[|a| - 1] == y[|y| - 1]
  {
  }

  /** Reads may be cut anywhere except inside a marker that the first read left dangling. */
  lemma ChunkIndependence(a: seq<byte>, b: seq<byte>)
    requires !(Dangling(a) && Completes(a, b))
    ensures Seamless(a, b)
  {
    var r := Split(a).residual;
    ResumeFromResidual(a, b);
    ResidualEnd(a);
    if FirstStart(r).None? {
      MarkerlessPrefix(r, b);
      assert [] + b == b;
    }
  }

  lemma LoneMarker(x: byte)
    requires IsMarker(x)
    ensures Extract([x]) == Extraction([], []) && Extract([x, x]) == Extraction([], [x, x])
  {
    FirstStartMeans([x]);
    NoStart([x]);
    FirstStartIs([x, x], 0);
    assert [x, x][0..] == [x, x];
    ExtractTurn([x, x]);
  }

  lemma DanglingCompleted(a: seq<byte>)
    requires Dangling(a)
    ensures a != [] && Extract(a).leftover == [] && Extract(a + [a[|a| - 1]]).leftover != []
  {
    ResidualEnd(a);
    var r, last := Split(a).residual, a[|a| - 1];
    MarkerCompleted(r);
    CompletedBehind(a, r, last);
  }

  lemma CompletedBehind(a: seq<byte>, r: seq<byte>, last: byte)
    requires r == Split(a).residual && Extract(r + [last]).leftover != []
    ensures Extract(a + [last]).leftover != []
  {
    ResumeFromResidual(a, [last]);
  }

  lemma MarkerCompleted(r: seq<byte>)
    requires r != [] && FirstStart(r).None? && IsMarker(r[|r| - 1])
    ensures Extract(r + [r[|r| - 1]]).leftover != []
  {
    var x := r[|r| - 1];
    HalfMarker(r, [x]);
    assert [x] + [x] == [x, x];
    LoneMarker(x);
  }

  lemma NothingBefore(b: seq<byte>)
    ensures [] + b == b
  {
  }

  /** When it does dangle, the very next byte already makes the cut visible. */
  lemma DanglingIsVisible(a: seq<byte>)
    requires Dangling(a)
    ensures a != [] && !Seamless(a, [a[|a| - 1]])
  {
    DanglingCompleted(a);
    ResidualEnd(a);
    NothingBefore([a[|a| - 1]]);
    LoneMarker(a[|a| - 1]);
  }

  /** Exactly: a cut after `a` is invisible to every continuation iff nothing dangles. */
  lemma CutInvisibleIff(a: seq<byte>)
    ensures (forall b :: Seamless(a, b)) <==> !Dangling(a)
  {
    if Dangling(a) {
      DanglingIsVisible(a);
    } else {
      forall b ensures Seamless(a, b) { ChunkIndependence(a, b); }
    }
  }

  // ---- whole runs ----

  function Flatten(chunks: seq<seq<byte>>): seq<byte> {
    if chunks == [] then [] else Flatten(chunks[..|chunks| - 1]) + chunks[|chunks| - 1]
  }

  /** The session's loop: extend the buffer with each read, extract, keep the rest. */
  function Run(chunks: seq<seq<byte>>): Extraction {
    if chunks == [] then
      Extraction([], [])
    else
      var before := Run(chunks[..|chunks| - 1]);
      Join(before.frames, Extract(before.leftover + chunks[|chunks| - 1]))
  }

  /** Some read ends inside a marker that the loop then forgets. */
  predicate BadCut(chunks: seq<seq<byte>>, k: nat)
    requires k < |chunks|
  {
    var read := Flatten(chunks[..k]);
    Dangling(read) && Completes(read, chunks[k])
  }

  lemma {:induction false} RunIsExtract(chunks: seq<seq<byte>>)
    requires forall k :: 0 <= k < |chunks| ==> !BadCut(chunks, k)
    ensures Run(chunks) == Extract(Flatten(chunks))
    decreases |chunks|
  {
    if chunks == [] {
      FirstStartMeans([]);
      NoStart([]);
    } else {
      var n := |chunks| - 1;
      var init := chunks[..n];
      forall k | 0 <= k < n
        ensures !BadCut(init, k)
      {
        assert init[..k] == chunks[..k];
        assert !BadCut(chunks, k);
      }
      RunIsExtract(init);
      assert !BadCut(chunks, n);
      ChunkIndependence(Flatten(init), chunks[n]);
    }
  }
}
