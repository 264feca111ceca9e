/**
 Whether the unowned frames of a stream arrive can depend on how the stream is divided into
 reads, since each read is filtered by itself. Exactly when do they arrive however it is divided?
 */
module RelayDivisions {
  import opened Bytes
  import opened Frames
  import opened Search
  import opened Deframer
  import opened Chunking
  import opened FrameStream
  import opened Relay
  import opened RelayFrames
  import opened RelayRuns

  /** Each owned frame is undisturbed by the unowned frames in front of it, from any frame on. */
  predicate PlacedFromAny(ms: seq<Message>, owned: seq<bool>)
    requires AllSendable(ms)
    decreases |ms|
  {
    Placed([], ms, owned) && (ms == [] || PlacedFromAny(ms[1..], Later(owned)))
  }

  /** However the frames are divided, those that are not owned arrive. */
  ghost predicate ArriveAlways(ms: seq<Message>, owned: seq<bool>)
    requires AllSendable(ms)
  {
    forall run :: Divides(ms, run) && OwnedIn(run) == owned ==>
      Extract(RelayRun(run).sent) == Extraction(DecodedAll(Unowned(ms, owned)), [])
  }

  // ---- sufficient ----

  lemma {:induction false} PlacedFront(kept: seq<byte>, a: seq<Message>, b: seq<Message>, owned: seq<bool>)
    requires AllSendable(a) && AllSendable(b) && Placed(kept, a + b, owned)
    ensures Placed(kept, a, owned)
    decreases |b|
  {
    if b == [] {
      assert a + b == a;
    } else {
      var init, m := b[..|b| - 1], b[|b| - 1];
      assert a + b == (a + init) + [m];
      PlacedLast(kept, a + init, m, owned);
      PlacedFront(kept, a, init, owned);
    }
  }

  lemma NextPlaced(ms: seq<Message>, owned: seq<bool>)
    requires AllSendable(ms) && ms != [] && PlacedFromAny(ms, owned)
    ensures PlacedFromAny(ms[1..], Later(owned))
  {
  }

  lemma WithoutFirst<T>(a: seq<T>, b: seq<T>)
    requires a != []
    ensures (a + b)[1..] == a[1..] + b
  {
  }

  lemma {:induction false} PlacedBehind(a: seq<Message>, b: seq<Message>, owned: seq<bool>, more: seq<bool>)
    requires AllSendable(a) && AllSendable(b) && |owned| == |a| && PlacedFromAny(a + b, owned + more)
    ensures PlacedFromAny(b, more)
    decreases |a|
  {
    if a == [] {
      assert a + b == b && owned + more == more;
    } else {
      NextPlaced(a + b, owned + more);
      WithoutFirst(a, b);
      WithoutFirst(owned, more);
      PlacedBehind(a[1..], b, owned[1..], more);
    }
  }

  /** Only as many answers matter as there are frames. */
  lemma {:induction false} PlacedByAnswers(kept: seq<byte>, ms: seq<Message>, owned: seq<bool>, more: seq<bool>)
    requires AllSendable(ms) && Placed(kept, ms, Answers(owned, |ms|) + more)
    ensures Placed(kept, ms, owned)
    decreases |ms|
  {
    if ms != [] {
      var answers := Answers(owned, |ms|) + more;
      assert answers[0] == First(owned) && answers[1..] == Answers(Later(owned), |ms[1..]|) + more;
      PlacedByAnswers(if First(owned) then kept else kept + Encode(ms[0]), ms[1..], Later(owned), more);
    }
  }

  /** The frames of one read. */
  lemma Window(
      a: seq<Message>, b: seq<Message>, c: seq<Message>, before: seq<bool>, owned: seq<bool>, more: seq<bool>)
    requires AllSendable(a) && AllSendable(b) && AllSendable(c) && |before| == |a|
    requires PlacedFromAny(a + (b + c), before + (Answers(owned, |b|) + more))
    ensures FramesPlaced([], DecodedAll(b), owned)
  {
    PlacedBehind(a, b + c, before, Answers(owned, |b|) + more);
    PlacedFront([], b, c, Answers(owned, |b|) + more);
    PlacedByAnswers([], b, owned, more);
    PlacedAsFrames([], b, owned);
  }

  lemma Behind<T>(s: seq<T>, a: seq<T>, b: seq<T>) returns (c: seq<T>)
    requires a + b <= s
    ensures s == a + (b + c)
  {
    c := s[|a + b|..];
    Reassociate(a, b, c);
  }

  lemma WindowIn(
      ms: seq<Message>, owned: seq<bool>, a: seq<Message>, b: seq<Message>, before: seq<bool>, last: seq<bool>)
    requires AllSendable(ms) && PlacedFromAny(ms, owned)
    requires AllSendable(a) && AllSendable(b) && |before| == |a|
    requires a + b <= ms && before + Answers(last, |b|) <= owned
    ensures FramesPlaced([], DecodedAll(b), last)
  {
    var c := Behind(ms, a, b);
    var more := Behind(owned, before, Answers(last, |b|));
    SendableBehind(a, b, c);
    Window(a, b, c, before, last, more);
  }

  lemma SendableBehind(a: seq<Message>, b: seq<Message>, c: seq<Message>)
    requires AllSendable(a + (b + c))
    ensures AllSendable(c)
  {
    forall i | 0 <= i < |c|
      ensures c[i].Sendable()
    {
      assert (a + (b + c))[|a| + (|b| + i)] == c[i];
    }
  }

  /** The frames of the read that takes the relay from `before` to `after`. */
  lemma {:induction false} ReadPlaced(
      ms: seq<Message>, owned: seq<bool>, chunks: seq<seq<byte>>, read: Read, answered: seq<bool>,
      before: seq<Message>, after: seq<Message>, part: seq<byte>)
    requires AllSendable(ms) && PlacedFromAny(ms, owned)
    requires AllSendable(before) && AllSendable(after) && before <= ms && after <= ms && |answered| == |before|
    requires StandsAt(chunks, before, Run(chunks).leftover) && StandsAt(chunks + [read.data], after, part)
    requires answered + Answers(read.owned, |Extract(Run(chunks).leftover + read.data).frames|) <= owned
    ensures FramesPlaced([], Extract(Run(chunks).leftover + read.data).frames, read.owned)
  {
    BothPrefixes(ms, before, after);
    var ns := NextRead(chunks, read.data, before, after, part);
    WindowIn(ms, owned, before, ns, answered, read.owned);
  }

  lemma LastReadPlaced(
      ms: seq<Message>, owned: seq<bool>, run: seq<Read>, before: seq<Message>, left: seq<byte>,
      after: seq<Message>, part: seq<byte>)
    requires AllSendable(ms) && PlacedFromAny(ms, owned) && run != [] && OwnedIn(run) <= owned
    requires AllSendable(before) && AllSendable(after) && before <= ms && after <= ms
    requires Through(run[..|run| - 1], before, left) && StandsAt(Datas(run), after, part)
    ensures FramesPlaced([], LastFrames(run), run[|run| - 1].owned)
  {
    var init, last := run[..|run| - 1], run[|run| - 1];
    LastOfRun(run);
    ReadPlaced(ms, owned, Datas(init), last, OwnedIn(init), before, after, part);
  }

  lemma {:induction false} EveryReadPlaced(ms: seq<Message>, owned: seq<bool>, run: seq<Read>)
    requires AllSendable(ms) && PlacedFromAny(ms, owned) && OwnedIn(run) <= owned
    requires Received(run) <= EncodeAll(ms) && CleanCuts(ms, Datas(run))
    ensures ReadsPlaced(run)
    decreases |run|
  {
    if run != [] {
      var init := run[..|run| - 1];
      InitInStream(ms, run);
      LastOfRun(run);
      EveryReadPlaced(ms, owned, init);
      var before, left := SentSoFar(ms, init);
      BufferIsLeftover(run);
      var after, part := Stands(ms, Datas(run));
      LastReadPlaced(ms, owned, run, before, left, after, part);
    }
  }

  lemma PlacedArrives(ms: seq<Message>, owned: seq<bool>, run: seq<Read>)
    requires AllSendable(ms) && PlacedFromAny(ms, owned) && Divides(ms, run) && OwnedIn(run) == owned
    ensures Extract(RelayRun(run).sent) == Extraction(DecodedAll(Unowned(ms, owned)), [])
  {
    DivisionIsClean(ms, run);
    EveryReadPlaced(ms, owned, run);
    UnownedArrive(ms, run);
  }

  // ---- necessary ----

  lemma {:induction false} AnswersAre(owned: seq<bool>, more: seq<bool>)
    ensures Answers(owned + more, |owned|) == owned
    decreases |owned|
  {
    if owned != [] {
      assert (owned + more)[1..] == owned[1..] + more;
      AnswersAre(owned[1..], more);
    }
  }

  /** Frames in three groups with their answers. */
  datatype Groups = Groups(
    a: seq<Message>, b: seq<Message>, c: seq<Message>, oa: seq<bool>, ob: seq<bool>, oc: seq<bool>) {
    predicate Fit() {
      AllSendable(a) && AllSendable(b) && AllSendable(c) && |oa| == |a| && |ob| == |b| && |oc| == |c|
    }

    function All(): (ms: seq<Message>)
      requires Fit()
      ensures AllSendable(ms)
    {
      (a + b) + c
    }

    function Owned(): seq<bool> {
      (oa + ob) + oc
    }
  }

  /** A read for each group; the answers for later frames do no harm. */
  function ReadsOf(g: Groups): seq<Read>
    requires g.Fit()
  {
    [Read(EncodeAll(g.a), g.oa + []), Read(EncodeAll(g.b), g.ob + g.oc), Read(EncodeAll(g.c), g.oc + [])]
  }

  /** Some reads of whole frames: what was sent, and the answers. */
  ghost predicate WholeReads(run: seq<Read>, sent: seq<byte>, answers: seq<bool>) {
    RelayRun(run).buffer == [] && RelayRun(run).sent == sent && OwnedIn(run) == answers
  }

  lemma OneWholeRead(run: seq<Read>, sent: seq<byte>, answers: seq<bool>, ms: seq<Message>, owned: seq<bool>)
    requires AllSendable(ms) && WholeReads(run, sent, answers)
    ensures WholeReads(run + [Read(EncodeAll(ms), owned)], sent + Forwarded(EncodeAll(ms), owned),
        answers + Answers(owned, |ms|))
  {
    var more := run + [Read(EncodeAll(ms), owned)];
    assert more[..|more| - 1] == run && [] + EncodeAll(ms) == EncodeAll(ms);
    StreamRoundTrip(ms);
    DecodedCount(ms);
  }

  lemma NoWholeRead()
    ensures WholeReads([], [], [])
  {
  }

  lemma NothingInFront(sent: seq<byte>, answers: seq<bool>)
    ensures [] + sent == sent && [] + answers == answers
  {
  }

  lemma ThreeWholeReads(
      a: seq<Message>, b: seq<Message>, c: seq<Message>, oa: seq<bool>, ob: seq<bool>, oc: seq<bool>)
    requires AllSendable(a) && AllSendable(b) && AllSendable(c)
    ensures WholeReads((([] + [Read(EncodeAll(a), oa)]) + [Read(EncodeAll(b), ob)]) + [Read(EncodeAll(c), oc)],
        (Forwarded(EncodeAll(a), oa) + Forwarded(EncodeAll(b), ob)) + Forwarded(EncodeAll(c), oc),
        (Answers(oa, |a|) + Answers(ob, |b|)) + Answers(oc, |c|))
  {
    NoWholeRead();
    OneWholeRead([], [], [], a, oa);
    var sent, answers := Forwarded(EncodeAll(a), oa), Answers(oa, |a|);
    NothingInFront(sent, answers);
    var one := [] + [Read(EncodeAll(a), oa)];
    OneWholeRead(one, sent, answers, b, ob);
    sent, answers := sent + Forwarded(EncodeAll(b), ob), answers + Answers(ob, |b|);
    OneWholeRead(one + [Read(EncodeAll(b), ob)], sent, answers, c, oc);
  }

  lemma ThreeInARow(first: Read, second: Read, third: Read)
    ensures (([] + [first]) + [second]) + [third] == [first, second, third]
  {
  }

  lemma ThreeReads(g: Groups)
    requires g.Fit()
    ensures var run := ReadsOf(g);
      && RelayRun(run).sent == (Forwarded(EncodeAll(g.a), g.oa + []) + Forwarded(EncodeAll(g.b), g.ob + g.oc))
        + Forwarded(EncodeAll(g.c), g.oc + [])
      && OwnedIn(run) == g.Owned()
  {
    ThreeWholeReads(g.a, g.b, g.c, g.oa + [], g.ob + g.oc, g.oc + []);
    ThreeInARow(
      Read(EncodeAll(g.a), g.oa + []), Read(EncodeAll(g.b), g.ob + g.oc), Read(EncodeAll(g.c), g.oc + []));
    AnswersAre(g.oa, []);
    AnswersAre(g.ob, g.oc);
    AnswersAre(g.oc, []);
  }

  lemma ReceivedParts(run: seq<Read>)
    requires |run| == 3
    ensures Received(run[..0]) == [] && Received(run[..1]) == run[0].data
    ensures Received(run[..2]) == run[0].data + run[1].data
    ensures Received(run) == (run[0].data + run[1].data) + run[2].data
  {
    assert run[..1][..0] == [] && run[..2][..1] == run[..1];
    assert [] + run[0].data == run[0].data;
    assert run[..1][0] == run[0] && run[..2][1] == run[1];
  }

  lemma GroupBounds(g: Groups)
    requires g.Fit()
    ensures !InsideMarker(g.All(), 0) && !InsideMarker(g.All(), |EncodeAll(g.a)|)
    ensures !InsideMarker(g.All(), |EncodeAll(g.a) + EncodeAll(g.b)|)
    ensures EncodeAll(g.All()) == (EncodeAll(g.a) + EncodeAll(g.b)) + EncodeAll(g.c)
  {
    var ms := g.All();
    BothParts(g.a + g.b, g.c);
    BothParts(g.a, g.b);
    assert ms[..0] == [] && ms[..|g.a|] == g.a && ms[..|g.a + g.b|] == g.a + g.b;
    BetweenFrames(ms, 0);
    BetweenFrames(ms, |g.a|);
    BetweenFrames(ms, |g.a + g.b|);
  }

  lemma GroupsDivide(g: Groups)
    requires g.Fit()
    ensures Divides(g.All(), ReadsOf(g))
  {
    var run := ReadsOf(g);
    ReceivedParts(run);
    GroupBounds(g);
    forall j | 0 <= j < |run|
      ensures !InsideMarker(g.All(), |Received(run[..j])|)
    {
      assert j == 0 || j == 1 || j == 2;
    }
  }

  lemma UnownedInGroups(g: Groups)
    requires g.Fit()
    ensures EncodeAll(Unowned(g.All(), g.Owned()))
      == (EncodeAll(Unowned(g.a, g.oa + [])) + EncodeAll(Unowned(g.b, g.ob + g.oc)))
        + EncodeAll(Unowned(g.c, g.oc + []))
  {
    AnswersAre(g.oa, []);
    AnswersAre(g.ob, g.oc);
    AnswersAre(g.oc, []);
    assert g.oa + [] == g.oa;
    UnownedOfBoth(g.a, g.b, g.oa, g.ob + g.oc);
    UnownedOfBoth(g.a + g.b, g.c, g.oa + g.ob, g.oc + []);
  }

  lemma MiddlesEqual(a: seq<byte>, b: seq<byte>, c: seq<byte>, x: seq<byte>, y: seq<byte>, z: seq<byte>)
    requires (a + b) + c == (x + y) + z && |a| == |x| && |b| == |y|
    ensures b == y
  {
    assert ((a + b) + c)[..|a + b|] == a + b && ((x + y) + z)[..|a + b|] == x + y;
    assert (a + b)[|a|..] == b && (x + y)[|a|..] == y;
  }

  /** If all is well with three reads, it is with the second. */
  lemma MiddleOfThree(
      a: seq<Message>, b: seq<Message>, c: seq<Message>, oa: seq<bool>, ob: seq<bool>, oc: seq<bool>,
      sent: seq<byte>, us: seq<Message>)
    requires AllSendable(a) && AllSendable(b) && AllSendable(c) && AllSendable(us)
    requires sent == (Forwarded(EncodeAll(a), oa) + Forwarded(EncodeAll(b), ob)) + Forwarded(EncodeAll(c), oc)
    requires EncodeAll(us)
      == (EncodeAll(Unowned(a, oa)) + EncodeAll(Unowned(b, ob))) + EncodeAll(Unowned(c, oc))
    requires Extract(sent).frames == DecodedAll(us)
    ensures Arrive(b, ob)
  {
    ForwardedLength(a, oa);
    ForwardedLength(b, ob);
    ForwardedLength(c, oc);
    FramesDetermineStream(sent, us);
    MiddlesEqual(Forwarded(EncodeAll(a), oa), Forwarded(EncodeAll(b), ob), Forwarded(EncodeAll(c), oc),
      EncodeAll(Unowned(a, oa)), EncodeAll(Unowned(b, ob)), EncodeAll(Unowned(c, oc)));
    ArriveMeansExact(b, ob);
  }

  lemma ThisDivisionArrives(ms: seq<Message>, owned: seq<bool>, run: seq<Read>)
    requires AllSendable(ms) && ArriveAlways(ms, owned) && Divides(ms, run) && OwnedIn(run) == owned
    ensures Extract(RelayRun(run).sent).frames == DecodedAll(Unowned(ms, owned))
  {
  }

  lemma MiddleArrives(g: Groups)
    requires g.Fit() && ArriveAlways(g.All(), g.Owned())
    ensures Arrive(g.b, g.ob + g.oc)
  {
    var run := ReadsOf(g);
    ThreeReads(g);
    GroupsDivide(g);
    ThisDivisionArrives(g.All(), g.Owned(), run);
    UnownedInGroups(g);
    MiddleOfThree(
      g.a, g.b, g.c, g.oa + [], g.ob + g.oc, g.oc + [], RelayRun(run).sent, Unowned(g.All(), g.Owned()));
  }

  lemma FirstOfRestArrive(a: seq<Message>, rest: seq<Message>, oa: seq<bool>, owned: seq<bool>, n: nat)
    requires AllSendable(a) && AllSendable(rest) && |oa| == |a| && |owned| == |rest| && n <= |rest|
    requires ArriveAlways(a + rest, oa + owned)
    ensures Arrive(rest[..n], owned)
  {
    var g := Groups(a, rest[..n], rest[n..], oa, owned[..n], owned[n..]);
    assert rest[..n] + rest[n..] == rest && owned[..n] + owned[n..] == owned;
    Reassociate(a, rest[..n], rest[n..]);
    Reassociate(oa, owned[..n], owned[n..]);
    MiddleArrives(g);
  }

  /** Frames that arrive however they are divided are placed from any frame on. */
  lemma {:induction false} ArrivesPlaced(a: seq<Message>, rest: seq<Message>, oa: seq<bool>, owned: seq<bool>)
    requires AllSendable(a) && AllSendable(rest) && |oa| == |a| && |owned| == |rest|
    requires ArriveAlways(a + rest, oa + owned)
    ensures PlacedFromAny(rest, owned)
    decreases |rest|
  {
    forall n | 0 <= n <= |rest|
      ensures Arrive(rest[..n], owned)
    {
      FirstOfRestArrive(a, rest, oa, owned, n);
    }
    UnownedArriveIff(rest, owned);
    if rest != [] {
      assert (a + [rest[0]]) + rest[1..] == a + rest && (oa + [owned[0]]) + owned[1..] == oa + owned;
      ArrivesPlaced(a + [rest[0]], rest[1..], oa + [owned[0]], owned[1..]);
    }
  }

  /**
   The unowned frames of a stream arrive however it is divided into reads that leave its markers
   whole if and only if from any frame on each owned frame is undisturbed.
   */
  lemma ArriveAlwaysIff(ms: seq<Message>, owned: seq<bool>)
    requires AllSendable(ms) && |owned| == |ms|
    ensures ArriveAlways(ms, owned) <==> PlacedFromAny(ms, owned)
  {
    if PlacedFromAny(ms, owned) {
      forall run | Divides(ms, run) && OwnedIn(run) == owned
        ensures Extract(RelayRun(run).sent) == Extraction(DecodedAll(Unowned(ms, owned)), [])
      {
        PlacedArrives(ms, owned, run);
      }
    }
    assert [] + ms == ms && [] + owned == owned;
    if ArriveAlways(ms, owned) { ArrivesPlaced([], ms, [], owned); }
  }

  // ---- a condition that can be read off the frames ----

  lemma {:induction false} UncopiedSuffix(front: seq<byte>, kept: seq<byte>, ms: seq<Message>, owned: seq<bool>)
    requires AllSendable(ms) && Uncopied(front + kept, ms, owned)
    ensures Uncopied(kept, ms, owned)
    decreases |ms|
  {
    if ms != [] {
      var raw := Encode(ms[0]);
      if First(owned) {
        LaterCopies(front, kept, raw);
        UncopiedSuffix(front, kept, ms[1..], Later(owned));
      } else {
        Reassociate(front, kept, raw);
        UncopiedSuffix(front, kept + raw, ms[1..], Later(owned));
      }
    }
  }

  lemma LaterCopies(front: seq<byte>, kept: seq<byte>, raw: seq<byte>)
    requires NoEarlierCopy(front + kept, raw)
    ensures NoEarlierCopy(kept, raw)
  {
    forall j | 0 <= j < |kept|
      ensures !OccursAt(kept + raw, raw, j)
    {
      Reassociate(front, kept, raw);
      OccursBehind(front, kept + raw, raw, j);
    }
  }

  lemma OccursBehind(front: seq<byte>, b: seq<byte>, raw: seq<byte>, j: nat)
    ensures OccursAt(b, raw, j) ==> OccursAt(front + b, raw, |front| + j)
  {
  }

  /** If no owned frame's bytes occur among the unowned frames in front of it, no division matters. */
  lemma {:induction false} UncopiedPlaced(ms: seq<Message>, owned: seq<bool>)
    requires AllSendable(ms) && Uncopied([], ms, owned)
    ensures PlacedFromAny(ms, owned)
    decreases |ms|
  {
    NoCopiesPlaced([], ms, owned);
    if ms != [] {
      var raw := Encode(ms[0]);
      assert First(owned) || Uncopied(raw + [], ms[1..], Later(owned)) by {
        assert [] + raw == raw + [];
      }
      if !First(owned) { UncopiedSuffix(raw, [], ms[1..], Later(owned)); }
      UncopiedPlaced(ms[1..], Later(owned));
    }
  }
}
