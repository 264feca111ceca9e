/**
 What the other side of a relay makes of the bytes it is sent. A read of whole frames is
 forwarded, and the receiver deframes what arrives: which frames does it see?
 */
module RelayFrames {
  import opened Bytes
  import opened Frames
  import opened Search
  import opened Deframer
  import opened FrameStream
  import opened Relay

  /** The messages that are not owned, in order. */
  function Unowned(ms: seq<Message>, owned: seq<bool>): (us: seq<Message>)
    requires AllSendable(ms)
    ensures AllSendable(us)
  {
    if ms == [] then [] else (if First(owned) then [] else [ms[0]]) + Unowned(ms[1..], Later(owned))
  }

  /** Each owned frame is undisturbed by the unowned frames in front of it. */
  predicate Placed(kept: seq<byte>, ms: seq<Message>, owned: seq<bool>)
    requires AllSendable(ms)
    decreases |ms|
  {
    ms == [] || (
      if First(owned) then
        Undisturbed(kept, Encode(ms[0])) && Placed(kept, ms[1..], Later(owned))
      else
        Placed(kept + Encode(ms[0]), ms[1..], Later(owned)))
  }

  lemma {:induction false} InFront(m: Message, us: seq<Message>)
    requires m.Sendable() && AllSendable(us)
    ensures EncodeAll([m] + us) == Encode(m) + EncodeAll(us)
  {
    assert ([m] + us)[1..] == us;
  }

  lemma {:induction false} FilterMessages(kept: seq<byte>, ms: seq<Message>, owned: seq<bool>)
    requires AllSendable(ms) && Placed(kept, ms, owned)
    ensures Filtered(kept + EncodeAll(ms), DecodedAll(ms), owned) == kept + EncodeAll(Unowned(ms, owned))
    decreases |ms|
  {
    if ms != [] {
      var raw, later := Encode(ms[0]), ms[1..];
      assert DecodedAll(ms)[0] == Decoded(ms[0]) && DecodedAll(ms)[1..] == DecodedAll(later);
      if First(owned) {
        DeletedInPlaceIff(kept, raw, EncodeAll(later));
        FilterMessages(kept, later, Later(owned));
        assert [] + Unowned(later, Later(owned)) == Unowned(later, Later(owned));
      } else {
        Reassociate(kept, raw, EncodeAll(later));
        FilterMessages(kept + raw, later, Later(owned));
        InFront(ms[0], Unowned(later, Later(owned)));
        Reassociate(kept, raw, EncodeAll(Unowned(later, Later(owned))));
      }
    }
  }

  lemma ForwardedMessages(ms: seq<Message>, owned: seq<bool>)
    requires AllSendable(ms)
    ensures Forwarded(EncodeAll(ms), owned) == Filtered(EncodeAll(ms), DecodedAll(ms), owned)
  {
    StreamRoundTrip(ms);
    AllConsumed(EncodeAll(ms));
  }

  /** The other side sees exactly the frames that are not owned, and nothing else. */
  lemma OnlyUnownedArrive(ms: seq<Message>, owned: seq<bool>)
    requires AllSendable(ms) && Placed([], ms, owned)
    ensures Extract(Forwarded(EncodeAll(ms), owned)) == Extraction(DecodedAll(Unowned(ms, owned)), [])
  {
    ForwardedMessages(ms, owned);
    FilterMessages([], ms, owned);
    assert [] + EncodeAll(ms) == EncodeAll(ms);
    assert [] + EncodeAll(Unowned(ms, owned)) == EncodeAll(Unowned(ms, owned));
    StreamRoundTrip(Unowned(ms, owned));
  }

  /** If no owned frame's bytes occur earlier among the unowned ones, all is in place. */
  lemma {:induction false} NoCopiesPlaced(kept: seq<byte>, ms: seq<Message>, owned: seq<bool>)
    requires AllSendable(ms) && Uncopied(kept, ms, owned)
    ensures Placed(kept, ms, owned)
    decreases |ms|
  {
    if ms != [] {
      if First(owned) {
        NoCopyIsUndisturbed(kept, Encode(ms[0]));
        NoCopiesPlaced(kept, ms[1..], Later(owned));
      } else {
        NoCopiesPlaced(kept + Encode(ms[0]), ms[1..], Later(owned));
      }
    }
  }

  ghost predicate Uncopied(kept: seq<byte>, ms: seq<Message>, owned: seq<bool>)
    requires AllSendable(ms)
    decreases |ms|
  {
    ms == [] || (
      if First(owned) then
        NoEarlierCopy(kept, Encode(ms[0])) && Uncopied(kept, ms[1..], Later(owned))
      else
        Uncopied(kept + Encode(ms[0]), ms[1..], Later(owned)))
  }

  // ---- exactly when, for one owned frame ----

  /** The answers when frame `n` alone is owned. */
  function Only(n: nat): seq<bool> {
    if n == 0 then [true] else [false] + Only(n - 1)
  }

  lemma {:induction false} FilterOnly(forward: seq<byte>, fs: seq<Frame>, g: Frame, gs: seq<Frame>)
    ensures Filtered(forward, fs + ([g] + gs), Only(|fs|)) == DeleteFirst(forward, g.raw)
    decreases |fs|
  {
    var all := fs + ([g] + gs);
    if fs == [] {
      assert all[0] == g && all[1..] == gs;
      assert Later(Only(0)) == [];
      NothingToFilter(DeleteFirst(forward, g.raw), gs, []);
    } else {
      assert all[0] == fs[0] && all[1..] == fs[1..] + ([g] + gs);
      assert Later(Only(|fs|)) == Only(|fs| - 1);
      FilterOnly(forward, fs[1..], g, gs);
    }
  }

  lemma BothParts(ms: seq<Message>, ns: seq<Message>)
    requires AllSendable(ms) && AllSendable(ns)
    ensures EncodeAll(ms + ns) == EncodeAll(ms) + EncodeAll(ns)
    ensures DecodedAll(ms + ns) == DecodedAll(ms) + DecodedAll(ns)
  {
    var all := ms + ns;
    assert all[..|ms|] == ms && all[|ms|..] == ns;
    EncodeAllSplit(all, |ms|);
    DecodedAllSplit(all, |ms|);
  }

  lemma {:induction false} ForwardedAt(ms: seq<Message>, fs: seq<Frame>, g: Frame, gs: seq<Frame>)
    requires AllSendable(ms) && DecodedAll(ms) == fs + ([g] + gs)
    ensures Forwarded(EncodeAll(ms), Only(|fs|)) == DeleteFirst(EncodeAll(ms), g.raw)
  {
    ForwardedMessages(ms, Only(|fs|));
    FilterOnly(EncodeAll(ms), fs, g, gs);
  }

  lemma {:induction false} ThreeParts(before: seq<Message>, m: Message, after: seq<Message>)
    requires AllSendable(before) && m.Sendable() && AllSendable(after)
    ensures var ms := before + ([m] + after);
      && AllSendable(ms)
      && EncodeAll(ms) == EncodeAll(before) + (Encode(m) + EncodeAll(after))
      && DecodedAll(ms) == DecodedAll(before) + ([Decoded(m)] + DecodedAll(after))
  {
    BothParts(before, [m] + after);
    InFront(m, after);
    DecodedFront(m, after);
  }

  lemma {:induction false} ForwardedOnly(before: seq<Message>, m: Message, after: seq<Message>)
    requires AllSendable(before) && m.Sendable() && AllSendable(after)
    ensures AllSendable(before + ([m] + after))
    ensures var b, raw, a := EncodeAll(before), Encode(m), EncodeAll(after);
      Forwarded(EncodeAll(before + ([m] + after)), Only(|before|)) == DeleteFirst(b + (raw + a), raw)
  {
    ThreeParts(before, m, after);
    DecodedCount(before);
    ForwardedAt(before + ([m] + after), DecodedAll(before), Decoded(m), DecodedAll(after));
  }

  /**
   With one owned frame in a read, the other side sees exactly the other frames if and only
   if the frame is undisturbed by the frames in front of it.
   */
  lemma {:induction false} OthersArriveIff(before: seq<Message>, m: Message, after: seq<Message>)
    requires AllSendable(before) && m.Sendable() && AllSendable(after)
    ensures AllSendable(before + ([m] + after)) && AllSendable(before + after)
    ensures Extract(Forwarded(EncodeAll(before + ([m] + after)), Only(|before|)))
        == Extraction(DecodedAll(before + after), [])
      <==> Undisturbed(EncodeAll(before), Encode(m))
  {
    var b, raw, a := EncodeAll(before), Encode(m), EncodeAll(after);
    var forward := DeleteFirst(b + (raw + a), raw);
    ForwardedOnly(before, m, after);
    DeletedInPlaceIff(b, raw, a);
    BothParts(before, after);
    StreamRoundTrip(before + after);
    DeleteBefore(b, raw, a);
    if Extract(forward).frames == DecodedAll(before + after) {
      FramesDetermineStream(forward, before + after);
    }
  }

  // ---- exactly when, for any owned frames, however few of the frames a read holds ----

  function Drop(owned: seq<bool>, n: nat): seq<bool> {
    if n == 0 then owned else Drop(Later(owned), n - 1)
  }

  lemma {:induction false} FilteredSplit(forward: seq<byte>, fs: seq<Frame>, gs: seq<Frame>, owned: seq<bool>)
    ensures Filtered(forward, fs + gs, owned) == Filtered(Filtered(forward, fs, owned), gs, Drop(owned, |fs|))
    decreases |fs|
  {
    if fs == [] {
      assert fs + gs == gs;
    } else {
      assert (fs + gs)[1..] == fs[1..] + gs;
      FilteredSplit(if First(owned) then DeleteFirst(forward, fs[0].raw) else forward, fs[1..], gs, Later(owned));
    }
  }

  /** Bytes behind the frames do not matter to the filter. */
  lemma {:induction false} BehindUntouched(kept: seq<byte>, ms: seq<Message>, rest: seq<byte>, owned: seq<bool>)
    requires AllSendable(ms)
    ensures Filtered(kept + (EncodeAll(ms) + rest), DecodedAll(ms), owned)
      == Filtered(kept + EncodeAll(ms), DecodedAll(ms), owned) + rest
    decreases |ms|
  {
    if ms == [] {
      assert kept + ([] + rest) == (kept + []) + rest;
    } else {
      var raw, later := Encode(ms[0]), EncodeAll(ms[1..]);
      assert DecodedAll(ms)[0] == Decoded(ms[0]) && DecodedAll(ms)[1..] == DecodedAll(ms[1..]);
      Regroup(kept, raw, later, rest);
      Reassociate(kept, raw, later);
      if First(owned) {
        DeleteIgnoresRest(kept, raw, later);
        DeleteIgnoresRest(kept, raw, later + rest);
        BehindUntouched(DeleteFirst(kept + raw, raw), ms[1..], rest, Later(owned));
      } else {
        BehindUntouched(kept + raw, ms[1..], rest, Later(owned));
      }
    }
  }

  lemma {:induction false} LastOne(ms: seq<Message>, m: Message)
    requires AllSendable(ms) && m.Sendable()
    ensures EncodeAll(ms + [m]) == EncodeAll(ms) + Encode(m) && DecodedAll(ms + [m]) == DecodedAll(ms) + [Decoded(m)]
  {
    BothParts(ms, [m]);
    assert [m] == [m] + [];
    InFront(m, []);
    DecodedFront(m, []);
    assert Encode(m) + [] == Encode(m);
  }

  lemma {:induction false} FilterOne(forward: seq<byte>, f: Frame, owned: seq<bool>)
    ensures Filtered(forward, [f], owned) == if First(owned) then DeleteFirst(forward, f.raw) else forward
  {
    assert [f][1..] == [];
  }

  /** One more frame in the read: the filter handles it behind what it made of the others. */
  lemma {:induction false} ForwardedLast(ms: seq<Message>, m: Message, owned: seq<bool>)
    requires AllSendable(ms) && m.Sendable()
    ensures var forward := Forwarded(EncodeAll(ms), owned) + Encode(m);
      Forwarded(EncodeAll(ms + [m]), owned)
        == if First(Drop(owned, |ms|)) then DeleteFirst(forward, Encode(m)) else forward
  {
    var raw := Encode(m);
    ForwardedMessages(ms, owned);
    ForwardedMessages(ms + [m], owned);
    LastOne(ms, m);
    DecodedCount(ms);
    FilteredSplit(EncodeAll(ms) + raw, DecodedAll(ms), [Decoded(m)], owned);
    NothingBehindMatters(ms, raw, owned);
    FilterOne(Forwarded(EncodeAll(ms), owned) + raw, Decoded(m), Drop(owned, |ms|));
  }

  lemma NothingBehindMatters(ms: seq<Message>, rest: seq<byte>, owned: seq<bool>)
    requires AllSendable(ms)
    ensures Filtered(EncodeAll(ms) + rest, DecodedAll(ms), owned)
      == Filtered(EncodeAll(ms), DecodedAll(ms), owned) + rest
  {
    BehindUntouched([], ms, rest, owned);
    assert [] + (EncodeAll(ms) + rest) == EncodeAll(ms) + rest && [] + EncodeAll(ms) == EncodeAll(ms);
  }

  lemma {:induction false} UnownedLast(ms: seq<Message>, m: Message, owned: seq<bool>)
    requires AllSendable(ms) && m.Sendable()
    ensures Unowned(ms + [m], owned) == Unowned(ms, owned) + if First(Drop(owned, |ms|)) then [] else [m]
    decreases |ms|
  {
    if ms == [] {
      assert ms + [m] == [m] && [m][1..] == [];
    } else {
      assert (ms + [m])[0] == ms[0] && (ms + [m])[1..] == ms[1..] + [m];
      UnownedLast(ms[1..], m, Later(owned));
      Reassociate(if First(owned) then [] else [ms[0]], Unowned(ms[1..], Later(owned)),
        if First(Drop(owned, |ms|)) then [] else [m]);
    }
  }

  lemma {:induction false} PlacedLast(kept: seq<byte>, ms: seq<Message>, m: Message, owned: seq<bool>)
    requires AllSendable(ms) && m.Sendable()
    ensures Placed(kept, ms + [m], owned) <==>
      && Placed(kept, ms, owned)
      && (First(Drop(owned, |ms|)) ==> Undisturbed(kept + EncodeAll(Unowned(ms, owned)), Encode(m)))
    decreases |ms|
  {
    if ms == [] {
      assert ms + [m] == [m] && [m][1..] == [] && kept + [] == kept;
    } else {
      assert (ms + [m])[0] == ms[0] && (ms + [m])[1..] == ms[1..] + [m];
      var us := Unowned(ms[1..], Later(owned));
      if First(owned) {
        PlacedLast(kept, ms[1..], m, Later(owned));
        assert [] + us == us;
      } else {
        PlacedLast(kept + Encode(ms[0]), ms[1..], m, Later(owned));
        InFront(ms[0], us);
        Reassociate(kept, Encode(ms[0]), EncodeAll(us));
      }
    }
  }

  /** The bytes forwarded are those of the unowned frames. */
  predicate Exact(ms: seq<Message>, owned: seq<bool>)
    requires AllSendable(ms)
  {
    Forwarded(EncodeAll(ms), owned) == EncodeAll(Unowned(ms, owned))
  }

  /** The other side of a read of these frames sees exactly the unowned ones. */
  predicate Arrive(ms: seq<Message>, owned: seq<bool>)
    requires AllSendable(ms)
  {
    Extract(Forwarded(EncodeAll(ms), owned)) == Extraction(DecodedAll(Unowned(ms, owned)), [])
  }

  lemma LengthAfterLast(front: seq<byte>, raw: seq<byte>, ours: bool)
    ensures |if ours then DeleteFirst(front + raw, raw) else front + raw| == |front| + if ours then 0 else |raw|
  {
    DeleteIgnoresRest(front, raw, []);
  }

  lemma {:induction false} UnownedLengthLast(ms: seq<Message>, m: Message, owned: seq<bool>)
    requires AllSendable(ms) && m.Sendable()
    ensures |EncodeAll(Unowned(ms + [m], owned))|
      == |EncodeAll(Unowned(ms, owned))| + if First(Drop(owned, |ms|)) then 0 else |Encode(m)|
  {
    UnownedLast(ms, m, owned);
    LastOne(Unowned(ms, owned), m);
    assert Unowned(ms, owned) + [] == Unowned(ms, owned);
  }

  lemma {:induction false} ForwardedLength(ms: seq<Message>, owned: seq<bool>)
    requires AllSendable(ms)
    ensures |Forwarded(EncodeAll(ms), owned)| == |EncodeAll(Unowned(ms, owned))|
    decreases |ms|
  {
    if ms == [] {
      ForwardedMessages(ms, owned);
    } else {
      var init, m := ms[..|ms| - 1], ms[|ms| - 1];
      assert ms == init + [m];
      ForwardedLength(init, owned);
      ForwardedLast(init, m, owned);
      UnownedLengthLast(init, m, owned);
      LengthAfterLast(Forwarded(EncodeAll(init), owned), Encode(m), First(Drop(owned, |init|)));
    }
  }

  lemma ArriveMeansExact(ms: seq<Message>, owned: seq<bool>)
    requires AllSendable(ms)
    ensures Arrive(ms, owned) <==> Exact(ms, owned)
  {
    var us := Unowned(ms, owned);
    StreamRoundTrip(us);
    ForwardedLength(ms, owned);
    if Arrive(ms, owned) { FramesDetermineStream(Forwarded(EncodeAll(ms), owned), us); }
  }

  lemma DeletedLastIff(front: seq<byte>, raw: seq<byte>)
    ensures DeleteFirst(front + raw, raw) == front <==> Undisturbed(front, raw)
  {
    DeletedInPlaceIff(front, raw, []);
    assert front + (raw + []) == front + raw && front + [] == front;
  }

  lemma {:induction false} ExactLast(ms: seq<Message>, m: Message, owned: seq<bool>)
    requires AllSendable(ms) && m.Sendable() && Exact(ms, owned)
    ensures Exact(ms + [m], owned)
      <==> (First(Drop(owned, |ms|)) ==> Undisturbed(EncodeAll(Unowned(ms, owned)), Encode(m)))
  {
    var us := Unowned(ms, owned);
    ForwardedLast(ms, m, owned);
    UnownedLast(ms, m, owned);
    if First(Drop(owned, |ms|)) {
      DeletedLastIff(EncodeAll(us), Encode(m));
      assert us + [] == us;
    } else {
      LastOne(us, m);
    }
  }

  /** `p` holds of every prefix. */
  ghost predicate Throughout(p: seq<Message> -> bool, ms: seq<Message>) {
    forall n :: 0 <= n <= |ms| ==> p(ms[..n])
  }

  lemma ThroughoutLast(p: seq<Message> -> bool, ms: seq<Message>, m: Message)
    ensures Throughout(p, ms + [m]) <==> Throughout(p, ms) && p(ms + [m])
  {
    var all := ms + [m];
    assert all[..|ms| + 1] == all;
    assert forall n :: 0 <= n <= |ms| ==> all[..n] == ms[..n];
    if Throughout(p, all) {
      forall n | 0 <= n <= |ms|
        ensures p(ms[..n])
      {
        assert p(all[..n]);
      }
    }
  }

  /** A longer list has `q` only if the shorter has, and then `p` and `q` agree on it if they did before. */
  predicate Follows(p: seq<Message> -> bool, q: seq<Message> -> bool, ms: seq<Message>, m: Message) {
    (q(ms + [m]) ==> q(ms)) && (p(ms) && q(ms) ==> (p(ms + [m]) <==> q(ms + [m])))
  }

  lemma {:induction false} ThroughoutIff(p: seq<Message> -> bool, q: seq<Message> -> bool, ms: seq<Message>)
    requires p([]) && q([])
    requires forall k :: 0 <= k < |ms| ==> Follows(p, q, ms[..k], ms[k])
    ensures Throughout(p, ms) <==> q(ms)
    decreases |ms|
  {
    if ms == [] {
      assert ms[..0] == [] == ms;
    } else {
      var init, m := ms[..|ms| - 1], ms[|ms| - 1];
      assert ms == init + [m] && init[..|init|] == init;
      forall k | 0 <= k < |init|
        ensures Follows(p, q, init[..k], init[k])
      {
        assert init[..k] == ms[..k];
      }
      ThroughoutIff(p, q, init);
      ThroughoutLast(p, init, m);
    }
  }

  function ExactFor(owned: seq<bool>): seq<Message> -> bool {
    (ms: seq<Message>) => AllSendable(ms) && Exact(ms, owned)
  }

  function PlacedFor(owned: seq<bool>): seq<Message> -> bool {
    (ms: seq<Message>) => AllSendable(ms) && Placed([], ms, owned)
  }

  lemma ExactFollows(ms: seq<Message>, m: Message, owned: seq<bool>)
    requires AllSendable(ms) && m.Sendable()
    ensures Follows(ExactFor(owned), PlacedFor(owned), ms, m)
  {
    PlacedLast([], ms, m, owned);
    assert [] + EncodeAll(Unowned(ms, owned)) == EncodeAll(Unowned(ms, owned));
    if Exact(ms, owned) { ExactLast(ms, m, owned); }
  }

  lemma ExactIff(ms: seq<Message>, owned: seq<bool>)
    requires AllSendable(ms)
    ensures Throughout(ExactFor(owned), ms) <==> PlacedFor(owned)(ms)
  {
    ForwardedMessages([], owned);
    forall k | 0 <= k < |ms|
      ensures Follows(ExactFor(owned), PlacedFor(owned), ms[..k], ms[k])
    {
      ExactFollows(ms[..k], ms[k], owned);
    }
    ThroughoutIff(ExactFor(owned), PlacedFor(owned), ms);
  }

  /**
   Whatever frames are owned: reads of the first few of them, however few, show the other side
   exactly the unowned ones if and only if every owned frame is undisturbed.
   */
  lemma UnownedArriveIff(ms: seq<Message>, owned: seq<bool>)
    requires AllSendable(ms)
    ensures (forall n :: 0 <= n <= |ms| ==> Arrive(ms[..n], owned)) <==> Placed([], ms, owned)
  {
    ExactIff(ms, owned);
    forall n | 0 <= n <= |ms|
      ensures Arrive(ms[..n], owned) <==> ExactFor(owned)(ms[..n])
    {
      ArriveMeansExact(ms[..n], owned);
    }
  }

  // ---- for one read the condition is sufficient: displaced deletions can undo each other ----

  /** Two frames that come three times, the last time owned: each deletion takes the first copy, and all is well. */
  lemma DeletionsCancel(q: Message, r: Message)
    requires q.Sendable() && r.Sendable()
    ensures var ms, owned := [q, r, q, r, q, r], [false, false, false, false, true, true];
      Forwarded(EncodeAll(ms), owned) == EncodeAll([q, r, q, r])
  {
    SixFrames(q, r);
    LastTwoCancel([q, r, q, r, q, r], q, r, [false, false, false, false, true, true]);
  }

  lemma {:induction false} LastTwoCancel(ms: seq<Message>, q: Message, r: Message, owned: seq<bool>)
    requires AllSendable(ms) && q.Sendable() && r.Sendable() && owned == [false, false, false, false, true, true]
    requires DecodedAll(ms) == [Decoded(q), Decoded(r), Decoded(q), Decoded(r), Decoded(q), Decoded(r)]
    requires var a, b := Encode(q), Encode(r); EncodeAll(ms) == a + (b + (a + (b + (a + b))))
    ensures Forwarded(EncodeAll(ms), owned) == Encode(q) + (Encode(r) + (Encode(q) + Encode(r)))
  {
    var a, b := Encode(q), Encode(r);
    ForwardedMessages(ms, owned);
    FilterLastTwo(EncodeAll(ms), DecodedAll(ms), owned);
    DeleteFront(a, b + (a + (b + (a + b))));
    DeleteFront(b, a + (b + (a + b)));
  }

  lemma FilterLastTwo(forward: seq<byte>, frames: seq<Frame>, owned: seq<bool>)
    requires |frames| == 6 && owned == [false, false, false, false, true, true]
    ensures Filtered(forward, frames, owned) == DeleteFirst(DeleteFirst(forward, frames[4].raw), frames[5].raw)
  {
    assert owned[4..] == [true, true] && frames[4..] == [frames[4], frames[5]];
    SkipFour(forward, frames, owned);
    FilterTwo(forward, frames[4], frames[5]);
  }

  lemma SixFrames(q: Message, r: Message)
    requires q.Sendable() && r.Sendable()
    ensures var a, b := Encode(q), Encode(r);
      && EncodeAll([q, r, q, r]) == a + (b + (a + b))
      && EncodeAll([q, r, q, r, q, r]) == a + (b + (a + (b + (a + b))))
    ensures DecodedAll([q, r, q, r, q, r])
      == [Decoded(q), Decoded(r), Decoded(q), Decoded(r), Decoded(q), Decoded(r)]
  {
    Pair(q, r);
    InFront(r, [q, r]);
    InFront(q, [r, q, r]);
    InFront(r, [q, r, q, r]);
    InFront(q, [r, q, r, q, r]);
    assert [q] + [r, q, r] == [q, r, q, r] && [r] + [q, r] == [r, q, r];
    assert [q] + [r, q, r, q, r] == [q, r, q, r, q, r] && [r] + [q, r, q, r] == [r, q, r, q, r];
    DecodedFront(r, [q, r]);
    DecodedFront(q, [r, q, r]);
    DecodedFront(r, [q, r, q, r]);
    DecodedFront(q, [r, q, r, q, r]);
  }

  lemma {:induction false} DecodedFront(m: Message, us: seq<Message>)
    requires m.Sendable() && AllSendable(us)
    ensures DecodedAll([m] + us) == [Decoded(m)] + DecodedAll(us)
  {
    assert ([m] + us)[1..] == us;
  }

  lemma Pair(q: Message, r: Message)
    requires q.Sendable() && r.Sendable()
    ensures EncodeAll([q, r]) == Encode(q) + Encode(r) && DecodedAll([q, r]) == [Decoded(q), Decoded(r)]
  {
    assert [q, r] == [q] + ([r] + []);
    InFront(q, [r] + []);
    InFront(r, []);
    DecodedFront(q, [r] + []);
    DecodedFront(r, []);
    assert Encode(r) + [] == Encode(r);
  }

  lemma SkipFour(forward: seq<byte>, frames: seq<Frame>, owned: seq<bool>)
    requires |frames| == 6 && |owned| == 6 && !owned[0] && !owned[1] && !owned[2] && !owned[3]
    ensures Filtered(forward, frames, owned) == Filtered(forward, frames[4..], owned[4..])
  {
    assert frames[1..][1..][1..][1..] == frames[4..] && owned[1..][1..][1..][1..] == owned[4..];
    assert Filtered(forward, frames, owned) == Filtered(forward, frames[1..], owned[1..]);
    assert Filtered(forward, frames[1..], owned[1..]) == Filtered(forward, frames[1..][1..], owned[1..][1..]);
    assert Filtered(forward, frames[1..][1..], owned[1..][1..])
      == Filtered(forward, frames[1..][1..][1..], owned[1..][1..][1..]);
    assert Filtered(forward, frames[1..][1..][1..], owned[1..][1..][1..])
      == Filtered(forward, frames[4..], owned[4..]);
  }

  lemma {:induction false} FilterTwo(forward: seq<byte>, f: Frame, g: Frame)
    ensures Filtered(forward, [f, g], [true, true]) == DeleteFirst(DeleteFirst(forward, f.raw), g.raw)
  {
    var once := DeleteFirst(forward, f.raw);
    assert [f, g][1..] == [g] && [true, true][1..] == [true] && [g][1..] == [];
    assert Filtered(forward, [f, g], [true, true]) == Filtered(once, [g], [true]);
    assert Filtered(once, [g], [true]) == Filtered(DeleteFirst(once, g.raw), [], Later([true]));
  }

  lemma DeleteFront(raw: seq<byte>, rest: seq<byte>)
    ensures DeleteFirst(raw + rest, raw) == rest
  {
    assert (raw + rest)[0..|raw|] == raw;
    FindIs(raw + rest, raw, 0);
  }

  // ---- an owned frame that arrives all the same ----

  /** The first copy of `inner` in `outer` is the payload, if no earlier byte of `outer` begins it. */
  lemma PayloadIsFirstCopy(outer: Message, inner: Message)
    requires outer.Sendable() && inner.Sendable() && outer.payload == Encode(inner)
    requires forall j :: 0 <= j < 9 ==> Encode(outer)[j] != Encode(inner)[0]
    ensures Find(Encode(outer), Encode(inner)) == Some(9)
  {
    PayloadInPlace(outer);
    var a, n := Encode(outer), Encode(inner);
    forall j | 0 <= j < 9
      ensures !OccursAt(a, n, j)
    {
      FirstByteDiffers(a, n, j);
    }
    FindIs(a, n, 9);
  }

  lemma FirstByteDiffers(a: seq<byte>, n: seq<byte>, j: nat)
    requires n != [] && j < |a| && a[j] != n[0]
    ensures !OccursAt(a, n, j)
  {
    assert j + |n| <= |a| ==> a[j..j + |n|][0] == a[j];
  }

  lemma AbsentInFront(a: seq<byte>, n: seq<byte>, rest: seq<byte>, j: nat)
    requires j + |n| <= |a| && !OccursAt(a, n, j)
    ensures !OccursAt(a + rest, n, j)
  {
    assert (a + rest)[j..j + |n|] == a[j..j + |n|];
  }

  lemma FoundInFront(a: seq<byte>, n: seq<byte>, rest: seq<byte>, i: nat)
    requires Find(a, n) == Some(i)
    ensures Find(a + rest, n) == Some(i)
  {
    OccursInFront(a, n, rest, i);
    forall j | 0 <= j < i
      ensures !OccursAt(a + rest, n, j)
    {
      AbsentInFront(a, n, rest, j);
    }
    FindIs(a + rest, n, i);
  }

  /** A header that announces more than is left of its frame swallows the frame behind it. */
  lemma SwallowedTurn(outer: Message, x: seq<byte>, rest: seq<byte>)
    requires outer.Sendable() && |x| == |Encode(outer)| && x[..9] == Encode(outer)[..9]
    ensures TakeTurn(x + rest) == Go(Cut(x), rest)
  {
    var c := x + rest;
    assert Encode(outer)[..2] == outer.start;
    assert c[..9] == x[..9] && c[..2] == c[..9][..2] == Encode(outer)[..9][..2];
    assert Encode(outer)[..9][..2] == Encode(outer)[..2];
    StartsAtZero(outer, c);
    EncodedLength(outer, c);
    assert c[..|x|] == x && c[|x|..] == rest;
  }

  /** The bytes of `outer` without its payload, followed by `filler`: a frame as long as `outer`. */
  function Spliced(outer: Message, filler: Message): seq<byte>
    requires outer.Sendable() && filler.Sendable()
  {
    (Encode(outer)[..9] + Encode(outer)[9 + |outer.payload|..]) + Encode(filler)
  }

  lemma SplicedLength(outer: Message, filler: Message)
    requires outer.Sendable() && filler.Sendable() && |Encode(filler)| == |outer.payload|
    ensures |Spliced(outer, filler)| == |Encode(outer)| && Spliced(outer, filler)[..9] == Encode(outer)[..9]
  {
  }

  lemma ForwardedThird(outer: Message, filler: Message, inner: Message)
    requires outer.Sendable() && filler.Sendable() && inner.Sendable()
    ensures Forwarded(EncodeAll([outer, filler, inner]), [false, false, true])
      == DeleteFirst(Encode(outer) + (Encode(filler) + Encode(inner)), Encode(inner))
  {
    assert Only(2) == [false] + ([false] + [true]) == [false, false, true];
    assert [outer, filler] + ([inner] + []) == [outer, filler, inner];
    ForwardedOnly([outer, filler], inner, []);
    Pair(outer, filler);
    assert Encode(inner) + [] == Encode(inner);
    Reassociate(Encode(outer), Encode(filler), Encode(inner));
  }

  lemma SplicedForward(outer: Message, filler: Message, inner: Message)
    requires outer.Sendable() && filler.Sendable() && inner.Sendable() && outer.payload == Encode(inner)
    requires Find(Encode(outer), Encode(inner)) == Some(9)
    ensures Forwarded(EncodeAll([outer, filler, inner]), [false, false, true]) == Spliced(outer, filler) + Encode(inner)
  {
    var a, b, n := Encode(outer), Encode(filler), Encode(inner);
    ForwardedThird(outer, filler, inner);
    FoundInFront(a, n, b + n, 9);
    CutOutOf(a, b + n, 9, |n|);
    Reassociate(a[..9] + a[9 + |n|..], b, n);
  }

  /**
   A frame may carry the bytes of an owned one as its payload. The relay then deletes those;
   the frame that lost them swallows the next one, and the owned frame arrives intact.
   */
  lemma OwnedFrameArrives(outer: Message, filler: Message, inner: Message)
    requires outer.Sendable() && filler.Sendable() && inner.Sendable()
    requires outer.payload == Encode(inner) && |Encode(filler)| == |Encode(inner)|
    requires Find(Encode(outer), Encode(inner)) == Some(9)
    ensures var arrived := Extract(Forwarded(EncodeAll([outer, filler, inner]), [false, false, true])).frames;
      arrived != [] && arrived[|arrived| - 1] == Decoded(inner)
  {
    var x, n := Spliced(outer, filler), Encode(inner);
    SplicedForward(outer, filler, inner);
    SplicedLength(outer, filler);
    SwallowedTurn(outer, x, n);
    LastArrives(x + n, Cut(x), inner);
  }

  lemma LastArrives(b: seq<byte>, s: Segment, inner: Message)
    requires inner.Sendable() && TakeTurn(b) == Go(s, Encode(inner))
    ensures Extract(b).frames == FrameIn(s) + [Decoded(inner)]
  {
    ExtractTurn(b);
    AloneArrives(inner);
  }

  lemma AloneArrives(m: Message)
    requires m.Sendable()
    ensures Extract(Encode(m)) == Extraction([Decoded(m)], [])
  {
    OneFrameInFront(m, []);
    assert Encode(m) + [] == Encode(m);
    FirstStartMeans([]);
    ExtractTurn([]);
  }
}
