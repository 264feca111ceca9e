/**
 The tables that connect a read response to the request it answers: `pending_reads`, and
 for reads that check an acknowledged setpoint, `pending_active_power_limit_readbacks`.
 */
module Readback {
  import opened Bytes
  import opened LocalControl

  datatype Read = Read(address: nat, count: nat)

  datatype Tables = Tables(requests: map<Key, Read>, readbacks: map<Key, nat>)

  const EMPTY: Tables := Tables(map[], map[])

  datatype Result = Matched | Mismatch | Failed | NoConnection | TimedOut

  /**
   What can happen under an id; `expected` is the setpoint a read is to confirm. A read that could
   not be sent is withdrawn: there was no connection, or draining failed after the bytes were out.
   */
  datatype Event =
    | Register(key: Key, read: Read, expected: Option<nat>)
    | Unsent(key: Key, expected: Option<nat>, failed: bool)
    | CloudRead(key: Key, read: Read)
    | Response(key: Key, values: seq<nat>)
    | Exception(key: Key)
    | Timeout(key: Key)

  function Drop(t: Tables, key: Key): Tables {
    Tables(t.requests - {key}, t.readbacks - {key})
  }

  function Next(t: Tables, e: Event): Tables {
    match e
    case Register(key, read, expected) =>
      Tables(t.requests[key := read], if expected.Some? then t.readbacks[key := expected.value] else t.readbacks)
    case CloudRead(key, read) => t.(requests := t.requests[key := read])
    case Unsent(key, _, _) => Drop(t, key)
    case Response(key, _) => Drop(t, key)
    case Exception(key) => Drop(t, key)
    case Timeout(key) => if key in t.readbacks then Drop(t, key) else t
  }

  /** The readback result reported on an event. */
  function Report(limit: nat, t: Tables, e: Event): Option<Result> {
    match e
    case Response(key, values) =>
      if key in t.requests && t.requests[key].address == limit && values != [] && key in t.readbacks then
        Some(if values[0] == t.readbacks[key] then Matched else Mismatch)
      else
        None
    case Exception(key) => if key in t.readbacks then Some(Failed) else None
    case Timeout(key) => if key in t.readbacks then Some(Result.TimedOut) else None
    case Unsent(_, expected, failed) =>
      if expected.None? then None else Some(if failed then Failed else Result.NoConnection)
    case _ => None
  }

  class Correlation {
    const limit: nat
    var pendingReads: map<Key, Read>
    var pendingReadbacks: map<Key, nat>

    function View(): Tables
      reads this
    {
      Tables(pendingReads, pendingReadbacks)
    }

    constructor (limit: nat)
      ensures View() == EMPTY && this.limit == limit
    {
      this.limit, pendingReads, pendingReadbacks := limit, map[], map[];
    }

    method RegisterPendingRead(key: Key, read: Read, expected: Option<nat>)
      modifies this
      ensures View() == Next(old(View()), Register(key, read, expected))
    {
      pendingReads := pendingReads[key := read];
      if expected.Some? {
        pendingReadbacks := pendingReadbacks[key := expected.value];
      }
    }

    method UnregisterPendingRead(key: Key)
      modifies this
      ensures View() == Drop(old(View()), key)
    {
      pendingReads := pendingReads - {key};
      pendingReadbacks := pendingReadbacks - {key};
    }

    /** The end of `_read_active_power_limit_once` when the request could not be sent. */
    method OnUnsent(key: Key, expected: Option<nat>, failed: bool) returns (result: Option<Result>)
      modifies this
      ensures View() == Next(old(View()), Unsent(key, expected, failed))
      ensures result == old(Report(limit, View(), Unsent(key, expected, failed)))
    {
      UnregisterPendingRead(key);
      if expected.None? {
        return None;
      }
      result := Some(if failed then Failed else Result.NoConnection);
    }

    method NoteCloudRead(key: Key, read: Read)
      modifies this
      ensures View() == Next(old(View()), CloudRead(key, read))
    {
      pendingReads := pendingReads[key := read];
    }

    method OnResponse(key: Key, values: seq<nat>) returns (result: Option<Result>)
      modifies this
      ensures View() == Next(old(View()), Response(key, values))
      ensures result == old(Report(limit, View(), Response(key, values)))
    {
      result := None;
      if key in pendingReads && pendingReads[key].address == limit && values != [] && key in pendingReadbacks {
        result := Some(if values[0] == pendingReadbacks[key] then Matched else Mismatch);
      }
      pendingReads := pendingReads - {key};
      pendingReadbacks := pendingReadbacks - {key};
    }

    method OnException(key: Key) returns (result: Option<Result>)
      modifies this
      ensures View() == Next(old(View()), Exception(key))
      ensures result == old(Report(limit, View(), Exception(key)))
    {
      result := if key in pendingReadbacks then Some(Failed) else None;
      pendingReads := pendingReads - {key};
      pendingReadbacks := pendingReadbacks - {key};
    }

    method OnTimeout(key: Key) returns (result: Option<Result>)
      modifies this
      ensures View() == Next(old(View()), Timeout(key))
      ensures result == old(Report(limit, View(), Timeout(key)))
    {
      if key !in pendingReadbacks {
        return None;
      }
      pendingReadbacks := pendingReadbacks - {key};
      pendingReads := pendingReads - {key};
      return Some(Result.TimedOut);
    }
  }

  /** Which result is reported, and on which event. */
  lemma ResultTells(limit: nat, t: Tables, e: Event)
    ensures Report(limit, t, e) == Some(Failed) <==>
      (e.Exception? && e.key in t.readbacks) || (e.Unsent? && e.expected.Some? && e.failed)
    ensures Report(limit, t, e) == Some(Result.TimedOut) <==> e.Timeout? && e.key in t.readbacks
    ensures Report(limit, t, e) == Some(Result.NoConnection) <==> e.Unsent? && e.expected.Some? && !e.failed
    ensures forall r :: r == Matched || r == Mismatch ==>
      (Report(limit, t, e) == Some(r) <==>
        && e.Response? && e.key in t.readbacks && e.key in t.requests && t.requests[e.key].address == limit
        && e.values != [] && (r == Matched <==> e.values[0] == t.readbacks[e.key]))
  {
  }

  /** An event touches only the entries under its own id. */
  lemma OtherEntries(t: Tables, e: Event, key: Key)
    requires e.key != key
    ensures key in Next(t, e).requests <==> key in t.requests
    ensures key in t.requests ==> Next(t, e).requests[key] == t.requests[key]
    ensures key in Next(t, e).readbacks <==> key in t.readbacks
    ensures key in t.readbacks ==> Next(t, e).readbacks[key] == t.readbacks[key]
  {
  }

  /**
   A request is known from its registration, or the cloud's use of the id, until it is answered or
   withdrawn; the time limit ends only a readback that still waits, and its request with it.
   */
  lemma OwnEntries(t: Tables, e: Event)
    ensures var u, key := Next(t, e), e.key;
      && (key in u.requests <==>
        e.Register? || e.CloudRead? || (e.Timeout? && key in t.requests && key !in t.readbacks))
      && (e.Register? || e.CloudRead? ==> u.requests[key] == e.read)
      && (key in u.readbacks <==>
        if e.Register? && e.expected.Some? then true else (e.Register? || e.CloudRead?) && key in t.readbacks)
      && (key in u.readbacks ==>
        u.readbacks[key] == if e.Register? && e.expected.Some? then e.expected.value else t.readbacks[key])
  {
  }

  // ---- runs ----

  function After(trace: seq<Event>): Tables {
    if trace == [] then EMPTY else Next(After(trace[..|trace| - 1]), trace[|trace| - 1])
  }

  /** Every readback that waits has its read. */
  lemma {:induction false} ReadbacksHaveReads(trace: seq<Event>)
    ensures After(trace).readbacks.Keys <= After(trace).requests.Keys
    decreases |trace|
  {
    if trace != [] { ReadbacksHaveReads(trace[..|trace| - 1]); }
  }

  function One(b: bool): nat {
    if b then 1 else 0
  }

  /** How many readbacks were registered under an id. */
  function Registered(trace: seq<Event>, key: Key): nat {
    if trace == [] then
      0
    else
      var e := trace[|trace| - 1];
      Registered(trace[..|trace| - 1], key) + One(e.Register? && e.key == key && e.expected.Some?)
  }

  /** The readback waits, and a response, an exception, its timeout or the failure to send it brings its result. */
  predicate Settles(limit: nat, t: Tables, e: Event) {
    e.key in t.readbacks && Report(limit, t, e).Some?
  }

  /** The readback waits and goes without a result: its id was used again, or the response answers another read. */
  predicate Abandons(limit: nat, t: Tables, e: Event) {
    e.key in t.readbacks && match e
      case Unsent(_, expected, _) => expected.None?
      case Register(_, _, expected) => expected.Some?
      case Response(key, values) => values == [] || key !in t.requests || t.requests[key].address != limit
      case _ => false
  }

  /** The failure to send a read is reported although its readback no longer waits. */
  predicate TooLate(t: Tables, e: Event) {
    e.Unsent? && e.expected.Some? && e.key !in t.readbacks
  }

  function Settled(limit: nat, trace: seq<Event>, key: Key): nat {
    if trace == [] then
      0
    else
      var init, e := trace[..|trace| - 1], trace[|trace| - 1];
      Settled(limit, init, key) + One(e.key == key && Settles(limit, After(init), e))
  }

  function Abandoned(limit: nat, trace: seq<Event>, key: Key): nat {
    if trace == [] then
      0
    else
      var init, e := trace[..|trace| - 1], trace[|trace| - 1];
      Abandoned(limit, init, key) + One(e.key == key && Abandons(limit, After(init), e))
  }

  function ReportedLate(trace: seq<Event>, key: Key): nat {
    if trace == [] then
      0
    else
      var init, e := trace[..|trace| - 1], trace[|trace| - 1];
      ReportedLate(init, key) + One(e.key == key && TooLate(After(init), e))
  }

  /** All results reported under an id. */
  function Reported(limit: nat, trace: seq<Event>, key: Key): nat {
    if trace == [] then
      0
    else
      var init, e := trace[..|trace| - 1], trace[|trace| - 1];
      Reported(limit, init, key) + One(e.key == key && Report(limit, After(init), e).Some?)
  }

  /** Every registered readback is settled once, abandoned once, or still waiting, in any order of events. */
  lemma {:induction false} ReadbacksAccounted(limit: nat, trace: seq<Event>, key: Key)
    ensures Registered(trace, key)
      == Settled(limit, trace, key) + Abandoned(limit, trace, key) + One(key in After(trace).readbacks)
    decreases |trace|
  {
    if trace != [] { ReadbacksAccounted(limit, trace[..|trace| - 1], key); }
  }

  /** Every result reported settles a readback, or is the late report of a failure to send. */
  lemma {:induction false} ReportsAccounted(limit: nat, trace: seq<Event>, key: Key)
    ensures Reported(limit, trace, key) == Settled(limit, trace, key) + ReportedLate(trace, key)
    decreases |trace|
  {
    if trace != [] { ReportsAccounted(limit, trace[..|trace| - 1], key); }
  }

  /** An id registered once is settled at most once, whichever of response, exception, timeout and failure come. */
  lemma {:induction false} AtMostOneResult(limit: nat, trace: seq<Event>, key: Key)
    requires Registered(trace, key) <= 1
    ensures Settled(limit, trace, key) <= 1
    ensures Settled(limit, trace, key) == 1 ==> key !in After(trace).readbacks
    ensures Reported(limit, trace, key) <= 1 + ReportedLate(trace, key)
  {
    ReadbacksAccounted(limit, trace, key);
    ReportsAccounted(limit, trace, key);
  }

  /** A response that comes while a request still drains, which then fails: two results for one readback. */
  lemma {:induction false} TwoResults(limit: nat, key: Key, expected: nat)
    ensures var read := Register(key, Read(limit, 1), Some(expected));
      var trace := [read, Response(key, [expected]), Unsent(key, Some(expected), true)];
      Registered(trace, key) == 1 && Reported(limit, trace, key) == 2
  {
    var e, f := Register(key, Read(limit, 1), Some(expected)), Response(key, [expected]);
    var g := Unsent(key, Some(expected), true);
    assert [e, f, g][..2] == [e, f] && [e, f][..1] == [e] && [e][..0] == [];
    assert Registered([e], key) == 1 && Registered([e, f], key) == 1;
    assert After([e]) == Next(EMPTY, e) && After([e, f]) == Next(After([e]), f);
    assert Reported(limit, [e], key) == 0 && Reported(limit, [e, f], key) == 1;
  }

  /** The gateway's own use of an id: one readback of the limit register, and the cloud does not use the id. */
  predicate Exclusive(limit: nat, trace: seq<Event>, key: Key)
    decreases |trace|
  {
    trace == [] || (
      var init, e := trace[..|trace| - 1], trace[|trace| - 1];
      && Exclusive(limit, init, key)
      && (e.key == key ==>
        && !e.CloudRead?
        && (e.Unsent? ==> e.expected.Some?)
        && (e.Register? ==> e.expected.Some? && e.read.address == limit && Registered(init, key) == 0)
        && (e.Response? ==> e.values != [])))
  }

  lemma {:induction false} ExclusiveRead(limit: nat, trace: seq<Event>, key: Key)
    requires Exclusive(limit, trace, key)
    ensures key in After(trace).readbacks ==>
      key in After(trace).requests && After(trace).requests[key].address == limit
    ensures Abandoned(limit, trace, key) == 0
    decreases |trace|
  {
    if trace != [] {
      var init := trace[..|trace| - 1];
      ExclusiveRead(limit, init, key);
      ReadbacksAccounted(limit, init, key);
    }
  }

  /**
   Under such an id exactly one result is reported once the readback no longer waits, and none
   before, if and only if no failure to send came too late.
   */
  lemma {:induction false} ExclusivelySettled(limit: nat, trace: seq<Event>, key: Key)
    requires Exclusive(limit, trace, key) && Registered(trace, key) == 1
    ensures Settled(limit, trace, key) == One(key !in After(trace).readbacks)
    ensures Reported(limit, trace, key) == One(key !in After(trace).readbacks) <==> ReportedLate(trace, key) == 0
  {
    ExclusiveRead(limit, trace, key);
    ReadbacksAccounted(limit, trace, key);
    ReportsAccounted(limit, trace, key);
  }

  /** Events under other ids leave the entries of an id alone. */
  lemma {:induction false} OthersDoNotTouch(before: seq<Event>, others: seq<Event>, key: Key)
    requires forall i :: 0 <= i < |others| ==> others[i].key != key
    ensures var t, u := After(before), After(before + others);
      && (key in u.requests <==> key in t.requests) && (key in t.requests ==> u.requests[key] == t.requests[key])
      && (key in u.readbacks <==> key in t.readbacks) && (key in t.readbacks ==> u.readbacks[key] == t.readbacks[key])
    decreases |others|
  {
    if others == [] {
      assert before + others == before;
    } else {
      var init := others[..|others| - 1];
      OthersDoNotTouch(before, init, key);
      assert (before + others)[..|before + others| - 1] == before + init;
    }
  }

  /** Whatever happens under other ids meanwhile, the response is compared with the value it was to confirm. */
  lemma {:induction false} ComparedWithRequest(
      limit: nat, before: seq<Event>, others: seq<Event>, key: Key, expected: nat, values: seq<nat>)
    requires values != [] && forall i :: 0 <= i < |others| ==> others[i].key != key
    ensures var asked := before + [Register(key, Read(limit, 1), Some(expected))];
      Report(limit, After(asked + others), Response(key, values))
        == Some(if values[0] == expected then Matched else Mismatch)
  {
    var asked := before + [Register(key, Read(limit, 1), Some(expected))];
    assert asked[..|before|] == before;
    OthersDoNotTouch(asked, others, key);
  }
}
