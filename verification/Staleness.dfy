/** When an inverter's telemetry counts as stale, against the clock. */
module Staleness {

  datatype Notice = Stale(serial: string) | Resumed(serial: string)

  /** The daemon's two tables: when each inverter was last heard, and which are reported stale. */
  datatype Tables = Tables(lastSeen: map<string, real>, stale: set<string>)

  const NONE: Tables := Tables(map[], {})

  predicate Overdue(t: Tables, serial: string, now: real, timeout: real) {
    serial in t.lastSeen && now - t.lastSeen[serial] >= timeout
  }

  function Heard(t: Tables, serial: string, now: real): Tables {
    Tables(t.lastSeen[serial := now], t.stale - {serial})
  }

  function Marked(t: Tables, now: real, timeout: real): Tables {
    t.(stale := t.stale + set s | s in t.lastSeen && Overdue(t, s, now, timeout))
  }

  /** What a check says about one inverter. */
  function NewlyStale(t: Tables, serial: string, now: real, timeout: real): seq<Notice> {
    if Overdue(t, serial, now, timeout) && serial !in t.stale then [Stale(serial)] else []
  }

  class Watch {
    const timeout: real
    var lastSeen: map<string, real>
    var stale: set<string>
    var notices: seq<Notice>

    function View(): Tables
      reads this
    {
      Tables(lastSeen, stale)
    }

    constructor (timeout: real)
      ensures View() == NONE && notices == [] && this.timeout == timeout
    {
      this.timeout, lastSeen, stale, notices := timeout, map[], {}, [];
    }

    /** `publish_telemetry` as far as staleness goes; telemetry without a serial changes nothing. */
    method PublishTelemetry(serial: string, now: real)
      modifies this
      ensures View() == if serial == "" then old(View()) else Heard(old(View()), serial, now)
      ensures notices == old(notices) + if serial != "" && serial in old(stale) then [Resumed(serial)] else []
    {
      if serial != "" {
        var wasStale := serial in stale;
        lastSeen := lastSeen[serial := now];
        stale := stale - {serial};
        if wasStale {
          notices := notices + [Resumed(serial)];
        }
      }
    }

    method MarkOne(serial: string, now: real)
      requires serial in lastSeen
      modifies this`stale, this`notices
      ensures stale == old(stale) + if Overdue(View(), serial, now, timeout) then {serial} else {}
      ensures notices == old(notices) + NewlyStale(old(View()), serial, now, timeout)
    {
      var age := now - lastSeen[serial];
      if age >= timeout && serial !in stale {
        stale := stale + {serial};
        notices := notices + [Stale(serial)];
      }
    }

    /** `_mark_stale_telemetry`: the loop over all inverters heard so far, in any order. */
    method MarkStale(now: real)
      modifies this`stale, this`notices
      ensures View() == Marked(old(View()), now, timeout)
      ensures forall s ::
        Projection(notices, s) == Projection(old(notices), s) + NewlyStale(old(View()), s, now, timeout)
    {
      ghost var was, start := View(), notices;
      var todo := lastSeen.Keys;
      NoneChecked(was, start, now, timeout);
      while todo != {}
        invariant todo <= lastSeen.Keys && lastSeen == was.lastSeen
        invariant Checked(was, start, todo, stale, notices, now, timeout)
        decreases |todo|
      {
        var serial :| serial in todo;
        CheckOne(was, start, todo, stale, notices, now, timeout, serial);
        MarkOne(serial, now);
        todo := todo - {serial};
      }
      AllChecked(was, start, stale, notices, now, timeout);
    }
  }

  /** All inverters but those in `todo` were checked. */
  ghost predicate Checked(
      was: Tables, start: seq<Notice>, todo: set<string>, stale: set<string>, notices: seq<Notice>,
      now: real, timeout: real)
  {
    && (forall s :: s in stale <==> s in was.stale || (s !in todo && Overdue(was, s, now, timeout)))
    && (forall s ::
      Projection(notices, s) == Projection(start, s) + if s in todo then [] else NewlyStale(was, s, now, timeout))
  }

  lemma NoneChecked(was: Tables, start: seq<Notice>, now: real, timeout: real)
    ensures Checked(was, start, was.lastSeen.Keys, was.stale, start, now, timeout)
  {
  }

  lemma {:induction false} AllChecked(
      was: Tables, start: seq<Notice>, stale: set<string>, notices: seq<Notice>, now: real, timeout: real)
    requires Checked(was, start, {}, stale, notices, now, timeout)
    ensures Tables(was.lastSeen, stale) == Marked(was, now, timeout)
    ensures forall s :: Projection(notices, s) == Projection(start, s) + NewlyStale(was, s, now, timeout)
  {
  }

  lemma CheckOne(
      was: Tables, start: seq<Notice>, todo: set<string>, stale: set<string>, notices: seq<Notice>,
      now: real, timeout: real, serial: string)
    requires Checked(was, start, todo, stale, notices, now, timeout) && serial in todo
    ensures NewlyStale(Tables(was.lastSeen, stale), serial, now, timeout) == NewlyStale(was, serial, now, timeout)
    ensures Checked(was, start, todo - {serial}, stale + if Overdue(was, serial, now, timeout) then {serial} else {},
      notices + NewlyStale(was, serial, now, timeout), now, timeout)
  {
    ProjectMore(notices, NewlyStale(was, serial, now, timeout), serial);
  }

  /** The notices about one inverter. */
  function Projection(notices: seq<Notice>, serial: string): seq<Notice> {
    if notices == [] then
      []
    else
      Projection(notices[..|notices| - 1], serial)
        + if notices[|notices| - 1].serial == serial then [notices[|notices| - 1]] else []
  }

  lemma ProjectMore(notices: seq<Notice>, told: seq<Notice>, serial: string)
    requires told == [] || told == [Stale(serial)]
    ensures forall s :: Projection(notices + told, s) == Projection(notices, s) + if s == serial then told else []
  {
    if told == [] {
      assert notices + told == notices;
    } else {
      assert (notices + told)[..|notices|] == notices;
    }
  }

  // ---- runs ----

  datatype Event = Telemetry(serial: string, now: real) | Check(now: real)

  function Next(t: Tables, e: Event, timeout: real): Tables {
    match e
    case Telemetry(serial, now) => if serial == "" then t else Heard(t, serial, now)
    case Check(now) => Marked(t, now, timeout)
  }

  function After(trace: seq<Event>, timeout: real): Tables {
    if trace == [] then NONE else Next(After(trace[..|trace| - 1], timeout), trace[|trace| - 1], timeout)
  }

  /** What the watch says about one inverter on one event. */
  function Told(t: Tables, e: Event, serial: string, timeout: real): seq<Notice> {
    match e
    case Telemetry(s, now) => if s == serial && s != "" && s in t.stale then [Resumed(serial)] else []
    case Check(now) => NewlyStale(t, serial, now, timeout)
  }

  function History(trace: seq<Event>, serial: string, timeout: real): seq<Notice> {
    if trace == [] then
      []
    else
      var init := trace[..|trace| - 1];
      History(init, serial, timeout) + Told(After(init, timeout), trace[|trace| - 1], serial, timeout)
  }

  /** The clock does not go back. */
  predicate Monotone(trace: seq<Event>) {
    forall i, j :: 0 <= i < j < |trace| ==> trace[i].now <= trace[j].now
  }

  /** Stale inverters have been heard, and were silent for the timeout at the last event already. */
  lemma {:induction false} StaleIsOverdue(trace: seq<Event>, timeout: real, serial: string)
    requires Monotone(trace) && trace != [] && timeout > 0.0
    ensures serial in After(trace, timeout).stale ==>
      Overdue(After(trace, timeout), serial, trace[|trace| - 1].now, timeout)
    decreases |trace|
  {
    var init := trace[..|trace| - 1];
    if init != [] {
      assert init[|init| - 1] == trace[|trace| - 2];
      StaleIsOverdue(init, timeout, serial);
    }
  }

  /** Right after a check, an inverter is stale if and only if it was heard and has been silent for the timeout. */
  lemma {:induction false} StaleIffOverdue(trace: seq<Event>, timeout: real, now: real, serial: string)
    requires Monotone(trace + [Check(now)]) && timeout > 0.0
    ensures var t := After(trace + [Check(now)], timeout);
      serial in t.stale <==> Overdue(t, serial, now, timeout)
  {
    assert (trace + [Check(now)])[..|trace|] == trace;
    StaleIsOverdue(trace + [Check(now)], timeout, serial);
  }

  /** Event `j` is the last telemetry of an inverter. */
  ghost predicate LastHeardAt(trace: seq<Event>, serial: string, j: nat) {
    && j < |trace| && trace[j].Telemetry? && trace[j].serial == serial
    && forall i :: j < i < |trace| ==> !(trace[i].Telemetry? && trace[i].serial == serial)
  }

  /** Since then, check `k` found it silent for the timeout. */
  ghost predicate FoundSilent(trace: seq<Event>, timeout: real, serial: string, j: nat, k: nat) {
    && LastHeardAt(trace, serial, j) && j < k < |trace| && trace[k].Check?
    && trace[k].now - trace[j].now >= timeout
  }

  lemma LastHeardMore(trace: seq<Event>, serial: string, j: nat)
    requires trace != []
    ensures var last := trace[|trace| - 1];
      LastHeardAt(trace, serial, j) <==>
        if last.Telemetry? && last.serial == serial then j == |trace| - 1
        else LastHeardAt(trace[..|trace| - 1], serial, j)
  {
    var init := trace[..|trace| - 1];
    assert forall i :: 0 <= i < |init| ==> init[i] == trace[i];
  }

  /** The table of times holds the time of the last telemetry. */
  lemma {:induction false} TimesAre(trace: seq<Event>, timeout: real, serial: string) returns (j: nat)
    requires serial != ""
    ensures serial in After(trace, timeout).lastSeen ==>
      LastHeardAt(trace, serial, j) && After(trace, timeout).lastSeen[serial] == trace[j].now
    ensures serial !in After(trace, timeout).lastSeen ==> forall i :: !LastHeardAt(trace, serial, i)
    decreases |trace|
  {
    j := 0;
    if trace != [] {
      var last := trace[|trace| - 1];
      j := TimesAre(trace[..|trace| - 1], timeout, serial);
      forall i: nat
        ensures LastHeardAt(trace, serial, i) <==>
          if last.Telemetry? && last.serial == serial then i == |trace| - 1
          else LastHeardAt(trace[..|trace| - 1], serial, i)
      {
        LastHeardMore(trace, serial, i);
      }
      if last.Telemetry? && last.serial == serial { j := |trace| - 1; }
    }
  }

  lemma LastHeardUnique(trace: seq<Event>, serial: string, i: nat, j: nat)
    requires LastHeardAt(trace, serial, i) && LastHeardAt(trace, serial, j)
    ensures i == j
  {
  }

  ghost predicate SilentSince(trace: seq<Event>, timeout: real, serial: string) {
    exists j, k :: FoundSilent(trace, timeout, serial, j, k)
  }

  lemma SilentMore(init: seq<Event>, last: Event, timeout: real, serial: string, j: nat)
    requires forall i :: LastHeardAt(init, serial, i) ==> i == j
    ensures SilentSince(init + [last], timeout, serial) <==>
      && !(last.Telemetry? && last.serial == serial)
      && (SilentSince(init, timeout, serial)
        || (last.Check? && LastHeardAt(init, serial, j) && last.now - init[j].now >= timeout))
  {
    var trace, n := init + [last], |init|;
    assert trace[..n] == init && trace[n] == last;
    if i: nat, k: nat :| FoundSilent(trace, timeout, serial, i, k) {
      LastHeardMore(trace, serial, i);
      if k < n { assert FoundSilent(init, timeout, serial, i, k); }
    }
    if !(last.Telemetry? && last.serial == serial) {
      if i: nat, k: nat :| FoundSilent(init, timeout, serial, i, k) {
        LastHeardMore(trace, serial, i);
        assert FoundSilent(trace, timeout, serial, i, k);
      }
      if last.Check? && LastHeardAt(init, serial, j) && last.now - init[j].now >= timeout {
        LastHeardMore(trace, serial, j);
        assert FoundSilent(trace, timeout, serial, j, n);
      }
    }
  }

  /**
   At any moment, whatever the clock did, an inverter is stale exactly if some check since its last
   telemetry found it silent for the timeout.
   */
  lemma {:induction false} StaleIff(trace: seq<Event>, timeout: real, serial: string)
    requires serial != ""
    ensures serial in After(trace, timeout).stale <==> SilentSince(trace, timeout, serial)
    decreases |trace|
  {
    if trace != [] {
      var init := trace[..|trace| - 1];
      StaleIff(init, timeout, serial);
      var j := TimesAre(init, timeout, serial);
      forall i | LastHeardAt(init, serial, i)
        ensures i == j
      {
        LastHeardUnique(init, serial, i, j);
      }
      SilentMore(init, trace[|trace| - 1], timeout, serial, j);
      assert trace == init + [trace[|trace| - 1]];
    }
  }

  /** Starts with "stale" and alternates; `open` says whether the last word is "stale". */
  predicate Alternates(history: seq<Notice>, serial: string, open: bool)
    decreases |history|
  {
    if history == [] then
      !open
    else
      var last := history[|history| - 1];
      last == (if open then Stale(serial) else Resumed(serial)) && Alternates(history[..|history| - 1], serial, !open)
  }

  lemma {:induction false} AlternatesMore(history: seq<Notice>, serial: string, open: bool, n: Notice)
    requires Alternates(history, serial, !open) && n == if open then Stale(serial) else Resumed(serial)
    ensures Alternates(history + [n], serial, open)
  {
  }

  /** Per inverter the notices alternate, starting with "stale", and tell whether it is stale now. */
  lemma {:induction false} NoticesAlternate(trace: seq<Event>, serial: string, timeout: real)
    ensures Alternates(History(trace, serial, timeout), serial, serial in After(trace, timeout).stale)
    decreases |trace|
  {
    if trace != [] {
      var init, e := trace[..|trace| - 1], trace[|trace| - 1];
      NoticesAlternate(init, serial, timeout);
      var told := Told(After(init, timeout), e, serial, timeout);
      var open := serial in After(trace, timeout).stale;
      if told == [] {
        assert History(init, serial, timeout) + [] == History(init, serial, timeout);
      } else {
        AlternatesMore(History(init, serial, timeout), serial, open, told[0]);
      }
    }
  }
}
