/**
 The daemon's per-inverter record of setpoint commands: what was asked for, the generation
 of the latest command and the highest generation the inverter acknowledged.
 */
module Ledger {
  import opened Bytes

  /** The record of one inverter. */
  datatype Book = Book(desired: Option<nat>, applied: Option<nat>, generation: nat, confirmed: nat)

  const EMPTY_BOOK: Book := Book(None, None, 0, 0)

  function Command(b: Book, percent: nat): Book {
    b.(desired := Some(percent), generation := b.generation + 1)
  }

  function Acknowledge(b: Book, percent: nat, generation: nat): Book {
    b.(applied := Some(percent), confirmed := if generation > b.confirmed then generation else b.confirmed)
  }

  /** The value still to be applied, if any. */
  function Pending(b: Book): Option<nat> {
    if b.confirmed >= b.generation then None else b.desired
  }

  class Books {
    var desired: map<string, nat>
    var applied: map<string, nat>
    var generations: map<string, nat>
    var confirmedGenerations: map<string, nat>

    constructor ()
      ensures forall serial :: BookOf(serial) == EMPTY_BOOK
    {
      desired, applied, generations, confirmedGenerations := map[], map[], map[], map[];
    }

    function Lookup(m: map<string, nat>, serial: string): nat {
      if serial in m then m[serial] else 0
    }

    function BookOf(serial: string): Book
      reads this
    {
      Book(
        if serial in desired then Some(desired[serial]) else None,
        if serial in applied then Some(applied[serial]) else None,
        Lookup(generations, serial),
        Lookup(confirmedGenerations, serial))
    }

    method SetDesired(serial: string, percent: nat) returns (generation: nat)
      modifies this
      ensures BookOf(serial) == Command(old(BookOf(serial)), percent)
      ensures generation == BookOf(serial).generation
      ensures forall other :: other != serial ==> BookOf(other) == old(BookOf(other))
    {
      desired := desired[serial := percent];
      generation := Lookup(generations, serial) + 1;
      generations := generations[serial := generation];
    }

    method CurrentGeneration(serial: string) returns (generation: nat)
      ensures generation == BookOf(serial).generation
    {
      generation := if serial in generations then generations[serial] else 0;
    }

    method MarkApplied(serial: string, percent: nat, generation: nat)
      modifies this
      ensures BookOf(serial) == Acknowledge(old(BookOf(serial)), percent, generation)
      ensures forall other :: other != serial ==> BookOf(other) == old(BookOf(other))
    {
      applied := applied[serial := percent];
      if generation > Lookup(confirmedGenerations, serial) {
        confirmedGenerations := confirmedGenerations[serial := generation];
      }
    }

    method PendingLimit(serial: string) returns (percent: Option<nat>)
      ensures percent == Pending(BookOf(serial))
    {
      if serial !in desired {
        return None;
      }
      var confirmed := Lookup(confirmedGenerations, serial);
      if confirmed >= Lookup(generations, serial) {
        return None;
      }
      return Some(desired[serial]);
    }
  }

  /** An acknowledgement of an older command never hides a newer one. */
  lemma StaleAcknowledgement(b: Book, percent: nat, generation: nat)
    requires generation < b.generation && Pending(b).Some?
    ensures Pending(Acknowledge(b, percent, generation)) == Pending(b)
  {
  }

  // ---- the record over any commands and confirmations ----

  /** A new command, or the confirmation of the write of some command. */
  datatype Entry = Asked(percent: nat) | Acked(percent: nat, generation: nat)

  function BookAfter(entries: seq<Entry>): Book {
    if entries == [] then
      EMPTY_BOOK
    else
      var before := BookAfter(entries[..|entries| - 1]);
      match entries[|entries| - 1]
      case Asked(percent) => Command(before, percent)
      case Acked(percent, generation) => Acknowledge(before, percent, generation)
  }

  /** How many commands there were. */
  function Commands(entries: seq<Entry>): nat {
    if entries == [] then 0
    else Commands(entries[..|entries| - 1]) + if entries[|entries| - 1].Asked? then 1 else 0
  }

  /** The value of the last command, or of the last confirmation. */
  function LastValue(entries: seq<Entry>, asked: bool): Option<nat> {
    if entries == [] then
      None
    else if entries[|entries| - 1].Asked? == asked then
      Some(entries[|entries| - 1].percent)
    else
      LastValue(entries[..|entries| - 1], asked)
  }

  /** A command of this generation or a later one was confirmed. */
  ghost predicate ConfirmedFrom(entries: seq<Entry>, generation: nat) {
    exists i :: 0 <= i < |entries| && entries[i].Acked? && entries[i].generation >= generation
  }

  lemma ConfirmedMore(entries: seq<Entry>, generation: nat)
    requires entries != []
    ensures ConfirmedFrom(entries, generation) <==>
      || ConfirmedFrom(entries[..|entries| - 1], generation)
      || (entries[|entries| - 1].Acked? && entries[|entries| - 1].generation >= generation)
  {
    var init := entries[..|entries| - 1];
    if i :| 0 <= i < |init| && init[i].Acked? && init[i].generation >= generation {
      assert entries[i] == init[i];
    }
    if i :| 0 <= i < |entries| && entries[i].Acked? && entries[i].generation >= generation {
      assert i < |init| ==> init[i] == entries[i];
    }
  }

  lemma {:induction false} RecordTells(entries: seq<Entry>, generation: nat)
    ensures BookAfter(entries).generation == Commands(entries)
    ensures BookAfter(entries).desired == LastValue(entries, true)
    ensures BookAfter(entries).applied == LastValue(entries, false)
    ensures generation > 0 ==> (BookAfter(entries).confirmed >= generation <==> ConfirmedFrom(entries, generation))
    ensures LastValue(entries, true).Some? <==> Commands(entries) > 0
    decreases |entries|
  {
    if entries != [] {
      RecordTells(entries[..|entries| - 1], generation);
      ConfirmedMore(entries, generation);
    }
  }

  /**
   After any commands and confirmations, what is pending is the value of the last command, exactly as
   long as neither its own write nor a later one was confirmed.
   */
  lemma PendingIff(entries: seq<Entry>)
    ensures Pending(BookAfter(entries)) ==
      if ConfirmedFrom(entries, Commands(entries)) then None else LastValue(entries, true)
  {
    RecordTells(entries, Commands(entries));
    if Commands(entries) == 0 { assert BookAfter(entries).desired == None; }
  }
}
