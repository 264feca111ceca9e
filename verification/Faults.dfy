/** AC faults: the code of a set of fault words, and the events that tell when one appears, changes and ends. */
module Faults {
  import opened Bytes
  import opened Register

  const DOCUMENTED: nat := 14
  const NEWEST_BIT_CODE: nat := 4160

  /** The fault words of a telemetry payload: the word at offset 98 and the four-entry FIFO. */
  datatype Words = Words(offset98: nat, w100: nat, w102: nat, w104: nat, w106: nat) {
    predicate Active() {
      w100 != 0 || w102 != 0 || w104 != 0 || w106 != 0 || offset98 != 0
    }

    /** The newest snapshot: the last slot that is not empty. */
    function Newest(): nat {
      if w106 != 0 then w106 else if w104 != 0 then w104 else if w102 != 0 then w102 else w100
    }
  }

  /** A fault code: documented faults in ascending order, or a word kept as it is. */
  datatype Code = Documented(codes: seq<nat>) | RawWord(word: nat) | RawOffset98(word: nat)

  predicate BitSet(mask: nat, bit: nat)
    decreases bit
  {
    if bit == 0 then mask % 2 == 1 else BitSet(mask / 2, bit - 1)
  }

  /** The codes of the lowest `n` bits, ascending: a higher bit has a lower code. */
  function CodesBelow(mask: nat, n: nat): seq<nat>
    requires n <= DOCUMENTED
  {
    if n == 0 then
      []
    else
      (if BitSet(mask, n - 1) then [NEWEST_BIT_CODE - (n - 1)] else []) + CodesBelow(mask, n - 1)
  }

  /** `fault_code_for`; `None` is the empty string. */
  function FaultCode(w: Words): Option<Code> {
    var newest := w.Newest();
    if newest == 0 then
      if w.offset98 != 0 then Some(RawOffset98(w.offset98)) else None
    else if newest >= 0x4000 then
      Some(RawWord(newest))
    else
      Some(Documented(CodesBelow(newest, DOCUMENTED)))
  }

  // ---- the code, by the words ----

  /** `x` is the last word of the four that is not zero. */
  predicate IsNewest(w: Words, x: nat) {
    x != 0 && (
      || w.w106 == x
      || (w.w106 == 0 && w.w104 == x)
      || (w.w106 == 0 && w.w104 == 0 && w.w102 == x)
      || (w.w106 == 0 && w.w104 == 0 && w.w102 == 0 && w.w100 == x))
  }

  lemma {:induction false} BitIs(mask: nat, bit: nat)
    ensures BitSet(mask, bit) <==> mask / Pow2(bit) % 2 == 1
    decreases bit
  {
    if bit > 0 {
      BitIs(mask / 2, bit - 1);
      HalvesThen(mask, Pow2(bit - 1));
    }
  }

  lemma HalvesThen(m: nat, p: nat)
    requires p > 0
    ensures m / 2 / p == m / (2 * p)
  {
    var h := m / 2;
    var q, r := h / p, h % p;
    assert h == p * q + r;
    Doubled(m, h, p, q, r);
    QuotientIs(m, 2 * p, q, 2 * r + m % 2);
  }

  lemma Doubled(m: nat, h: nat, p: nat, q: nat, r: nat)
    requires h == p * q + r && m == 2 * h + m % 2
    ensures m == (2 * p) * q + (2 * r + m % 2)
  {
    assert 2 * (p * q) == (2 * p) * q;
  }

  lemma QuotientIs(n: nat, p: nat, q: nat, r: nat)
    requires n == p * q + r && r < p
    ensures n / p == q
  {
    var k, m := n / p, n % p;
    assert n == p * k + m;
    if k > q { OneMoreFits(p, k, q); }
    if k < q { OneMoreFits(p, q, k); }
  }

  lemma {:induction false} OneMoreFits(p: nat, k: nat, q: nat)
    requires k > q
    ensures p * k >= p * q + p
    decreases k
  {
    assert p * k == p * (k - 1) + p;
    if k - 1 > q { OneMoreFits(p, k - 1, q); }
  }

  /**
   What is reported: nothing if all words are zero; the word at offset 98 if only that is set; the
   newest word as it is if it has an undocumented bit; and otherwise the documented codes of its
   bits, ascending, where bit `b` has the code 4160 - b.
   */
  lemma FaultCodeIs(w: Words, x: nat)
    ensures FaultCode(w) == None <==> w == Words(0, 0, 0, 0, 0)
    ensures w.w100 == w.w102 == w.w104 == w.w106 == 0 && w.offset98 != 0 ==>
      FaultCode(w) == Some(RawOffset98(w.offset98))
    ensures IsNewest(w, x) && x >= 0x4000 ==> FaultCode(w) == Some(RawWord(x))
    ensures IsNewest(w, x) && x < 0x4000 ==>
      && FaultCode(w).Some? && FaultCode(w).value.Documented? && Ascending(FaultCode(w).value.codes)
      && forall c :: c in FaultCode(w).value.codes <==> 4147 <= c <= 4160 && x / Pow2(4160 - c) % 2 == 1
  {
    if IsNewest(w, x) && x < 0x4000 {
      CodesAscend(x, DOCUMENTED);
      forall c: nat
        ensures c in CodesBelow(x, DOCUMENTED) <==> 4147 <= c <= 4160 && x / Pow2(4160 - c) % 2 == 1
      {
        CodesAre(x, DOCUMENTED, c);
        if 4147 <= c <= 4160 { BitIs(x, 4160 - c); }
      }
    }
  }

  // ---- the code determines the mask ----

  /** The list holds the code of every set bit and no other. */
  lemma {:induction false} CodesAre(mask: nat, n: nat, c: nat)
    requires n <= DOCUMENTED
    ensures c in CodesBelow(mask, n)
      <==> NEWEST_BIT_CODE - n < c <= NEWEST_BIT_CODE && BitSet(mask, NEWEST_BIT_CODE - c)
  {
    if n > 0 { CodesAre(mask, n - 1, c); }
  }

  predicate Ascending(s: seq<nat>) {
    forall i, j :: 0 <= i < j < |s| ==> s[i] < s[j]
  }

  lemma {:induction false} CodesAscend(mask: nat, n: nat)
    requires n <= DOCUMENTED
    ensures Ascending(CodesBelow(mask, n))
  {
    if n > 0 {
      CodesAscend(mask, n - 1);
      var rest := CodesBelow(mask, n - 1);
      forall i | 0 <= i < |rest|
        ensures NEWEST_BIT_CODE - (n - 1) < rest[i]
      {
        CodesAre(mask, n - 1, rest[i]);
      }
    }
  }

  lemma {:induction false} SameBits(a: nat, b: nat, n: nat)
    requires a < Pow2(n) && b < Pow2(n)
    requires forall i: nat :: i < n ==> BitSet(a, i) == BitSet(b, i)
    ensures a == b
    decreases n
  {
    if n > 0 {
      assert BitSet(a, 0) == BitSet(b, 0);
      forall i: nat | i < n - 1
        ensures BitSet(a / 2, i) == BitSet(b / 2, i)
      {
        assert BitSet(a, i + 1) == BitSet(b, i + 1);
      }
      SameBits(a / 2, b / 2, n - 1);
    }
  }

  /** Documented codes lose nothing: they determine the newest fault word. */
  lemma CodesDetermineMask(a: nat, b: nat, n: nat)
    requires n <= DOCUMENTED && a < Pow2(n) && b < Pow2(n) && CodesBelow(a, n) == CodesBelow(b, n)
    ensures a == b
  {
    forall i: nat | i < n
      ensures BitSet(a, i) == BitSet(b, i)
    {
      CodesAre(a, n, NEWEST_BIT_CODE - i);
      CodesAre(b, n, NEWEST_BIT_CODE - i);
    }
    SameBits(a, b, n);
  }

  /** Two sets of words with one documented code have the same newest word. */
  lemma CodeDeterminesNewest(v: Words, w: Words)
    requires FaultCode(v).Some? && FaultCode(v) == FaultCode(w) && !FaultCode(v).value.RawOffset98?
    ensures v.Newest() == w.Newest()
  {
    Pow2Values();
    if FaultCode(v).value.Documented? { CodesDetermineMask(v.Newest(), w.Newest(), DOCUMENTED); }
  }

  // ---- the trace machine ----

  datatype Event = Observed(code: Code) | Cleared(last: Option<Code>)

  datatype State = State(active: bool, last: Option<Code>)

  const QUIET: State := State(false, None)

  function Next(s: State, w: Words): State {
    var code := FaultCode(w);
    State(w.Active(), if code.Some? && (!s.active || code != s.last) then code else s.last)
  }

  function Emitted(s: State, w: Words): seq<Event> {
    var code := FaultCode(w);
    if code.Some? && (!s.active || code != s.last) then
      [Observed(code.value)]
    else if !w.Active() && s.active then
      [Cleared(s.last)]
    else
      []
  }

  class FaultTracker {
    var previousFaultActive: bool
    var lastFaultCode: Option<Code>
    var events: seq<Event>

    function View(): State
      reads this
    {
      State(previousFaultActive, lastFaultCode)
    }

    constructor ()
      ensures View() == QUIET && events == []
    {
      previousFaultActive, lastFaultCode, events := false, None, [];
    }

    /** `_update_fault_state`; an unsupported model reports nothing and forgets that a fault was active. */
    method UpdateFaultState(w: Words, supported: bool)
      modifies this
      ensures View() == if supported then Next(old(View()), w) else old(View()).(active := false)
      ensures events == old(events) + if supported then Emitted(old(View()), w) else []
    {
      if !supported {
        previousFaultActive := false;
        return;
      }
      var active := w.Active();
      var code := if active then FaultCode(w) else None;
      if code.Some? && (!previousFaultActive || code != lastFaultCode) {
        lastFaultCode := code;
        events := events + [Observed(code.value)];
      } else if !active && previousFaultActive {
        events := events + [Cleared(lastFaultCode)];
      }
      previousFaultActive := active;
    }
  }

  function After(trace: seq<Words>): State {
    if trace == [] then QUIET else Next(After(trace[..|trace| - 1]), trace[|trace| - 1])
  }

  function Events(trace: seq<Words>): seq<Event> {
    if trace == [] then
      []
    else
      Events(trace[..|trace| - 1]) + Emitted(After(trace[..|trace| - 1]), trace[|trace| - 1])
  }

  /** The fault that the events leave open. */
  function Open(events: seq<Event>): Option<Code> {
    if events == [] then
      None
    else
      match events[|events| - 1]
      case Observed(code) => Some(code)
      case Cleared(_) => None
  }

  /** The fault that was observed last, open or not. */
  function LastObserved(events: seq<Event>): Option<Code> {
    if events == [] then
      None
    else
      match events[|events| - 1]
      case Observed(code) => Some(code)
      case Cleared(_) => LastObserved(events[..|events| - 1])
  }

  /** A fault is observed only when another one or none is open; what is cleared is the open one. */
  predicate Legal(events: seq<Event>)
    decreases |events|
  {
    events == [] || (
      var init := events[..|events| - 1];
      && Legal(init)
      && match events[|events| - 1]
         case Observed(code) => Open(init) != Some(code)
         case Cleared(last) => last.Some? && last == Open(init))
  }

  lemma ActiveIffCode(w: Words)
    ensures w.Active() <==> FaultCode(w).Some?
  {
  }

  lemma {:induction false} LegalMore(events: seq<Event>, e: Event)
    requires Legal(events)
    requires e.Observed? ==> Open(events) != Some(e.code)
    requires e.Cleared? ==> e.last.Some? && e.last == Open(events)
    ensures Legal(events + [e])
  {
  }

  /**
   For any telemetry the events are well formed, and at every moment the open fault is the
   one the latest payload reports, if any.
   */
  lemma {:induction false} EventsTellTheFault(trace: seq<Words>)
    ensures Legal(Events(trace))
    ensures Open(Events(trace)) == (if trace == [] then None else FaultCode(trace[|trace| - 1]))
    ensures After(trace).active <==> Open(Events(trace)).Some?
    ensures After(trace).active ==> After(trace).last == Open(Events(trace))
    ensures After(trace).last == LastObserved(Events(trace))
    decreases |trace|
  {
    if trace != [] {
      var init, w := trace[..|trace| - 1], trace[|trace| - 1];
      EventsTellTheFault(init);
      ActiveIffCode(w);
      var told := Emitted(After(init), w);
      if told == [] {
        assert Events(init) + [] == Events(init);
      } else {
        LegalMore(Events(init), told[0]);
        assert Events(trace)[..|Events(trace)| - 1] == Events(init);
      }
    }
  }
}
