/**
 `LocalControl`: Modbus requests injected into the inverter's stream, each under a
 four-byte transaction id, and the acknowledgements that settle the writes among them.
 `Link` is its state as a value; the class keeps that state in fields and futures.
 */
module LocalControl {
  import opened Bytes
  import opened Frames
  import opened Modbus

  type Key = seq<byte>

  const DEVICE_READ: byte := 0x11
  const DEVICE_WRITE: byte := 0x12
  const COUNTER_START: nat := 0xF000
  const SESSION_MARKER: byte := 0xAA

  /** Clear bit 7 of the first byte, so that request and echo carry the same key. */
  function Normalize(device: seq<byte>): Key {
    if device == [] then
      device
    else
      [device[0] % 128] + device[1..if |device| < 4 then |device| else 4]
  }

  function DeviceFor(op: byte, counter: nat): (d: seq<byte>)
    ensures |d| == 4
  {
    [op, (counter % 256) as byte, (counter / 256 % 256) as byte, SESSION_MARKER]
  }

  // ---- the state as a value ----

  /** A write future: waiting, or settled with "confirmed". */
  datatype Status = Waiting | Done(confirmed: bool)

  datatype Link = Link(counter: nat, outstanding: set<Key>, pending: map<Key, Status>)

  const FRESH_LINK: Link := Link(COUNTER_START, {}, map[])

  /** The id of the next injection. */
  function NextDevice(link: Link, op: byte): (d: seq<byte>)
    ensures |d| == 4
  {
    DeviceFor(op, (link.counter + 1) % 0x1_0000)
  }

  function NextWriteKey(link: Link): Key {
    Normalize(NextDevice(link, DEVICE_WRITE))
  }

  /** Count the injection and remember its key. */
  function Issue(link: Link, op: byte): Link {
    link.(counter := (link.counter + 1) % 0x1_0000,
      outstanding := link.outstanding + {Normalize(NextDevice(link, op))})
  }

  /** What `_send` did: the bytes are out, there was no usable writer, or draining failed. */
  datatype SendResult = Sent | NoWriter | Raised

  /** The end of `write_register`: forget the key. */
  function Finish(link: Link, key: Key): Link {
    link.(pending := link.pending - {key})
  }

  function Register(link: Link, key: Key): Link {
    link.(pending := link.pending[key := Waiting])
  }

  /** `write_register` up to its wait; only a timed write that was sent waits. */
  function BeginWrite(link: Link, timed: bool, send: SendResult): Link {
    var key := NextWriteKey(link);
    var issued := Issue(link, DEVICE_WRITE);
    var registered := if timed then Register(issued, key) else issued;
    if timed && send.Sent? then registered else Finish(registered, key)
  }

  /** Settle the write that waits under this device's key, if there is one. */
  function Resolve(link: Link, device: seq<byte>, confirmed: bool): Link {
    var key := Normalize(device);
    if key in link.pending && link.pending[key].Waiting? then
      link.(pending := link.pending[key := Done(confirmed)])
    else
      link
  }

  predicate IsOurs(link: Link, f: Frame) {
    f.start == START_7F && Normalize(f.device) in link.outstanding
  }

  /** The part of `handle_frame` that concerns injected requests. */
  function OnFrame(link: Link, f: Frame): Link {
    if f.validCrc && IsOurs(link, f) then Resolve(link, f.device, IsWriteSuccess(f)) else link
  }

  // ---- the class ----

  class Future {
    var status: Status

    constructor ()
      ensures status == Waiting
    {
      status := Waiting;
    }
  }

  datatype Outcome = Confirmed | Rejected | TimedOut | NoConnection | Error

  class Control {
    var counter: nat
    var outstanding: set<Key>
    var pendingWrites: map<Key, Future>

    ghost predicate Valid()
      reads this
    {
      && counter < 0x1_0000
      && forall k, l :: k in pendingWrites && l in pendingWrites && k != l ==> pendingWrites[k] != pendingWrites[l]
    }

    ghost function View(): Link
      reads this, pendingWrites.Values
    {
      Link(counter, outstanding, map k | k in pendingWrites :: pendingWrites[k].status)
    }

    constructor ()
      ensures Valid() && View() == FRESH_LINK
    {
      counter := COUNTER_START;
      outstanding := {};
      pendingWrites := map[];
    }

    method TakeDevice(op: byte) returns (device: seq<byte>)
      requires Valid()
      modifies this`counter
      ensures Valid() && device == old(NextDevice(View(), op))
      ensures counter == (old(counter) + 1) % 0x1_0000
    {
      counter := (counter + 1) % 0x1_0000;
      device := [op, (counter % 256) as byte, (counter / 256 % 256) as byte, SESSION_MARKER];
    }

    predicate IsOurFrame(f: Frame)
      reads this
    {
      f.start == START_7F && Normalize(f.device) in outstanding
    }

    method IssueId(op: byte) returns (device: seq<byte>)
      requires Valid()
      modifies this`counter, this`outstanding
      ensures Valid() && device == old(NextDevice(View(), op))
      ensures View() == Issue(old(View()), op)
    {
      device := TakeDevice(op);
      outstanding := outstanding + {Normalize(device)};
    }

    method IssueRead(address: nat, count: nat) returns (device: seq<byte>, raw: seq<byte>)
      requires Valid() && address < 0x1_0000 && count < 0x1_0000
      modifies this`counter, this`outstanding
      ensures Valid() && View() == Issue(old(View()), DEVICE_READ)
      ensures device == old(NextDevice(View(), DEVICE_READ)) && raw == BuildReadHolding(device, address, count)
    {
      device := IssueId(DEVICE_READ);
      raw := BuildReadHolding(device, address, count);
    }

    method Await(key: Key) returns (future: Future)
      requires Valid()
      modifies this`pendingWrites
      ensures Valid() && View() == Register(old(View()), key)
      ensures key in pendingWrites && pendingWrites[key] == future && fresh(future)
    {
      future := new Future();
      pendingWrites := pendingWrites[key := future];
    }

    method Forget(key: Key)
      requires Valid()
      modifies this`pendingWrites
      ensures Valid() && View() == Finish(old(View()), key)
    {
      pendingWrites := pendingWrites - {key};
    }

    /**
     The first half of a write: issue an id, register the future before sending, send. A
     write that does not wait is over at once and `early` says how it ended.
     */
    method StartWrite(address: nat, value: nat, timed: bool, send: SendResult)
        returns (raw: seq<byte>, key: Key, future: Future?, early: Option<Outcome>)
      requires Valid() && address < 0x1_0000 && value < 0x1_0000
      modifies this
      ensures Valid() && View() == BeginWrite(old(View()), timed, send)
      ensures key == old(NextWriteKey(View()))
      ensures raw == BuildWriteSingle(old(NextDevice(View(), DEVICE_WRITE)), address, value)
      ensures early == match send
        case Sent => if timed then None else Some(Confirmed)
        case NoWriter => Some(NoConnection)
        case Raised => Some(Error)
      ensures early.None? ==> future != null && key in pendingWrites && pendingWrites[key] == future
    {
      var device := IssueId(DEVICE_WRITE);
      raw := BuildWriteSingle(device, address, value);
      key := Normalize(device);
      future := null;
      if timed {
        future := Await(key);
      }
      if timed && send.Sent? {
        return raw, key, future, None;
      }
      Forget(key);
      early := Some(if send.Sent? then Confirmed else if send.NoWriter? then NoConnection else Error);
    }

    /** The second half: the future settled, or the wait ran out. */
    method EndWrite(key: Key, future: Future, expired: bool) returns (outcome: Outcome)
      requires Valid() && (expired || future.status.Done?)
      modifies this`pendingWrites
      ensures Valid() && View() == Finish(old(View()), key)
      ensures outcome ==
        if expired then TimedOut else if future.status == Done(true) then Confirmed else Rejected
    {
      if expired {
        outcome := TimedOut;
      } else if future.status.confirmed {
        outcome := Confirmed;
      } else {
        outcome := Rejected;
      }
      Forget(key);
    }

    method ResolveResponse(device: seq<byte>, confirmed: bool)
      requires Valid()
      modifies pendingWrites.Values
      ensures Valid() && View() == Resolve(old(View()), device, confirmed)
      ensures forall k :: k in pendingWrites && k != Normalize(device) ==>
        pendingWrites[k].status == old(pendingWrites[k].status)
    {
      var key := Normalize(device);
      if key in pendingWrites && pendingWrites[key].status.Waiting? {
        pendingWrites[key].status := Done(confirmed);
      }
    }

    method HandleFrame(f: Frame)
      requires Valid()
      modifies pendingWrites.Values
      ensures Valid() && View() == OnFrame(old(View()), f)
    {
      if !f.validCrc {
        return;
      }
      if IsOurFrame(f) {
        ResolveResponse(f.device, IsWriteSuccess(f));
      }
    }
  }

  // ---- ids ----

  /** The counter of the `n`-th injection of a session. */
  function CounterAt(n: nat): nat {
    (COUNTER_START + n) % 0x1_0000
  }

  function WriteKeyAt(n: nat): Key {
    Normalize(DeviceFor(DEVICE_WRITE, CounterAt(n)))
  }

  lemma KeyIsDevice(op: byte, counter: nat)
    requires op < 128
    ensures Normalize(DeviceFor(op, counter)) == DeviceFor(op, counter)
  {
  }

  lemma DeviceDetermines(op: byte, c: nat, d: nat)
    requires c < 0x1_0000 && d < 0x1_0000 && DeviceFor(op, c) == DeviceFor(op, d)
    ensures c == d
  {
  }

  lemma CounterRecurs(m: nat, n: nat)
    ensures CounterAt(m) == CounterAt(n) <==> m % 0x1_0000 == n % 0x1_0000
  {
  }

  /** An id comes back after exactly 65536 injections, and not before. */
  lemma KeysRecur(m: nat, n: nat)
    ensures WriteKeyAt(m) == WriteKeyAt(n) <==> m % 0x1_0000 == n % 0x1_0000
  {
    var c, d := CounterAt(m), CounterAt(n);
    KeyIsDevice(DEVICE_WRITE, c);
    KeyIsDevice(DEVICE_WRITE, d);
    CounterRecurs(m, n);
    if WriteKeyAt(m) == WriteKeyAt(n) { DeviceDetermines(DEVICE_WRITE, c, d); }
  }

  /** The bytes of an id: the operation, the counter with its low byte first, and the gateway's own mark. */
  lemma DeviceLayout(op: byte, counter: nat)
    requires counter < 0x1_0000
    ensures var d := DeviceFor(op, counter);
      |d| == 4 && d[0] == op && d[1] as nat + 256 * d[2] as nat == counter && d[3] == 0xAA
  {
  }

  /** The inverter's echo of an id, with bit 7 of its first byte set, finds its key again. */
  lemma EchoHasKey(device: seq<byte>)
    requires |device| == 4 && device[0] < 128
    ensures Normalize([device[0] + 128] + device[1..]) == Normalize(device) == device
  {
  }

  // ---- runs of one session's control ----

  datatype Event =
    | Write(timed: bool, send: SendResult)
    | ReadRequest
    | Arrived(frame: Frame)
    | Ended(key: Key)

  function Apply(link: Link, e: Event): Link {
    match e
    case Write(timed, send) => BeginWrite(link, timed, send)
    case ReadRequest => Issue(link, DEVICE_READ)
    case Arrived(f) => OnFrame(link, f)
    case Ended(key) => Finish(link, key)
  }

  function After(trace: seq<Event>): Link {
    if trace == [] then FRESH_LINK else Apply(After(trace[..|trace| - 1]), trace[|trace| - 1])
  }

  /** A frame that acknowledges the write under `key`: intact, 7f, this id, a write response. */
  predicate Acknowledges(f: Frame, key: Key) {
    f.validCrc && f.start == START_7F && Normalize(f.device) == key && IsWriteSuccess(f)
  }

  /** Event `i` is a write that gets the id `key`. */
  predicate IssuedAt(trace: seq<Event>, key: Key, i: nat)
    requires i < |trace|
  {
    trace[i].Write? && NextWriteKey(After(trace[..i])) == key
  }

  /** Event `j` is such a frame, it came while the write waited, and the id was not issued again. */
  ghost predicate ConfirmedAt(trace: seq<Event>, key: Key, j: nat) {
    && j < |trace|
    && trace[j].Arrived? && Acknowledges(trace[j].frame, key)
    && key in After(trace[..j]).pending && After(trace[..j]).pending[key] == Waiting
    && forall i :: j < i < |trace| ==> !IssuedAt(trace, key, i)
  }

  /** No write is ever reported confirmed without its own acknowledgement. */
  lemma {:induction false} ConfirmationSound(trace: seq<Event>, key: Key) returns (j: nat)
    requires key in After(trace).pending && After(trace).pending[key] == Done(true)
    ensures ConfirmedAt(trace, key, j)
    decreases |trace|
  {
    var n := |trace| - 1;
    var before, last := After(trace[..n]), trace[n];
    StepToConfirmed(before, last, key);
    if key in before.pending && before.pending[key] == Done(true) {
      j := ConfirmationSound(trace[..n], key);
      ConfirmedExtends(trace, key, j);
    } else {
      j := n;
    }
  }

  lemma InitPrefix(trace: seq<Event>, i: nat)
    requires i < |trace|
    ensures trace[..|trace| - 1][..i] == trace[..i]
  {
  }

  lemma ConfirmedExtends(trace: seq<Event>, key: Key, j: nat)
    requires trace != [] && ConfirmedAt(trace[..|trace| - 1], key, j)
    requires !IssuedAt(trace, key, |trace| - 1)
    ensures ConfirmedAt(trace, key, j)
  {
    InitPrefix(trace, j);
    forall i | j < i < |trace|
      ensures !IssuedAt(trace, key, i)
    {
      if i < |trace| - 1 { IssuedInPrefix(trace, key, i); }
    }
  }

  lemma IssuedInPrefix(trace: seq<Event>, key: Key, i: nat)
    requires i + 1 < |trace|
    ensures IssuedAt(trace, key, i) <==> IssuedAt(trace[..|trace| - 1], key, i)
  {
    InitPrefix(trace, i);
  }

  /** A key becomes confirmed only by its acknowledgement, and stays so only if not reissued. */
  lemma StepToConfirmed(link: Link, e: Event, key: Key)
    requires key in Apply(link, e).pending && Apply(link, e).pending[key] == Done(true)
    ensures
      || (key in link.pending && link.pending[key] == Done(true) && (e.Write? ==> NextWriteKey(link) != key))
      || (e.Arrived? && Acknowledges(e.frame, key) && key in link.pending && link.pending[key] == Waiting)
  {
  }

  /** A response settles at most the write of its own id; all others stay as they were. */
  lemma ResponseIsLocal(link: Link, f: Frame, key: Key)
    requires Normalize(f.device) != key
    ensures key in OnFrame(link, f).pending <==> key in link.pending
    ensures key in link.pending ==> OnFrame(link, f).pending[key] == link.pending[key]
  {
  }

  // ---- what becomes of a write ----

  /** An intact 7f frame under an id: an answer, whatever it says. */
  predicate AnswersKey(f: Frame, key: Key) {
    f.validCrc && f.start == START_7F && Normalize(f.device) == key
  }

  /** The answer says that the register was written. */
  predicate SaysWritten(f: Frame) {
    (|f.payload| == 2 || |f.payload| >= 6) && f.payload[1] == 0x06
  }

  /** A frame settles the write that waits under its id, and nothing else. */
  lemma FrameSettles(link: Link, f: Frame)
    ensures var key := Normalize(f.device);
      OnFrame(link, f) ==
        if AnswersKey(f, key) && key in link.outstanding && key in link.pending && link.pending[key] == Waiting then
          link.(pending := link.pending[key := Done(SaysWritten(f))])
        else
          link
  {
    WriteSuccessShape(f);
  }

  /** The write under `key` is over, or its id goes to another write. */
  predicate Closes(trace: seq<Event>, key: Key, i: nat)
    requires i < |trace|
  {
    trace[i] == Ended(key) || IssuedAt(trace, key, i)
  }

  /** Event `i` is the write that waits, or was answered, under `key`. */
  ghost predicate OpenAt(trace: seq<Event>, key: Key, i: nat) {
    && i < |trace| && trace[i] == Write(true, Sent) && IssuedAt(trace, key, i)
    && forall k :: i < k < |trace| ==> !Closes(trace, key, k)
  }

  /** The first answer under `key` after event `i`. */
  function FirstAnswer(trace: seq<Event>, key: Key, i: nat): Option<Frame>
    decreases |trace|
  {
    if |trace| <= i + 1 then
      None
    else
      var init, e := trace[..|trace| - 1], trace[|trace| - 1];
      var before := FirstAnswer(init, key, i);
      if before.None? && e.Arrived? && AnswersKey(e.frame, key) then Some(e.frame) else before
  }

  /** It alone decides: without one the write waits, and otherwise it is settled as that answer says. */
  function Fate(answer: Option<Frame>): Status {
    match answer
    case None => Waiting
    case Some(f) => Done(SaysWritten(f))
  }

  lemma OpenInPrefix(trace: seq<Event>, key: Key, i: nat)
    requires i + 1 < |trace|
    ensures OpenAt(trace, key, i) <==>
      OpenAt(trace[..|trace| - 1], key, i) && !Closes(trace, key, |trace| - 1)
  {
    var init := trace[..|trace| - 1];
    IssuedInPrefix(trace, key, i);
    forall k | i < k < |init|
      ensures Closes(trace, key, k) <==> Closes(init, key, k)
    {
      IssuedInPrefix(trace, key, k);
    }
  }

  lemma JustIssued(link: Link, e: Event, key: Key)
    requires e.Write? && NextWriteKey(link) == key
    ensures key in Apply(link, e).pending <==> e.timed && e.send.Sent?
    ensures e.timed && e.send.Sent? ==> Apply(link, e).pending[key] == Waiting && key in Apply(link, e).outstanding
  {
  }

  lemma StillThere(link: Link, e: Event, key: Key)
    requires e != Ended(key) && !(e.Write? && NextWriteKey(link) == key)
    ensures key in Apply(link, e).pending <==> key in link.pending
    ensures key in link.outstanding ==> key in Apply(link, e).outstanding
    ensures key in link.pending && key in link.outstanding ==>
      Apply(link, e).pending[key] ==
        if e.Arrived? && AnswersKey(e.frame, key) && link.pending[key] == Waiting then
          Done(SaysWritten(e.frame))
        else
          link.pending[key]
  {
    if e.Arrived? { FrameSettles(link, e.frame); }
  }

  /** The first answer decides, later ones change nothing. */
  lemma {:induction false} OpenHasFate(trace: seq<Event>, key: Key, i: nat)
    requires OpenAt(trace, key, i)
    ensures key in After(trace).pending && key in After(trace).outstanding
    ensures After(trace).pending[key] == Fate(FirstAnswer(trace, key, i))
    decreases |trace|
  {
    var init, e := trace[..|trace| - 1], trace[|trace| - 1];
    if i == |trace| - 1 {
      JustIssued(After(init), e, key);
    } else {
      OpenInPrefix(trace, key, i);
      OpenHasFate(init, key, i);
      StillThere(After(init), e, key);
    }
  }

  lemma {:induction false} PendingIsOpen(trace: seq<Event>, key: Key) returns (i: nat)
    requires key in After(trace).pending
    ensures OpenAt(trace, key, i)
    decreases |trace|
  {
    var init, e := trace[..|trace| - 1], trace[|trace| - 1];
    if e.Write? && NextWriteKey(After(init)) == key {
      JustIssued(After(init), e, key);
      i := |trace| - 1;
    } else {
      assert e != Ended(key);
      StillThere(After(init), e, key);
      i := PendingIsOpen(init, key);
      OpenInPrefix(trace, key, i);
    }
  }

  /**
   After any events a write is known under `key` exactly if it was sent to be waited for and is not
   over. It is confirmed or rejected by its first answer alone, and waits until there is one.
   */
  lemma {:induction false} WriteFate(trace: seq<Event>, key: Key)
    ensures key in After(trace).pending <==> exists i :: OpenAt(trace, key, i)
    ensures forall i :: OpenAt(trace, key, i) ==>
      key in After(trace).pending && After(trace).pending[key] == Fate(FirstAnswer(trace, key, i))
  {
    if key in After(trace).pending { var i := PendingIsOpen(trace, key); }
    forall i | OpenAt(trace, key, i)
      ensures key in After(trace).pending && After(trace).pending[key] == Fate(FirstAnswer(trace, key, i))
    {
      OpenHasFate(trace, key, i);
    }
  }

  // ---- which frames are the gateway's ----

  /** Event `i` injects a request under the id `key`. */
  predicate InjectedAt(trace: seq<Event>, key: Key, i: nat)
    requires i < |trace|
  {
    var device := if trace[i].Write? then DEVICE_WRITE else DEVICE_READ;
    (trace[i].Write? || trace[i].ReadRequest?) && Normalize(NextDevice(After(trace[..i]), device)) == key
  }

  lemma InjectedInPrefix(trace: seq<Event>, key: Key, i: nat)
    requires i + 1 < |trace|
    ensures InjectedAt(trace, key, i) <==> InjectedAt(trace[..|trace| - 1], key, i)
  {
    InitPrefix(trace, i);
  }

  lemma OutstandingAfter(link: Link, e: Event, key: Key)
    ensures key in Apply(link, e).outstanding <==>
      || key in link.outstanding
      || (e.Write? && Normalize(NextDevice(link, DEVICE_WRITE)) == key)
      || (e.ReadRequest? && Normalize(NextDevice(link, DEVICE_READ)) == key)
  {
  }

  ghost predicate Injected(trace: seq<Event>, key: Key) {
    exists i :: 0 <= i < |trace| && InjectedAt(trace, key, i)
  }

  lemma InjectedMore(trace: seq<Event>, key: Key)
    requires trace != []
    ensures Injected(trace, key) <==> Injected(trace[..|trace| - 1], key) || InjectedAt(trace, key, |trace| - 1)
  {
    var init := trace[..|trace| - 1];
    forall i | 0 <= i < |init|
      ensures InjectedAt(trace, key, i) <==> InjectedAt(init, key, i)
    {
      InjectedInPrefix(trace, key, i);
    }
    if InjectedAt(trace, key, |trace| - 1) { assert Injected(trace, key); }
    if Injected(init, key) {
      var i :| 0 <= i < |init| && InjectedAt(init, key, i);
      assert InjectedAt(trace, key, i);
    }
  }

  /** The ids of a session's injections are kept for the whole session, and there are no others. */
  lemma {:induction false} OutstandingIs(trace: seq<Event>, key: Key)
    ensures key in After(trace).outstanding <==> Injected(trace, key)
    decreases |trace|
  {
    if trace != [] {
      OutstandingIs(trace[..|trace| - 1], key);
      OutstandingAfter(After(trace[..|trace| - 1]), trace[|trace| - 1], key);
      InjectedMore(trace, key);
    }
  }

  /** A frame is taken for the gateway's own exactly if it is a 7f frame under an id that it injected. */
  lemma {:induction false} OwnFrames(trace: seq<Event>, f: Frame)
    ensures IsOurs(After(trace), f) <==> f.start == START_7F && Injected(trace, Normalize(f.device))
  {
    OutstandingIs(trace, Normalize(f.device));
  }

  // ---- ids over whole traces ----

  /** How many injections a trace makes. */
  function Injections(trace: seq<Event>): nat {
    if trace == [] then
      0
    else
      Injections(trace[..|trace| - 1])
        + if trace[|trace| - 1].Write? || trace[|trace| - 1].ReadRequest? then 1 else 0
  }

  predicate IsWriteKey(k: Key) {
    |k| == 4 && k[0] == DEVICE_WRITE
  }

  /** The ids that writes could have had among the first `n` injections. */
  function IssuedKeys(n: nat): set<Key> {
    if n == 0 then {} else IssuedKeys(n - 1) + {WriteKeyAt(n)}
  }

  lemma NextCounter(n: nat)
    ensures (CounterAt(n) + 1) % 0x1_0000 == CounterAt(n + 1)
  {
  }

  lemma NextKeys(link: Link, n: nat)
    requires link.counter == CounterAt(n)
    ensures NextWriteKey(link) == WriteKeyAt(n + 1)
    ensures Normalize(NextDevice(link, DEVICE_READ)) == DeviceFor(DEVICE_READ, CounterAt(n + 1))
  {
    NextCounter(n);
    KeyIsDevice(DEVICE_READ, CounterAt(n + 1));
  }

  /** The counter, and the ids issued so far, are determined by the number of injections. */
  lemma {:induction false} IssuedIds(trace: seq<Event>)
    ensures After(trace).counter == CounterAt(Injections(trace))
    ensures forall k :: k in After(trace).outstanding && IsWriteKey(k) ==> k in IssuedKeys(Injections(trace))
    decreases |trace|
  {
    if trace != [] {
      var n := |trace| - 1;
      IssuedIds(trace[..n]);
      var before := After(trace[..n]);
      NextKeys(before, Injections(trace[..n]));
      NextCounter(Injections(trace[..n]));
    }
  }

  lemma {:induction false} NotIssuedYet(n: nat, t: nat)
    requires n < t <= 0x1_0000
    ensures WriteKeyAt(t) !in IssuedKeys(n)
    decreases n
  {
    if n > 0 {
      NotIssuedYet(n - 1, t);
      KeysRecur(n, t);
      DifferentResidues(n, t);
    }
  }

  lemma DifferentResidues(n: nat, t: nat)
    requires 0 < n < t <= 0x1_0000
    ensures n % 0x1_0000 != t % 0x1_0000
  {
  }

  /** A session's first 65536 injections never reuse the id of a write. */
  lemma FreshUntilWrap(trace: seq<Event>)
    requires Injections(trace) < 0x1_0000
    ensures NextWriteKey(After(trace)) !in After(trace).outstanding
  {
    var count := Injections(trace);
    IssuedIds(trace);
    NextKeys(After(trace), count);
    KeyIsDevice(DEVICE_WRITE, CounterAt(count + 1));
    NotIssuedYet(count, count + 1);
  }
}
