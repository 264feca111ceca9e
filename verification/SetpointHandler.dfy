/**
 The session's side of a setpoint: `_handle_active_power_limit_setpoint`,
 `_apply_active_power_limit` and `_settle_inverter_control`, split where they wait. Each
 half is proved against a function of what the session sees, and that against the protocol's step.
 */
module SetpointHandler {
  import opened Bytes
  import opened Modbus
  import opened LocalControl
  import opened Ledger
  import opened Setpoint

  // ---- what a session sees of the protocol ----

  datatype Seen = Seen(book: Book, link: Link, published: seq<nat>)

  /** What session `sid` sees of the state `s`. */
  function SeenIn(s: State, sid: nat): Seen
    requires sid < |s.sessions|
  {
    Seen(s.book, s.sessions[sid].link, s.published)
  }

  /** A confirmed write is recorded, and shown if it is the latest. */
  function Recording(v: Seen, task: Task): Seen {
    v.(book := Acknowledge(v.book, task.percent, task.generation),
      published := if task.generation == v.book.generation then v.published + [task.percent] else v.published)
  }

  /** And read back. */
  function Concluding(v: Seen, task: Task, confirmed: bool): Seen {
    if confirmed then Recording(v, task).(link := Issue(v.link, DEVICE_READ)) else v
  }

  /** A write, which is over at once unless it was sent and waits. */
  function Applying(v: Seen, timed: bool, task: Task, send: SendResult): Seen {
    Concluding(v.(link := BeginWrite(v.link, timed, send)), task, !timed && send.Sent?)
  }

  function Commanding(v: Seen, timed: bool, percent: Percent, send: SendResult): Seen {
    var book := Ledger.Command(v.book, percent);
    Applying(v.(book := book), timed, Task(percent, book.generation), send)
  }

  function Settling(v: Seen, timed: bool, send: SendResult): Seen
    requires Pending(v.book).Some? ==> Pending(v.book).value <= 100
  {
    match Pending(v.book)
    case None => v.(link := Issue(v.link, DEVICE_READ))
    case Some(percent) => Applying(v, timed, Task(percent, v.book.generation), send)
  }

  function Finishing(v: Seen, key: Key, task: Task, confirmed: bool): Seen {
    Concluding(v.(link := LocalControl.Finish(v.link, key)), task, confirmed)
  }

  lemma ConcludingIsProtocol(s: State, sid: nat, task: Task, confirmed: bool)
    requires sid < |s.sessions|
    ensures SeenIn(Concluded(s, sid, task, confirmed), sid) == Concluding(SeenIn(s, sid), task, confirmed)
  {
  }

  lemma ApplyingIsProtocol(cfg: Config, s: State, sid: nat, task: Task, send: SendResult)
    requires sid < |s.sessions|
    ensures SeenIn(Setpoint.Apply(cfg, s, sid, task, send), sid) == Applying(SeenIn(s, sid), cfg.timed, task, send)
  {
    var t := s.(sessions := s.sessions[sid := WriteOn(cfg, s.sessions[sid], task, send)]);
    ConcludingIsProtocol(t, sid, task, !cfg.timed && send.Sent?);
  }

  /** What the session does with a command is the protocol's step. */
  lemma CommandingIsStep(cfg: Config, s: State, sid: nat, percent: Percent, send: SendResult)
    requires Enabled(cfg, s, Command(sid, percent, send))
    ensures SeenIn(Next(cfg, s, Command(sid, percent, send)), sid)
      == Commanding(SeenIn(s, sid), cfg.timed, percent, send)
  {
    var t := s.(book := Ledger.Command(s.book, percent), history := s.history + [percent]);
    ApplyingIsProtocol(cfg, t, sid, Task(percent, t.book.generation), send);
  }

  /** And after the first telemetry. */
  lemma SettlingIsStep(cfg: Config, s: State, sid: nat, send: SendResult)
    requires Enabled(cfg, s, Step.Settle(sid, send))
    ensures SeenIn(Next(cfg, s, Step.Settle(sid, send)), sid) == Settling(SeenIn(s, sid), cfg.timed, send)
  {
    if Pending(s.book).Some? {
      ApplyingIsProtocol(cfg, s, sid, Task(Pending(s.book).value, s.book.generation), send);
    }
  }

  /** And when the wait for a write ends, either way. */
  lemma FinishingIsStep(cfg: Config, s: State, sid: nat, key: Key)
    ensures Enabled(cfg, s, Resume(sid, key)) ==>
      SeenIn(Next(cfg, s, Resume(sid, key)), sid) == Finishing(SeenIn(s, sid), key, s.sessions[sid].tasks[key],
        s.sessions[sid].link.pending[key] == Done(true))
    ensures Enabled(cfg, s, Expire(sid, key)) ==>
      SeenIn(Next(cfg, s, Expire(sid, key)), sid) == Finishing(SeenIn(s, sid), key, s.sessions[sid].tasks[key], false)
  {
    if sid < |s.sessions| && key in s.sessions[sid].tasks {
      FinishedSeen(s, sid, key, s.sessions[sid].tasks[key], true);
      FinishedSeen(s, sid, key, s.sessions[sid].tasks[key], false);
    }
  }

  lemma FinishedSeen(s: State, sid: nat, key: Key, task: Task, confirmed: bool)
    requires sid < |s.sessions|
    ensures SeenIn(Finished(s, sid, key, task, confirmed), sid) == Finishing(SeenIn(s, sid), key, task, confirmed)
  {
    ConcludingIsProtocol(s.(sessions := s.sessions[sid := EndTask(s.sessions[sid], key)]), sid, task, confirmed);
  }

  lemma SettlingReads(v: Seen, timed: bool, send: SendResult)
    requires Pending(v.book).None?
    ensures Settling(v, timed, send) == v.(link := Issue(v.link, DEVICE_READ))
  {
  }

  lemma SettlingApplies(v: Seen, timed: bool, send: SendResult)
    requires Pending(v.book).Some? && Pending(v.book).value <= 100
    ensures Settling(v, timed, send) == Applying(v, timed, Task(Pending(v.book).value, v.book.generation), send)
  {
  }

  // ---- the coroutines ----

  class Handler {
    const serial: string
    const address: Address
    const timed: bool
    const books: Books
    const control: Control
    var published: seq<nat>

    constructor (serial: string, address: Address, timed: bool, books: Books, control: Control)
      ensures this.serial == serial && this.address == address && this.timed == timed
      ensures this.books == books && this.control == control && published == []
    {
      this.serial, this.address, this.timed := serial, address, timed;
      this.books, this.control, published := books, control, [];
    }

    ghost function View(): Seen
      reads this, books, control, control.pendingWrites.Values
    {
      Seen(books.BookOf(serial), control.View(), published)
    }

    method ReadBack() returns (raw: seq<byte>)
      requires control.Valid()
      modifies control`counter, control`outstanding
      ensures control.Valid() && View() == old(View()).(link := Issue(old(View()).link, DEVICE_READ))
      ensures raw == ReadingOf(old(View()).link.counter, address)
    {
      var device;
      ghost var link := control.View();
      device, raw := control.IssueRead(address, 1);
      ReadingIs(link, device, raw, address);
    }

    /** A confirmed write is recorded, and shown if it is the latest. */
    method Record(task: Task)
      modifies this`published, books
      ensures View() == Recording(old(View()), task)
    {
      books.MarkApplied(serial, task.percent, task.generation);
      var current := books.CurrentGeneration(serial);
      if task.generation == current {
        published := published + [task.percent];
      }
    }

    /** The outcome of a write: only a confirmed one is recorded, shown if latest, and read back. */
    method Conclude(task: Task, outcome: Outcome) returns (readback: Option<seq<byte>>)
      requires control.Valid()
      modifies this`published, books, control`counter, control`outstanding
      ensures control.Valid() && View() == Concluding(old(View()), task, outcome.Confirmed?)
      ensures readback == if outcome.Confirmed? then Some(ReadingOf(old(View()).link.counter, address)) else None
    {
      if !outcome.Confirmed? {
        return None;
      }
      Record(task);
      var raw := ReadBack();
      readback := Some(raw);
    }

    /**
     `_apply_active_power_limit` up to its wait. The bytes it sends command the value into the register
     under the id of the request that the protocol puts on the wire; a write that does not wait is
     over at once, and `early` says how it ended.
     */
    method StartApply(task: Task, send: SendResult)
        returns (raw: seq<byte>, future: Future?, early: Option<Outcome>, readback: Option<seq<byte>>)
      requires control.Valid()
      modifies this`published, books, control
      ensures control.Valid() && View() == Applying(old(View()), timed, task, send)
      ensures CommandsWrite(raw, old(NextWriteKey(control.View())), address, task.percent)
      ensures early == match send
        case Sent => if timed then None else Some(Confirmed)
        case NoWriter => Some(NoConnection)
        case Raised => Some(Error)
      ensures readback == if !timed && send.Sent?
        then Some(ReadingOf(BeginWrite(old(control.View()), timed, send).counter, address)) else None
    {
      var key;
      WriteKeyCommands(control.View(), address, task.percent);
      raw, key, future, early := control.StartWrite(address, task.percent, timed, send);
      readback := None;
      if early.Some? {
        readback := Conclude(task, early.value);
      }
    }

    /** A new command: recorded first, then written. */
    method HandleSetpoint(percent: Percent, send: SendResult)
        returns (task: Task, raw: seq<byte>, future: Future?, early: Option<Outcome>)
      requires control.Valid()
      modifies this`published, books, control
      ensures control.Valid() && View() == Commanding(old(View()), timed, percent, send)
      ensures task == Task(percent, old(View()).book.generation + 1)
      ensures CommandsWrite(raw, old(NextWriteKey(control.View())), address, percent)
      ensures early.None? <==> timed && send.Sent?
    {
      var generation := books.SetDesired(serial, percent);
      task := Task(percent, generation);
      var readback;
      raw, future, early, readback := StartApply(task, send);
    }

    method StopWaiting(key: Key, future: Future, expired: bool) returns (outcome: Outcome)
      requires control.Valid() && (expired || future.status.Done?)
      modifies control
      ensures control.Valid() && View() == old(View()).(link := LocalControl.Finish(old(View()).link, key))
      ensures outcome ==
        if expired then TimedOut else if old(future.status) == Done(true) then Confirmed else Rejected
    {
      outcome := control.EndWrite(key, future, expired);
    }

    /** The wait is over: the future settled or the time ran out. */
    method Finish(task: Task, key: Key, future: Future, expired: bool)
        returns (outcome: Outcome, readback: Option<seq<byte>>)
      requires control.Valid() && (expired || future.status.Done?)
      modifies this`published, books, control
      ensures control.Valid()
      ensures outcome ==
        if expired then TimedOut else if old(future.status) == Done(true) then Confirmed else Rejected
      ensures View() == Finishing(old(View()), key, task, outcome.Confirmed?)
      ensures readback == if outcome.Confirmed? then Some(ReadingOf(old(View()).link.counter, address)) else None
    {
      outcome := StopWaiting(key, future, expired);
      readback := Conclude(task, outcome);
    }

    /** A pending command is written again, under its generation. */
    method Reapply(percent: Percent, send: SendResult) returns (task: Task, raw: seq<byte>, early: Option<Outcome>)
      requires control.Valid()
      modifies this`published, books, control
      ensures control.Valid() && task == Task(percent, old(View()).book.generation)
      ensures View() == Applying(old(View()), timed, task, send)
      ensures CommandsWrite(raw, old(NextWriteKey(control.View())), address, percent)
      ensures early.None? <==> timed && send.Sent?
    {
      var generation := books.CurrentGeneration(serial);
      task := Task(percent, generation);
      var future, readback;
      raw, future, early, readback := StartApply(task, send);
    }

    /** After the first telemetry: re-apply what is pending, or just read the register. */
    method Settle(send: SendResult) returns (task: Option<Task>, raw: seq<byte>, early: Option<Outcome>)
      requires control.Valid() && (Pending(View().book).Some? ==> Pending(View().book).value <= 100)
      modifies this`published, books, control
      ensures control.Valid() && View() == Settling(old(View()), timed, send)
      ensures task == match Pending(old(View()).book)
        case None => None
        case Some(percent) => Some(Task(percent, old(View()).book.generation))
      ensures task.None? ==> early == None && raw == ReadingOf(old(View()).link.counter, address)
      ensures task.Some? ==>
        && CommandsWrite(raw, old(NextWriteKey(control.View())), address, task.value.percent)
        && (early.None? <==> timed && send.Sent?)
    {
      var pending := books.PendingLimit(serial);
      if pending.None? {
        SettlingReads(View(), timed, send);
        raw := ReadBack();
        return None, raw, None;
      }
      SettlingApplies(View(), timed, send);
      var again;
      again, raw, early := Reapply(pending.value, send);
      task := Some(again);
    }
  }
}
