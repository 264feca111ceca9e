/**
 The setpoint protocol from end to end: commands, the FIFO channel to the inverter, its
 register, its answers, late answers, rejections, timeouts, lost sessions and re-applied
 commands, in every order. Await points are the boundaries between steps.
 */
module Setpoint {
  import opened Bytes
  import opened Frames
  import opened Modbus
  import opened LocalControl
  import opened Ledger

  // ---- the state ----

  type Address = a: nat | a < 0x1_0000

  /** A setpoint as Home Assistant may send it. */
  type Percent = p: nat | p <= 100

  /** The configured register, and whether `write_timeout_seconds` is positive. */
  datatype Config = Config(address: Address, timed: bool)

  /** A write on its way: its id, its value, and the generation of the command it carries. */
  datatype Request = Request(key: Key, percent: Percent, generation: nat)

  /** A coroutine waiting in `_apply_active_power_limit`. */
  datatype Task = Task(percent: Percent, generation: nat)

  /**
   One connection: the gateway's side of it, both directions of the channel, and the ids of the
   requests that the inverter took.
   */
  datatype Session = Session(
    link: Link, tasks: map<Key, Task>, wire: seq<Request>, uplink: seq<Frame>, accepted: set<Key>)

  const NEW_SESSION: Session := Session(FRESH_LINK, map[], [], [], {})

  /**
   `history[g - 1]` is the value of generation `g`; `effective` is the generation of the
   write the register last took (0: none); `published` are the states shown to the user.
   */
  datatype State = State(
    book: Book, history: seq<Percent>, sessions: seq<Session>, register: nat, effective: nat, published: seq<nat>)

  function Initial(register: nat): State {
    State(EMPTY_BOOK, [], [], register, 0, [])
  }

  // ---- steps ----

  /** Acknowledgement of some id from the gateway's range. */
  predicate LooksConfirming(f: Frame) {
    f.validCrc && IsWriteSuccess(f) && OurKey(Normalize(f.device))
  }

  predicate OurKey(k: Key) {
    |k| == 4 && k[0] == DEVICE_WRITE && k[3] == SESSION_MARKER
  }

  datatype Step =
    | Command(sid: nat, percent: Percent, send: SendResult)
    | Settle(sid: nat, send: SendResult)
    | Deliver(accept: bool, replies: seq<Frame>)
    | Unsolicited(sid: nat, frame: Frame)
    | Arrive(sid: nat)
    | Resume(sid: nat, key: Key)
    | Expire(sid: nat, key: Key)
    | ReadBack(sid: nat)
    | Reconnect

  /** The ids of accepted requests once the next request of a session is taken or refused. */
  function AcceptedAfter(x: Session, accept: bool): set<Key>
    requires x.wire != []
  {
    if accept then x.accepted + {x.wire[0].key} else x.accepted
  }

  /** An acknowledgement is for a request of this session that was accepted. */
  predicate Honest(accepted: set<Key>, f: Frame) {
    LooksConfirming(f) ==> Normalize(f.device) in accepted
  }

  /**
   The assumptions: percentages as validated, ids not reused within a session, only the
   newest connection reaches the inverter, and an inverter that acknowledges only writes that
   it took, under their own ids; it may do so late, repeatedly, in any order or never.
   */
  predicate Enabled(cfg: Config, s: State, step: Step) {
    match step
    case Command(sid, _, _) =>
      sid < |s.sessions| && NextWriteKey(s.sessions[sid].link) !in s.sessions[sid].link.outstanding
    case Settle(sid, _) =>
      && (Pending(s.book).Some? ==> Pending(s.book).value <= 100)
      && sid < |s.sessions| && NextWriteKey(s.sessions[sid].link) !in s.sessions[sid].link.outstanding
    case Deliver(accept, replies) =>
      && s.sessions != [] && s.sessions[|s.sessions| - 1].wire != []
      && forall f :: f in replies ==> Honest(AcceptedAfter(s.sessions[|s.sessions| - 1], accept), f)
    case Unsolicited(sid, f) => sid < |s.sessions| && Honest(s.sessions[sid].accepted, f)
    case Arrive(sid) => sid < |s.sessions| && s.sessions[sid].uplink != []
    case Resume(sid, key) =>
      && sid < |s.sessions| && key in s.sessions[sid].tasks
      && key in s.sessions[sid].link.pending && s.sessions[sid].link.pending[key].Done?
    case Expire(sid, key) => sid < |s.sessions| && key in s.sessions[sid].tasks
    case ReadBack(sid) => sid < |s.sessions|
    case Reconnect => true
  }

  /** `write_register` up to its wait, on one session. */
  function WriteOn(cfg: Config, x: Session, task: Task, send: SendResult): Session {
    var key := NextWriteKey(x.link);
    Session(
      BeginWrite(x.link, cfg.timed, send),
      if cfg.timed && send.Sent? then x.tasks[key := task] else x.tasks - {key},
      if send.NoWriter? then x.wire else x.wire + [Request(key, task.percent, task.generation)],
      x.uplink,
      x.accepted)
  }

  /** A confirmed write: record it, show it if it is the latest, and read it back. */
  function Conclude(s: State, sid: nat, task: Task): State
    requires sid < |s.sessions|
  {
    var x := s.sessions[sid];
    s.(
      book := Acknowledge(s.book, task.percent, task.generation),
      published := if task.generation == s.book.generation then s.published + [task.percent] else s.published,
      sessions := s.sessions[sid := x.(link := Issue(x.link, DEVICE_READ))])
  }

  /** The end of `_apply_active_power_limit`. */
  function Concluded(s: State, sid: nat, task: Task, confirmed: bool): State
    requires sid < |s.sessions|
  {
    if confirmed then Conclude(s, sid, task) else s
  }

  /** The end of the wait for `key`, and what follows from it. */
  function Finished(s: State, sid: nat, key: Key, task: Task, confirmed: bool): State
    requires sid < |s.sessions|
  {
    Concluded(s.(sessions := s.sessions[sid := EndTask(s.sessions[sid], key)]), sid, task, confirmed)
  }

  function Apply(cfg: Config, s: State, sid: nat, task: Task, send: SendResult): State
    requires sid < |s.sessions|
  {
    var t := s.(sessions := s.sessions[sid := WriteOn(cfg, s.sessions[sid], task, send)]);
    if !cfg.timed && send.Sent? then Conclude(t, sid, task) else t
  }

  /** `raw` is an intact 7f frame under the id `key` that commands `value` into the register at `address`. */
  predicate CommandsWrite(raw: seq<byte>, key: Key, address: nat, value: nat) {
    match ParseFrame(raw)
    case Some(f) =>
      f.validCrc && f.start == START_7F && f.end == END_7F && f.func == 0xE2 && f.device == key
      && ParseCommand(f) == WriteCommand(1, 0x06, address, value)
    case None => false
  }

  /** `raw` is an intact 7f frame under the id `key` that asks for the one register at `address`. */
  predicate AsksFor(raw: seq<byte>, key: Key, address: nat) {
    match ParseFrame(raw)
    case Some(f) =>
      f.validCrc && f.start == START_7F && f.end == END_7F && f.func == 0xE2 && f.device == key
      && ParseCommand(f) == ReadCommand(1, 0x03, address, 1)
    case None => false
  }

  /** What a write puts on the wire is one request, and `raw` is its bytes; without a writer it is nothing. */
  predicate PutsOnWire(cfg: Config, x: Session, task: Task, send: SendResult, raw: seq<byte>) {
    var wire := WriteOn(cfg, x, task, send).wire;
    if send.NoWriter? then
      wire == x.wire
    else
      && |wire| == |x.wire| + 1 && wire[..|x.wire|] == x.wire
      && wire[|x.wire|].generation == task.generation
      && CommandsWrite(raw, wire[|x.wire|].key, cfg.address, wire[|x.wire|].percent)
  }

  /** An id of the gateway's is its own key. */
  lemma KeyOfDevice(link: Link)
    ensures NextWriteKey(link) == NextDevice(link, DEVICE_WRITE)
    ensures Normalize(NextDevice(link, DEVICE_READ)) == NextDevice(link, DEVICE_READ)
  {
    KeyIsDevice(DEVICE_WRITE, (link.counter + 1) % 0x1_0000);
    KeyIsDevice(DEVICE_READ, (link.counter + 1) % 0x1_0000);
  }

  lemma WriteCommands(device: seq<byte>, address: Address, value: Percent)
    requires |device| == 4
    ensures CommandsWrite(BuildWriteSingle(device, address, value), device, address, value)
  {
    WriteRoundTrip(device, address, value);
  }

  lemma ReadCommands(device: seq<byte>, address: Address)
    requires |device| == 4
    ensures AsksFor(BuildReadHolding(device, address, 1), device, address)
  {
    ReadRoundTrip(device, address, 1);
  }

  /** The request of the next write commands its value under its key. */
  lemma WriteKeyCommands(link: Link, address: Address, value: Percent)
    ensures CommandsWrite(
        BuildWriteSingle(NextDevice(link, DEVICE_WRITE), address, value), NextWriteKey(link), address, value)
  {
    KeyOfDevice(link);
    WriteCommands(NextDevice(link, DEVICE_WRITE), address, value);
  }

  /** The bytes of the next read of a session with this counter. */
  function ReadingOf(counter: nat, address: Address): seq<byte> {
    BuildReadHolding(DeviceFor(DEVICE_READ, (counter + 1) % 0x1_0000), address, 1)
  }

  lemma ReadingIs(link: Link, device: seq<byte>, raw: seq<byte>, address: Address)
    requires device == NextDevice(link, DEVICE_READ) && raw == BuildReadHolding(device, address, 1)
    ensures raw == ReadingOf(link.counter, address)
  {
  }

  /** They ask for the one register, under the id that becomes outstanding. */
  lemma ReadAsks(link: Link, address: Address)
    ensures AsksFor(ReadingOf(link.counter, address), Normalize(NextDevice(link, DEVICE_READ)), address)
    ensures Normalize(NextDevice(link, DEVICE_READ)) in Issue(link, DEVICE_READ).outstanding
  {
    var device := NextDevice(link, DEVICE_READ);
    KeyOfDevice(link);
    ReadingIs(link, device, BuildReadHolding(device, address, 1), address);
    ReadCommands(device, address);
  }

  /** The bytes that command a write are those of the request that the protocol puts on the wire. */
  lemma WritePutsOnWire(cfg: Config, x: Session, task: Task, send: SendResult, raw: seq<byte>)
    requires CommandsWrite(raw, NextWriteKey(x.link), cfg.address, task.percent)
    ensures PutsOnWire(cfg, x, task, send, raw)
  {
  }

  /** The register after the inverter reads the bytes of a request and takes it. */
  function Execute(cfg: Config, r: Request, register: nat): nat {
    match ParseFrame(BuildWriteSingle(r.key, cfg.address, r.percent))
    case Some(f) =>
      (match ParseCommand(f)
       case WriteCommand(_, _, address, value) => if address == cfg.address then value else register
       case _ => register)
    case None => register
  }

  /** The inverter takes or refuses the next request of the newest connection, and answers. */
  function TakeRequest(cfg: Config, s: State, accept: bool, replies: seq<Frame>): State
    requires s.sessions != [] && s.sessions[|s.sessions| - 1].wire != []
  {
    var last := |s.sessions| - 1;
    var x := s.sessions[last];
    s.(
      sessions := s.sessions[last := Answered(x, accept, replies)],
      register := if accept then Execute(cfg, x.wire[0], s.register) else s.register,
      effective := if accept then x.wire[0].generation else s.effective)
  }

  function Answered(x: Session, accept: bool, replies: seq<Frame>): Session
    requires x.wire != []
  {
    x.(wire := x.wire[1..], uplink := x.uplink + replies, accepted := AcceptedAfter(x, accept))
  }

  function EndTask(x: Session, key: Key): Session {
    x.(link := Finish(x.link, key), tasks := x.tasks - {key})
  }

  function Next(cfg: Config, s: State, step: Step): State
    requires Enabled(cfg, s, step)
  {
    match step
    case Command(sid, percent, send) =>
      var t := s.(book := Ledger.Command(s.book, percent), history := s.history + [percent]);
      Apply(cfg, t, sid, Task(percent, t.book.generation), send)
    case Settle(sid, send) =>
      (match Pending(s.book)
       case None => var x := s.sessions[sid]; s.(sessions := s.sessions[sid := x.(link := Issue(x.link, DEVICE_READ))])
       case Some(percent) => Apply(cfg, s, sid, Task(percent, s.book.generation), send))
    case Deliver(accept, replies) => TakeRequest(cfg, s, accept, replies)
    case Unsolicited(sid, f) =>
      var x := s.sessions[sid];
      s.(sessions := s.sessions[sid := x.(uplink := x.uplink + [f])])
    case Arrive(sid) =>
      var x := s.sessions[sid];
      s.(sessions := s.sessions[sid := x.(link := OnFrame(x.link, x.uplink[0]), uplink := x.uplink[1..])])
    case Resume(sid, key) =>
      var x := s.sessions[sid];
      Finished(s, sid, key, x.tasks[key], x.link.pending[key].confirmed)
    case Expire(sid, key) => Finished(s, sid, key, s.sessions[sid].tasks[key], false)
    case ReadBack(sid) =>
      var x := s.sessions[sid];
      s.(sessions := s.sessions[sid := x.(link := Issue(x.link, DEVICE_READ))])
    case Reconnect =>
      s.(sessions := s.sessions + [NEW_SESSION])
  }

  /** The state after a run, if every step of it can happen. */
  function Follow(cfg: Config, s: State, run: seq<Step>): Option<State>
    decreases |run|
  {
    if run == [] then
      Some(s)
    else if Enabled(cfg, s, run[0]) then
      Follow(cfg, Next(cfg, s, run[0]), run[1..])
    else
      None
  }

  /** If something was requested and nothing is pending, the inverter holds the latest request. */
  predicate Settled(s: State) {
    s.history != [] && Pending(s.book).None? ==> s.register == s.history[|s.history| - 1]
  }

  predicate SafeRun(cfg: Config, register: nat, run: seq<Step>) {
    match Follow(cfg, Initial(register), run)
    case Some(s) => Settled(s)
    case None => true
  }
}
