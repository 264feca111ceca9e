/**
 What every step of the setpoint protocol keeps, and what follows: when nothing is pending
 the inverter holds the latest command, and a reconnection repairs whatever went wrong.
 */
module SetpointSafety {
  import opened Bytes
  import opened Frames
  import opened Modbus
  import opened LocalControl
  import opened Ledger
  import opened Setpoint

  // ---- the invariant ----

  /** Generation `g` stands for `percent` in the command history. */
  predicate Recorded(history: seq<Percent>, percent: nat, g: nat) {
    1 <= g <= |history| && history[g - 1] == percent
  }

  /** The record agrees with the history, and confirms nothing the register did not take. */
  ghost predicate BookInv(s: State) {
    && s.book.generation == |s.history|
    && s.book.confirmed <= s.effective <= |s.history|
    && s.book.desired == (if s.history == [] then None else Some(s.history[|s.history| - 1]))
    && (s.effective > 0 ==> s.register == s.history[s.effective - 1])
  }

  /** Tasks carry recorded commands, and a confirmed one is at most the effective write. */
  ghost predicate TasksInv(x: Session, history: seq<Percent>, effective: nat) {
    && x.tasks.Keys == x.link.pending.Keys
    && forall k :: k in x.tasks ==>
      && OurKey(k) && k in x.link.outstanding
      && Recorded(history, x.tasks[k].percent, x.tasks[k].generation)
      && (x.link.pending[k] == Done(true) ==> x.tasks[k].generation <= effective)
  }

  /** The id was issued, and if its write still waits, that write took effect. */
  ghost predicate Took(x: Session, key: Key, effective: nat) {
    key in x.link.outstanding && (key in x.tasks ==> x.tasks[key].generation <= effective)
  }

  ghost predicate GoodReply(x: Session, f: Frame, effective: nat) {
    LooksConfirming(f) ==> Took(x, Normalize(f.device), effective)
  }

  ghost predicate SessionInv(x: Session, history: seq<Percent>, effective: nat) {
    && TasksInv(x, history, effective)
    && (forall k :: k in x.accepted ==> Took(x, k, effective))
    && forall i :: 0 <= i < |x.uplink| ==> GoodReply(x, x.uplink[i], effective)
  }

  /** A request that carries its recorded command, no older than the effective write. */
  ghost predicate GoodRequest(x: Session, r: Request, history: seq<Percent>, effective: nat) {
    && OurKey(r.key) && r.key in x.link.outstanding
    && Recorded(history, r.percent, r.generation) && effective <= r.generation
    && (r.key in x.tasks ==> x.tasks[r.key].generation == r.generation)
  }

  /** Requests wait on the wire in the order of their commands. */
  ghost predicate WireInv(x: Session, history: seq<Percent>, effective: nat) {
    && (forall i :: 0 <= i < |x.wire| ==> GoodRequest(x, x.wire[i], history, effective))
    && (forall i, j :: 0 <= i < j < |x.wire| ==> x.wire[i].generation <= x.wire[j].generation)
  }

  ghost predicate SessionsInv(s: State) {
    && (forall i :: 0 <= i < |s.sessions| ==> SessionInv(s.sessions[i], s.history, s.effective))
    && (s.sessions != [] ==> WireInv(s.sessions[|s.sessions| - 1], s.history, s.effective))
  }

  ghost predicate Inv(cfg: Config, s: State) {
    cfg.timed && BookInv(s) && SessionsInv(s)
  }

  // ---- one session ----

  lemma NextKeyIsOurs(link: Link)
    ensures NextWriteKey(link) == NextDevice(link, DEVICE_WRITE) && OurKey(NextWriteKey(link))
  {
  }

  /** A write under a fresh id disturbs no earlier write and no answer on its way. */
  lemma WriteOnKeeps(cfg: Config, x: Session, task: Task, send: SendResult, history: seq<Percent>, effective: nat)
    requires cfg.timed && SessionInv(x, history, effective) && NextWriteKey(x.link) !in x.link.outstanding
    requires Recorded(history, task.percent, task.generation)
    ensures SessionInv(WriteOn(cfg, x, task, send), history, effective)
  {
  }

  lemma WriteOnWire(cfg: Config, x: Session, task: Task, send: SendResult, history: seq<Percent>, effective: nat)
    requires cfg.timed && WireInv(x, history, effective) && NextWriteKey(x.link) !in x.link.outstanding
    requires Recorded(history, task.percent, task.generation) && task.generation == |history|
    requires effective <= |history|
    ensures WireInv(WriteOn(cfg, x, task, send), history, effective)
  {
    NextKeyIsOurs(x.link);
    var y := WriteOn(cfg, x, task, send);
    forall i | 0 <= i < |y.wire|
      ensures GoodRequest(y, y.wire[i], history, effective)
    {
      if i < |x.wire| { assert GoodRequest(x, x.wire[i], history, effective); }
    }
    forall i, j | 0 <= i < j < |y.wire|
      ensures y.wire[i].generation <= y.wire[j].generation
    {
      assert GoodRequest(x, x.wire[i], history, effective);
    }
  }

  /** One more issued id changes nothing for the others. */
  lemma IssueKeeps(x: Session, history: seq<Percent>, effective: nat)
    ensures var y := x.(link := Issue(x.link, DEVICE_READ));
      && (SessionInv(x, history, effective) ==> SessionInv(y, history, effective))
      && (WireInv(x, history, effective) ==> WireInv(y, history, effective))
  {
    var y := x.(link := Issue(x.link, DEVICE_READ));
    if SessionInv(x, history, effective) {
      assert forall k :: Took(x, k, effective) ==> Took(y, k, effective);
      assert forall f :: GoodReply(x, f, effective) ==> GoodReply(y, f, effective);
    }
    if WireInv(x, history, effective) {
      assert forall r :: GoodRequest(x, r, history, effective) ==> GoodRequest(y, r, history, effective);
    }
  }

  /** Nor does a task that ends. */
  lemma EndTaskKeeps(x: Session, key: Key, history: seq<Percent>, effective: nat)
    requires SessionInv(x, history, effective)
    ensures SessionInv(EndTask(x, key), history, effective)
    ensures WireInv(x, history, effective) ==> WireInv(EndTask(x, key), history, effective)
  {
    var y := EndTask(x, key);
    assert forall k :: Took(x, k, effective) ==> Took(y, k, effective);
    assert forall f :: GoodReply(x, f, effective) ==> GoodReply(y, f, effective);
    assert forall r :: GoodRequest(x, r, history, effective) ==> GoodRequest(y, r, history, effective);
  }

  function Received(x: Session): Session
    requires x.uplink != []
  {
    x.(link := OnFrame(x.link, x.uplink[0]), uplink := x.uplink[1..])
  }

  /** Only an acknowledgement of a write that took effect can settle it as confirmed. */
  lemma ReceivedKeeps(x: Session, history: seq<Percent>, effective: nat)
    requires SessionInv(x, history, effective) && x.uplink != []
    ensures SessionInv(Received(x), history, effective)
    ensures WireInv(x, history, effective) ==> WireInv(Received(x), history, effective)
  {
  }

  lemma ReplyKeeps(x: Session, f: Frame, history: seq<Percent>, effective: nat)
    requires SessionInv(x, history, effective) && GoodReply(x, f, effective)
    ensures SessionInv(x.(uplink := x.uplink + [f]), history, effective)
    ensures WireInv(x, history, effective) ==> WireInv(x.(uplink := x.uplink + [f]), history, effective)
  {
  }

  // ---- the inverter ----

  lemma ExecuteWrites(cfg: Config, r: Request, register: nat)
    requires |r.key| == 4
    ensures Execute(cfg, r, register) == r.percent
  {
    WriteRoundTrip(r.key, cfg.address, r.percent);
  }

  lemma DeliverKeeps(
      x: Session, accept: bool, replies: seq<Frame>, history: seq<Percent>, effective: nat, effective': nat)
    requires SessionInv(x, history, effective) && WireInv(x, history, effective) && x.wire != []
    requires effective' == if accept then x.wire[0].generation else effective
    requires forall f :: f in replies ==> Honest(AcceptedAfter(x, accept), f)
    ensures SessionInv(Answered(x, accept, replies), history, effective')
    ensures WireInv(Answered(x, accept, replies), history, effective')
  {
    var y := Answered(x, accept, replies);
    assert GoodRequest(x, x.wire[0], history, effective);
    forall k | k in y.accepted
      ensures Took(y, k, effective')
    {
      assert k in x.accepted ==> Took(x, k, effective);
    }
    forall i | 0 <= i < |y.uplink|
      ensures GoodReply(y, y.uplink[i], effective')
    {
      if i < |x.uplink| {
        assert GoodReply(x, x.uplink[i], effective);
      } else {
        assert y.uplink[i] in replies;
      }
    }
  }

  // ---- every step ----

  /** Replacing one session by a good one keeps all of them good. */
  lemma SessionReplaced(s: State, sid: nat, y: Session)
    requires SessionsInv(s) && sid < |s.sessions|
    requires SessionInv(y, s.history, s.effective)
    requires WireInv(s.sessions[sid], s.history, s.effective) ==> WireInv(y, s.history, s.effective)
    ensures SessionsInv(s.(sessions := s.sessions[sid := y]))
  {
  }

  lemma ReadKept(cfg: Config, s: State, sid: nat)
    requires Inv(cfg, s) && sid < |s.sessions|
    ensures var x := s.sessions[sid];
      Inv(cfg, s.(sessions := s.sessions[sid := x.(link := Issue(x.link, DEVICE_READ))]))
  {
    var x := s.sessions[sid];
    IssueKeeps(x, s.history, s.effective);
    SessionReplaced(s, sid, x.(link := Issue(x.link, DEVICE_READ)));
  }

  lemma CommandRecorded(cfg: Config, s: State, percent: Percent)
    requires Inv(cfg, s)
    ensures Inv(cfg, s.(book := Ledger.Command(s.book, percent), history := s.history + [percent]))
  {
  }

  lemma WriteKept(cfg: Config, s: State, sid: nat, task: Task, send: SendResult)
    requires Inv(cfg, s) && sid < |s.sessions|
    requires NextWriteKey(s.sessions[sid].link) !in s.sessions[sid].link.outstanding
    requires Recorded(s.history, task.percent, task.generation) && task.generation == |s.history|
    ensures SessionsInv(s.(sessions := s.sessions[sid := WriteOn(cfg, s.sessions[sid], task, send)]))
  {
    var x := s.sessions[sid];
    WriteOnKeeps(cfg, x, task, send, s.history, s.effective);
    if WireInv(x, s.history, s.effective) { WriteOnWire(cfg, x, task, send, s.history, s.effective); }
    SessionReplaced(s, sid, WriteOn(cfg, x, task, send));
  }

  lemma ApplyKept(cfg: Config, s: State, sid: nat, percent: Percent, send: SendResult)
    requires Inv(cfg, s) && sid < |s.sessions|
    requires NextWriteKey(s.sessions[sid].link) !in s.sessions[sid].link.outstanding
    requires Recorded(s.history, percent, |s.history|)
    ensures Inv(cfg, Setpoint.Apply(cfg, s, sid, Task(percent, |s.history|), send))
  {
    WriteKept(cfg, s, sid, Task(percent, |s.history|), send);
  }

  lemma TakeRequestEffect(cfg: Config, s: State, accept: bool, replies: seq<Frame>)
    requires s.sessions != [] && s.sessions[|s.sessions| - 1].wire != []
    requires |s.sessions[|s.sessions| - 1].wire[0].key| == 4
    ensures var r, t := s.sessions[|s.sessions| - 1].wire[0], TakeRequest(cfg, s, accept, replies);
      && t.register == (if accept then r.percent else s.register)
      && t.effective == (if accept then r.generation else s.effective)
      && t.book == s.book && t.history == s.history
  {
    ExecuteWrites(cfg, s.sessions[|s.sessions| - 1].wire[0], s.register);
  }

  lemma BookAfter(s: State, t: State, r: Request, accept: bool)
    requires BookInv(s) && Recorded(s.history, r.percent, r.generation) && s.effective <= r.generation
    requires t.register == if accept then r.percent else s.register
    requires t.effective == if accept then r.generation else s.effective
    requires t.book == s.book && t.history == s.history
    ensures BookInv(t) && s.effective <= t.effective
  {
  }

  lemma TakeRequestBook(cfg: Config, s: State, accept: bool, replies: seq<Frame>)
    requires Inv(cfg, s) && s.sessions != [] && s.sessions[|s.sessions| - 1].wire != []
    ensures BookInv(TakeRequest(cfg, s, accept, replies))
    ensures s.effective <= TakeRequest(cfg, s, accept, replies).effective
  {
    var x := s.sessions[|s.sessions| - 1];
    assert GoodRequest(x, x.wire[0], s.history, s.effective);
    TakeRequestEffect(cfg, s, accept, replies);
    BookAfter(s, TakeRequest(cfg, s, accept, replies), x.wire[0], accept);
  }

  lemma LastSessionReplaced(s: State, t: State, y: Session)
    requires SessionsInv(s) && s.sessions != [] && s.effective <= t.effective && t.history == s.history
    requires t.sessions == s.sessions[|s.sessions| - 1 := y]
    requires SessionInv(y, t.history, t.effective) && WireInv(y, t.history, t.effective)
    ensures SessionsInv(t)
  {
  }

  lemma TakeRequestKept(cfg: Config, s: State, accept: bool, replies: seq<Frame>)
    requires Inv(cfg, s) && s.sessions != [] && s.sessions[|s.sessions| - 1].wire != []
    requires forall f :: f in replies ==> Honest(AcceptedAfter(s.sessions[|s.sessions| - 1], accept), f)
    ensures Inv(cfg, TakeRequest(cfg, s, accept, replies))
  {
    var x, t := s.sessions[|s.sessions| - 1], TakeRequest(cfg, s, accept, replies);
    TakeRequestBook(cfg, s, accept, replies);
    DeliverKeeps(x, accept, replies, s.history, s.effective, t.effective);
    LastSessionReplaced(s, t, Answered(x, accept, replies));
  }

  lemma ConcludeKept(cfg: Config, s: State, sid: nat, task: Task)
    requires Inv(cfg, s) && sid < |s.sessions| && task.generation <= s.effective
    ensures Inv(cfg, Conclude(s, sid, task))
  {
  }

  lemma EndTaskKept(cfg: Config, s: State, sid: nat, key: Key)
    requires Inv(cfg, s) && sid < |s.sessions|
    ensures Inv(cfg, s.(sessions := s.sessions[sid := EndTask(s.sessions[sid], key)]))
  {
    EndTaskKeeps(s.sessions[sid], key, s.history, s.effective);
    SessionReplaced(s, sid, EndTask(s.sessions[sid], key));
  }

  lemma ResumeKept(cfg: Config, s: State, sid: nat, key: Key)
    requires Inv(cfg, s) && Enabled(cfg, s, Resume(sid, key))
    ensures Inv(cfg, Next(cfg, s, Resume(sid, key)))
  {
    var x := s.sessions[sid];
    EndTaskKept(cfg, s, sid, key);
    var t := s.(sessions := s.sessions[sid := EndTask(x, key)]);
    if x.link.pending[key].confirmed {
      assert SessionInv(x, s.history, s.effective);
      ConcludeKept(cfg, t, sid, x.tasks[key]);
    }
  }

  lemma ReconnectKept(cfg: Config, s: State)
    requires Inv(cfg, s)
    ensures Inv(cfg, Next(cfg, s, Reconnect))
  {
  }

  lemma InvKept(cfg: Config, s: State, step: Step)
    requires Inv(cfg, s) && Enabled(cfg, s, step)
    ensures Inv(cfg, Next(cfg, s, step))
  {
    match step
    case Command(sid, percent, send) =>
      CommandRecorded(cfg, s, percent);
      var t := s.(book := Ledger.Command(s.book, percent), history := s.history + [percent]);
      ApplyKept(cfg, t, sid, percent, send);
    case Settle(sid, send) =>
      if Pending(s.book).None? {
        ReadKept(cfg, s, sid);
      } else {
        ApplyKept(cfg, s, sid, Pending(s.book).value, send);
      }
    case Deliver(accept, replies) => TakeRequestKept(cfg, s, accept, replies);
    case Unsolicited(sid, f) =>
      var x := s.sessions[sid];
      ReplyKeeps(x, f, s.history, s.effective);
      SessionReplaced(s, sid, x.(uplink := x.uplink + [f]));
    case Arrive(sid) =>
      ReceivedKeeps(s.sessions[sid], s.history, s.effective);
      SessionReplaced(s, sid, Received(s.sessions[sid]));
    case Resume(sid, key) => ResumeKept(cfg, s, sid, key);
    case Expire(sid, key) => EndTaskKept(cfg, s, sid, key);
    case ReadBack(sid) => ReadKept(cfg, s, sid);
    case Reconnect => ReconnectKept(cfg, s);
  }

  // ---- every run ----

  lemma {:induction false} InvReached(cfg: Config, s: State, run: seq<Step>)
    requires Inv(cfg, s) && Follow(cfg, s, run).Some?
    ensures Inv(cfg, Follow(cfg, s, run).value)
    decreases |run|
  {
    if run != [] {
      InvKept(cfg, s, run[0]);
      InvReached(cfg, Next(cfg, s, run[0]), run[1..]);
    }
  }

  lemma InvSettled(cfg: Config, s: State)
    requires Inv(cfg, s)
    ensures Settled(s)
  {
  }

  /** From any initial register, in every run: nothing pending means the latest command holds. */
  lemma NothingPendingIsApplied(cfg: Config, register: nat, run: seq<Step>)
    requires cfg.timed
    ensures SafeRun(cfg, register, run)
  {
    if Follow(cfg, Initial(register), run).Some? {
      InvReached(cfg, Initial(register), run);
      InvSettled(cfg, Follow(cfg, Initial(register), run).value);
    }
  }

  /** Without a wait a lost write counts as applied. */
  lemma UntimedIsUnsafe(cfg: Config)
    requires !cfg.timed
    ensures !SafeRun(cfg, 0, [Reconnect, Command(0, 50, Sent)])
  {
  }

  /** The guarantee holds exactly when `write_timeout_seconds` is positive. */
  lemma SafeIffTimed(cfg: Config)
    ensures (forall register: nat, run: seq<Step> :: SafeRun(cfg, register, run)) <==> cfg.timed
  {
    if cfg.timed {
      forall register: nat, run: seq<Step>
        ensures SafeRun(cfg, register, run)
      {
        NothingPendingIsApplied(cfg, register, run);
      }
    } else {
      UntimedIsUnsafe(cfg);
    }
  }

  /** A state is shown only when the latest command's own write was confirmed. */
  lemma ShownOnConfirmation(cfg: Config, s: State, step: Step)
    requires cfg.timed && Enabled(cfg, s, step) && Next(cfg, s, step).published != s.published
    ensures step.Resume? && s.sessions[step.sid].link.pending[step.key] == Done(true)
    ensures var t, task := Next(cfg, s, step), s.sessions[step.sid].tasks[step.key];
      && task.generation == s.book.generation == t.book.generation && t.published == s.published + [task.percent]
      && t.register == s.register && t.history == s.history && t.book.confirmed >= t.book.generation
  {
  }

  /** Whatever is shown to the user is, at that moment, the inverter's value and the latest wish. */
  lemma PublishedIsTrue(cfg: Config, s: State, step: Step)
    requires Inv(cfg, s) && Enabled(cfg, s, step)
    ensures var t := Next(cfg, s, step);
      t.published == s.published
        || (t.published == s.published + [t.register] && t.book.desired == Some(t.register) && Pending(t.book).None?)
  {
    var t := Next(cfg, s, step);
    if t.published != s.published {
      ShownOnConfirmation(cfg, s, step);
      InvKept(cfg, s, step);
      assert SessionInv(s.sessions[step.sid], s.history, s.effective);
      ShownIsLatest(cfg, s, t, s.sessions[step.sid].tasks[step.key]);
    }
  }

  lemma ShownIsLatest(cfg: Config, s: State, t: State, task: Task)
    requires Inv(cfg, s) && Inv(cfg, t) && t.history == s.history && t.register == s.register
    requires Recorded(s.history, task.percent, task.generation) && task.generation <= s.effective
    requires task.generation == s.book.generation == t.book.generation && t.book.confirmed >= t.book.generation
    ensures t.register == task.percent && t.book.desired == Some(t.register) && Pending(t.book).None?
  {
  }

  // ---- recovery ----

  const FIRST_KEY: Key := NextWriteKey(FRESH_LINK)

  /** The inverter's echo of a request. */
  function Echo(cfg: Config, r: Request): Frame
    requires |r.key| == 4 && r.key[0] < 128
  {
    CommandFrame([r.key[0] + 128] + r.key[1..], Pdu(WRITE_SINGLE, cfg.address, r.percent))
  }

  lemma EchoConfirms(cfg: Config, r: Request)
    requires OurKey(r.key)
    ensures LooksConfirming(Echo(cfg, r)) && Normalize(Echo(cfg, r).device) == r.key
    ensures Echo(cfg, r).start == START_7F
  {
  }

  /** A step in front of a run. */
  lemma {:induction false} StepThen(cfg: Config, s: State, step: Step, rest: seq<Step>)
    requires Enabled(cfg, s, step)
    ensures Follow(cfg, s, [step] + rest) == Follow(cfg, Next(cfg, s, step), rest)
  {
  }

  /** The session that re-applies `task` on a new connection: waiting, echoed, confirmed. */
  function Reapplying(task: Task, status: Status, wire: seq<Request>, uplink: seq<Frame>): Session {
    Session(
      Link(COUNTER_START + 1, {FIRST_KEY}, map[FIRST_KEY := status]), map[FIRST_KEY := task], wire, uplink,
      if wire == [] then {FIRST_KEY} else {})
  }

  lemma SettleWrites(cfg: Config, task: Task)
    requires cfg.timed
    ensures WriteOn(cfg, NEW_SESSION, task, Sent)
      == Reapplying(task, Waiting, [Request(FIRST_KEY, task.percent, task.generation)], [])
  {
  }

  /** An answer that the gateway takes as the acknowledgement of its first write. */
  predicate Confirms(f: Frame) {
    f.start == START_7F && LooksConfirming(f) && Normalize(f.device) == FIRST_KEY
  }

  lemma EchoIsConfirming(cfg: Config, r: Request)
    requires r.key == FIRST_KEY
    ensures OurKey(FIRST_KEY) && Confirms(Echo(cfg, r))
  {
    NextKeyIsOurs(FRESH_LINK);
    EchoConfirms(cfg, r);
  }

  lemma AnswerSettles(task: Task, f: Frame)
    requires Confirms(f)
    ensures Received(Reapplying(task, Waiting, [], [f])) == Reapplying(task, Done(true), [], [])
  {
  }

  /** The run in which the next connection re-applies the pending command and is answered. */
  function RepairRun(n: nat, f: Frame): seq<Step> {
    [Reconnect] + ([Settle(n, Sent)] + AnsweredRun(n, f))
  }

  /** `s` with one more session. */
  function With(s: State, x: Session): State {
    s.(sessions := s.sessions + [x])
  }

  lemma WithReplaced(s: State, x: Session, y: Session)
    ensures With(s, x).sessions[|s.sessions| := y] == With(s, y).sessions
    ensures With(s, x).sessions[|s.sessions|] == x && With(s, x).book == s.book
  {
  }

  lemma {:induction false} RepairSends(cfg: Config, s: State, task: Task, rest: seq<Step>)
    requires cfg.timed && Pending(s.book) == Some(task.percent) && task.generation == s.book.generation
    ensures Follow(cfg, s, [Reconnect] + ([Settle(|s.sessions|, Sent)] + rest))
      == Follow(cfg, With(s, Reapplying(task, Waiting, [Request(FIRST_KEY, task.percent, task.generation)], [])), rest)
  {
    var n, x := |s.sessions|, NEW_SESSION;
    StepThen(cfg, s, Reconnect, [Settle(n, Sent)] + rest);
    SettleWrites(cfg, task);
    WithReplaced(s, x, WriteOn(cfg, x, task, Sent));
    StepThen(cfg, With(s, x), Settle(n, Sent), rest);
  }

  lemma AnsweredReapplying(task: Task, r: Request, f: Frame)
    requires r.key == FIRST_KEY
    ensures Answered(Reapplying(task, Waiting, [r], []), true, [f]) == Reapplying(task, Waiting, [], [f])
    ensures Confirms(f) ==> Honest(AcceptedAfter(Reapplying(task, Waiting, [r], []), true), f)
  {
    assert [r][1..] == [] && [] + [f] == [f] && {} + {FIRST_KEY} == {FIRST_KEY};
  }

  /** The command is in effect. */
  function Effected(s: State, task: Task): State {
    s.(register := task.percent, effective := task.generation)
  }

  lemma RepairTaken(cfg: Config, s: State, task: Task, r: Request, f: Frame)
    requires Confirms(f) && r == Request(FIRST_KEY, task.percent, task.generation)
    ensures TakeRequest(cfg, With(s, Reapplying(task, Waiting, [r], [])), true, [f])
      == With(Effected(s, task), Reapplying(task, Waiting, [], [f]))
  {
    var x := Reapplying(task, Waiting, [r], []);
    TakeRequestEffect(cfg, With(s, x), true, [f]);
    AnsweredReapplying(task, r, f);
    WithReplaced(s, x, Reapplying(task, Waiting, [], [f]));
  }

  lemma {:induction false} RepairDelivers(cfg: Config, s: State, task: Task, r: Request, f: Frame, rest: seq<Step>)
    requires Confirms(f) && r == Request(FIRST_KEY, task.percent, task.generation)
    ensures Follow(cfg, With(s, Reapplying(task, Waiting, [r], [])), [Deliver(true, [f])] + rest)
      == Follow(cfg, With(Effected(s, task), Reapplying(task, Waiting, [], [f])), rest)
  {
    RepairTaken(cfg, s, task, r, f);
    AnsweredReapplying(task, r, f);
    StepThen(cfg, With(s, Reapplying(task, Waiting, [r], [])), Deliver(true, [f]), rest);
  }

  lemma {:induction false} RepairHears(cfg: Config, s: State, task: Task, f: Frame, rest: seq<Step>)
    requires Confirms(f)
    ensures Follow(cfg, With(s, Reapplying(task, Waiting, [], [f])), [Arrive(|s.sessions|)] + rest)
      == Follow(cfg, With(s, Reapplying(task, Done(true), [], [])), rest)
  {
    var x := Reapplying(task, Waiting, [], [f]);
    AnswerSettles(task, f);
    WithReplaced(s, x, Received(x));
    StepThen(cfg, With(s, x), Arrive(|s.sessions|), rest);
  }

  lemma {:induction false} RepairConcludes(cfg: Config, s: State, task: Task)
    requires task.generation == s.book.generation
    ensures var t := Follow(cfg, With(s, Reapplying(task, Done(true), [], [])), [Resume(|s.sessions|, FIRST_KEY)]);
      t.Some? && Pending(t.value.book) == None && t.value.register == s.register
        && t.value.published == s.published + [task.percent]
  {
  }

  /** What comes after the write: it is taken, its answer is heard, and the outcome is recorded. */
  function AnsweredRun(n: nat, f: Frame): seq<Step> {
    [Deliver(true, [f])] + ([Arrive(n)] + [Resume(n, FIRST_KEY)])
  }

  lemma {:induction false} AnswerCompletes(cfg: Config, s: State, task: Task, r: Request, f: Frame)
    requires Confirms(f) && r == Request(FIRST_KEY, task.percent, task.generation)
    requires task.generation == s.book.generation
    ensures var t := Follow(cfg, With(s, Reapplying(task, Waiting, [r], [])), AnsweredRun(|s.sessions|, f));
      t.Some? && Pending(t.value.book) == None && t.value.register == task.percent
        && t.value.published == s.published + [task.percent]
  {
    var n := |s.sessions|;
    RepairDelivers(cfg, s, task, r, f, [Arrive(n)] + [Resume(n, FIRST_KEY)]);
    RepairHears(cfg, Effected(s, task), task, f, [Resume(n, FIRST_KEY)]);
    RepairConcludes(cfg, Effected(s, task), task);
  }

  /**
   Self-healing: after any history of losses, timeouts and rejections, one connection whose
   inverter answers brings the pending command to the register and clears it.
   */
  lemma {:induction false} ReconnectionRepairs(cfg: Config, s: State, f: Frame)
    requires Inv(cfg, s) && Pending(s.book).Some? && Confirms(f)
    ensures var t := Follow(cfg, s, RepairRun(|s.sessions|, f));
      t.Some? && Pending(t.value.book) == None && t.value.register == Pending(s.book).value
  {
    var task := Task(Pending(s.book).value, s.book.generation);
    RepairSends(cfg, s, task, AnsweredRun(|s.sessions|, f));
    AnswerCompletes(cfg, s, task, Request(FIRST_KEY, task.percent, task.generation), f);
  }

  /** The run in which a new connection carries a new command and is answered. */
  function CommandRun(n: nat, percent: Percent, f: Frame): seq<Step> {
    [Reconnect] + ([Command(n, percent, Sent)] + AnsweredRun(n, f))
  }

  /** A new command is recorded. */
  function Commanded(s: State, percent: Percent): State {
    s.(book := Ledger.Command(s.book, percent), history := s.history + [percent])
  }

  lemma {:induction false} CommandSends(cfg: Config, s: State, task: Task, rest: seq<Step>)
    requires cfg.timed && task.generation == s.book.generation + 1
    ensures Follow(cfg, s, [Reconnect] + ([Command(|s.sessions|, task.percent, Sent)] + rest))
      == Follow(cfg,
        With(Commanded(s, task.percent),
          Reapplying(task, Waiting, [Request(FIRST_KEY, task.percent, task.generation)], [])),
        rest)
  {
    var n, x, t := |s.sessions|, NEW_SESSION, Commanded(s, task.percent);
    StepThen(cfg, s, Reconnect, [Command(n, task.percent, Sent)] + rest);
    SettleWrites(cfg, task);
    WithReplaced(t, x, WriteOn(cfg, x, task, Sent));
    StepThen(cfg, With(s, x), Command(n, task.percent, Sent), rest);
  }

  /** A command that is answered reaches the register, is no longer pending and is shown. */
  lemma {:induction false} CommandCompletes(cfg: Config, s: State, percent: Percent, f: Frame)
    requires cfg.timed && Confirms(f)
    ensures var t := Follow(cfg, s, CommandRun(|s.sessions|, percent, f));
      t.Some? && Pending(t.value.book) == None && t.value.register == percent
        && t.value.published == s.published + [percent]
  {
    var task := Task(percent, s.book.generation + 1);
    CommandSends(cfg, s, task, AnsweredRun(|s.sessions|, f));
    AnswerCompletes(cfg, Commanded(s, percent), task, Request(FIRST_KEY, percent, task.generation), f);
  }

  /** A command is pending from the moment it is recorded, whatever becomes of its write. */
  lemma CommandIsPending(cfg: Config, s: State, sid: nat, percent: Percent, send: SendResult)
    requires Inv(cfg, s) && Enabled(cfg, s, Command(sid, percent, send))
    ensures Pending(Next(cfg, s, Command(sid, percent, send)).book) == Some(percent)
  {
  }

  /** What makes it stay pending: only an answered write of the latest command ends it. */
  lemma OnlyConfirmationSettles(cfg: Config, s: State, step: Step)
    requires Inv(cfg, s) && Enabled(cfg, s, step)
    requires Pending(s.book).Some? && Pending(Next(cfg, s, step).book).None?
    ensures step.Resume? && s.sessions[step.sid].link.pending[step.key] == Done(true)
    ensures s.sessions[step.sid].tasks[step.key].generation == |s.history|
    ensures Pending(s.book) == Some(s.register)
  {
  }
}
