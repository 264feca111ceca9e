/**
 The setpoint protocol does not run out of transaction ids: as long as a session makes fewer
 injections than its counter has values, the freshness that the protocol relies on holds.
 */
module SetpointIds {
  import opened Bytes
  import Frames
  import opened LocalControl
  import opened Ledger
  import opened Setpoint

  // ---- how often a run injects into a session ----

  /** A write, and the read that follows at once when it does not wait. */
  function WriteCount(cfg: Config, send: SendResult): nat {
    if !cfg.timed && send.Sent? then 2 else 1
  }

  /** The requests that a step injects into session `sid`. */
  function Injects(cfg: Config, s: State, step: Step, sid: nat): nat
    requires Enabled(cfg, s, step)
  {
    match step
    case Command(i, _, send) => if i == sid then WriteCount(cfg, send) else 0
    case Settle(i, send) => if i != sid then 0 else if Pending(s.book).None? then 1 else WriteCount(cfg, send)
    case Resume(i, key) => if i == sid && s.sessions[i].link.pending[key].confirmed then 1 else 0
    case ReadBack(i) => if i == sid then 1 else 0
    case _ => 0
  }

  function InjectionsIn(cfg: Config, s: State, run: seq<Step>, sid: nat): nat
    decreases |run|
  {
    if run == [] || !Enabled(cfg, s, run[0]) then
      0
    else
      Injects(cfg, s, run[0], sid) + InjectionsIn(cfg, Next(cfg, s, run[0]), run[1..], sid)
  }

  // ---- the gateway's side of a session is a run of its control ----

  /** It is the result of some run with at most `n` injections. */
  ghost predicate Injected(link: Link, n: nat) {
    exists trace :: After(trace) == link && Injections(trace) <= n
  }

  lemma InjectedMore(link: Link, n: nat, e: Event)
    requires Injected(link, n)
    ensures Injected(LocalControl.Apply(link, e), n + if e.Arrived? || e.Ended? then 0 else 1)
  {
    var trace :| After(trace) == link && Injections(trace) <= n;
    assert (trace + [e])[..|trace|] == trace;
    assert After(trace + [e]) == LocalControl.Apply(link, e);
    assert Injections(trace + [e]) <= n + if e.Arrived? || e.Ended? then 0 else 1;
  }

  lemma FreshStart()
    ensures Injected(FRESH_LINK, 0)
  {
    assert After([]) == FRESH_LINK && Injections([]) <= 0;
  }

  /** The session's control after a step, which counts its injections. */
  lemma WriteInjects(cfg: Config, s: State, i: nat, task: Task, send: SendResult, sid: nat, n: nat)
    requires i < |s.sessions| && sid < |s.sessions| && Injected(s.sessions[sid].link, n)
    ensures Injected(Setpoint.Apply(cfg, s, i, task, send).sessions[sid].link,
      n + if i == sid then WriteCount(cfg, send) else 0)
  {
    if i == sid {
      var link := s.sessions[sid].link;
      InjectedMore(link, n, Write(cfg.timed, send));
      InjectedMore(BeginWrite(link, cfg.timed, send), n + 1, ReadRequest);
    }
  }

  lemma FinishInjects(s: State, i: nat, key: Key, task: Task, confirmed: bool, sid: nat, n: nat)
    requires i < |s.sessions| && sid < |s.sessions| && Injected(s.sessions[sid].link, n)
    ensures Injected(Finished(s, i, key, task, confirmed).sessions[sid].link,
      n + if i == sid && confirmed then 1 else 0)
  {
    if i == sid {
      InjectedMore(s.sessions[sid].link, n, Ended(key));
      InjectedMore(LocalControl.Finish(s.sessions[sid].link, key), n, ReadRequest);
    }
  }

  lemma StepInjects(cfg: Config, s: State, step: Step, sid: nat, n: nat)
    requires Enabled(cfg, s, step) && sid < |s.sessions| && Injected(s.sessions[sid].link, n)
    ensures sid < |Next(cfg, s, step).sessions|
    ensures Injected(Next(cfg, s, step).sessions[sid].link, n + Injects(cfg, s, step, sid))
  {
    var link := s.sessions[sid].link;
    match step
    case Command(i, percent, send) =>
      var t := s.(book := Ledger.Command(s.book, percent), history := s.history + [percent]);
      WriteInjects(cfg, t, i, Task(percent, t.book.generation), send, sid, n);
    case Settle(i, send) =>
      if Pending(s.book).None? {
        InjectedMore(link, n, ReadRequest);
      } else {
        WriteInjects(cfg, s, i, Task(Pending(s.book).value, s.book.generation), send, sid, n);
      }
    case Deliver(accept, replies) =>
    case Unsolicited(i, f) =>
    case Arrive(i) => if i == sid { InjectedMore(link, n, Arrived(s.sessions[i].uplink[0])); }
    case Resume(i, key) =>
      FinishInjects(s, i, key, s.sessions[i].tasks[key], s.sessions[i].link.pending[key].confirmed, sid, n);
    case Expire(i, key) => FinishInjects(s, i, key, s.sessions[i].tasks[key], false, sid, n);
    case ReadBack(i) => InjectedMore(link, n, ReadRequest);
    case Reconnect =>
  }

  /** A step makes at most one session, and that is fresh. */
  lemma NewSession(cfg: Config, s: State, step: Step, sid: nat)
    requires Enabled(cfg, s, step) && |s.sessions| <= sid
    ensures Injects(cfg, s, step, sid) == 0
    ensures sid < |Next(cfg, s, step).sessions| ==> Next(cfg, s, step).sessions[sid].link == FRESH_LINK
  {
  }

  lemma {:induction false} RunInjects(cfg: Config, s: State, run: seq<Step>, sid: nat, n: nat)
    requires Follow(cfg, s, run).Some? && sid < |Follow(cfg, s, run).value.sessions|
    requires if sid < |s.sessions| then Injected(s.sessions[sid].link, n) else n == 0
    ensures Injected(Follow(cfg, s, run).value.sessions[sid].link, n + InjectionsIn(cfg, s, run, sid))
    decreases |run|
  {
    if run != [] {
      var t := Next(cfg, s, run[0]);
      if sid < |s.sessions| {
        StepInjects(cfg, s, run[0], sid, n);
      } else {
        NewSession(cfg, s, run[0], sid);
        FreshStart();
      }
      RunInjects(cfg, t, run[1..], sid, n + Injects(cfg, s, run[0], sid));
    }
  }

  /** In a run of any length, a session with fewer than 65536 injections gets a new id for its next write. */
  lemma {:induction false} IdsStayFresh(cfg: Config, register: nat, run: seq<Step>, sid: nat)
    requires Follow(cfg, Initial(register), run).Some?
    requires sid < |Follow(cfg, Initial(register), run).value.sessions|
    requires InjectionsIn(cfg, Initial(register), run, sid) < 0x1_0000
    ensures var link := Follow(cfg, Initial(register), run).value.sessions[sid].link;
      NextWriteKey(link) !in link.outstanding
  {
    var n := InjectionsIn(cfg, Initial(register), run, sid);
    RunInjects(cfg, Initial(register), run, sid, 0);
    var link := Follow(cfg, Initial(register), run).value.sessions[sid].link;
    var trace :| After(trace) == link && Injections(trace) <= n;
    FreshUntilWrap(trace);
  }
}
