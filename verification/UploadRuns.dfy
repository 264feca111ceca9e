/** Whole uploads, under any frames at any time, early, late, repeated or never. */
module UploadRuns {
  import opened Bytes
  import opened Frames
  import opened Firmware
  import opened Capture
  import opened CaptureRuns
  import opened Uploader

  /** Where `upload` waits: for the answer to request `k`, for progress, or no more. */
  datatype Phase =
    | Waiting(k: nat)
    | Flashing(progress: seq<byte>)
    | Succeeded(progress: seq<byte>)
    | Failed

  datatype Entry = Sent(k: nat, payload: seq<byte>, tail: seq<byte>) | Heard(frame: Frame)

  datatype Run = Run(u: Upload, phase: Phase, log: seq<Entry>)

  /** What happens: a frame arrives, a received answer is looked at, a wait times out, progress is taken. */
  datatype Event = Arrive(frame: Frame) | Resume | Expire | Take

  function Send(job: Job, r: Run, k: nat): Run
    requires job.Valid() && k <= job.Last()
  {
    var u := Prepare(r.u);
    Run(u, Waiting(k), r.log + [Sent(k, RequestPayload(job, k), Tail(u.counter))])
  }

  function Start(job: Job, u: Upload): Run
    requires job.Valid()
  {
    Send(job, Run(Begin(u, job.variant), Failed, []), 0)
  }

  function Stop(r: Run, phase: Phase): Run {
    r.(u := End(r.u), phase := phase)
  }

  function TakeProgress(r: Run, progress: seq<byte>): Run
    requires r.u.queue != []
  {
    var u := r.u.(queue := r.u.queue[1..]);
    var all := progress + [r.u.queue[0]];
    if r.u.queue[0] < 100 then r.(u := u, phase := Flashing(all)) else Stop(r.(u := u), Succeeded(all))
  }

  /** One event; an event that cannot happen now changes nothing. */
  function React(job: Job, r: Run, e: Event): Run
    requires job.Valid()
  {
    match e
    case Arrive(f) => r.(u := OnClientFrame(r.u, f).0, log := r.log + [Heard(f)])
    case Resume =>
      if r.phase.Waiting? && r.phase.k <= job.Last() && r.u.ack.Received? then
        if r.u.ack.payload != Expected(job, r.phase.k) then
          Stop(r, Failed)
        else if r.phase.k == job.Last() then
          r.(phase := Flashing([]))
        else
          Send(job, r, r.phase.k + 1)
      else
        r
    case Expire => if r.phase.Waiting? || r.phase.Flashing? then Stop(r, Failed) else r
    case Take => if r.phase.Flashing? && r.u.queue != [] then TakeProgress(r, r.phase.progress) else r
  }

  function After(job: Job, u: Upload, events: seq<Event>): Run
    requires job.Valid()
  {
    if events == [] then
      Start(job, u)
    else
      React(job, After(job, u, events[..|events| - 1]), events[|events| - 1])
  }

  // ---- what the log says ----

  function Sends(log: seq<Entry>): nat {
    if log == [] then 0 else Sends(log[..|log| - 1]) + if log[|log| - 1].Sent? then 1 else 0
  }

  /** The frames heard since the last request. */
  function HeardSince(log: seq<Entry>): seq<Frame> {
    if log == [] || log[|log| - 1].Sent? then [] else HeardSince(log[..|log| - 1]) + [log[|log| - 1].frame]
  }

  /** An answer under the tail and the envelope of request `k`. */
  predicate Addressed(job: Job, base: nat, k: nat, f: Frame) {
    TailOf(f) == Tail(CounterOf(base, k)) && InEnvelope(f, job.variant)
  }

  /** Since request `k` was sent, an answer with this payload and its tail was heard. */
  ghost predicate Answered(job: Job, base: nat, log: seq<Entry>, k: nat, payload: seq<byte>) {
    && Sends(log) == k + 1
    && exists f :: f in HeardSince(log) && Addressed(job, base, k, f) && f.payload == payload
  }

  /** Every request is the next one, and follows the exact acknowledgement of the one before. */
  ghost predicate Disciplined(job: Job, base: nat, log: seq<Entry>)
    requires job.Valid()
    decreases |log|
  {
    log == [] || (
      var init, e := log[..|log| - 1], log[|log| - 1];
      && Disciplined(job, base, init)
      && (e.Sent? ==>
        && e.k == Sends(init) && e.k <= job.Last()
        && e.payload == RequestPayload(job, e.k) && e.tail == Tail(CounterOf(base, e.k))
        && (e.k > 0 ==> Answered(job, base, init, e.k - 1, Expected(job, e.k - 1)))))
  }

  /** The waiting coroutine's state fits its last request. */
  ghost predicate WaitInv(job: Job, base: nat, r: Run, k: nat) {
    && k <= job.Last() && Sends(r.log) == k + 1
    && r.u.active && r.u.variant == Some(job.variant)
    && r.u.counter == CounterOf(base, k) && r.u.tail == Some(Tail(r.u.counter))
    && (r.u.ack.Received? ==> Answered(job, base, r.log, k, r.u.ack.payload))
  }

  /** The last request was acknowledged. */
  ghost predicate AllSent(job: Job, base: nat, r: Run)
    requires job.Valid()
  {
    Answered(job, base, r.log, job.Last(), Expected(job, job.Last()))
  }

  predicate Below100(progress: seq<byte>) {
    forall i :: 0 <= i < |progress| ==> progress[i] < 100
  }

  /** The progress that frames heard so far reported, in the order of their arrival. */
  function Reported(magic: seq<byte>, log: seq<Entry>): seq<byte> {
    if log == [] then
      []
    else
      var init, e := log[..|log| - 1], log[|log| - 1];
      Reported(magic, init) + if e.Heard? && ReportsProgress(e.frame, magic) then [e.frame.payload[6]] else []
  }

  /** Nothing is expected any more, and no frame is taken. */
  predicate Over(u: Upload) {
    !u.active && u.tail == None && u.ack == Absent && u.variant == None
  }

  /** Ends at 100 or more, and every value before is below 100. */
  predicate Finishes(progress: seq<byte>) {
    progress != [] && progress[|progress| - 1] >= 100 && Below100(progress[..|progress| - 1])
  }

  ghost predicate Inv(job: Job, base: nat, r: Run)
    requires job.Valid()
  {
    && Disciplined(job, base, r.log)
    && match r.phase
       case Waiting(k) => WaitInv(job, base, r, k) && r.u.queue == Reported(job.variant.magic, r.log)
       case Flashing(progress) =>
         && AllSent(job, base, r) && Below100(progress) && r.u.active && r.u.variant == Some(job.variant)
         && progress + r.u.queue == Reported(job.variant.magic, r.log)
       case Succeeded(progress) =>
         && AllSent(job, base, r) && Finishes(progress) && Over(r.u)
         && progress <= Reported(job.variant.magic, r.log)
       case Failed => Over(r.u)
  }

  // ---- every step keeps it ----

  lemma NextCounter(base: nat, k: nat)
    ensures (CounterOf(base, k) + 1) % TAILS == CounterOf(base, k + 1)
  {
  }

  lemma {:induction false} SendKeeps(job: Job, base: nat, r: Run, k: nat)
    requires job.Valid() && k <= job.Last() && Disciplined(job, base, r.log) && Sends(r.log) == k
    requires r.u.active && r.u.variant == Some(job.variant) && (r.u.counter + 1) % TAILS == CounterOf(base, k)
    requires k > 0 ==> Answered(job, base, r.log, k - 1, Expected(job, k - 1))
    requires r.u.queue == Reported(job.variant.magic, r.log)
    ensures Inv(job, base, Send(job, r, k))
  {
  }

  lemma {:induction false} HeardOne(job: Job, base: nat, log: seq<Entry>, f: Frame)
    requires job.Valid() && Disciplined(job, base, log)
    ensures var more := log + [Heard(f)];
      && Disciplined(job, base, more) && Sends(more) == Sends(log)
      && HeardSince(more) == HeardSince(log) + [f]
      && (forall k, payload :: Answered(job, base, log, k, payload) ==> Answered(job, base, more, k, payload))
    ensures var magic := job.variant.magic;
      Reported(magic, log + [Heard(f)])
        == Reported(magic, log) + if ReportsProgress(f, magic) then [f.payload[6]] else []
  {
    var more := log + [Heard(f)];
    assert more[..|more| - 1] == log;
    assert forall g :: g in HeardSince(log) ==> g in HeardSince(more);
  }

  lemma HeardAnswer(job: Job, base: nat, r: Run, k: nat, f: Frame)
    requires WaitInv(job, base, r, k)
    ensures var u := OnClientFrame(r.u, f).0;
      && u.active && u.variant == r.u.variant && u.counter == r.u.counter && u.tail == r.u.tail
      && (u.ack == r.u.ack || (u.ack == Received(f.payload) && Addressed(job, base, k, f)))
      && u.queue == r.u.queue + if ReportsProgress(f, job.variant.magic) then [f.payload[6]] else []
  {
  }

  lemma ArriveKeeps(job: Job, base: nat, r: Run, f: Frame)
    requires job.Valid() && Inv(job, base, r)
    ensures Inv(job, base, React(job, r, Arrive(f)))
  {
    HeardOne(job, base, r.log, f);
    if r.phase.Waiting? { HeardAnswer(job, base, r, r.phase.k, f); }
    if r.phase.Flashing? { ReportQueued(job, r, f, r.phase.progress); }
  }

  lemma ReportQueued(job: Job, r: Run, f: Frame, progress: seq<byte>)
    requires r.u.active && r.u.variant == Some(job.variant)
    ensures var u := OnClientFrame(r.u, f).0;
      && u.active && u.variant == r.u.variant
      && progress + u.queue
        == progress + r.u.queue + if ReportsProgress(f, job.variant.magic) then [f.payload[6]] else []
  {
  }

  lemma ResumeKeeps(job: Job, base: nat, r: Run)
    requires job.Valid() && Inv(job, base, r)
    ensures Inv(job, base, React(job, r, Resume))
  {
    if r.phase.Waiting? && r.u.ack.Received? && r.u.ack.payload == Expected(job, r.phase.k) && r.phase.k < job.Last() {
      NextCounter(base, r.phase.k);
      SendKeeps(job, base, r, r.phase.k + 1);
    }
  }

  /** The first value in the queue moves to those taken. */
  lemma FirstTaken(progress: seq<byte>, queue: seq<byte>, all: seq<byte>)
    requires queue != [] && Below100(progress) && progress + queue == all
    ensures (progress + [queue[0]]) + queue[1..] == all && progress + [queue[0]] <= all
    ensures if queue[0] < 100 then Below100(progress + [queue[0]]) else Finishes(progress + [queue[0]])
  {
    assert (progress + [queue[0]]) + queue[1..] == progress + queue;
    assert (progress + [queue[0]])[..|progress|] == progress;
  }

  lemma TakeKeeps(job: Job, base: nat, r: Run)
    requires job.Valid() && Inv(job, base, r)
    ensures Inv(job, base, React(job, r, Take))
  {
    if r.phase.Flashing? && r.u.queue != [] {
      FirstTaken(r.phase.progress, r.u.queue, Reported(job.variant.magic, r.log));
      TakenKeeps(job, base, r, r.phase.progress);
    }
  }

  lemma TakenKeeps(job: Job, base: nat, r: Run, progress: seq<byte>)
    requires job.Valid() && Inv(job, base, r) && r.phase == Flashing(progress) && r.u.queue != []
    requires var taken, all := progress + [r.u.queue[0]], Reported(job.variant.magic, r.log);
      && taken + r.u.queue[1..] == all && taken <= all
      && if r.u.queue[0] < 100 then Below100(taken) else Finishes(taken)
    ensures Inv(job, base, TakeProgress(r, progress))
  {
  }

  /** Whatever arrives and whenever, an upload stays disciplined. */
  lemma {:induction false} StopAndWait(job: Job, u: Upload, events: seq<Event>)
    requires job.Valid()
    ensures Inv(job, u.counter, After(job, u, events))
    decreases |events|
  {
    if events == [] {
      SendKeeps(job, u.counter, Run(Begin(u, job.variant), Failed, []), 0);
    } else {
      var init, e := events[..|events| - 1], events[|events| - 1];
      StopAndWait(job, u, init);
      var r := After(job, u, init);
      match e
      case Arrive(f) => ArriveKeeps(job, u.counter, r, f);
      case Resume => ResumeKeeps(job, u.counter, r);
      case Expire =>
      case Take => TakeKeeps(job, u.counter, r);
    }
  }

  // ---- what a finished upload has done ----

  function Payloads(log: seq<Entry>): seq<seq<byte>> {
    if log == [] then
      []
    else
      Payloads(log[..|log| - 1]) + if log[|log| - 1].Sent? then [log[|log| - 1].payload] else []
  }

  function Requests(job: Job, n: nat): seq<seq<byte>>
    requires job.Valid() && n < 0x1_0000
  {
    if n == 0 then [] else Requests(job, n - 1) + [RequestPayload(job, n - 1)]
  }

  lemma {:induction false} SentInOrder(job: Job, base: nat, log: seq<Entry>)
    requires job.Valid() && Disciplined(job, base, log)
    ensures Sends(log) <= job.Last() + 1 && Payloads(log) == Requests(job, Sends(log))
    decreases |log|
  {
    if log != [] { SentInOrder(job, base, log[..|log| - 1]); }
  }

  lemma {:induction false} Finished(job: Job, base: nat, r: Run)
    requires job.Valid() && Inv(job, base, r) && r.phase.Succeeded?
    ensures Payloads(r.log) == Requests(job, job.Last() + 1)
    ensures Answered(job, base, r.log, job.Last(), FinalAck(job.variant)) && Finishes(r.phase.progress)
  {
    SentInOrder(job, base, r.log);
  }

  /**
   A successful upload has sent the metadata and then every chunk of the image, once and in
   order, each only after the exact acknowledgement of the one before, and ended at the first
   progress value of 100 or more, the values taken in the order in which they were reported.
   */
  lemma {:induction false} SuccessMeansSent(job: Job, u: Upload, events: seq<Event>)
    requires job.Valid() && After(job, u, events).phase.Succeeded?
    ensures var r := After(job, u, events);
      && Payloads(r.log) == Requests(job, job.Last() + 1)
      && Disciplined(job, u.counter, r.log)
      && Answered(job, u.counter, r.log, job.Last(), FinalAck(job.variant))
      && Finishes(r.phase.progress) && r.phase.progress <= Reported(job.variant.magic, r.log)
  {
    StopAndWait(job, u, events);
    Finished(job, u.counter, After(job, u, events));
  }

  /** Where the upload stands when request `k` was acknowledged. */
  function AfterRequest(job: Job, k: nat): Phase {
    if k == job.Last() then Flashing([]) else Waiting(k + 1)
  }

  /**
   What completes a request: a frame under its tail and envelope with exactly the expected payload,
   and nothing else. The CRC plays no part.
   */
  lemma CompletesIff(job: Job, base: nat, r: Run, k: nat, f: Frame)
    requires job.Valid() && Inv(job, base, r) && r.phase == Waiting(k) && r.u.ack == Awaiting
    ensures React(job, React(job, r, Arrive(f)), Resume).phase == AfterRequest(job, k)
      <==> Addressed(job, base, k, f) && f.payload == Expected(job, k)
  {
    var after := React(job, r, Arrive(f));
    if Addressed(job, base, k, f) && f.payload == Expected(job, k) {
      AckIsNoProgress(job, k, f);
      assert job.variant.magic <= f.payload;
      assert after.u.ack == Received(f.payload);
    } else {
      OtherFrame(job, base, r, k, f);
    }
  }

  lemma OtherFrame(job: Job, base: nat, r: Run, k: nat, f: Frame)
    requires job.Valid() && Inv(job, base, r) && r.phase == Waiting(k) && r.u.ack == Awaiting
    requires !(Addressed(job, base, k, f) && f.payload == Expected(job, k))
    ensures var phase := React(job, React(job, r, Arrive(f)), Resume).phase;
      phase == Waiting(k) || phase == Failed
  {
  }

  /** The frame that completes a request is taken, and so kept from the cloud. */
  lemma CompletingIsOwned(job: Job, base: nat, r: Run, k: nat, f: Frame)
    requires job.Valid() && Inv(job, base, r) && r.phase == Waiting(k) && |f.device| == 4
    requires Addressed(job, base, k, f) && f.payload == Expected(job, k)
    ensures OnClientFrame(r.u, f).1
  {
    OwnedIff(r.u, f);
  }

  /** Reports are taken from the first request on until the upload is over, and from then on no frame is. */
  lemma ReportsAreOwned(job: Job, base: nat, r: Run, f: Frame)
    requires job.Valid() && Inv(job, base, r) && |f.device| == 4
    ensures (r.phase.Waiting? || r.phase.Flashing?) && ReportsProgress(f, job.variant.magic) ==> OnClientFrame(r.u, f).1
    ensures r.phase.Succeeded? || r.phase.Failed? ==> OnClientFrame(r.u, f) == (r.u, false) && !r.u.active
  {
    OwnedIff(r.u, f);
    FrameEffect(r.u, f);
  }

  /**
   What ends an upload: a wait that times out, or another payload than the expected one. The expected
   one leads on, and so does a progress value below 100; one of 100 or more is success.
   */
  lemma WhatEndsIt(job: Job, base: nat, r: Run)
    requires job.Valid() && Inv(job, base, r)
    ensures r.phase.Waiting? || r.phase.Flashing? ==> React(job, r, Expire).phase == Failed
    ensures r.phase.Waiting? && r.u.ack.Received? ==>
      React(job, r, Resume).phase ==
        if r.u.ack.payload == Expected(job, r.phase.k) then AfterRequest(job, r.phase.k) else Failed
    ensures r.phase.Flashing? && r.u.queue != [] ==>
      React(job, r, Take).phase ==
        var progress := r.phase.progress + [r.u.queue[0]];
        if r.u.queue[0] < 100 then Flashing(progress) else Succeeded(progress)
  {
  }

  /** In particular a damaged frame completes the current request like an intact one. */
  lemma DamagedFrameCompletes(job: Job, base: nat, r: Run, k: nat, f: Frame)
    requires job.Valid() && Inv(job, base, r) && r.phase == Waiting(k) && r.u.ack == Awaiting
    requires !f.validCrc && Addressed(job, base, k, f) && f.payload == Expected(job, k)
    ensures React(job, React(job, r, Arrive(f)), Resume).phase == AfterRequest(job, k)
  {
    CompletesIff(job, base, r, k, f);
  }

  /** An acknowledgement heard for request `k` carries no earlier request's tail. */
  lemma AnswersAreCurrent(job: Job, base: nat, i: nat, k: nat, f: Frame)
    requires i < k < i + TAILS && Addressed(job, base, k, f)
    ensures !Addressed(job, base, i, f)
  {
    TailsRecur(base, i, k);
    Distinct(i, k);
  }
}
