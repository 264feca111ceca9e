/**
 The sender and the receiver of firmware joined by a reliable channel: every request is
 encoded, deframed and handled, and its answer goes back the same way.
 */
module Transfer {
  import opened Bytes
  import opened Crc
  import opened Frames
  import opened Deframer
  import opened FrameStream
  import opened Firmware
  import opened Capture
  import opened CaptureRuns
  import opened Uploader
  import opened UploadRuns

  // ---- the channel ----

  /** The frames that come out of the deframer at the other end. */
  function Wire(m: Message): seq<Frame>
    requires m.Sendable()
  {
    Extract(Encode(m)).frames
  }

  lemma WireDelivers(m: Message)
    requires m.Sendable()
    ensures Wire(m) == [Decoded(m)]
  {
    StreamRoundTrip([m]);
    assert [m][1..] == [];
    assert EncodeAll([m]) == Encode(m) + EncodeAll([]) == Encode(m);
    assert DecodedAll([m]) == [Decoded(m)] + DecodedAll([]) == [Decoded(m)];
  }

  /** A variant that `upload` can choose. */
  predicate OnWire(v: Variant) {
    || v == VARIANT_7E_A2
    || v == VARIANT_7F_A2
    || (Signed(v.magic) && |v.magic| == 5 && v == Dynamic(v.func, v.magic))
  }

  /** Whatever protocol, function byte and transfer id are chosen, the variant is one of these, and well formed. */
  lemma ChosenIsOnWire(protocol: string, func: byte, id: seq<byte>)
    requires |id| == 2 && Choose(protocol, func, id).Some?
    ensures OnWire(Choose(protocol, func, id).value) && Choose(protocol, func, id).value.Valid()
  {
    assert (id + SIGNATURE)[2..5] == SIGNATURE;
  }

  // ---- one request and its answer ----

  datatype World = World(run: Run, capture: State, saved: Option<seq<byte>>)

  function RequestMessage(job: Job, u: Upload, k: nat): Message
    requires job.Valid() && k < 0x1_0000
  {
    Message(job.variant.start, [RequestMark(k)] + Tail(u.counter), job.variant.func, RequestPayload(job, k))
  }

  /** The sender hears the answer, or its wait runs out. */
  function Hear(job: Job, r: Run, answer: Option<Message>): Run
    requires job.Valid() && (answer.Some? ==> answer.value.Sendable())
  {
    if answer.Some? && Wire(answer.value) != [] then
      React(job, React(job, r, Arrive(Wire(answer.value)[0])), Resume)
    else
      React(job, r, Expire)
  }

  /** What the receiver writes back. */
  function AnswerTo(f: Frame, reply: Reply): Option<Message> {
    if (reply.Ack? || reply.Complete?) && VariantOf(f).Some? && f.device != []
        && AckMessage(f, VariantOf(f).value, reply).Sendable() then
      Some(AckMessage(f, VariantOf(f).value, reply))
    else
      None
  }

  /** The receiver handled the request as `o`, and the sender hears what it answered. */
  function Respond(job: Job, w: World, f: Frame, o: Outcome): World
    requires job.Valid()
  {
    World(Hear(job, w.run, AnswerTo(f, o.reply)), o.state,
      if o.reply.Complete? then Some(o.reply.image) else w.saved)
  }

  /** One round: the current request goes out, is handled and answered; saving succeeds. */
  function Round(job: Job, w: World): World
    requires job.Valid()
  {
    if !w.run.phase.Waiting? || w.run.phase.k > job.Last() then
      w
    else
      var request := RequestMessage(job, w.run.u, w.run.phase.k);
      if request.Sendable() && Wire(request) != [] then
        Respond(job, w, Wire(request)[0], Capture.Step(w.capture, Wire(request)[0], job.serial, true))
      else
        w.(run := React(job, w.run, Expire))
  }

  function Rounds(job: Job, w: World, n: nat): World
    requires job.Valid()
  {
    if n == 0 then w else Round(job, Rounds(job, w, n - 1))
  }

  // ---- the request arrives ----

  lemma PayloadBounds(job: Job, k: nat)
    requires job.Valid() && k <= job.Last()
    ensures job.variant.magic <= RequestPayload(job, k) && |RequestPayload(job, k)| <= 1031
  {
  }

  /** The frame of a request, as the receiver sees it. */
  predicate IsRequest(job: Job, u: Upload, k: nat, f: Frame)
    requires job.Valid() && k < 0x1_0000
  {
    && f.validCrc && f.start == job.variant.start && f.func == job.variant.func
    && f.device == [RequestMark(k)] + Tail(u.counter) && f.payload == RequestPayload(job, k)
  }

  lemma RequestArrives(job: Job, u: Upload, k: nat)
    requires job.Valid() && k <= job.Last()
    ensures RequestMessage(job, u, k).Sendable()
    ensures |Wire(RequestMessage(job, u, k))| == 1 && IsRequest(job, u, k, Wire(RequestMessage(job, u, k))[0])
  {
    PayloadBounds(job, k);
    WireDelivers(RequestMessage(job, u, k));
  }

  lemma RequestVariant(job: Job, u: Upload, k: nat, f: Frame)
    requires job.Valid() && OnWire(job.variant) && k <= job.Last() && IsRequest(job, u, k, f)
    ensures VariantOf(f) == Some(job.variant)
  {
    PayloadBounds(job, k);
    assert f.payload[..5] == job.variant.magic;
    SignatureKept(f.payload, job.variant.magic);
  }

  lemma SignatureKept(p: seq<byte>, magic: seq<byte>)
    requires |magic| == 5 && magic <= p
    ensures p[..5] == magic && (Signed(magic) ==> Signed(p)) && (MAGIC <= p <==> magic == MAGIC)
  {
  }

  // ---- the receiver handles it ----

  function Meta(job: Job): Metadata
    requires job.Valid()
  {
    Describe(job.image, job.serial, job.variant)
  }

  lemma MetadataHandled(job: Job, u: Upload, c: State, f: Frame)
    requires job.Valid() && OnWire(job.variant) && IsRequest(job, u, 0, f)
    ensures Capture.Step(c, f, job.serial, true)
      == Outcome(Holding(Meta(job), job.image.data, 0), Ack(ChunkAck(job.variant, 0)))
  {
    RequestVariant(job, u, 0, f);
    BuildThenParse(job.image, job.serial, job.variant);
    Accepted(c, f, Meta(job), job.serial, true);
  }

  lemma ChunkHandled(job: Job, u: Upload, k: nat, f: Frame)
    requires job.Valid() && OnWire(job.variant) && 0 < k <= job.Last() && IsRequest(job, u, k, f)
    requires Unambiguous(job.image.data, job.variant)
    ensures Capture.Step(Holding(Meta(job), job.image.data, k - 1), f, job.serial, true)
      == if k == job.Last() then
           Outcome(IDLE, Complete(FinalAck(job.variant), job.image.data))
         else
           Outcome(Holding(Meta(job), job.image.data, k), Ack(ChunkAck(job.variant, k)))
  {
    RequestVariant(job, u, k, f);
    StepCounts(Meta(job), job.image.data, k - 1, f, k - 1, job.serial, true);
  }

  // ---- the answer arrives ----

  /** The sender waits for the answer to request `k`. */
  predicate Listening(job: Job, r: Run, k: nat) {
    && r.phase == Waiting(k) && Sends(r.log) == k + 1 && r.u.active && r.u.variant == Some(job.variant)
    && r.u.tail == Some(Tail(r.u.counter)) && r.u.ack == Awaiting && r.u.queue == []
  }

  lemma AckSendable(f: Frame, v: Variant, reply: Reply)
    requires v.Valid() && |f.device| == 4 && (reply.Ack? || reply.Complete?) && |reply.payload| <= 8
    ensures AckMessage(f, v, reply).Sendable()
  {
  }

  /** A frame that carries an answer to request `k` of the job. */
  predicate IsAnswer(job: Job, u: Upload, f: Frame, payload: seq<byte>) {
    f.start == job.variant.start && f.func == job.variant.func && TailOf(f) == Tail(u.counter) && f.payload == payload
  }

  lemma AnswerArrives(job: Job, u: Upload, k: nat, f: Frame, reply: Reply)
    requires job.Valid() && k <= job.Last() && IsRequest(job, u, k, f) && VariantOf(f) == Some(job.variant)
    requires (reply.Ack? || reply.Complete?) && |reply.payload| <= 8
    ensures AnswerTo(f, reply).Some? && AnswerTo(f, reply).value.Sendable()
    ensures |Wire(AnswerTo(f, reply).value)| == 1
    ensures IsAnswer(job, u, Wire(AnswerTo(f, reply).value)[0], reply.payload)
  {
    AckSendable(f, job.variant, reply);
    WireDelivers(AckMessage(f, job.variant, reply));
    SameTail(if reply.Complete? then FINAL_MARK else ACK_MARK, RequestMark(k), Tail(u.counter));
  }

  lemma SameTail(a: byte, b: byte, tail: seq<byte>)
    ensures ([a] + ([b] + tail)[1..])[1..] == tail
  {
  }

  lemma RightAnswer(job: Job, r: Run, k: nat, g: Frame)
    requires job.Valid() && k <= job.Last() && Listening(job, r, k) && IsAnswer(job, r.u, g, Expected(job, k))
    ensures var next := React(job, React(job, r, Arrive(g)), Resume);
      if k == job.Last() then Acknowledged(job, next) else Listening(job, next, k + 1)
  {
  }

  lemma WrongAnswer(job: Job, r: Run, k: nat, g: Frame, payload: seq<byte>)
    requires job.Valid() && k <= job.Last() && Listening(job, r, k) && IsAnswer(job, r.u, g, payload)
    requires job.variant.magic <= payload && |payload| != 7 && payload != Expected(job, k)
    ensures React(job, React(job, r, Arrive(g)), Resume).phase == Failed
  {
  }

  /**
   The bytes that mark the two sides: a request begins with 21 for the metadata and 22 for a chunk, an
   answer with A1, and with A2 once the image is complete; the answer repeats the rest of the request's id.
   */
  lemma Marks(job: Job, u: Upload, k: nat, f: Frame, reply: Reply)
    requires job.Valid() && k <= job.Last() && IsRequest(job, u, k, f) && VariantOf(f) == Some(job.variant)
    requires (reply.Ack? || reply.Complete?) && |reply.payload| <= 8
    ensures f.device[0] == (if k == 0 then 0x21 else 0x22) && f.device[1..] == Tail(u.counter)
    ensures AnswerTo(f, reply).Some? && AnswerTo(f, reply).value.Sendable()
    ensures Wire(AnswerTo(f, reply).value) != []
    ensures var g := Wire(AnswerTo(f, reply).value)[0];
      && g.validCrc && g.start == job.variant.start && g.func == f.func && g.payload == reply.payload
      && |g.device| == 4 && g.device[0] == (if reply.Complete? then 0xA2 else 0xA1) && g.device[1..] == f.device[1..]
  {
    AckSendable(f, job.variant, reply);
    WireDelivers(AckMessage(f, job.variant, reply));
  }

  /**
   A simulated progress frame, as an uploader under the same variant would see it: a report of the
   percentage, with a function byte that counts on from the last one.
   */
  lemma SimulatedReport(v: Variant, tail: seq<byte>, func: byte, i: nat, percent: byte)
    requires v.Valid()
    ensures ProgressMessage(v, tail, func, i, percent).Sendable()
    ensures Wire(ProgressMessage(v, tail, func, i, percent)) != []
    ensures var f := Wire(ProgressMessage(v, tail, func, i, percent))[0];
      ReportsProgress(f, v.magic) && f.payload[6] == percent && SimulatedEnvelope(f, tail, func, i)
  {
    var m := ProgressMessage(v, tail, func, i, percent);
    ReportPayload(v, percent);
    WireDelivers(m);
    assert Decoded(m).payload == ProgressPayload(v, percent) && Decoded(m).device == m.device;
  }

  predicate SimulatedEnvelope(f: Frame, tail: seq<byte>, func: byte, i: nat) {
    && f.func as nat == (func as nat + i + 1) % 256
    && |f.device| == 4 && f.device[0] == 0xAF && f.device[1..] == (if |tail| == 3 then tail else [0, 0, 0])
  }

  lemma ReportPayload(v: Variant, percent: byte)
    requires v.Valid()
    ensures var p := ProgressPayload(v, percent); v.magic <= p && |p| == 7 && p[5] == 0 && p[6] == percent
  {
  }

  // ---- rounds ----

  /** Before round `k`: the sender listens, the receiver holds the chunks sent so far. */
  predicate Ready(job: Job, w: World, k: nat)
    requires job.Valid()
  {
    && Listening(job, w.run, k) && w.saved == None
    && (k > 0 ==> w.capture == Holding(Meta(job), job.image.data, k - 1))
  }

  /** The last request was acknowledged, and no progress has come yet. */
  predicate Acknowledged(job: Job, r: Run) {
    && r.phase == Flashing([]) && Sends(r.log) == job.Last() + 1
    && r.u.active && r.u.variant == Some(job.variant) && r.u.queue == []
  }

  /** All chunks were acknowledged, and the saved bytes are the image. */
  predicate Delivered(job: Job, w: World) {
    && Acknowledged(job, w.run)
    && w.saved == Some(job.image.data) && w.capture == IDLE
  }

  lemma RoundIsExchange(job: Job, w: World, k: nat) returns (f: Frame)
    requires job.Valid() && OnWire(job.variant) && k <= job.Last() && Ready(job, w, k)
    ensures IsRequest(job, w.run.u, k, f) && VariantOf(f) == Some(job.variant)
    ensures Round(job, w) == Respond(job, w, f, Capture.Step(w.capture, f, job.serial, true))
  {
    RequestArrives(job, w.run.u, k);
    f := Wire(RequestMessage(job, w.run.u, k))[0];
    RequestVariant(job, w.run.u, k, f);
  }

  /** What the receiver does with request `k` when all goes well. */
  function Handled(job: Job, k: nat): Outcome
    requires job.Valid() && k <= job.Last()
  {
    if k > 0 && k == job.Last() then
      Outcome(IDLE, Complete(FinalAck(job.variant), job.image.data))
    else
      Outcome(Holding(Meta(job), job.image.data, k), Ack(ChunkAck(job.variant, k)))
  }

  lemma RoundHandled(job: Job, w: World, k: nat) returns (f: Frame)
    requires job.Valid() && OnWire(job.variant) && k <= job.Last() && Ready(job, w, k)
    requires k > 0 ==> Unambiguous(job.image.data, job.variant)
    ensures IsRequest(job, w.run.u, k, f) && VariantOf(f) == Some(job.variant)
    ensures Round(job, w) == Respond(job, w, f, Handled(job, k))
  {
    f := RoundIsExchange(job, w, k);
    if k == 0 {
      MetadataHandled(job, w.run.u, w.capture, f);
    } else {
      ChunkHandled(job, w.run.u, k, f);
    }
  }

  lemma AnswerAdvances(job: Job, w: World, k: nat, f: Frame, o: Outcome)
    requires job.Valid() && k <= job.Last() && Listening(job, w.run, k)
    requires IsRequest(job, w.run.u, k, f) && VariantOf(f) == Some(job.variant)
    requires (o.reply.Ack? || o.reply.Complete?) && o.reply.payload == Expected(job, k)
    ensures var w' := Respond(job, w, f, o);
      && w'.capture == o.state && w'.saved == (if o.reply.Complete? then Some(o.reply.image) else w.saved)
      && (if k == job.Last() then Acknowledged(job, w'.run) else Listening(job, w'.run, k + 1))
  {
    AnswerArrives(job, w.run.u, k, f, o.reply);
    RightAnswer(job, w.run, k, Wire(AnswerTo(f, o.reply).value)[0]);
  }

  lemma LastAnswer(job: Job, w: World, f: Frame)
    requires job.Valid() && Listening(job, w.run, job.Last()) && 0 < job.Last()
    requires IsRequest(job, w.run.u, job.Last(), f) && VariantOf(f) == Some(job.variant)
    ensures Delivered(job, Respond(job, w, f, Handled(job, job.Last())))
  {
    AnswerAdvances(job, w, job.Last(), f, Handled(job, job.Last()));
  }

  lemma NextAnswer(job: Job, w: World, k: nat, f: Frame)
    requires job.Valid() && k < job.Last() && Listening(job, w.run, k) && w.saved == None
    requires IsRequest(job, w.run.u, k, f) && VariantOf(f) == Some(job.variant)
    ensures Ready(job, Respond(job, w, f, Handled(job, k)), k + 1)
  {
    AnswerAdvances(job, w, k, f, Handled(job, k));
  }

  lemma RoundAdvances(job: Job, w: World, k: nat)
    requires job.Valid() && OnWire(job.variant) && k <= job.Last() && Ready(job, w, k)
    requires k > 0 ==> Unambiguous(job.image.data, job.variant)
    ensures if k == job.Last() then Delivered(job, Round(job, w)) else Ready(job, Round(job, w), k + 1)
  {
    var f := RoundHandled(job, w, k);
    if k == job.Last() {
      LastAnswer(job, w, f);
    } else {
      NextAnswer(job, w, k, f);
    }
  }

  // ---- the whole transfer ----

  function Begun(job: Job, u: Upload, c: State): World
    requires job.Valid()
  {
    World(Start(job, u), c, None)
  }

  lemma BegunReady(job: Job, u: Upload, c: State)
    requires job.Valid()
    ensures Ready(job, Begun(job, u, c), 0)
  {
  }

  lemma OneRound(job: Job, w: World, k: nat)
    requires job.Valid() && OnWire(job.variant) && k < job.Last() && Ready(job, w, k)
    requires k > 0 ==> Unambiguous(job.image.data, job.variant)
    ensures Ready(job, Round(job, w), k + 1)
  {
    RoundAdvances(job, w, k);
  }

  lemma {:induction false} RoundsReady(job: Job, w: World, k: nat)
    requires job.Valid() && OnWire(job.variant) && k <= job.Last() && Ready(job, w, 0)
    requires Unambiguous(job.image.data, job.variant)
    ensures Ready(job, Rounds(job, w, k), k)
  {
    if k > 0 {
      RoundsReady(job, w, k - 1);
      OneRound(job, Rounds(job, w, k - 1), k - 1);
    }
  }

  /** One simulated progress report reaches the sender. */
  function Report(job: Job, r: Run, m: Message): Run
    requires job.Valid()
  {
    if m.Sendable() && Wire(m) != [] then React(job, React(job, r, Arrive(Wire(m)[0])), Take) else r
  }

  /** The first `i` reports of a simulated installation. */
  function Reports(job: Job, r: Run, tail: seq<byte>, func: byte, percents: seq<byte>, i: nat): Run
    requires job.Valid() && i <= |percents|
  {
    if i == 0 then
      r
    else
      Report(job, Reports(job, r, tail, func, percents, i - 1),
        ProgressMessage(job.variant, tail, func, i - 1, percents[i - 1]))
  }

  predicate Installing(job: Job, r: Run, progress: seq<byte>) {
    r.phase == Flashing(progress) && r.u.active && r.u.variant == Some(job.variant) && r.u.queue == []
  }

  /** A progress frame of this transfer. */
  predicate Tells(job: Job, f: Frame, percent: byte) {
    f.start == START_7F && f.payload == ProgressPayload(job.variant, percent)
  }

  lemma ReportArrives(job: Job, tail: seq<byte>, func: byte, i: nat, percent: byte)
    requires job.Valid()
    ensures var m := ProgressMessage(job.variant, tail, func, i, percent);
      m.Sendable() && |Wire(m)| == 1 && Tells(job, Wire(m)[0], percent)
  {
    WireDelivers(ProgressMessage(job.variant, tail, func, i, percent));
  }

  lemma ReportTaken(job: Job, r: Run, progress: seq<byte>, f: Frame, percent: byte)
    requires job.Valid() && Installing(job, r, progress) && Tells(job, f, percent)
    ensures var next := React(job, React(job, r, Arrive(f)), Take);
      if percent < 100 then
        Installing(job, next, progress + [percent])
      else
        next.phase == Succeeded(progress + [percent])
  {
  }

  lemma OneMore(s: seq<byte>, i: nat)
    requires 0 < i <= |s|
    ensures s[..i] == s[..i - 1] + [s[i - 1]]
  {
  }

  lemma ReportAdvances(job: Job, r: Run, progress: seq<byte>, tail: seq<byte>, func: byte, i: nat, percent: byte)
    requires job.Valid() && Installing(job, r, progress)
    ensures var next := Report(job, r, ProgressMessage(job.variant, tail, func, i, percent));
      if percent < 100 then
        Installing(job, next, progress + [percent])
      else
        next.phase == Succeeded(progress + [percent])
  {
    ReportArrives(job, tail, func, i, percent);
    ReportHeard(job, r, progress, ProgressMessage(job.variant, tail, func, i, percent), percent);
  }

  lemma ReportHeard(job: Job, r: Run, progress: seq<byte>, m: Message, percent: byte)
    requires job.Valid() && Installing(job, r, progress)
    requires m.Sendable() && Wire(m) != [] && Tells(job, Wire(m)[0], percent)
    ensures var next := Report(job, r, m);
      if percent < 100 then
        Installing(job, next, progress + [percent])
      else
        next.phase == Succeeded(progress + [percent])
  {
    ReportTaken(job, r, progress, Wire(m)[0], percent);
  }

  lemma NextReport(job: Job, r: Run, tail: seq<byte>, func: byte, percents: seq<byte>, i: nat)
    requires job.Valid() && 0 < i <= |percents|
    requires Installing(job, Reports(job, r, tail, func, percents, i - 1), percents[..i - 1])
    ensures var next := Reports(job, r, tail, func, percents, i);
      if percents[i - 1] < 100 then Installing(job, next, percents[..i]) else next.phase == Succeeded(percents[..i])
  {
    var before := Reports(job, r, tail, func, percents, i - 1);
    ReportAdvances(job, before, percents[..i - 1], tail, func, i - 1, percents[i - 1]);
    OneMore(percents, i);
  }

  lemma {:induction false} ReportsTaken(job: Job, r: Run, tail: seq<byte>, func: byte, percents: seq<byte>, i: nat)
    requires job.Valid() && Finishes(percents) && i < |percents| && Installing(job, r, [])
    ensures Installing(job, Reports(job, r, tail, func, percents, i), percents[..i])
  {
    if i > 0 {
      ReportsTaken(job, r, tail, func, percents, i - 1);
      NextReport(job, r, tail, func, percents, i);
      assert percents[i - 1] == percents[..|percents| - 1][i - 1];
    }
  }

  /** Reports that end at 100 or more, and only there, complete the upload. */
  lemma {:induction false} AllReportsTaken(job: Job, r: Run, tail: seq<byte>, func: byte, percents: seq<byte>)
    requires job.Valid() && Finishes(percents) && Installing(job, r, [])
    ensures Reports(job, r, tail, func, percents, |percents|).phase == Succeeded(percents)
  {
    ReportsTaken(job, r, tail, func, percents, |percents| - 1);
    NextReport(job, r, tail, func, percents, |percents|);
    assert percents[..|percents|] == percents;
  }

  lemma ProgressFinishes()
    ensures Finishes(PROGRESS)
  {
  }

  /** The transfer: a round for every request; the receiver reports progress once it has saved. */
  function Transferred(job: Job, u: Upload, c: State, tail: seq<byte>, func: byte): World
    requires job.Valid()
  {
    var w := Rounds(job, Begun(job, u, c), job.Last() + 1);
    if w.saved.Some? then w.(run := Reports(job, w.run, tail, func, PROGRESS, |PROGRESS|)) else w
  }

  /** After a round for every request the receiver has saved the image and is idle again. */
  lemma {:induction false} RoundsDeliver(job: Job, w: World)
    requires job.Valid() && OnWire(job.variant) && Ready(job, w, 0)
    requires Unambiguous(job.image.data, job.variant)
    ensures Delivered(job, Rounds(job, w, job.Last() + 1))
  {
    RoundsReady(job, w, job.Last());
    RoundAdvances(job, Rounds(job, w, job.Last()), job.Last());
  }

  /** The simulated reports complete a delivered upload. */
  lemma {:induction false} ReportsComplete(job: Job, w: World, tail: seq<byte>, func: byte)
    requires job.Valid() && Delivered(job, w)
    ensures Reports(job, w.run, tail, func, PROGRESS, |PROGRESS|).phase == Succeeded(PROGRESS)
  {
    ProgressFinishes();
    AllReportsTaken(job, w.run, tail, func, PROGRESS);
  }

  /**
   Sender and receiver fit: whatever state the receiver was in, it saves exactly the image,
   after one request for the metadata and one for each chunk, and the sender succeeds.
   */
  lemma {:induction false} TransferSucceeds(job: Job, u: Upload, c: State, tail: seq<byte>, func: byte)
    requires job.Valid() && OnWire(job.variant) && Unambiguous(job.image.data, job.variant)
    ensures var w := Rounds(job, Begun(job, u, c), job.Last() + 1);
      w.saved == Some(job.image.data) && Sends(w.run.log) == job.Last() + 1 && w.capture == IDLE
    ensures Transferred(job, u, c, tail, func).run.phase == Succeeded([18, 38, 58, 77, 97, 100])
    ensures Transferred(job, u, c, tail, func).saved == Some(job.image.data)
  {
    BegunReady(job, u, c);
    RoundsDeliver(job, Begun(job, u, c));
    ReportsComplete(job, Rounds(job, Begun(job, u, c), job.Last() + 1), tail, func);
  }

  // ---- when chunk 0 reads as metadata ----

  /** No answer to request `k`, or not the one it expects. */
  predicate WrongFor(job: Job, k: nat, reply: Reply)
    requires k < 0x1_0000
  {
    || reply.Withheld?
    || (reply.Ack? && job.variant.magic <= reply.payload && |reply.payload| == 8 && reply.payload != Expected(job, k))
  }

  /** Such an answer ends the upload. */
  lemma WrongReply(job: Job, w: World, k: nat, f: Frame, o: Outcome)
    requires job.Valid() && k <= job.Last() && Listening(job, w.run, k)
    requires IsRequest(job, w.run.u, k, f) && VariantOf(f) == Some(job.variant)
    requires WrongFor(job, k, o.reply)
    ensures Respond(job, w, f, o).run.phase == Failed && Respond(job, w, f, o).saved == w.saved
  {
    if o.reply.Ack? {
      AnswerArrives(job, w.run.u, k, f, o.reply);
      WrongAnswer(job, w.run, k, Wire(AnswerTo(f, o.reply).value)[0], o.reply.payload);
    }
  }

  lemma EarlierAck(job: Job, i: nat, k: nat)
    requires job.Valid() && i < k <= job.Last()
    ensures WrongFor(job, k, Ack(ChunkAck(job.variant, i)))
  {
    AcksDiffer(job.variant, i, k);
  }

  lemma MisreadIsWrong(job: Job, k: nat, reply: Reply)
    requires job.Valid() && 0 < k <= job.Last()
    requires reply == Withheld(SerialMismatch) || reply == Ack(ChunkAck(job.variant, 0))
    ensures WrongFor(job, k, reply)
  {
    EarlierAck(job, 0, k);
  }

  /** The receiver takes request `k` for something else, whatever it holds. */
  ghost predicate Misread(job: Job, k: nat)
    requires job.Valid() && k < 0x1_0000
  {
    forall c, f: Frame ::
      f.validCrc && VariantOf(f) == Some(job.variant) && f.payload == RequestPayload(job, k) ==>
      WrongFor(job, k, Capture.Step(c, f, job.serial, true).reply)
  }

  lemma AmbiguousIsMisread(job: Job, k: nat)
    requires job.Valid() && 0 < k <= job.Last() && ParseMetadata(RequestPayload(job, k), job.variant).Some?
    ensures Misread(job, k)
  {
    forall c, f: Frame | f.validCrc && VariantOf(f) == Some(job.variant) && f.payload == RequestPayload(job, k)
      ensures WrongFor(job, k, Capture.Step(c, f, job.serial, true).reply)
    {
      ReadsAsMetadata(c, f, job.variant, job.serial, true);
      MisreadIsWrong(job, k, Capture.Step(c, f, job.serial, true).reply);
    }
  }

  lemma MisreadOutcome(job: Job, w: World, k: nat) returns (f: Frame, o: Outcome)
    requires job.Valid() && OnWire(job.variant) && 0 < k <= job.Last() && Ready(job, w, k) && Misread(job, k)
    ensures IsRequest(job, w.run.u, k, f) && VariantOf(f) == Some(job.variant) && Round(job, w) == Respond(job, w, f, o)
    ensures WrongFor(job, k, o.reply)
  {
    f := RoundIsExchange(job, w, k);
    o := Capture.Step(w.capture, f, job.serial, true);
  }

  /** A chunk that is taken for metadata ends the upload. */
  lemma MisreadRound(job: Job, w: World, k: nat)
    requires job.Valid() && OnWire(job.variant) && 0 < k <= job.Last() && Ready(job, w, k) && Misread(job, k)
    ensures Round(job, w).run.phase == Failed && Round(job, w).saved == None
  {
    var f, o := MisreadOutcome(job, w, k);
    WrongReply(job, w, k, f, o);
  }

  lemma {:induction false} FailsFrom(job: Job, w: World, k: nat, n: nat)
    requires job.Valid() && OnWire(job.variant) && 0 < k <= job.Last() && Ready(job, w, k) && Misread(job, k) && n > 0
    ensures Rounds(job, w, n).run.phase == Failed && Rounds(job, w, n).saved == None
  {
    MisreadRound(job, w, k);
    FailedRound(job, w, n);
  }

  lemma {:induction false} FailedRound(job: Job, w: World, n: nat)
    requires job.Valid() && n > 0 && Round(job, w).run.phase == Failed && Round(job, w).saved == None
    ensures Rounds(job, w, n).run.phase == Failed && Rounds(job, w, n).saved == None
  {
    RoundFirst(job, w, n);
    FailedForGood(job, Round(job, w), n - 1);
  }

  lemma {:induction false} FailedForGood(job: Job, w: World, n: nat)
    requires job.Valid() && w.run.phase == Failed
    ensures Rounds(job, w, n) == w
  {
    if n > 0 { FailedForGood(job, w, n - 1); }
  }

  lemma {:induction false} RoundFirst(job: Job, w: World, n: nat)
    requires job.Valid() && n > 0
    ensures Rounds(job, w, n) == Rounds(job, Round(job, w), n - 1)
  {
    if n > 1 { RoundFirst(job, w, n - 1); }
  }

  lemma FailsAfterOne(job: Job, w: World, k: nat, n: nat)
    requires job.Valid() && OnWire(job.variant) && 0 < k <= job.Last() && Misread(job, k) && n > 0
    requires Ready(job, Round(job, w), k)
    ensures Rounds(job, w, n + 1).run.phase == Failed && Rounds(job, w, n + 1).saved == None
  {
    RoundFirst(job, w, n + 1);
    FailsFrom(job, Round(job, w), k, n);
  }

  lemma AfterMetadata(job: Job, u: Upload, c: State)
    requires job.Valid() && OnWire(job.variant)
    ensures Ready(job, Round(job, Begun(job, u, c)), 1)
  {
    BegunReady(job, u, c);
    OneRound(job, Begun(job, u, c), 0);
  }

  lemma {:induction false} MisreadFails(job: Job, u: Upload, c: State)
    requires job.Valid() && OnWire(job.variant) && Misread(job, 1)
    ensures var w := Rounds(job, Begun(job, u, c), job.Last() + 1);
      w.run.phase == Failed && w.saved == None
  {
    AfterMetadata(job, u, c);
    FailsAfterOne(job, Begun(job, u, c), 1, job.Last());
  }

  lemma TransferFails(job: Job, u: Upload, c: State, tail: seq<byte>, func: byte)
    requires job.Valid() && OnWire(job.variant) && Misread(job, 1)
    ensures Transferred(job, u, c, tail, func).run.phase == Failed && Transferred(job, u, c, tail, func).saved == None
  {
    MisreadFails(job, u, c);
  }

  lemma ParsedUploadFails(job: Job, u: Upload, c: State, tail: seq<byte>, func: byte)
    requires job.Valid() && OnWire(job.variant)
    requires ParseMetadata(ChunkPayload(job.variant, job.image.data, 0), job.variant).Some?
    ensures Transferred(job, u, c, tail, func).run.phase == Failed && Transferred(job, u, c, tail, func).saved == None
  {
    AmbiguousIsMisread(job, 1);
    TransferFails(job, u, c, tail, func);
  }

  /** The transfer succeeds exactly when chunk 0 cannot be read as metadata. */
  lemma TransferIff(job: Job, u: Upload, c: State, tail: seq<byte>, func: byte)
    requires job.Valid() && OnWire(job.variant)
    ensures Transferred(job, u, c, tail, func).run.phase.Succeeded?
      <==> ParseMetadata(ChunkPayload(job.variant, job.image.data, 0), job.variant).None?
  {
    UnambiguousIff(job.image.data, job.variant);
    if ParseMetadata(ChunkPayload(job.variant, job.image.data, 0), job.variant).None? {
      TransferSucceeds(job, u, c, tail, func);
    } else {
      ParsedUploadFails(job, u, c, tail, func);
    }
  }

  /** An image of 520 bytes or more always arrives. */
  lemma LargeTransferSucceeds(job: Job, u: Upload, c: State, tail: seq<byte>, func: byte)
    requires job.Valid() && OnWire(job.variant) && |job.image.data| >= 520
    ensures var w := Transferred(job, u, c, tail, func);
      w.run.phase == Succeeded([18, 38, 58, 77, 97, 100]) && w.saved == Some(job.image.data)
  {
    LargeIsUnambiguous(job.image.data, job.variant);
    TransferSucceeds(job, u, c, tail, func);
  }

  /** There are such images: the rest of any metadata payload, as an image, reads as that metadata. */
  lemma AmbiguousImages(m: Metadata)
    requires Encodable(m)
    ensures var image := EncodeMetadata(m)[7..];
      && 10 <= |image| <= 519 && !Unambiguous(image, m.variant)
      && ParseMetadata(ChunkPayload(m.variant, image, 0), m.variant) == Some(m)
  {
    var image := EncodeMetadata(m)[7..];
    EmptyRefused(m.filename);
    MetadataIsChunk(m, image);
    EncodeThenParse(m);
    UnambiguousIff(image, m.variant);
  }

  lemma MetadataIsChunk(m: Metadata, image: seq<byte>)
    requires Encodable(m) && image == EncodeMetadata(m)[7..] && |image| <= 1024
    ensures EncodeMetadata(m) == ChunkPayload(m.variant, image, 0)
  {
    EncodedFields(m);
    HeadFields(m);
    HeadInPayload(EncodeMetadata(m), Head(m));
    FirstChunkIsAll(image);
    HeaderThenRest(EncodeMetadata(m), m.variant.magic + [0, 0], image);
    ZeroBytes();
  }

  lemma FirstChunkIsAll(image: seq<byte>)
    requires |image| <= 1024
    ensures ChunkOf(image, 0) == image
  {
  }

  lemma ZeroBytes()
    ensures U16Bytes(0) == [0, 0]
  {
  }

  lemma HeaderThenRest(p: seq<byte>, head: seq<byte>, image: seq<byte>)
    requires |head| == 7 && head <= p && image == p[7..]
    ensures p == head + image
  {
  }

  lemma ImageReads(m: Metadata, v: Variant, image: seq<byte>)
    requires Encodable(m) && m.variant == v && image == EncodeMetadata(m)[7..]
    ensures ParseMetadata(ChunkPayload(v, image, 0), v).Some?
  {
    AmbiguousImages(m);
  }

  /** Every upload of such an image fails, and nothing is saved. */
  lemma AmbiguousUploadFails(job: Job, m: Metadata, u: Upload, c: State, tail: seq<byte>, func: byte)
    requires job.Valid() && OnWire(job.variant) && Encodable(m) && m.variant == job.variant
    requires job.image.data == EncodeMetadata(m)[7..]
    ensures Transferred(job, u, c, tail, func).run.phase == Failed && Transferred(job, u, c, tail, func).saved == None
  {
    ImageReads(m, job.variant, job.image.data);
    ParsedUploadFails(job, u, c, tail, func);
  }
}
