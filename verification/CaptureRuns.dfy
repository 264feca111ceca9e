/** Whole runs of the firmware receiver, over frames in any order and any number of times. */
module CaptureRuns {
  import opened Bytes
  import opened Crc
  import opened Frames
  import opened Firmware
  import opened Capture

  // ---- the chunks of an image ----

  /** The number of steps of 1024 from 0 below `size`. */
  function ChunkCount(size: nat): (n: nat)
    ensures n <= size && (n == 0 <==> size == 0)
  {
    if size == 0 then 0 else if size <= 1024 then 1 else 1 + ChunkCount(size - 1024)
  }

  lemma {:induction false} ChunkCountIs(size: nat)
    ensures ChunkCount(size) == (size + 1023) / 1024
    decreases size
  {
    if size > 1024 { ChunkCountIs(size - 1024); }
  }

  /** The end of the first `k` chunks. */
  function Edge(size: nat, k: nat): (n: nat)
    ensures n <= size
  {
    if 1024 * k <= size then 1024 * k else size
  }

  function ChunkOf(image: seq<byte>, k: nat): seq<byte> {
    image[Edge(|image|, k)..][..Edge(|image|, k + 1) - Edge(|image|, k)]
  }

  /** The payload that carries chunk `k`. */
  function ChunkPayload(v: Variant, image: seq<byte>, k: nat): seq<byte>
    requires k < 0x1_0000
  {
    v.magic + U16Bytes(k) + ChunkOf(image, k)
  }

  lemma ChunkLength(image: seq<byte>, k: nat)
    requires k < ChunkCount(|image|)
    ensures 1 <= |ChunkOf(image, k)| <= 1024
    ensures k + 1 < ChunkCount(|image|) ==> |ChunkOf(image, k)| == 1024
  {
    ChunkCountIs(|image|);
  }

  /** One more chunk. */
  lemma NextChunk(image: seq<byte>, k: nat)
    ensures image[..Edge(|image|, k)] + ChunkOf(image, k) == image[..Edge(|image|, k + 1)]
  {
  }

  lemma EdgeIsWhole(size: nat, k: nat)
    ensures Edge(size, k) == size <==> k >= ChunkCount(size)
  {
    ChunkCountIs(size);
  }

  /** Chunk 0 cannot be mistaken for metadata: its payload encodes none. */
  ghost predicate Unambiguous(image: seq<byte>, v: Variant) {
    forall m :: Encodable(m) && m.variant == v ==> EncodeMetadata(m) != ChunkPayload(v, image, 0)
  }

  lemma LargeIsUnambiguous(image: seq<byte>, v: Variant)
    requires v.Valid() && |image| >= 520
    ensures Unambiguous(image, v)
  {
  }

  lemma ChunkFields(v: Variant, image: seq<byte>, k: nat)
    requires v.Valid() && k < 0x1_0000
    ensures var p := ChunkPayload(v, image, k);
      7 <= |p| && p[..5] == v.magic && U16(p[5], p[6]) == k && p[7..] == ChunkOf(image, k)
  {
  }

  /** The receiver takes chunk 0 for metadata exactly when it is ambiguous. */
  lemma UnambiguousIff(image: seq<byte>, v: Variant)
    requires v.Valid()
    ensures Unambiguous(image, v) <==> ParseMetadata(ChunkPayload(v, image, 0), v).None?
  {
    var p := ChunkPayload(v, image, 0);
    if ParseMetadata(p, v).Some? {
      ParseThenEncode(p, v);
    } else {
      forall m | Encodable(m) && m.variant == v
        ensures EncodeMetadata(m) != p
      {
        CodecExact(p, v, m);
      }
    }
  }

  /** No other chunk parses as metadata. */
  lemma ChunkIsNoMetadata(v: Variant, image: seq<byte>, k: nat)
    requires v.Valid() && k < 0x1_0000 && (k == 0 ==> Unambiguous(image, v))
    ensures ParseMetadata(ChunkPayload(v, image, k), v).None?
  {
    if k == 0 {
      UnambiguousIff(image, v);
    } else {
      LaterIsNoMetadata(v, image, k);
    }
  }

  lemma LaterIsNoMetadata(v: Variant, image: seq<byte>, k: nat)
    requires v.Valid() && 0 < k < 0x1_0000
    ensures ParseMetadata(ChunkPayload(v, image, k), v).None?
  {
    ChunkFields(v, image, k);
  }

  // ---- one correct chunk ----

  /** An intact frame that carries chunk `k` of the image. */
  predicate Carries(f: Frame, v: Variant, image: seq<byte>, k: nat) {
    k < 0x1_0000 && f.validCrc && VariantOf(f) == Some(v) && f.payload == ChunkPayload(v, image, k)
  }

  /** The receiver after the first `k` chunks of an image announced by `m`. */
  function Holding(m: Metadata, image: seq<byte>, k: nat): State {
    State(Some(m), Some(m.variant), image[..Edge(|image|, k)], k)
  }

  function CrcMatches(m: Metadata, image: seq<byte>): bool {
    m.variant.CrcField(Crc16(image)) == m.crc
  }

  /** The counter that the receiver is: which chunk it waits for, and what it does with chunk `i`. */
  function Count(m: Metadata, image: seq<byte>, k: nat, i: nat, saved: bool): Outcome
    requires k < 0x1_0000 - 1
  {
    var n := ChunkCount(|image|);
    if i != k then
      Outcome(Holding(m, image, k), Ack(ChunkAck(m.variant, k)))
    else if k + 1 < n then
      Outcome(Holding(m, image, k + 1), Ack(ChunkAck(m.variant, k + 1)))
    else if !CrcMatches(m, image) then
      Outcome(Holding(m, image, k + 1), Withheld(CrcMismatch))
    else if !saved then
      Outcome(Holding(m, image, k + 1), Withheld(SaveFailed))
    else
      Outcome(IDLE, Complete(FinalAck(m.variant), image))
  }

  lemma ChunkReachesOnChunk(c: State, f: Frame, v: Variant, image: seq<byte>, i: nat, serial: seq<byte>, saved: bool)
    requires v.Valid() && Carries(f, v, image, i) && (i == 0 ==> Unambiguous(image, v))
    ensures Step(c, f, serial, saved) == OnChunk(c, f.payload, v, saved)
  {
    ChunkIsNoMetadata(v, image, i);
  }

  lemma Taken(c: State, p: seq<byte>, v: Variant, saved: bool, c': State)
    requires c.metadata.Some? && c.variant == Some(v) && 7 <= |p| && U16(p[5], p[6]) == c.expected
    requires c' == c.(data := c.data + p[7..], expected := c.expected + 1)
    ensures OnChunk(c, p, v, saved) == Judge(c', c.metadata.value.size, c.metadata.value.crc, v, saved)
  {
  }

  /** The chunk that is waited for extends the prefix. */
  lemma {:induction false} ChunkTaken(m: Metadata, image: seq<byte>, k: nat, saved: bool)
    requires m.variant.Valid() && m.size == |image| && 1 <= |image| < 0x1_0000 && k < ChunkCount(|image|)
    ensures OnChunk(Holding(m, image, k), ChunkPayload(m.variant, image, k), m.variant, saved)
      == Judge(Holding(m, image, k + 1), |image|, m.crc, m.variant, saved)
  {
    ChunkFields(m.variant, image, k);
    NextChunk(image, k);
    Taken(Holding(m, image, k), ChunkPayload(m.variant, image, k), m.variant, saved, Holding(m, image, k + 1));
  }

  lemma {:induction false} ChunkJudged(m: Metadata, image: seq<byte>, k: nat, saved: bool)
    requires m.variant.Valid() && m.size == |image| && 1 <= |image| < 0x1_0000 && k < ChunkCount(|image|)
    ensures Judge(Holding(m, image, k + 1), |image|, m.crc, m.variant, saved) == Count(m, image, k, k, saved)
  {
    EdgeIsWhole(|image|, k + 1);
    if k + 1 >= ChunkCount(|image|) {
      assert image[..Edge(|image|, k + 1)] == image;
    }
  }

  lemma ChunkUnwanted(m: Metadata, image: seq<byte>, k: nat, i: nat, saved: bool)
    requires m.variant.Valid() && k < 0x1_0000 - 1 && i < 0x1_0000 && i != k
    ensures OnChunk(Holding(m, image, k), ChunkPayload(m.variant, image, i), m.variant, saved)
      == Count(m, image, k, i, saved)
  {
  }

  /** The receiver refines that counter, and its data is the part of the image counted so far. */
  lemma {:induction false} StepCounts(
      m: Metadata, image: seq<byte>, k: nat, f: Frame, i: nat, serial: seq<byte>, saved: bool)
    requires m.variant.Valid() && m.size == |image| && 1 <= |image| < 0x1_0000
    requires k <= ChunkCount(|image|) && i < ChunkCount(|image|)
    requires Carries(f, m.variant, image, i) && (i == 0 ==> Unambiguous(image, m.variant))
    ensures Step(Holding(m, image, k), f, serial, saved) == Count(m, image, k, i, saved)
  {
    ChunkReachesOnChunk(Holding(m, image, k), f, m.variant, image, i, serial, saved);
    if i == k {
      ChunkTaken(m, image, k, saved);
      ChunkJudged(m, image, k, saved);
    } else {
      ChunkUnwanted(m, image, k, i, saved);
    }
  }

  // ---- any order, any repeats ----

  /** A frame for chunk `index`, and whether a save at that moment would succeed. */
  datatype Delivery = Delivery(frame: Frame, index: nat, saved: bool)

  datatype Progress = Progress(state: State, done: Option<seq<byte>>)

  /** A receiver's steps on deliveries until an image is complete. */
  function DeliverWith(step: (State, Delivery) -> Outcome, c: State, ds: seq<Delivery>): Progress
    decreases |ds|
  {
    if ds == [] then
      Progress(c, None)
    else
      var o := step(c, ds[0]);
      if o.reply.Complete? then
        Progress(o.state, Some(o.reply.image))
      else
        DeliverWith(step, o.state, ds[1..])
  }

  function Stepper(serial: seq<byte>): (State, Delivery) -> Outcome {
    (c: State, d: Delivery) => Step(c, d.frame, serial, d.saved)
  }

  function Deliver(c: State, serial: seq<byte>, ds: seq<Delivery>): Progress {
    DeliverWith(Stepper(serial), c, ds)
  }

  /** The chunk that a counter waits for after the deliveries, or `None` once complete. */
  function Awaited(n: nat, crcOk: bool, k: nat, ds: seq<Delivery>): Option<nat>
    decreases |ds|
  {
    if ds == [] then
      Some(k)
    else if ds[0].index != k then
      Awaited(n, crcOk, k, ds[1..])
    else if k + 1 == n && crcOk && ds[0].saved then
      None
    else
      Awaited(n, crcOk, k + 1, ds[1..])
  }

  /** `o` is what the counter at `k` does with chunk `index`, `hold(k)` being what it stands for. */
  predicate Counts(
      o: Outcome, hold: nat -> State, n: nat, crcOk: bool, image: seq<byte>, k: nat, index: nat, saved: bool)
  {
    if index == k && k + 1 == n && crcOk && saved then
      o.reply.Complete? && o.reply.image == image && o.state == IDLE
    else
      !o.reply.Complete? && o.state == hold(if index == k then k + 1 else k)
  }

  lemma {:induction false} DeliverCounts(
      step: (State, Delivery) -> Outcome, hold: nat -> State, n: nat, crcOk: bool, image: seq<byte>, k: nat,
      ds: seq<Delivery>)
    requires k <= n
    requires forall j: nat, i :: j <= n && 0 <= i < |ds| ==>
      ds[i].index < n && Counts(step(hold(j), ds[i]), hold, n, crcOk, image, j, ds[i].index, ds[i].saved)
    ensures var e := Awaited(n, crcOk, k, ds);
      DeliverWith(step, hold(k), ds)
        == if e.None? then Progress(IDLE, Some(image)) else Progress(hold(e.value), None)
    decreases |ds|
  {
    if ds != [] {
      assert Counts(step(hold(k), ds[0]), hold, n, crcOk, image, k, ds[0].index, ds[0].saved);
      assert forall i :: 0 <= i < |ds[1..]| ==> ds[1..][i] == ds[i + 1];
      if !(ds[0].index == k && k + 1 == n && crcOk && ds[0].saved) {
        DeliverCounts(step, hold, n, crcOk, image, if ds[0].index == k then k + 1 else k, ds[1..]);
      }
    }
  }

  /** Every delivery carries the chunk its index says. */
  ghost predicate AllCorrect(v: Variant, image: seq<byte>, ds: seq<Delivery>) {
    forall i :: 0 <= i < |ds| ==> ds[i].index < ChunkCount(|image|) && Carries(ds[i].frame, v, image, ds[i].index)
  }

  function Holder(m: Metadata, image: seq<byte>): nat -> State {
    (k: nat) => Holding(m, image, k)
  }

  lemma {:induction false} CountCounts(m: Metadata, image: seq<byte>, k: nat, i: nat, saved: bool)
    requires k <= ChunkCount(|image|) < 0x1_0000 - 1 && i < ChunkCount(|image|)
    ensures Counts(Count(m, image, k, i, saved),
      Holder(m, image), ChunkCount(|image|), CrcMatches(m, image), image, k, i, saved)
  {
  }

  lemma {:induction false} ChunkCounts(m: Metadata, image: seq<byte>, k: nat, d: Delivery, serial: seq<byte>)
    requires m.variant.Valid() && m.size == |image| && 1 <= |image| < 0x1_0000
    requires Unambiguous(image, m.variant) && k <= ChunkCount(|image|)
    requires d.index < ChunkCount(|image|) && Carries(d.frame, m.variant, image, d.index)
    ensures Counts(Stepper(serial)(Holder(m, image)(k), d),
      Holder(m, image), ChunkCount(|image|), CrcMatches(m, image), image, k, d.index, d.saved)
  {
    StepCounts(m, image, k, d.frame, d.index, serial, d.saved);
    assert Stepper(serial)(Holder(m, image)(k), d) == Count(m, image, k, d.index, d.saved);
    CountCounts(m, image, k, d.index, d.saved);
  }

  /**
   Under any order and any repetition of correct chunks the data stays a prefix of the image,
   and what completes is the image.
   */
  lemma {:induction false} DataIsPrefix(m: Metadata, image: seq<byte>, k: nat, serial: seq<byte>, ds: seq<Delivery>)
    requires m.variant.Valid() && m.size == |image| && 1 <= |image| < 0x1_0000 && k <= ChunkCount(|image|)
    requires Unambiguous(image, m.variant) && AllCorrect(m.variant, image, ds)
    ensures var e := Awaited(ChunkCount(|image|), CrcMatches(m, image), k, ds);
      Deliver(Holding(m, image, k), serial, ds)
        == if e.None? then Progress(IDLE, Some(image)) else Progress(Holding(m, image, e.value), None)
  {
    var step, hold := Stepper(serial), Holder(m, image);
    var n, crcOk := ChunkCount(|image|), CrcMatches(m, image);
    forall j: nat, i | j <= n && 0 <= i < |ds|
      ensures ds[i].index < n && Counts(step(hold(j), ds[i]), hold, n, crcOk, image, j, ds[i].index, ds[i].saved)
    {
      ChunkCounts(m, image, j, ds[i], serial);
    }
    DeliverCounts(step, hold, n, crcOk, image, k, ds);
  }

  /** A counter that has gone past the last chunk stays there. */
  lemma {:induction false} PastTheEnd(n: nat, crcOk: bool, ds: seq<Delivery>)
    requires forall i :: 0 <= i < |ds| ==> ds[i].index < n
    ensures Awaited(n, crcOk, n, ds) == Some(n)
    decreases |ds|
  {
    if ds != [] { PastTheEnd(n, crcOk, ds[1..]); }
  }

  /**
   Once the last chunk was taken without completing (its CRC was wrong, or the save failed),
   no further chunk of the image completes it: the receiver goes on asking for one chunk more
   than there are.
   */
  lemma {:induction false} NoSecondChance(m: Metadata, image: seq<byte>, serial: seq<byte>, ds: seq<Delivery>)
    requires m.variant.Valid() && m.size == |image| && 1 <= |image| < 0x1_0000
    requires Unambiguous(image, m.variant) && AllCorrect(m.variant, image, ds)
    ensures Deliver(Holding(m, image, ChunkCount(|image|)), serial, ds)
      == Progress(Holding(m, image, ChunkCount(|image|)), None)
  {
    PastTheEnd(ChunkCount(|image|), CrcMatches(m, image), ds);
    DataIsPrefix(m, image, ChunkCount(|image|), serial, ds);
  }

  // ---- any frames at all ----

  datatype Arrival = Arrival(frame: Frame, saved: bool)

  function After(serial: seq<byte>, trace: seq<Arrival>): State {
    if trace == [] then
      IDLE
    else
      Step(After(serial, trace[..|trace| - 1]), trace[|trace| - 1].frame, serial, trace[|trace| - 1].saved).state
  }

  /** An intact metadata frame for this session's serial. */
  predicate Announces(f: Frame, serial: seq<byte>, m: Metadata) {
    && f.validCrc && VariantOf(f) == Some(m.variant) && m.variant.Valid()
    && ParseMetadata(f.payload, m.variant) == Some(m)
    && serial != [] && m.serial == serial
  }

  /** An intact frame of variant `v` whose chunk number is `k`. */
  predicate Numbered(f: Frame, v: Variant, k: nat) {
    f.validCrc && VariantOf(f) == Some(v) && 7 <= |f.payload| && U16(f.payload[5], f.payload[6]) == k
  }

  /** `data` is what some of these frames, in their order and numbered 0, 1, ..., k - 1, carry. */
  ghost predicate Collects(trace: seq<Arrival>, v: Variant, k: nat, data: seq<byte>)
    decreases |trace|
  {
    if trace == [] then
      k == 0 && data == []
    else
      var init, f := trace[..|trace| - 1], trace[|trace| - 1].frame;
      || Collects(init, v, k, data)
      || (k > 0 && Numbered(f, v, k - 1) && |f.payload| - 7 <= |data|
          && data[|data| - (|f.payload| - 7)..] == f.payload[7..]
          && Collects(init, v, k - 1, data[..|data| - (|f.payload| - 7)]))
  }

  /** The state is what frame `j` announced and the frames after it carried. */
  ghost predicate Explained(c: State, serial: seq<byte>, trace: seq<Arrival>, j: nat) {
    && c.metadata.Some? && c.variant == Some(c.metadata.value.variant) && j < |trace|
    && Announces(trace[j].frame, serial, c.metadata.value)
    && Collects(trace[j + 1..], c.metadata.value.variant, c.expected, c.data)
  }

  ghost predicate Reachable(c: State, serial: seq<byte>, trace: seq<Arrival>) {
    c == IDLE || exists j :: 0 <= j < |trace| && Explained(c, serial, trace, j)
  }

  lemma CollectsMore(trace: seq<Arrival>, v: Variant, k: nat, data: seq<byte>, a: Arrival)
    requires Collects(trace, v, k, data)
    ensures Collects(trace + [a], v, k, data)
    ensures Numbered(a.frame, v, k) ==> Collects(trace + [a], v, k + 1, data + a.frame.payload[7..])
  {
  }

  /** The two ways a frame builds something up: it announces an image, or it adds a chunk. */
  predicate Began(c': State, f: Frame, serial: seq<byte>) {
    && c'.metadata.Some? && c' == State(c'.metadata, Some(c'.metadata.value.variant), [], 0)
    && Announces(f, serial, c'.metadata.value)
  }

  predicate Added(c: State, c': State, f: Frame) {
    && c.variant.Some? && Numbered(f, c.variant.value, c.expected)
    && c' == c.(data := c.data + f.payload[7..], expected := c.expected + 1)
  }

  lemma OnChunkKinds(c: State, f: Frame, v: Variant, saved: bool)
    requires f.validCrc && VariantOf(f) == Some(v)
    ensures var o := OnChunk(c, f.payload, v, saved);
      || (o.state == c && !o.reply.Complete?)
      || (o.state == IDLE && o.reply.Complete? && saved)
      || (Added(c, o.state, f) && !o.reply.Complete?)
  {
  }

  lemma Accepted(c: State, f: Frame, m: Metadata, serial: seq<byte>, saved: bool)
    requires Announces(f, serial, m)
    ensures Step(c, f, serial, saved) == Outcome(State(Some(m), Some(m.variant), [], 0), Ack(ChunkAck(m.variant, 0)))
    ensures Began(State(Some(m), Some(m.variant), [], 0), f, serial)
  {
  }

  /** What reads as metadata is withheld or answered like metadata, whatever was meant. */
  lemma ReadsAsMetadata(c: State, f: Frame, v: Variant, serial: seq<byte>, saved: bool)
    requires f.validCrc && VariantOf(f) == Some(v) && ParseMetadata(f.payload, v).Some?
    ensures var reply := Step(c, f, serial, saved).reply;
      reply == Withheld(SerialMismatch) || reply == Ack(ChunkAck(v, 0))
  {
    ParsedVariant(f.payload, v);
    var m := ParseMetadata(f.payload, v).value;
    if serial != [] && m.serial == serial {
      Accepted(c, f, m, serial, saved);
    }
  }

  lemma MetadataKinds(c: State, f: Frame, v: Variant, serial: seq<byte>, saved: bool)
    requires f.validCrc && VariantOf(f) == Some(v) && ParseMetadata(f.payload, v).Some?
    ensures var o := Step(c, f, serial, saved);
      !o.reply.Complete? && (o.state == c || Began(o.state, f, serial))
  {
    ParsedVariant(f.payload, v);
    var m := ParseMetadata(f.payload, v).value;
    if serial != [] && m.serial == serial {
      Accepted(c, f, m, serial, saved);
    }
  }

  /** What one frame can do to the state. */
  lemma StepKinds(c: State, a: Arrival, serial: seq<byte>)
    ensures var o := Step(c, a.frame, serial, a.saved);
      || (o.state == c && !o.reply.Complete?)
      || (o.state == IDLE && o.reply.Complete? && a.saved)
      || (Began(o.state, a.frame, serial) && !o.reply.Complete?)
      || (Added(c, o.state, a.frame) && !o.reply.Complete?)
  {
    var v := VariantOf(a.frame);
    if v.Some? && a.frame.validCrc {
      if ParseMetadata(a.frame.payload, v.value).Some? {
        MetadataKinds(c, a.frame, v.value, serial, a.saved);
      } else {
        OnChunkKinds(c, a.frame, v.value, a.saved);
      }
    }
  }

  /** The receiver claims exactly the firmware frames, in whatever state; any other frame changes nothing. */
  lemma OwnsExactlyFirmware(c: State, f: Frame, serial: seq<byte>, saved: bool)
    ensures Step(c, f, serial, saved).reply == Pass <==> VariantOf(f).None?
    ensures VariantOf(f).None? ==> Step(c, f, serial, saved).state == c
  {
  }

  // ---- when the receiver speaks ----

  /** An intact firmware frame that reads as metadata, and for which serial. */
  predicate ReadsAs(f: Frame, v: Variant, target: seq<byte>) {
    && f.validCrc && VariantOf(f) == Some(v)
    && ParseMetadata(f.payload, v).Some? && ParseMetadata(f.payload, v).value.serial == target
  }

  /** An intact firmware frame that does not. */
  predicate ReadsAsChunk(f: Frame, v: Variant) {
    f.validCrc && VariantOf(f) == Some(v) && ParseMetadata(f.payload, v).None?
  }

  /** A chunk of the transfer that the receiver holds, with a number and `size` bytes of data. */
  predicate ChunkOfTransfer(c: State, f: Frame, v: Variant, number: nat, size: nat) {
    && ReadsAsChunk(f, v) && c.metadata.Some? && c.variant == Some(v)
    && |f.payload| == 7 + size && 256 * f.payload[5] as nat + f.payload[6] as nat == number
  }

  /** The reply asks for chunk `k`. */
  predicate Asks(reply: Reply, v: Variant, k: nat) {
    reply.Ack? && AsksForChunk(reply.payload, v, k)
  }

  /**
   Metadata is answered, with a request for chunk 0, exactly if it is for the serial of this session;
   metadata for another serial, or while the serial is unknown, is kept without a word and changes nothing.
   */
  lemma MetadataAnswer(c: State, f: Frame, v: Variant, target: seq<byte>, serial: seq<byte>, saved: bool)
    requires ReadsAs(f, v, target)
    ensures var o := Step(c, f, serial, saved);
      if target == serial && serial != [] then
        Asks(o.reply, v, 0) && o.state == State(ParseMetadata(f.payload, v), Some(v), [], 0)
      else
        o == Capture.Outcome(c, Withheld(SerialMismatch))
  {
    ParsedVariant(f.payload, v);
    if target == serial && serial != [] {
      MetadataAccepted(c, f, v, serial, saved);
    } else {
      MetadataRefused(c, f, v, target, serial, saved);
    }
  }

  lemma MetadataRefused(c: State, f: Frame, v: Variant, target: seq<byte>, serial: seq<byte>, saved: bool)
    requires ReadsAs(f, v, target) && !(target == serial && serial != [])
    ensures Step(c, f, serial, saved) == Capture.Outcome(c, Withheld(SerialMismatch))
  {
  }

  lemma MetadataAccepted(c: State, f: Frame, v: Variant, serial: seq<byte>, saved: bool)
    requires ReadsAs(f, v, serial) && serial != []
    ensures Step(c, f, serial, saved).state == State(ParseMetadata(f.payload, v), Some(v), [], 0)
    ensures Asks(Step(c, f, serial, saved).reply, v, 0)
  {
    ParsedVariant(f.payload, v);
    Accepted(c, f, ParseMetadata(f.payload, v).value, serial, saved);
    AckAsks(v, 0, Step(c, f, serial, saved).reply);
  }

  lemma AckAsks(v: Variant, k: nat, reply: Reply)
    requires v.Valid() && k < 0x1_0000 && reply == Ack(ChunkAck(v, k))
    ensures Asks(reply, v, k)
  {
    AckNumber(v, k);
  }

  /** A damaged frame, a chunk that nothing announced and a chunk of another variant are kept without a word. */
  lemma SilentOnStrays(c: State, f: Frame, v: Variant, serial: seq<byte>, saved: bool)
    requires VariantOf(f) == Some(v) && (f.validCrc ==> ReadsAsChunk(f, v))
    ensures var reason := if !f.validCrc then InvalidCrc
        else if c.metadata.None? || c.variant.None? || |f.payload| < 7 then NoMetadata else ProtocolChanged;
      !f.validCrc || c.metadata.None? || |f.payload| < 7 || c.variant != Some(v) ==>
      Step(c, f, serial, saved) == Capture.Outcome(c, Withheld(reason))
  {
  }

  /** A chunk with another number than the awaited one is answered with a request for that one, and not taken. */
  lemma UnwantedChunk(c: State, f: Frame, v: Variant, number: nat, size: nat, serial: seq<byte>, saved: bool)
    requires ChunkOfTransfer(c, f, v, number, size) && number != c.expected && c.expected < 0x1_0000
    ensures Step(c, f, serial, saved).state == c && Asks(Step(c, f, serial, saved).reply, v, c.expected)
  {
    AckNumber(v, c.expected);
  }

  /** The CRC field of complete data, in the order of the variant. */
  predicate FieldIs(crc: seq<byte>, data: seq<byte>, v: Variant) {
    crc == if v.crcBigEndian then [Crc16(data)[1], Crc16(data)[0]] else Crc16(data)
  }

  /** What becomes of the data once the awaited chunk was added. */
  predicate Judged(o: Outcome, taken: State, m: Metadata, v: Variant, saved: bool) {
    if |taken.data| < m.size then
      o.state == taken && Asks(o.reply, v, taken.expected)
    else if |taken.data| == m.size && FieldIs(m.crc, taken.data, v) && saved then
      o == Capture.Outcome(State(None, None, [], 0), Complete(v.magic + v.finalSuffix, taken.data))
    else
      o == Capture.Outcome(taken, Withheld(
        if |taken.data| > m.size then TooLarge else if !FieldIs(m.crc, taken.data, v) then CrcMismatch else SaveFailed))
  }

  /**
   The awaited chunk is taken. The next one is asked for while data is missing; too much data, a wrong
   CRC and a failed save bring no answer; otherwise the image is complete.
   */
  lemma AwaitedChunk(c: State, f: Frame, v: Variant, size: nat, serial: seq<byte>, saved: bool)
    requires ChunkOfTransfer(c, f, v, c.expected, size)
    requires c.expected == 0xFFFF ==> |c.data| + size >= c.metadata.value.size
    ensures Judged(Step(c, f, serial, saved),
        c.(data := c.data + f.payload[7..], expected := c.expected + 1), c.metadata.value, v, saved)
  {
    var taken := c.(data := c.data + f.payload[7..], expected := c.expected + 1);
    if taken.expected < 0x1_0000 { AckNumber(v, taken.expected); }
    Taken(c, f.payload, v, saved, taken);
  }

  /** A chunk of the transfer that brings an answer. */
  predicate BringsAnswer(c: State, f: Frame, v: Variant, number: nat, size: nat, saved: bool) {
    && ChunkOfTransfer(c, f, v, number, size)
    && var total := |c.data| + size;
       if number != c.expected then
         c.expected < 0x1_0000
       else if total < c.metadata.value.size then
         c.expected < 0xFFFF
       else
         total == c.metadata.value.size && FieldIs(c.metadata.value.crc, c.data + f.payload[7..], v) && saved
  }

  /** In every state a firmware frame is answered exactly if it is metadata for this session or such a chunk. */
  lemma AnsweredIff(c: State, f: Frame, v: Variant, serial: seq<byte>, saved: bool)
    requires VariantOf(f) == Some(v)
    ensures var reply, p := Step(c, f, serial, saved).reply, f.payload;
      reply.Ack? || reply.Complete? <==>
        || (ReadsAs(f, v, serial) && serial != [])
        || (|p| >= 7 && BringsAnswer(c, f, v, 256 * p[5] as nat + p[6] as nat, |p| - 7, saved))
  {
    if f.validCrc && ParseMetadata(f.payload, v).Some? {
      MetadataAnswer(c, f, v, ParseMetadata(f.payload, v).value.serial, serial, saved);
    } else if !f.validCrc || c.metadata.None? || |f.payload| < 7 || c.variant != Some(v) {
      SilentOnStrays(c, f, v, serial, saved);
    } else {
      ChunkAnswered(c, f, v, 256 * f.payload[5] as nat + f.payload[6] as nat, |f.payload| - 7, serial, saved);
    }
  }

  lemma ChunkAnswered(c: State, f: Frame, v: Variant, number: nat, size: nat, serial: seq<byte>, saved: bool)
    requires ChunkOfTransfer(c, f, v, number, size)
    ensures var reply := Step(c, f, serial, saved).reply;
      reply.Ack? || reply.Complete? <==> BringsAnswer(c, f, v, number, size, saved)
  {
    if number != c.expected {
      if c.expected < 0x1_0000 { UnwantedChunk(c, f, v, number, size, serial, saved); }
    } else if c.expected == 0xFFFF ==> |c.data| + size >= c.metadata.value.size {
      AwaitedChunk(c, f, v, size, serial, saved);
    }
  }

  lemma ExplainedStep(c: State, c': State, serial: seq<byte>, trace: seq<Arrival>, a: Arrival, j: nat)
    requires Explained(c, serial, trace, j)
    requires c' == c || Added(c, c', a.frame)
    ensures Explained(c', serial, trace + [a], j)
  {
    CollectsMore(trace[j + 1..], c.variant.value, c.expected, c.data, a);
    assert (trace + [a])[j + 1..] == trace[j + 1..] + [a];
  }

  lemma Announced(c: State, serial: seq<byte>, trace: seq<Arrival>, a: Arrival)
    requires Began(c, a.frame, serial)
    ensures Explained(c, serial, trace + [a], |trace|)
  {
  }

  /** After any frames at all, the receiver holds exactly what one announcement and numbered chunks gave it. */
  lemma {:induction false} AlwaysExplained(serial: seq<byte>, trace: seq<Arrival>)
    ensures Reachable(After(serial, trace), serial, trace)
    decreases |trace|
  {
    if trace != [] {
      var init, a := trace[..|trace| - 1], trace[|trace| - 1];
      var c, c' := After(serial, init), After(serial, trace);
      AlwaysExplained(serial, init);
      StepKinds(c, a, serial);
      assert trace == init + [a];
      if c' == IDLE {
      } else if Began(c', a.frame, serial) {
        Announced(c', serial, init, a);
      } else {
        var j :| 0 <= j < |init| && Explained(c, serial, init, j);
        ExplainedStep(c, c', serial, init, a, j);
      }
    }
  }

  /** What completing says of the state before and of the frame. */
  ghost predicate CompletedBy(c: State, f: Frame, saved: bool, image: seq<byte>) {
    && saved && c.metadata.Some? && c.variant.Some? && Numbered(f, c.variant.value, c.expected)
    && image == c.data + f.payload[7..] && |image| == c.metadata.value.size
    && c.variant.value.CrcField(Crc16(image)) == c.metadata.value.crc
  }

  lemma StepCompletes(c: State, a: Arrival, serial: seq<byte>)
    requires Step(c, a.frame, serial, a.saved).reply.Complete?
    ensures CompletedBy(c, a.frame, a.saved, Step(c, a.frame, serial, a.saved).reply.image)
  {
  }

  /**
   A completed image was announced with its size and CRC for this serial, consists of the
   numbered chunks received since, and was saved.
   */
  lemma CompletionIsSound(serial: seq<byte>, trace: seq<Arrival>, a: Arrival, image: seq<byte>) returns (j: nat)
    requires Step(After(serial, trace), a.frame, serial, a.saved).reply.Complete?
    requires Step(After(serial, trace), a.frame, serial, a.saved).reply.image == image
    ensures a.saved && j < |trace| && After(serial, trace).metadata.Some?
    ensures var m := After(serial, trace).metadata.value;
      && Announces(trace[j].frame, serial, m)
      && |image| == m.size && CrcMatches(m, image)
      && Collects(trace[j + 1..] + [a], m.variant, After(serial, trace).expected + 1, image)
  {
    var c := After(serial, trace);
    StepCompletes(c, a, serial);
    AlwaysExplained(serial, trace);
    j := CompletedExplained(c, serial, trace, a, image);
  }

  lemma CompletedExplained(c: State, serial: seq<byte>, trace: seq<Arrival>, a: Arrival, image: seq<byte>)
      returns (j: nat)
    requires Reachable(c, serial, trace) && CompletedBy(c, a.frame, a.saved, image)
    ensures j < |trace| && Announces(trace[j].frame, serial, c.metadata.value)
    ensures c.variant == Some(c.metadata.value.variant)
    ensures Collects(trace[j + 1..] + [a], c.variant.value, c.expected + 1, image)
  {
    j :| 0 <= j < |trace| && Explained(c, serial, trace, j);
    CollectsMore(trace[j + 1..], c.variant.value, c.expected, c.data, a);
  }

  /** The data outgrew the announced size. */
  predicate Overrun(c: State) {
    c.metadata.Some? && c.variant.Some? && |c.data| > c.metadata.value.size
  }

  lemma OverrunStays(c: State, a: Arrival, serial: seq<byte>)
    requires Overrun(c) && forall m :: !Announces(a.frame, serial, m)
    ensures var o := Step(c, a.frame, serial, a.saved);
      !o.reply.Complete? && Overrun(o.state)
  {
    StepKinds(c, a, serial);
  }

  /** From an overrun, nothing completes until metadata for this serial is accepted. */
  lemma {:induction false} OverrunIsFinal(c: State, serial: seq<byte>, ds: seq<Delivery>)
    requires Overrun(c)
    requires forall j, m :: 0 <= j < |ds| ==> !Announces(ds[j].frame, serial, m)
    ensures Deliver(c, serial, ds).done == None && Overrun(Deliver(c, serial, ds).state)
    decreases |ds|
  {
    if ds != [] {
      OverrunStays(c, Arrival(ds[0].frame, ds[0].saved), serial);
      OverrunIsFinal(Step(c, ds[0].frame, serial, ds[0].saved).state, serial, ds[1..]);
    }
  }
}
