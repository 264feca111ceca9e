/**
 `FirmwareUploader`: the sender that pushes an image to the inverter, one request at a time.
 `State` is its fields as a value; the class updates them in place. The requests of an
 upload and the acknowledgement each one expects are functions of the image.
 */
module Uploader {
  import opened Bytes
  import opened Frames
  import opened FrameStream
  import opened Firmware
  import opened Capture
  import opened CaptureRuns

  /** The acknowledgement future of the current request. */
  datatype Reception = Absent | Awaiting | Received(payload: seq<byte>)

  datatype Upload = Upload(
    active: bool, counter: nat, tail: Option<seq<byte>>, ack: Reception, queue: seq<byte>, variant: Option<Variant>)

  const TAILS: nat := 0x100_0000

  function Tail(counter: nat): (t: seq<byte>)
    ensures |t| == 3
  {
    [(counter / 0x1_0000 % 256) as byte, (counter / 256 % 256) as byte, (counter % 256) as byte]
  }

  // ---- frames from the inverter ----

  /** A progress report: its payload is one longer than the final and one shorter than a chunk acknowledgement. */
  predicate IsProgress(f: Frame) {
    f.start == START_7F && |f.payload| == 7 && f.payload[5] == 0
  }

  /** The envelope of an acknowledgement; its CRC is not looked at. */
  predicate InEnvelope(f: Frame, v: Variant) {
    (f.start == v.start || f.start == START_7F) && f.func == v.func
  }

  function TailOf(f: Frame): seq<byte> {
    if f.device == [] then [] else f.device[1..]
  }

  /** `handle_client_frame`: the new state, and whether the frame is the uploader's. */
  function OnClientFrame(u: Upload, f: Frame): (Upload, bool) {
    if !u.active || u.variant.None? || !StartsWith(f.payload, u.variant.value.magic) then
      (u, false)
    else if IsProgress(f) then
      (u.(queue := u.queue + [f.payload[6]]), true)
    else if InEnvelope(f, u.variant.value) && u.tail == Some(TailOf(f)) then
      (if u.ack.Awaiting? then u.(ack := Received(f.payload)) else u, true)
    else
      (u, false)
  }

  /** A report of progress under transfer id `magic`, by its bytes. */
  predicate ReportsProgress(f: Frame, magic: seq<byte>) {
    magic <= f.payload && f.start == START_7F && |f.payload| == 7 && f.payload[5] == 0
  }

  /** An answer to the request with this tail, by its bytes. */
  predicate AnswersTail(f: Frame, v: Variant, tail: Option<seq<byte>>)
    requires |f.device| == 4
  {
    && v.magic <= f.payload && (f.start == v.start || f.start == START_7F) && f.func == v.func
    && tail == Some(f.device[1..])
  }

  /**
   A frame is taken, and kept from the cloud, exactly if an upload is active and the frame reports
   progress or answers the current request.
   */
  lemma OwnedIff(u: Upload, f: Frame)
    requires |f.device| == 4
    ensures OnClientFrame(u, f).1 <==>
      && u.active && u.variant.Some?
      && (ReportsProgress(f, u.variant.value.magic) || AnswersTail(f, u.variant.value, u.tail))
  {
  }

  /** What a frame changes: a report is queued, and only the first answer is kept. */
  lemma FrameEffect(u: Upload, f: Frame)
    requires |f.device| == 4
    ensures OnClientFrame(u, f).0 ==
      if u.active && u.variant.Some? && ReportsProgress(f, u.variant.value.magic) then
        u.(queue := u.queue + [f.payload[6]])
      else if u.active && u.variant.Some? && AnswersTail(f, u.variant.value, u.tail) && u.ack == Awaiting then
        u.(ack := Received(f.payload))
      else
        u
  {
  }

  // ---- the upload ----

  /** The first half of `_send_and_expect`: a new tail, a new future. */
  function Prepare(u: Upload): Upload {
    var counter := (u.counter + 1) % TAILS;
    u.(counter := counter, tail := Some(Tail(counter)), ack := Awaiting)
  }

  /** The start of `upload`: stale progress is dropped. */
  function Begin(u: Upload, v: Variant): Upload {
    u.(active := true, queue := [], variant := Some(v))
  }

  /** Its `finally`. */
  function End(u: Upload): Upload {
    u.(active := false, tail := None, ack := Absent, variant := None)
  }

  datatype Admission = Refused | Unsupported | Started

  const PROTOCOL_7E_A2: string := "foxess-7e-func-a2"
  const PROTOCOL_7F_A2: string := "foxess-7f-func-a2"
  const PROTOCOL_DYNAMIC: string := "foxess-7f-dynamic"
  const PROTOCOL_OLD: string := "foxess-7f-func-99"

  /** The variant of a protocol; the dynamic one, also under its old name, takes the given function and id. */
  function Choose(protocol: string, func: byte, id: seq<byte>): Option<Variant> {
    if protocol == PROTOCOL_7E_A2 then
      Some(VARIANT_7E_A2)
    else if protocol == PROTOCOL_7F_A2 then
      Some(VARIANT_7F_A2)
    else if protocol == PROTOCOL_DYNAMIC || protocol == PROTOCOL_OLD then
      Some(Dynamic(func, id + SIGNATURE))
    else
      None
  }

  /** The frames that an upload under a protocol consists of: their family, their function and their transfer id. */
  lemma ChosenEnvelope(protocol: string, func: byte, id: seq<byte>)
    requires |id| == 2
    ensures Choose(protocol, func, id).None? <==>
      protocol !in {"foxess-7e-func-a2", "foxess-7f-func-a2", "foxess-7f-dynamic", "foxess-7f-func-99"}
    ensures Choose(protocol, func, id).Some? ==>
      var v := Choose(protocol, func, id).value;
      if protocol == "foxess-7e-func-a2" then
        v.start == [0x7E, 0x7E] && v.end == [0xE7, 0xE7] && v.func == 0xA2 && v.magic == [0xFA, 0x6B, 0x7C, 0x7A, 0x4D]
      else if protocol == "foxess-7f-func-a2" then
        v.start == [0x7F, 0x7F] && v.end == [0xF7, 0xF7] && v.func == 0xA2 && v.magic == [0xFA, 0x6B, 0x7C, 0x7A, 0x4D]
      else
        v.start == [0x7F, 0x7F] && v.end == [0xF7, 0xF7] && v.func == func && v.magic == id + [0x7C, 0x7A, 0x4D]
  {
  }

  class FirmwareUploader {
    var active: bool
    var counter: nat
    var expectedTail: Option<seq<byte>>
    var ackFuture: Reception
    var progressQueue: seq<byte>
    var variant: Option<Variant>

    function View(): Upload
      reads this
    {
      Upload(active, counter, expectedTail, ackFuture, progressQueue, variant)
    }

    constructor (clock: nat)
      ensures View() == Upload(false, clock % TAILS, None, Absent, [], None)
    {
      active, counter, expectedTail, ackFuture, progressQueue, variant := false, clock % TAILS, None, Absent, [], None;
    }

    method HandleClientFrame(f: Frame) returns (handled: bool)
      modifies this
      ensures (View(), handled) == OnClientFrame(old(View()), f)
    {
      if !active || variant.None? || !StartsWith(f.payload, variant.value.magic) {
        return false;
      }
      if f.start == START_7F && |f.payload| == 7 && f.payload[5] == 0 {
        progressQueue := progressQueue + [f.payload[6]];
        return true;
      }
      if (f.start == variant.value.start || f.start == START_7F) && f.func == variant.value.func {
        if expectedTail != Some(TailOf(f)) {
          return false;
        }
        if ackFuture.Awaiting? {
          ackFuture := Received(f.payload);
        }
        return true;
      }
      return false;
    }

    /**
     Refused while an upload is active. Otherwise the queue is drained entry by entry, and an
     unknown protocol ends the upload before it began.
     */
    method StartUpload(protocol: string, func: byte, id: seq<byte>) returns (start: Admission)
      requires |id| == 2
      modifies this
      ensures start
        == if old(active) then Refused else if Choose(protocol, func, id).None? then Unsupported else Started
      ensures match start
        case Refused => View() == old(View())
        case Unsupported => View() == End(old(View()).(queue := []))
        case Started => View() == Begin(old(View()), Choose(protocol, func, id).value)
    {
      if active {
        return Refused;
      }
      active := true;
      while progressQueue != []
        invariant View() == old(View()).(active := true, queue := progressQueue)
        decreases |progressQueue|
      {
        progressQueue := progressQueue[1..];
      }
      var chosen := Choose(protocol, func, id);
      if chosen.None? {
        Finish();
        return Unsupported;
      }
      variant := chosen;
      return Started;
    }

    method Send(first: byte, payload: seq<byte>) returns (request: Message)
      requires variant.Some?
      modifies this
      ensures View() == Prepare(old(View()))
      ensures request == Message(old(variant).value.start, [first] + Tail(counter), old(variant).value.func, payload)
    {
      counter := (counter + 1) % TAILS;
      expectedTail := Some(Tail(counter));
      ackFuture := Awaiting;
      request := Message(variant.value.start, [first] + Tail(counter), variant.value.func, payload);
    }

    method Finish()
      modifies this
      ensures View() == End(old(View()))
    {
      active, expectedTail, ackFuture, variant := false, None, Absent, None;
    }
  }

  // ---- requests ----

  datatype Job = Job(image: Image, serial: seq<byte>, variant: Variant)
  {
    predicate Valid() {
      image.Valid() && variant.Valid() && serial != [] && |serial| <= 255 && Ascii(serial)
    }

    /** The number of the last request: one for the metadata and one for each chunk. */
    function Last(): nat {
      ChunkCount(|image.data|)
    }
  }

  function RequestMark(k: nat): byte {
    if k == 0 then 0x21 else 0x22
  }

  /** Request 0 carries the metadata, request `k` chunk `k - 1`. */
  function RequestPayload(job: Job, k: nat): seq<byte>
    requires job.Valid() && k < 0x1_0000
  {
    if k == 0 then
      BuildMetadata(job.image, job.serial, job.variant).value
    else
      ChunkPayload(job.variant, job.image.data, k - 1)
  }

  function Expected(job: Job, k: nat): seq<byte>
    requires k < 0x1_0000
  {
    if k == job.Last() then FinalAck(job.variant) else ChunkAck(job.variant, k)
  }

  /** The bodies of the chunks, in order. */
  function Bodies(image: seq<byte>, k: nat): seq<byte> {
    if k == 0 then [] else Bodies(image, k - 1) + ChunkOf(image, k - 1)
  }

  lemma {:induction false} BodiesArePrefix(image: seq<byte>, k: nat)
    ensures Bodies(image, k) == image[..Edge(|image|, k)]
  {
    if k > 0 {
      BodiesArePrefix(image, k - 1);
      NextChunk(image, k - 1);
    }
  }

  /** The chunks of all requests together are the image. */
  lemma ChunksConcatenate(image: seq<byte>)
    ensures Bodies(image, ChunkCount(|image|)) == image
  {
    BodiesArePrefix(image, ChunkCount(|image|));
    EdgeIsWhole(|image|, ChunkCount(|image|));
  }

  // ---- classification ----

  /** No expected acknowledgement is ever classified as progress. */
  lemma AckIsNoProgress(job: Job, k: nat, f: Frame)
    requires job.Valid() && k < 0x1_0000 && f.payload == Expected(job, k)
    ensures !IsProgress(f)
  {
  }

  /** A tail is the counter, high byte first. */
  lemma TailIsCounter(c: nat)
    requires c < TAILS
    ensures 0x1_0000 * Tail(c)[0] as nat + 256 * Tail(c)[1] as nat + Tail(c)[2] as nat == c
  {
    var high, middle := c / 0x1_0000, c / 256;
    assert high < 256 && middle / 256 == high;
  }

  lemma TailsDiffer(c: nat, d: nat)
    requires c < TAILS && d < TAILS && Tail(c) == Tail(d)
    ensures c == d
  {
  }

  /** The counter of request `k` of an upload that began at `base`. */
  function CounterOf(base: nat, k: nat): nat {
    (base + k + 1) % TAILS
  }

  /** Tails recur after 2^24 requests, and not before. */
  lemma TailsRecur(base: nat, i: nat, k: nat)
    ensures Tail(CounterOf(base, i)) == Tail(CounterOf(base, k)) <==> i % TAILS == k % TAILS
  {
    if Tail(CounterOf(base, i)) == Tail(CounterOf(base, k)) { TailsDiffer(CounterOf(base, i), CounterOf(base, k)); }
    SameCounter(base + 1, i, k);
  }

  lemma SameCounter(b: nat, i: nat, k: nat)
    ensures (b + i) % TAILS == (b + k) % TAILS <==> i % TAILS == k % TAILS
  {
  }

  /** A late answer to an earlier request leaves the current one waiting, and is not taken. */
  lemma StaleAckIgnored(u: Upload, f: Frame, base: nat, i: nat, k: nat)
    requires i < k < i + TAILS && u.tail == Some(Tail(CounterOf(base, k)))
    requires TailOf(f) == Tail(CounterOf(base, i))
    ensures OnClientFrame(u, f).0.ack == u.ack && OnClientFrame(u, f).0.tail == u.tail
    ensures !IsProgress(f) ==> OnClientFrame(u, f) == (u, false)
  {
    TailsRecur(base, i, k);
    Distinct(i, k);
  }

  lemma Distinct(i: nat, k: nat)
    requires i < k < i + TAILS
    ensures i % TAILS != k % TAILS
  {
  }
}
