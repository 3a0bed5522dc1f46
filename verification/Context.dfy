/** The generation-numbered route context (crates/nodenet-linux-context/src/context.rs). */
module Context {
  import opened Wire
  import opened SnapshotErrors
  import opened Records
  import opened Kernel
  import opened Rules
  import opened Decoder
  import opened World
  import opened Coherence
  import opened Course
  import opened Normalize
  import Preflight

  // Durations are milliseconds.
  const INITIAL_RESYNC_BACKOFF: nat := 100
  const MAX_RESYNC_BACKOFF: nat := 5000
  const MAX_ROUTE_QUERY_DEADLINE: nat := 30000
  const MAX_SNAPSHOT_ATTEMPTS: nat := 3
  const MAX_ROUTE_QUERY_ATTEMPTS: nat := 3

  datatype RefreshOutcome =
    | Unchanged(generation: U64)
    | Published(snapshot: NetworkSnapshot)
    | Backoff(retryAfter: nat)

  datatype Ip = V4(address: U32) | V6(prefix: U16, suffix: seq<U16>)

  datatype RouteQuery = RouteQuery(
    destination: Ip,
    source: Option<Ip>,
    outputInterface: Option<U32>,
    ipProtocol: Option<Byte>,
    sourcePort: Option<U16>,
    destinationPort: Option<U16>,
    deadline: nat)

  datatype UnusableReason = Prohibited | BlackHole | Unreachable

  datatype QueryResult = Routed(route: Route) | Unusable(reason: UnusableReason)

  /** A plan joins a kernel answer to the generation it was captured from; planning itself is not modelled. */
  datatype RoutePlan = RoutePlan(captured: NetworkSnapshot, destination: Ip, result: QueryResult)

  /** A route query as it was sent: the tape position, the header fields, the count of sends before it, the snapshot
      on offer at that moment, and the counts of cancellation polls and clock readings before it. */
  datatype Question = Question(
    position: nat,
    sequence: U32,
    port: U32,
    query: RouteQuery,
    delivery: nat,
    offered: Option<NetworkSnapshot>,
    poll: nat,
    tick: nat)

  /** `validate_query`. */
  function ValidQuery(q: RouteQuery): bool {
    && 0 < q.deadline <= MAX_ROUTE_QUERY_DEADLINE
    && (q.source.Some? ==> q.source.value.V4? == q.destination.V4?)
    && q.outputInterface != Some(0)
    && (q.sourcePort.Some? || q.destinationPort.Some? ==> q.ipProtocol.Some?)
    && (q.destination.V6? && q.destination.prefix / 0x40 == 0xfe80 / 0x40 ==> q.outputInterface.Some?)
  }

  /** `kernel_unusable_reason`. */
  function KernelUnusableReason(e: SnapshotError): Option<UnusableReason> {
    match e
    case Incomplete(KernelError(code), _) =>
      if -code == 13 || -code == 1 then Some(Prohibited)
      else if -code == 22 then Some(BlackHole)
      else if -code == 101 || -code == 113 || -code == 3 then Some(Unreachable)
      else None
    case _ => None
  }

  /** `query_failure_invalidates_context`. */
  predicate QueryFailureInvalidates(e: SnapshotError) {
    e.Io? || e.Decode? || e.LimitExceeded? || (e.Incomplete? && !e.reason.KernelError?)
  }

  /** Failures after which the context stays in use. */
  predicate Benign(e: SnapshotError) {
    !QueryFailureInvalidates(e) && !e.Cancelled? && !e.DeadlineExceeded?
  }

  lemma {:induction false} FramesErrorKinds(c: Collector, left: Bytes, groups: U32, decode: Decode)
    ensures var e := Frames(c, left, groups, decode).error;
            e.None? || IsKernelError(e) || QueryFailureInvalidates(e.value)
    decreases |left|
  {
    hide MessageStep, Align4;
    if |left| < 16 { return; }
    var length := NativeU32At(left, 0);
    if length < 16 || length > |left| { return; }
    var counted := c.(messageCount := c.messageCount + 1);
    StepErrorKinds(counted, left[..length], groups, decode);
    if Align4(length) <= |left| {
      FramesErrorKinds(MessageStep(counted, left[..length], groups, decode).collector, left[Align4(length)..], groups,
          decode);
    }
  }

  lemma StepErrorKinds(c: Collector, m: Bytes, groups: U32, decode: Decode)
    requires |m| >= 16
    ensures var e := MessageStep(c, m, groups, decode).error;
            e.None? || IsKernelError(e) || QueryFailureInvalidates(e.value)
  {
    hide Preflight.InnerMessage;
  }

  /** A datagram either is accepted, carries a kernel error code, or fails in a way that invalidates. */
  lemma IngestErrorKinds(c: Collector, d: Datagram, decode: Decode)
    ensures var e := Ingest(c, d, decode).error; e.None? || IsKernelError(e) || QueryFailureInvalidates(e.value)
  {
    hide Frames;
    FramesErrorKinds(c.(byteCount := c.byteCount + |d.bytes|), d.bytes, d.senderGroups, decode);
  }

  /** Whatever a benign datagram leaves in the collector accounts for every event it stands for. */
  lemma BenignDelta(w: Environment, c: Collector, position: nat)
    requires position < |w.tape| && w.tape[position].reception.Received?
    requires var e := Ingest(c, w.tape[position].reception.datagram, w.decode).error;
             e.None? || !QueryFailureInvalidates(e.value)
    ensures Delta(w, Messages(c.notifications),
                  Messages(Ingest(c, w.tape[position].reception.datagram, w.decode).collector.notifications),
                  position, position + 1)
  {
    hide Ingest, FaithfulDatagram;
    var d := w.tape[position].reception.datagram;
    IngestErrorKinds(c, d, w.decode);
    if Ingest(c, d, w.decode).error.None? {
      DatagramDelta(w, c, position);
    } else if Timeline(w) {
      assert OnTime(w, position);
      LaterPositions(w, position, position + 1);
      KernelErrorDelta(w, c, d, UptoAt(w, position), UptoAt(w, position + 1));
    }
  }

  // ---------------------------------------------------------------------------------------
  // The answer to a question.

  /** `query_complete`. */
  predicate QueryComplete(c: Collector) {
    c.done || (c.sawSingleResponse && |c.messages| == 1)
  }

  /** The collector of a question, over the datagrams read since it was sent. */
  ghost function Heard(w: Environment, q: Question, till: nat): Outcome
    requires q.position <= till <= |w.tape|
  {
    IngestAll(NewCollector(Preflight.Route, q.sequence, q.port), Arrived(w, q.position, till), w.decode)
  }

  /** A failure or a complete reply ends the reading. */
  predicate Concludes(o: Outcome) { o.error.Some? || QueryComplete(o.collector) }

  /** No reception since the question ends the reading. */
  ghost predicate Pending(w: Environment, q: Question, till: nat) {
    && q.position <= till <= |w.tape| && Awaited(w, q.position, till)
    && forall p :: q.position <= p <= till ==> !Concludes(Heard(w, q, p))
  }

  /** The datagram just before `till` is the first that does. */
  ghost predicate Concluded(w: Environment, q: Question, till: nat) {
    && q.position < till <= |w.tape| && Pending(w, q, till - 1)
    && w.tape[till - 1].reception.Received? && Concludes(Heard(w, q, till))
  }

  /** `finish_query`, then the single route of the reply. */
  function Conclusion(o: Outcome): Result<QueryResult, SnapshotError> {
    if o.error.Some? then Err(o.error.value)
    else
      match FinishedQuery(o.collector)
      case Err(e) => Err(e)
      case Ok(decoded) =>
        match decoded.0[0]
        case NewRoute(Ok(route)) => Ok(Routed(route))
        case NewRoute(Err(error)) => Err(error)
        case _ => Err(MakeIncomplete(UnexpectedMessage))
  }

  /** A kernel answer, also when it says the destination is unusable. */
  function Answer(r: Result<QueryResult, SnapshotError>): Option<QueryResult> {
    match r
    case Ok(value) => Some(value)
    case Err(error) =>
      match KernelUnusableReason(error)
      case Some(reason) => Some(Unusable(reason))
      case None => None
  }

  /** A kernel error code never invalidates. */
  lemma KernelAnswerBenign(r: Result<QueryResult, SnapshotError>)
    ensures if Answer(r).Some? then r.Ok? || Benign(r.error) else r.Err?
  {
  }

  lemma PendingStart(w: Environment, q: Question)
    requires q.position <= |w.tape|
    ensures Pending(w, q, q.position)
        && Heard(w, q, q.position).collector == NewCollector(Preflight.Route, q.sequence, q.port)
  {
  }

  /** An empty poll changes nothing; a datagram is ingested. */
  lemma HeardStep(w: Environment, q: Question, position: nat)
    requires Pending(w, q, position) && position < |w.tape|
    ensures w.tape[position].reception.WouldBlock? ==>
              Heard(w, q, position + 1) == Heard(w, q, position) && Pending(w, q, position + 1)
    ensures w.tape[position].reception.Received? ==>
              var o := Ingest(Heard(w, q, position).collector, w.tape[position].reception.datagram, w.decode);
              && Heard(w, q, position + 1) == o
              && (if Concludes(o) then Concluded(w, q, position + 1) else Pending(w, q, position + 1))
  {
    hide Ingest;
    var before, after := Arrived(w, q.position, position), Arrived(w, q.position, position + 1);
    if w.tape[position].reception.Received? {
      assert after[..|after| - 1] == before && after[|after| - 1] == w.tape[position].reception.datagram;
    } else if w.tape[position].reception.WouldBlock? {
      assert after == before;
    }
  }

  /** The next `n` checks of the caller's token and of the clock find neither a cancellation nor a passed deadline. */
  ghost predicate Undisturbed(w: Environment, q: Question, deadline: nat, n: nat) {
    && w.times(q.tick) <= deadline
    && (forall k :: q.poll <= k < q.poll + n ==> !w.cancels(k))
    && (forall k :: q.tick < k <= q.tick + n ==> w.times(k) < deadline)
  }

  /** The question is delivered and concluded before the caller gives up, and what was announced meanwhile fits the
      buffer. There are at most two checks for each reception. */
  ghost predicate Prompt(w: Environment, q: Question, deadline: nat, till: nat, count: nat, bytes: nat) {
    && w.sends(q.delivery) && Concluded(w, q, till) && Undisturbed(w, q, deadline, 2 * (till - q.position))
    && Fits(count, bytes, Heard(w, q, till).collector.notifications)
  }

  /** What stops a query that is pending, `n` checks after its question. */
  ghost predicate Halted(w: Environment, q: Question, deadline: nat, position: nat, n: nat) {
    || w.cancels(q.poll + n) || w.times(q.tick + 1 + n) >= deadline
    || position >= |w.tape|
    || (!w.tape[position].reception.Received? && !w.tape[position].reception.WouldBlock?)
    || (w.tape[position].reception.WouldBlock?
        && (w.cancels(q.poll + n + 1) || w.times(q.tick + 1 + n + 1) >= deadline))
  }

  lemma HaltedNow(w: Environment, q: Question, deadline: nat, position: nat, n: nat)
    requires w.cancels(q.poll + n) || w.times(q.tick + 1 + n) >= deadline
    ensures Halted(w, q, deadline, position, n)
  {
  }

  lemma PendingBefore(w: Environment, q: Question, position: nat, till: nat)
    requires Pending(w, q, position) && Concluded(w, q, till)
    ensures position < till <= |w.tape|
    ensures w.tape[position].reception.Received? || (w.tape[position].reception.WouldBlock? && position + 1 < till)
  {
    hide Concludes, Heard;
  }

  lemma NotHalted(w: Environment, q: Question, deadline: nat, position: nat, n: nat, till: nat, count: nat, bytes: nat)
    requires Pending(w, q, position) && n <= 2 * (position - q.position) && Prompt(w, q, deadline, till, count, bytes)
    ensures !Halted(w, q, deadline, position, n)
  {
    hide Pending, Concluded, Heard, Fits;
    PendingBefore(w, q, position, till);
  }

  lemma NotPrompt(w: Environment, q: Question, deadline: nat, position: nat, n: nat, count: nat, bytes: nat)
    requires Pending(w, q, position) && n <= 2 * (position - q.position) && Halted(w, q, deadline, position, n)
    ensures forall till :: !Prompt(w, q, deadline, till, count, bytes)
  {
    hide Pending, Halted, Prompt;
    forall till ensures !Prompt(w, q, deadline, till, count, bytes) {
      if Prompt(w, q, deadline, till, count, bytes) { NotHalted(w, q, deadline, position, n, till, count, bytes); }
    }
  }

  lemma PromptHere(w: Environment, q: Question, deadline: nat, position: nat, count: nat, bytes: nat)
    requires Concluded(w, q, position)
    ensures forall till :: Prompt(w, q, deadline, till, count, bytes) ==>
              till == position && Fits(count, bytes, Heard(w, q, position).collector.notifications)
  {
    hide Concluded, Heard, Fits;
    forall till | Prompt(w, q, deadline, till, count, bytes) ensures till == position {
      AnswerUnique(w, q, till, position);
    }
  }

  /** Nothing disturbs the answer to a question, and the drain behind it finds no event. */
  ghost predicate Clean(w: Environment, q: Question, deadline: nat, till: nat, end: nat, a: QueryResult) {
    && Prompt(w, q, deadline, till, 0, 0) && Undisturbed(w, q, deadline, 2 * (till - q.position) + 1)
    && Answer(Conclusion(Heard(w, q, till))) == Some(a) && Heard(w, q, till).collector.notifications == []
    && Dry(w, till, end) && Drained(w, till, end) == []
  }

  /** What a clean course means once the query has ended. */
  lemma CleanMeans(w: Environment, q: Question, deadline: nat, position: nat, r: Result<QueryResult, SnapshotError>)
    requires forall till | Prompt(w, q, deadline, till, 0, 0) :: till == position && r == Conclusion(Heard(w, q, till))
    ensures forall till, end, a | Clean(w, q, deadline, till, end, a) ::
              && till == position && Answer(r) == Some(a) && q.position <= position <= |w.tape|
              && Heard(w, q, position).collector.notifications == []
              && Undisturbed(w, q, deadline, 2 * (position - q.position) + 1)
              && Drains(w, position, end, 0, 0) && Drained(w, position, end) == []
  {
    hide Prompt, Concluded, Heard, Conclusion, Answer, Undisturbed, Dry, Drained;
    NothingSummed();
    forall till, end, a | Clean(w, q, deadline, till, end, a)
      ensures && till == position && Answer(r) == Some(a) && q.position <= position <= |w.tape|
    {
      PromptConcluded(w, q, deadline, till);
    }
  }

  lemma PromptConcluded(w: Environment, q: Question, deadline: nat, till: nat)
    requires Prompt(w, q, deadline, till, 0, 0)
    ensures q.position <= till <= |w.tape|
  {
    hide Heard, Undisturbed, Pending, Concludes;
  }

  /** A question has one answer at most. */
  lemma AnswerUnique(w: Environment, q: Question, i: nat, j: nat)
    requires Concluded(w, q, i) && Concluded(w, q, j)
    ensures i == j
  {
    hide Concludes, Heard;
  }

  /** A routed answer is the one route among all replies since the question. Every datagram came from the
      kernel, and every message in it announces an event or carries the sequence number of the question. */
  lemma RoutedReply(w: Environment, q: Question, till: nat, route: Route)
    requires Concluded(w, q, till) && Conclusion(Heard(w, q, till)) == Ok(Routed(route))
    ensures var ds := Arrived(w, q.position, till);
            && AllReplies(ds, w.decode) == [NewRoute(Ok(route))]
            && (forall i :: 0 <= i < |ds| ==> ds[i].senderPort == 0 && Tiles(ds[i].bytes).Some?)
            && (forall i, j :: 0 <= i < |ds| && 0 <= j < |TilesOf(ds[i])| ==>
                  Welcome(TilesOf(ds[i])[j], ds[i].senderGroups, Preflight.Route, q.sequence, q.port, w.decode))
  {
    hide IngestAll, Welcome, Tiles, Replies, TilesOf, AllReplies, AllAnnounced, EndsDump, Pending, Arrived;
    CollectionExact(Preflight.Route, q.sequence, q.port, Arrived(w, q.position, till), w.decode);
  }

  /** An unusable answer is a kernel error code in the datagram that concluded the question. With a kernel that
      keeps the timeline it came as a reply, under the sequence number of the question and no port but ours. A
      reader that blames a kernel error for a route it cannot normalize is the only other source. */
  lemma UnusableReply(w: Environment, q: Question, till: nat, reason: UnusableReason) returns (t: Bytes)
    requires Concluded(w, q, till) && Answer(Conclusion(Heard(w, q, till))) == Some(Unusable(reason))
    ensures var o, d := Heard(w, q, till), w.tape[till - 1].reception.datagram;
            if o.error.None? then
              exists e :: o.collector.messages == [NewRoute(Err(e))] && KernelUnusableReason(e) == Some(reason)
            else
              && KernelUnusableReason(o.error.value) == Some(reason) && IsKernelError(o.error)
              && d.senderPort == 0 && Framed(d.bytes, t) && KernelCode(w.decode(t)) == Some(o.error.value.reason.code)
              && AnswersOrErrs(t, d.senderGroups, q.sequence, q.port)
              && (Timeline(w) ==> !IsNotification(t, d.senderGroups))
  {
    hide Ingest, IngestAll, Pending, Framed, AnswersOrErrs, IsNotification, KernelCode;
    var o, d := Heard(w, q, till), w.tape[till - 1].reception.datagram;
    t := [];
    if o.error.Some? {
      var before := Heard(w, q, till - 1);
      PendingHeard(w, q, till - 1);
      HeardStep(w, q, till - 1);
      t := DatagramKernelError(before.collector, d, w.decode);
      if Timeline(w) {
        assert OnTime(w, till - 1);
        LaterPositions(w, till - 1, till);
        FramedReply(w, before.collector, d, UptoAt(w, till - 1), UptoAt(w, till), t);
      }
    }
  }

  lemma PendingHeard(w: Environment, q: Question, till: nat)
    requires Pending(w, q, till)
    ensures var o := Heard(w, q, till);
            o.error.None? && o.collector.expectedSequence == q.sequence && o.collector.localPort == q.port
  {
    hide IngestAll, Welcome, Tiles, Replies, TilesOf, AllReplies, AllAnnounced, EndsDump, Arrived;
    assert !Concludes(Heard(w, q, till));
    CollectionExact(Preflight.Route, q.sequence, q.port, Arrived(w, q.position, till), w.decode);
  }

  // ---------------------------------------------------------------------------------------
  // Counting and waiting.

  lemma NothingBuffered()
    ensures SumBytes([]) == 0 && Messages([]) == []
  {
  }

  lemma NothingSummed()
    ensures SumBytes([]) == 0
  {
  }

  /** 100 ms, doubled for each failure after the first up to six times, and never more than 5 s. */
  function BackoffDelay(failures: nat): (delay: nat)
    ensures failures <= 1 ==> delay == INITIAL_RESYNC_BACKOFF
    ensures INITIAL_RESYNC_BACKOFF <= delay <= MAX_RESYNC_BACKOFF
  {
    var shift := if failures == 0 then 0 else if failures - 1 < 6 then failures - 1 else 6;
    var delay := INITIAL_RESYNC_BACKOFF * Doublings(shift);
    if delay < MAX_RESYNC_BACKOFF then delay else MAX_RESYNC_BACKOFF
  }

  function Doublings(shift: nat): (r: nat)
    ensures r >= 1
  {
    if shift == 0 then 1 else 2 * Doublings(shift - 1)
  }

  /** Consecutive failures never shorten the wait, and from the seventh on it is the longest. */
  lemma BackoffGrows(failures: nat)
    ensures BackoffDelay(failures) <= BackoffDelay(failures + 1)
    ensures failures >= 7 ==> BackoffDelay(failures) == MAX_RESYNC_BACKOFF
  {
    assert Doublings(1) == 2 && Doublings(2) == 4 && Doublings(3) == 8;
    assert Doublings(4) == 16 && Doublings(5) == 32 && Doublings(6) == 64;
  }

  // ---------------------------------------------------------------------------------------
  // The context.

  class RouteContext {
    const world: Environment
    const localPort: U32
    var nextSequence: U32
    var generation: U64
    var current: Option<NetworkSnapshot>
    var notifications: seq<BufferedNotification>
    var notificationBytes: nat
    var invalidated: bool
    var resyncFailures: U32
    var nextResync: Option<nat>

    // Positions in the environment.
    var received: nat
    var ticks: nat
    var sent: nat
    var polls: nat
    ghost var requests: seq<Request>
    ghost var questions: seq<Question>
    ghost var since: nat    // where the last attempt at a full snapshot began to read
    ghost var attempts: seq<Result<NetworkSnapshot, SnapshotError>>

    /** Holds even between the steps of a method. */
    ghost predicate Base()
      reads this
    {
      && since <= received <= |world.tape|
      && nextSequence != 0
      && |notifications| <= MAX_BUFFERED_NOTIFICATIONS
      && notificationBytes <= MAX_BUFFERED_NOTIFICATION_BYTES
      && Steady(world)
      && (nextResync.Some? ==> ticks > 0 && nextResync.value <= world.times(ticks - 1) + MAX_RESYNC_BACKOFF)
    }

    /** Generation binding and the byte count of the buffer. */
    ghost predicate Shape()
      reads this
    {
      && Base()
      && (current.Some? ==> current.value.generation == generation)
      && (!invalidated ==> notificationBytes == SumBytes(notifications))
    }

    /** The buffered events, in order. */
    ghost function Buffer(): seq<Message>
      reads this
    {
      Messages(notifications)
    }

    /** No lost update: as long as the kernel is honest, a snapshot that is on offer is up to date. */
    ghost predicate Coherent()
      requires since <= received <= |world.tape|
      reads this
    {
      Honest(world, requests) && !invalidated && current.Some? ==>
        UpToDate(world, current.value, Buffer(), since, received)
    }

    ghost predicate Inv()
      reads this
    {
      Shape() && Coherent()
    }

    constructor (world: Environment, localPort: U32)
      requires Steady(world)
      ensures Inv() && current.None? && generation == 0 && !invalidated
    {
      this.world, this.localPort := world, localPort;
      nextSequence, generation, current := 1, 0, None;
      notifications, notificationBytes, invalidated := [], 0, false;
      resyncFailures, nextResync := 0, None;
      received, ticks, sent, polls, requests, questions, attempts, since := 0, 0, 0, 0, [], [], [], 0;
    }

    /** `current_snapshot`. */
    function CurrentSnapshot(): Option<NetworkSnapshot>
      reads this
    {
      if invalidated then None else current
    }

    // The environment.

    method Receive() returns (r: Reception)
      requires received <= |world.tape|
      modifies this`received
      ensures old(received) <= received <= |world.tape|
      ensures received == old(received) ==> r == Failed && received == |world.tape|
      ensures received != old(received) ==> received == old(received) + 1 && r == world.tape[old(received)].reception
    {
      if received == |world.tape| { return Failed; }
      r := world.tape[received].reception;
      received := received + 1;
    }

    method Now() returns (t: nat)
      requires Base()
      modifies this`ticks
      ensures Base() && ticks == old(ticks) + 1 && t == world.times(old(ticks))
      ensures nextResync.Some? ==> nextResync.value <= t + MAX_RESYNC_BACKOFF
    {
      t := world.times(ticks);
      ticks := ticks + 1;
    }

    /** Sequence numbers are never zero, so no reply to a request is taken for a notification. */
    method TakeSequence() returns (s: U32)
      requires nextSequence != 0
      modifies this`nextSequence
      ensures s == old(nextSequence) && nextSequence == NextSequence(s) && nextSequence != 0
    {
      s := nextSequence;
      nextSequence := (nextSequence + 1) % 0x1_0000_0000;
      if nextSequence == 0 { nextSequence := 1; }
    }

    // The buffer.

    method BufferNotifications(ns: seq<BufferedNotification>) returns (e: Option<SnapshotError>)
      requires |notifications| <= MAX_BUFFERED_NOTIFICATIONS && notificationBytes <= MAX_BUFFERED_NOTIFICATION_BYTES
      modifies this`notifications, this`notificationBytes, this`invalidated
      ensures |notifications| <= MAX_BUFFERED_NOTIFICATIONS && notificationBytes <= MAX_BUFFERED_NOTIFICATION_BYTES
      ensures old(notificationBytes == SumBytes(notifications)) ==> notificationBytes == SumBytes(notifications)
      ensures e.None? ==> notifications == old(notifications) + ns && invalidated == old(invalidated)
      ensures e.None? ==> notificationBytes == old(notificationBytes) + SumBytes(ns)
      ensures e.Some? ==> invalidated && e.value.LimitExceeded?
      ensures e.None? <==> Fits(|old(notifications)|, old(notificationBytes), ns)
    {
      assert ns[..|ns|] == ns;
      for i := 0 to |ns|
        invariant notifications == old(notifications) + ns[..i] && invalidated == old(invalidated)
        invariant notificationBytes == old(notificationBytes) + SumBytes(ns[..i])
        invariant |notifications| <= MAX_BUFFERED_NOTIFICATIONS && notificationBytes <= MAX_BUFFERED_NOTIFICATION_BYTES
        invariant old(notificationBytes == SumBytes(notifications)) ==> notificationBytes == SumBytes(notifications)
      {
        assert ns[..i + 1][..i] == ns[..i] && ns[..i + 1] == ns[..i] + [ns[i]];
        SumMonotone(ns, i + 1);
        var total := notificationBytes + ns[i].bytes;
        if total > MAX_BUFFERED_NOTIFICATION_BYTES {
          invalidated := true;
          return Some(LimitExceeded(BufferedNotificationBytes, total, MAX_BUFFERED_NOTIFICATION_BYTES));
        }
        if |notifications| == MAX_BUFFERED_NOTIFICATIONS {
          invalidated := true;
          return Some(LimitExceeded(BufferedNotifications, |notifications| + 1, MAX_BUFFERED_NOTIFICATIONS));
        }
        notificationBytes := total;
        assert (notifications + [ns[i]])[..|notifications|] == notifications;
        notifications := notifications + [ns[i]];
      }
      e := None;
    }

    /** `decode_notification_datagram`, then the buffer. */
    method BufferDatagram(ghost position: nat, d: Datagram) returns (e: Option<SnapshotError>)
      requires Shape() && position < received && world.tape[position].reception == Received(d)
      modifies this`notifications, this`notificationBytes, this`invalidated
      ensures Shape() && (old(invalidated) ==> invalidated)
      ensures e.None? <==>
              Readable(world, position) && Fits(|old(notifications)|, old(notificationBytes), Notices(world, position))
      ensures e.None? ==>
                && notifications == old(notifications) + Notices(world, position)
                && notificationBytes == old(notificationBytes) + SumBytes(Notices(world, position))
                && invalidated == old(invalidated) && Delta(world, old(Buffer()), Buffer(), position, position + 1)
    {
      hide Ingest, SumBytes, Delta, Steady, Fits, Announced, Tiles, Replies;
      var collector := new DumpCollector(world.decode, Preflight.Link, 0xffff_ffff, 0);
      ghost var empty := collector.State();
      var ingested := collector.IngestDatagram(d);
      if ingested.Err? { return Some(ingested.error); }
      IngestExact(empty, d, world.decode);
      assert collector.notifications == Notices(world, position);
      DatagramDelta(world, empty, position);
      MessagesAppend(notifications, collector.notifications);
      DeltaFrom(world, Buffer(), Messages(collector.notifications), position, position + 1);
      e := BufferNotifications(collector.notifications);
    }

    /** Reads until the queue is empty, buffering every notification. It succeeds exactly if the queue can be read to
        its end and the buffer has room. */
    method DrainNotifications() returns (e: Option<SnapshotError>)
      requires Shape()
      modifies this`received, this`notifications, this`notificationBytes, this`invalidated
      ensures Shape() && received >= old(received) && (old(invalidated) ==> invalidated)
      ensures e.Some? ==>
                forall till :: !Drains(world, old(received), till, |old(notifications)|, old(notificationBytes))
      ensures e.None? ==>
                && Drains(world, old(received), received, |old(notifications)|, old(notificationBytes))
                && notifications == old(notifications) + Drained(world, old(received), received)
                && notificationBytes == old(notificationBytes) + SumBytes(Drained(world, old(received), received))
                && invalidated == old(invalidated) && Delta(world, old(Buffer()), Buffer(), old(received), received)
                && (Timeline(world) ==> UptoAt(world, received) == NowAt(world, received))
    {
      hide Timeline, SumBytes, Delta, Steady, Readable, Notices, Drained, Dry, Drains, Legible, Messages;
      ghost var start, count, bytes := received, |notifications|, notificationBytes;
      DeltaNone(world, Buffer(), received);
      NothingDrained(world, start);
      NothingSummed();
      while true
        invariant Shape() && received >= start && invalidated == old(invalidated)
        invariant Delta(world, old(Buffer()), Buffer(), start, received)
        invariant Legible(world, start, received)
        invariant notifications == old(notifications) + Drained(world, start, received)
        invariant notificationBytes == bytes + SumBytes(Drained(world, start, received))
        decreases |world.tape| - received
      {
        ghost var before, position := Buffer(), received;
        var r := Receive();
        if position < received { DrainedNext(world, start, position); }
        match r {
          case WouldBlock =>
            EmptyQueue(world, before, position);
            DeltaChain(world, old(Buffer()), before, before, start, position, received);
            DrainsNow(world, start, received, count, bytes);
            return None;
          case Received(d) =>
            e := BufferDatagram(position, d);
            if e.Some? {
              StuckHere(world, start, position, count, bytes);
              return;
            }
            DeltaChain(world, old(Buffer()), before, Buffer(), start, position, received);
          case _ =>
            invalidated := true;
            if position < received { Unreadable(world, position); }
            StuckHere(world, start, position, count, bytes);
            return Some(if r.Failed? then Io
                        else MakeIncomplete(if r.Overflow? then ReceiveBufferOverflow else DatagramTruncated));
        }
      }
    }

    /** Takes the buffer, replays it over the tables and closes them. */
    method ReplayBuffer(parts: NormalizedParts) returns (e: Option<SnapshotError>)
      modifies this`notifications, this`notificationBytes, parts
      ensures notifications == [] && notificationBytes <= old(notificationBytes)
      ensures e.None? ==> notificationBytes == 0
      ensures var applied := ApplyAll(old(parts.State()), old(Buffer()));
              if e.None? then applied.Ok? && Finish(applied.value) == Ok(parts.State())
              else applied.Err? || Finish(applied.value).Err?
    {
      hide Finish, ApplyAll;
      var taken := notifications;
      notifications := [];
      e := parts.ApplyNotifications(Messages(taken));
      if e.Some? { return; }
      notificationBytes := 0;
      e := parts.CloseTables();
    }

    /** The tables of a snapshot, with the buffer replayed over them and closed. */
    method AdvanceTables(s: NetworkSnapshot) returns (e: Option<SnapshotError>, parts: NormalizedParts)
      modifies this`notifications, this`notificationBytes
      ensures fresh(parts) && (e.None? <==> Advance(s, old(Buffer())).Ok?)
      ensures e.None? ==>
                && notifications == [] && notificationBytes == 0 && parts.State() == Advance(s, old(Buffer())).value
      ensures |notifications| <= |old(notifications)| && notificationBytes <= old(notificationBytes)
    {
      hide Finish, ApplyAll, Recount, Messages;
      parts := new NormalizedParts.FromTables(TablesOf(s));
      e := parts.RecomputeUnknownBytes();
      if e.None? { e := ReplayBuffer(parts); }
    }

    /** Applies the buffer to the current snapshot and publishes the next generation. */
    method PublishNotifications() returns (r: Result<NetworkSnapshot, SnapshotError>)
      requires Inv()
      modifies this`notifications, this`notificationBytes, this`generation, this`current
      ensures Base()
      ensures r.Ok? ==> Inv() && current == Some(r.value) && notifications == [] && generation == old(generation) + 1
      ensures r.Err? ==> current == old(current) && generation == old(generation)
      ensures r.Ok? <==> old(current).Some? && Publishes(old(current).value, old(Buffer()), old(generation))
      ensures r.Ok? ==> r.value == SnapshotOf(generation, Advance(old(current).value, old(Buffer())).value)
    {
      hide Honest, UpToDate, Steady, SumBytes, Messages, Advance;
      if current.None? { return Err(ContextUnavailable); }
      ghost var buffer := Buffer();
      var e, parts := AdvanceTables(current.value);
      if e.Some? { return Err(e.value); }
      if generation == LAST_GENERATION { return Err(SnapshotError.Decode); }
      var snapshot := SnapshotOf(generation + 1, parts.State());
      if Honest(world, requests) && !invalidated {
        PublishStep(world, current.value, buffer, since, received, generation + 1);
      }
      NothingBuffered();
      generation := generation + 1;
      current := Some(snapshot);
      r := Ok(snapshot);
    }

    /** Where the context is among receptions, sequence numbers, sends and clock readings. */
    ghost function Here(): Cursor
      reads this
    {
      Cursor(received, nextSequence, sent, ticks)
    }

    /** A dump request sent at a cursor, the deadline of its answer, and the collection so far. */
    ghost predicate Awaiting(asked: Request, from: Cursor, c: Collector)
      reads this
    {
      && from.position == asked.position <= received <= |world.tape| && asked.sequence == from.sequence
      && world.sends(from.sent) && !c.done && Collecting(world, asked, c, received)
      && ticks == TickAt(from, received) && InTime(world, from.ticks, received - from.position)
    }

    /** The outcome of a dump is that of its collection: an answer, or no answer on this tape. */
    ghost predicate DumpOutcome(asked: Request, from: Cursor,
        r: Result<(seq<Message>, seq<BufferedNotification>), SnapshotError>)
      requires asked.position <= received <= |world.tape|
      reads this
    {
      var reply := ReplyTo(world, asked.port, asked.dump, from);
      if r.Err? then reply.None?
      else
        && reply.Some? && reply.value.collector.done && r == Finished(reply.value.collector)
        && Collecting(world, asked, reply.value.collector, received)
        && reply.value.cursor == Cursor(received, NextSequence(from.sequence), from.sent + 1, ticks)
    }

    /** One reception of a dump: an outcome, or more to come. */
    method AwaitDump(asked: Request, ghost from: Cursor, collector: DumpCollector, deadline: nat)
      returns (r: Option<Result<(seq<Message>, seq<BufferedNotification>), SnapshotError>>)
      requires Base() && collector.decode == world.decode && Awaiting(asked, from, collector.State())
      requires deadline == world.times(from.ticks) + RECEIVE_TIMEOUT
      modifies this`ticks, this`received, collector
      ensures Base() && received >= old(received) && ticks >= old(ticks)
      ensures r.None? ==> received > old(received) && Awaiting(asked, from, collector.State())
      ensures r.Some? ==> DumpOutcome(asked, from, r.value)
    {
      hide Collecting, Ingest, Steady, Answered, InTime, ReplyTo;
      ghost var before, position := collector.State(), received;
      var now := Now();
      if now >= deadline {
        LateDump(world, asked, from, before, position);
        return Some(Finished(collector.State()));
      }
      MoreTime(world, from.ticks, position - from.position);
      var reception := Receive();
      if !reception.Received? {
        LateDump(world, asked, from, before, position);
        return Some(if reception.WouldBlock? then Finished(collector.State())
                    else if reception.Failed? then Err(Io)
                    else if reception.Overflow? then Err(MakeIncomplete(ReceiveBufferOverflow))
                    else Err(MakeIncomplete(DatagramTruncated)));
      }
      var ingested := collector.IngestDatagram(reception.datagram);
      if ingested.Err? {
        LateDump(world, asked, from, before, position);
        return Some(Err(ingested.error));
      }
      CollectingStep(world, asked, before, position);
      if ingested.value {
        AnsweredNow(world, asked, from, collector.State(), received);
        return Some(Finished(collector.State()));
      }
      r := None;
    }

    /** Collects datagrams until DONE. It succeeds exactly if the request is answered. */
    method CollectDump(asked: Request, ghost from: Cursor)
      returns (r: Result<(seq<Message>, seq<BufferedNotification>), SnapshotError>)
      requires Base() && asked.position == received && asked.sequence == from.sequence && world.sends(from.sent)
      requires from == Cursor(received, from.sequence, from.sent, ticks)
      modifies this`ticks, this`received
      ensures Base() && received >= old(received) && ticks >= old(ticks) && DumpOutcome(asked, from, r)
    {
      hide Collecting, Steady, KindOf, InTime, DumpOutcome;
      var collector := new DumpCollector(world.decode, KindOf(asked.dump), asked.sequence, asked.port);
      CollectingStart(world, asked);
      NoTime(world, ticks);
      var started := Now();
      while true
        invariant Base() && received >= from.position && ticks >= from.ticks && collector.decode == world.decode
        invariant Awaiting(asked, from, collector.State())
        decreases |world.tape| - received
      {
        var outcome := AwaitDump(asked, from, collector, started + RECEIVE_TIMEOUT);
        if outcome.Some? { return outcome.value; }
      }
    }

    /** One dump: send the request, then collect the answer. */
    method Dump(request: DumpRequest) returns (r: Result<(seq<Message>, seq<BufferedNotification>), SnapshotError>)
      requires Base()
      modifies this`nextSequence, this`sent, this`ticks, this`received, this`requests
      ensures Base() && received >= old(received) && old(requests) <= requests && old(sent) <= sent
      ensures old(ticks) <= ticks
      ensures r.Ok? ==> Delta(world, [], Messages(r.value.1), old(received), received)
      ensures r.Ok? && Honest(world, requests) ==> Dumped(world, r.value.0, request, old(received), received)
      ensures match ReplyTo(world, localPort, request, old(Here()))
              case None => r.Err?
              case Some(reply) => r == Ok((reply.collector.messages, reply.collector.notifications))
                                  && Here() == reply.cursor
    {
      hide Honest, Dumped, Delta, Steady, Collecting, ReplyTo;
      ghost var from := Here();
      var sequence := TakeSequence();
      var delivered := world.sends(sent);
      sent := sent + 1;
      if !delivered {
        Undelivered(world, localPort, request, from);
        return Err(Io);
      }
      var asked := Request(received, sequence, localPort, request);
      requests := requests + [asked];
      r := CollectDump(asked, from);
      if r.Ok? { DumpAnswered(asked, ReplyTo(world, localPort, request, from).value.collector); }
    }

    lemma DumpAnswered(asked: Request, c: Collector)
      requires asked.position <= received <= |world.tape| && asked in requests
      requires c.done && Collecting(world, asked, c, received)
      ensures Delta(world, [], Messages(c.notifications), asked.position, received)
      ensures Honest(world, requests) ==> Dumped(world, c.messages, asked.dump, asked.position, received)
    {
      hide Honest, Dumped, Delta;
      if Honest(world, requests) { CollectingDone(world, requests, asked, c, received); }
    }

    /** How far the dumps have come. */
    ghost function Stage(parts: NormalizedParts): Progress
      reads this, parts
    {
      Progress(Here(), parts.State(), notifications)
    }

    /** The dumps have come this far and no bytes are miscounted, or they came to nothing. */
    ghost predicate Reached(g: Option<Progress>, parts: NormalizedParts, e: Option<SnapshotError>)
      reads this, parts
    {
      if g.None? then e.Some? else e.None? && Stage(parts) == g.value && notificationBytes == SumBytes(notifications)
    }

    /** `push_dump`: one dump into the tables, its notifications into the buffer. */
    method PushDump(parts: NormalizedParts, request: DumpRequest)
      returns (e: Option<SnapshotError>, ghost ms: seq<Message>)
      requires Base() && invalidated && notificationBytes == SumBytes(notifications)
      modifies this`nextSequence, this`sent, this`ticks, this`received, this`requests
      modifies this`notifications, this`notificationBytes, this`invalidated, parts
      ensures Base() && invalidated && received >= old(received) && old(requests) <= requests && old(sent) <= sent
      ensures old(ticks) <= ticks
      ensures Reached(DumpStep(world, localPort, request, old(Stage(parts))), parts, e)
      ensures e.None? ==> PushAll(old(parts.State()), ms) == Ok(parts.State())
                          && Delta(world, old(Buffer()), Buffer(), old(received), received)
      ensures e.None? && Honest(world, requests) ==> Dumped(world, ms, request, old(received), received)
    {
      hide Honest, Dumped, Delta, Steady, PushAll, SumBytes, ReplyTo, Fits, Messages;
      var r := Dump(request);
      if r.Err? { return Some(r.error), []; }
      ms := r.value.0;
      DeltaFrom(world, Buffer(), Messages(r.value.1), old(received), received);
      e := StoreDump(parts, r.value.0, r.value.1);
    }

    /** The records of a dump into the tables, its notifications into the buffer. */
    method StoreDump(parts: NormalizedParts, ms: seq<Message>, ns: seq<BufferedNotification>)
      returns (e: Option<SnapshotError>)
      requires Base() && invalidated && notificationBytes == SumBytes(notifications)
      modifies this`notifications, this`notificationBytes, this`invalidated, parts
      ensures Base() && invalidated
      ensures e.None? <==> PushAll(old(parts.State()), ms).Ok? && Fits(|old(notifications)|, old(notificationBytes), ns)
      ensures e.None? ==>
                && PushAll(old(parts.State()), ms) == Ok(parts.State()) && notifications == old(notifications) + ns
                && notificationBytes == SumBytes(notifications) && Buffer() == old(Buffer()) + Messages(ns)
    {
      hide Steady, PushAll, SumBytes, Fits;
      e := parts.PushMessages(ms);
      if e.Some? { return; }
      MessagesAppend(notifications, ns);
      SumAppend(notifications, ns);
      e := BufferNotifications(ns);
    }

    /** The events read so far are the events that have happened. */
    ghost predicate CaughtUp()
      requires received <= |world.tape|
      reads this
    {
      Timeline(world) ==> UptoAt(world, received) == NowAt(world, received)
    }

    /** The eight dumps, from an empty buffer and empty tables. */
    method DumpAll(parts: NormalizedParts) returns (e: Option<SnapshotError>)
      requires Base() && invalidated && notifications == [] && notificationBytes == 0 && parts.State() == NoParts
      modifies this`nextSequence, this`sent, this`ticks, this`received, this`requests
      modifies this`notifications, this`notificationBytes, this`invalidated, parts
      ensures Reached(Dumping(world, localPort, old(Here()), |SNAPSHOT_DUMPS|), parts, e)
      ensures Base() && invalidated && received >= old(received) && old(requests) <= requests && old(sent) <= sent
      ensures old(ticks) <= ticks
      ensures e.None? ==> Delta(world, [], Buffer(), old(received), received)
      ensures e.None? && Honest(world, requests)
          ==> Partial(world, parts.State(), |SNAPSHOT_DUMPS|, old(received), received)
    {
      hide Honest, Dumped, Delta, Steady, PushAll, Partial, Messages, DumpStep;
      ghost var start := Here();
      NothingBuffered();
      DeltaNone(world, [], received);
      if Honest(world, requests) { HonestStart(world, requests, received); }
      for n := 0 to |SNAPSHOT_DUMPS|
        invariant Base() && invalidated && received >= old(received) && old(requests) <= requests && old(sent) <= sent
        invariant old(ticks) <= ticks
        invariant Delta(world, [], Buffer(), old(received), received)
        invariant Honest(world, requests) ==> Partial(world, parts.State(), n, old(received), received)
        invariant Reached(Dumping(world, localPort, start, n), parts, None)
      {
        ghost var tables, buffer, position, asked := parts.State(), Buffer(), received, requests;
        ghost var ms;
        e, ms := PushDump(parts, SNAPSHOT_DUMPS[n]);
        if e.Some? {
          DumpingStops(world, localPort, start, n + 1, |SNAPSHOT_DUMPS|);
          return;
        }
        DeltaChain(world, [], buffer, Buffer(), old(received), position, received);
        if Honest(world, requests) {
          HonestEarlier(world, asked, requests);
          PartialStep(world, tables, n, ms, old(received), position, received);
        }
      }
      e := None;
    }

    /** Dump, drain, replay, close. This succeeds exactly if the tape holds the course of a full snapshot. */
    method FillTables(parts: NormalizedParts, ghost next: U64) returns (e: Option<SnapshotError>)
      requires Shape() && invalidated && notifications == [] && notificationBytes == 0 && parts.State() == NoParts
      modifies this`nextSequence, this`sent, this`ticks, this`received, this`requests
      modifies this`notifications, this`notificationBytes, this`invalidated, parts
      ensures Base() && invalidated && received >= old(received) && old(requests) <= requests && old(sent) <= sent
      ensures old(ticks) <= ticks
      ensures if e.None? then Snapshots(world, localPort, old(Here()), received, parts.State())
              else forall till, tables :: !Snapshots(world, localPort, old(Here()), till, tables)
      ensures e.None? ==> notifications == [] && notificationBytes == 0 && CaughtUp()
      ensures e.None? && Honest(world, requests) ==>
                UpToDate(world, SnapshotOf(next, parts.State()), [], old(received), received)
    {
      hide Honest, Dumped, Delta, Steady, Partial, Messages, UpToDate, ApplyAll, Finish, Dumping, Drains, Drained;
      ghost var from := Here();
      e := DumpAll(parts);
      if e.Some? {
        NoSnapshot(world, localPort, from);
        return;
      }
      ghost var g, buffered := Stage(parts), Buffer();
      e := DrainNotifications();
      if e.Some? {
        NotDrained(world, localPort, from, g);
        return;
      }
      DeltaChain(world, [], buffered, Buffer(), from.position, g.cursor.position, received);
      ghost var tables, buffer := parts.State(), Buffer();
      e := ReplayBuffer(parts);
      if e.Some? {
        NotReplayed(world, localPort, from, g, received);
      } else if Honest(world, requests) {
        SnapshotUpToDate(world, tables, buffer, from.position, g.cursor.position, received, next);
      }
    }

    /** The outcome of an attempt that began at a cursor: a snapshot exactly if the tape holds its course and there is
        a number for it. */
    ghost predicate Attempted(from: Cursor, before: U64, r: Result<NetworkSnapshot, SnapshotError>)
      reads this
    {
      if r.Ok? then Takes(world, localPort, from, received, r.value) && before < LAST_GENERATION
      else Hopeless(from, before)
    }

    /** One attempt: clear, fill the tables, number them. */
    method SnapshotOnce() returns (r: Result<NetworkSnapshot, SnapshotError>)
      requires Shape() && invalidated
      modifies this`nextSequence, this`sent, this`ticks, this`received, this`requests, this`attempts, this`since
      modifies this`notifications, this`notificationBytes, this`invalidated, this`generation
      ensures Base() && invalidated && received >= old(received) && old(requests) <= requests && old(sent) <= sent
      ensures old(ticks) <= ticks
      ensures attempts == old(attempts) + [r] && since == old(received)
      ensures Attempted(old(Here()), old(generation), r)
      ensures r.Err? ==> generation == old(generation)
      ensures r.Ok? ==>
                && generation == old(generation) + 1 == r.value.generation && notifications == []
                && notificationBytes == 0 && CaughtUp()
      ensures r.Ok? && Honest(world, requests) ==> UpToDate(world, r.value, [], since, received)
    {
      hide Honest, Steady, Messages, UpToDate, Timeline, Snapshots;
      ghost var from := Here();
      notifications, notificationBytes := [], 0;
      since := received;
      var parts := new NormalizedParts();
      assert Here() == from;
      var e := FillTables(parts, if generation == LAST_GENERATION then 0 else generation + 1);
      if e.Some? {
        r := Err(e.value);
      } else if generation == LAST_GENERATION {
        r := Err(SnapshotError.Decode);
      } else {
        generation := generation + 1;
        r := Ok(SnapshotOf(generation, parts.State()));
        assert r.value == SnapshotOf(r.value.generation, parts.State());
      }
      attempts := attempts + [r];
    }

    /** A snapshot is on offer, nothing is buffered, and the socket has been read dry. */
    ghost predicate Offers(s: NetworkSnapshot)
      requires received <= |world.tape|
      reads this
    {
      current == Some(s) && !invalidated && notifications == [] && CaughtUp()
    }

    /** What an honest kernel's snapshot on offer means: sorted, closed, unique, and the store of now. */
    lemma OfferedSnapshot(s: NetworkSnapshot)
      requires Inv() && Offers(s) && Honest(world, requests)
      ensures KeysDistinct(TablesOf(s)) && TablesOrdered(TablesOf(s)) && Closed(View(TablesOf(s)))
      ensures (LaterPositions(world, 0, received);
               View(TablesOf(s)) == At(world.start, world.history, NowAt(world, received)))
      ensures RulesFollowed(world, since, received) ==>
                NoRuleTwice(s.rules) && RuleSet(s.rules) == RulesAt(world.rules, world.history, NowAt(world, received))
    {
      hide KeysDistinct, TablesOrdered, Closed, View, Timeline, RulesFollowed, NoRuleTwice, RuleSet;
      NothingBuffered();
      NothingReplayed(s.rules);
    }

    /** One to three attempts, each but the last incomplete, and the last not unless it is the third. The
        outcome is that of the last. */
    static ghost predicate Retried(
      tried: seq<Result<NetworkSnapshot, SnapshotError>>, r: Result<NetworkSnapshot, SnapshotError>)
    {
      && 1 <= |tried| <= MAX_SNAPSHOT_ATTEMPTS
      && (forall i :: 0 <= i < |tried| - 1 ==> Unfinished(tried[i]))
      && var last := tried[|tried| - 1];
      && (Unfinished(last) ==> |tried| == MAX_SNAPSHOT_ATTEMPTS)
      && r == if last.Ok? then last else Err(WithAttempts(last.error, |tried|))
    }

    static predicate Unfinished(r: Result<NetworkSnapshot, SnapshotError>) { r.Err? && r.error.Incomplete? }

    /** No full snapshot can be taken from a cursor. */
    ghost predicate Hopeless(from: Cursor, before: U64) {
      before == LAST_GENERATION || forall till, tables :: !Snapshots(world, localPort, from, till, tables)
    }

    /** Attempts until one is not incomplete, three at most. */
    method TrySnapshot() returns (r: Result<NetworkSnapshot, SnapshotError>)
      requires Shape() && invalidated
      modifies this`nextSequence, this`sent, this`ticks, this`received, this`requests, this`attempts, this`since
      modifies this`notifications, this`notificationBytes, this`invalidated, this`generation
      ensures Base() && invalidated && received >= old(received) && old(requests) <= requests && old(sent) <= sent
      ensures old(ticks) <= ticks
      ensures old(attempts) <= attempts && Retried(attempts[|old(attempts)|..], r) && old(received) <= since
      ensures r.Err? ==> Hopeless(old(Here()), old(generation))
      ensures r.Err? && r.error.Incomplete? ==> r.error.attempts == MAX_SNAPSHOT_ATTEMPTS
      ensures r.Err? ==> generation == old(generation)
      ensures r.Ok? ==>
          generation == old(generation) + 1 == r.value.generation && notifications == []
          && notificationBytes == 0
      ensures r.Ok? ==> CaughtUp()
      ensures r.Ok? && Honest(world, requests) ==> UpToDate(world, r.value, [], since, received)
    {
      hide Honest, Steady, Messages, UpToDate, Timeline, SumBytes, CaughtUp, Hopeless, Takes;
      ghost var tried, from := [], Here();
      for attempt := 1 to MAX_SNAPSHOT_ATTEMPTS + 1
        invariant attempt <= MAX_SNAPSHOT_ATTEMPTS
        invariant Shape() && invalidated && received >= old(received) && old(requests) <= requests && old(sent) <= sent
        invariant old(ticks) <= ticks
        invariant generation == old(generation)
        invariant attempts == old(attempts) + tried && |tried| == attempt - 1
        invariant forall i :: 0 <= i < |tried| ==> Unfinished(tried[i])
        invariant if attempt == 1 then Here() == from else Hopeless(from, generation)
      {
        r := SnapshotOnce();
        tried := tried + [r];
        assert attempts[|old(attempts)|..] == tried;
        if r.Ok? { return; }
        if !r.error.Incomplete? || attempt == MAX_SNAPSHOT_ATTEMPTS { return Err(WithAttempts(r.error, attempt)); }
      }
      assert false;
    }

    /** A full resynchronisation: the old snapshot is withdrawn first, and only a complete one is offered. */
    method Snapshot() returns (r: Result<NetworkSnapshot, SnapshotError>)
      requires Inv()
      modifies this
      ensures Inv() && received >= old(received) && old(requests) <= requests && old(sent) <= sent
      ensures old(ticks) <= ticks
      ensures questions == old(questions) && polls == old(polls)
      ensures old(attempts) <= attempts && Retried(attempts[|old(attempts)|..], r) && old(received) <= since
      ensures r.Err? ==> Hopeless(old(Here()), old(generation))
      ensures r.Err? && r.error.Incomplete? ==> r.error.attempts == MAX_SNAPSHOT_ATTEMPTS
      ensures r.Ok? ==> Offers(r.value) && r.value.generation == old(generation) + 1
      ensures r.Ok? ==> resyncFailures == 0 && nextResync.None?
      ensures r.Err? ==> invalidated && generation == old(generation) && current == old(current)
    {
      hide Honest, Steady, UpToDate, CaughtUp, SumBytes, Retried, Hopeless;
      invalidated := true;
      notifications, notificationBytes := [], 0;
      r := TrySnapshot();
      if r.Ok? { Offer(r.value); }
    }

    /** Makes a snapshot the current one. */
    method Offer(s: NetworkSnapshot)
      requires Base() && s.generation == generation && notifications == [] && notificationBytes == 0 && CaughtUp()
      requires Honest(world, requests) ==> UpToDate(world, s, [], since, received)
      modifies this`current, this`invalidated, this`resyncFailures, this`nextResync
      ensures Inv() && Offers(s) && resyncFailures == 0 && nextResync.None?
    {
      hide Honest, Steady, UpToDate, Timeline;
      NothingBuffered();
      current, invalidated, resyncFailures, nextResync := Some(s), false, 0, None;
    }

    /** What no method undoes. */
    twostate predicate Grew()
      reads this
    {
      && old(received) <= received && old(sent) <= sent && old(ticks) <= ticks && old(polls) <= polls
      && old(requests) <= requests && old(questions) <= questions
      && old(generation) <= generation
    }

    method RecordResyncFailure()
      requires Inv()
      modifies this`invalidated, this`resyncFailures, this`nextResync, this`ticks
      ensures Inv() && invalidated
      ensures resyncFailures == (if old(resyncFailures) == 0xffff_ffff then 0xffff_ffff else old(resyncFailures) + 1)
      ensures nextResync == Some(world.times(old(ticks)) + BackoffDelay(resyncFailures)) && ticks == old(ticks) + 1
    {
      hide Honest, UpToDate, Messages, SumBytes, BackoffDelay;
      invalidated := true;
      resyncFailures := if resyncFailures == 0xffff_ffff then resyncFailures else resyncFailures + 1;
      var now := Now();
      nextResync := Some(now + BackoffDelay(resyncFailures));
    }

    /** A refresh either offers a snapshot, asks the caller to wait at most five seconds, or fails. */
    ghost predicate Refreshed(r: Result<RefreshOutcome, SnapshotError>, before: U64)
      requires received <= |world.tape|
      reads this
    {
      match r
      case Ok(Published(s)) => Offers(s) && before < s.generation
      case Ok(Unchanged(g)) => current.Some? && Offers(current.value) && g == before == current.value.generation
      case Ok(Backoff(retryAfter)) => invalidated && generation == before && retryAfter <= MAX_RESYNC_BACKOFF
      case Err(_) => invalidated && generation == before
    }

    /** What a resynchronisation came to: the snapshot of its last attempt, the failure of its last attempt, or the
        time left until a recorded failure allows another. */
    twostate predicate Resynced(r: Result<RefreshOutcome, SnapshotError>)
      reads this
    {
      match r
      case Ok(Published(s)) => old(attempts) < attempts && attempts[|attempts| - 1] == Ok(s)
      case Ok(Unchanged(_)) => false
      case Ok(Backoff(t)) =>
        && attempts == old(attempts) && nextResync == old(nextResync) && nextResync.Some? && old(ticks) < ticks
        && world.times(ticks - 1) <= nextResync.value && t == nextResync.value - world.times(ticks - 1)
      case Err(_) => old(attempts) < attempts && attempts[|attempts| - 1].Err?
    }

    /** A full snapshot, with its failure recorded. */
    method Resync() returns (r: Result<NetworkSnapshot, SnapshotError>)
      requires Inv()
      modifies this
      ensures Inv() && Grew() && questions == old(questions)
      ensures old(attempts) < attempts && attempts[|attempts| - 1].Ok? == r.Ok?
      ensures r.Ok? ==> Offers(r.value) && r.value.generation == old(generation) + 1 && attempts[|attempts| - 1] == r
      ensures r.Err? ==> invalidated && generation == old(generation) && Hopeless(old(Here()), old(generation))
    {
      hide Honest, UpToDate, Messages, SumBytes, Steady, CaughtUp, BackoffDelay, Hopeless, Takes;
      r := Snapshot();
      if r.Err? { RecordResyncFailure(); }
    }

    method ResyncIfDue() returns (r: Result<RefreshOutcome, SnapshotError>)
      requires Inv() && invalidated
      modifies this
      ensures Inv() && Grew() && questions == old(questions) && Refreshed(r, old(generation)) && Resynced(r)
      ensures r.Ok? && r.value.Backoff? <==> old(nextResync).Some? && old(nextResync).value >= world.times(old(ticks))
    {
      hide Honest, UpToDate, Messages, SumBytes, Steady, CaughtUp, BackoffDelay, Hopeless;
      if nextResync.Some? {
        var now := Now();
        if nextResync.value >= now { return Ok(Backoff(nextResync.value - now)); }
      }
      var taken := Resync();
      r := if taken.Ok? then Ok(Published(taken.value)) else Err(taken.error);
    }

    method ResyncAfter(original: SnapshotError) returns (r: Result<RefreshOutcome, SnapshotError>)
      requires Inv() && invalidated
      modifies this
      ensures Inv() && Grew() && questions == old(questions) && Refreshed(r, old(generation)) && Resynced(r)
      ensures r.Ok? && r.value.Backoff? ==> old(nextResync).Some? && old(nextResync).value > world.times(old(ticks))
    {
      hide Honest, UpToDate, Messages, SumBytes, Steady, CaughtUp, BackoffDelay, Hopeless;
      if nextResync.Some? {
        var now := Now();
        if nextResync.value > now {
          r := ResyncIfDue();
          return;
        }
      }
      var taken := Resync();
      r := if taken.Ok? then Ok(Published(taken.value)) else Err(original);
    }

    /** What a refresh decides. A snapshot that is valid, a queue that is read to its end and a buffer that can be
        replayed give the next generation, or leave this one if there was nothing to replay. Anything else calls for
        a resynchronisation, which without a snapshot is not put off. */
    twostate predicate Decided(r: Result<RefreshOutcome, SnapshotError>)
      reads this
    {
      if old(current).None? then Resynced(r) && !(r.Ok? && r.value.Backoff?)
      else if old(invalidated) then Resynced(r)
      else
        && ((forall till :: !Drains(world, old(received), till, |old(notifications)|, old(notificationBytes))) ==>
              Resynced(r))
        && forall till | Drains(world, old(received), till, |old(notifications)|, old(notificationBytes)) ::
             var all := old(notifications) + Drained(world, old(received), till);
             if all == [] then r == Ok(Unchanged(old(generation)))
             else if Publishes(old(current).value, Messages(all), old(generation)) then
               r == Ok(Published(SnapshotOf(old(generation) + 1, Advance(old(current).value, Messages(all)).value)))
             else Resynced(r)
    }

    /** What the buffer comes to once the queue has been read. */
    twostate predicate Settled(r: Result<RefreshOutcome, SnapshotError>)
      requires old(current).Some?
      reads this
    {
      if old(invalidated) then Resynced(r)
      else if old(notifications) == [] then r == Ok(Unchanged(old(generation)))
      else if Publishes(old(current).value, old(Buffer()), old(generation)) then
        r == Ok(Published(SnapshotOf(old(generation) + 1, Advance(old(current).value, old(Buffer())).value)))
      else Resynced(r)
    }

    /** Publishes what was buffered, resynchronising on any failure. */
    method PublishOrResync() returns (r: Result<RefreshOutcome, SnapshotError>)
      requires Inv() && current.Some? && CaughtUp()
      modifies this
      ensures Inv() && Grew() && questions == old(questions) && Refreshed(r, old(generation)) && Settled(r)
    {
      hide Honest, UpToDate, Messages, SumBytes, Steady, Timeline, Advance;
      if invalidated {
        r := ResyncIfDue();
        return;
      }
      if notifications == [] { return Ok(Unchanged(generation)); }
      var published := PublishNotifications();
      if published.Ok? { return Ok(Published(published.value)); }
      invalidated := true;
      r := ResyncAfter(published.error);
    }

    /** Drain, then publish what was buffered, resynchronising on any failure. */
    method Refresh() returns (r: Result<RefreshOutcome, SnapshotError>)
      requires Inv()
      modifies this
      ensures Inv() && Grew() && questions == old(questions) && Refreshed(r, old(generation)) && Decided(r)
    {
      hide Honest, UpToDate, Messages, SumBytes, Steady, Delta, Timeline, Drains, Drained, Advance, Publishes;
      if current.None? {
        var taken := Snapshot();
        return if taken.Ok? then Ok(Published(taken.value)) else Err(taken.error);
      }
      ghost var before, position, count, bytes := Buffer(), received, |notifications|, notificationBytes;
      var e := DrainNotifications();
      if e.Some? {
        invalidated := true;
        r := ResyncAfter(e.value);
        return;
      }
      forall till | Drains(world, position, till, count, bytes) ensures till == received {
        DrainsOnce(world, position, till, received, count, bytes);
      }
      if Honest(world, requests) && !invalidated {
        UpToDateStep(world, current.value, before, Buffer(), since, position, received);
      }
      r := PublishOrResync();
    }

    method CheckQueryControl(deadline: nat) returns (e: Option<SnapshotError>)
      requires Shape()
      modifies this`polls, this`ticks
      ensures Shape() && polls == old(polls) + 1 && old(ticks) <= ticks <= old(ticks) + 1
      ensures e.None? <==> !world.cancels(old(polls)) && world.times(old(ticks)) < deadline
      ensures e.None? ==> ticks == old(ticks) + 1
      ensures e.Some? ==> e.value == if world.cancels(old(polls)) then Cancelled else DeadlineExceeded
      ensures e.Some? && !world.cancels(old(polls)) ==> ticks == old(ticks) + 1
    {
      hide SumBytes, Steady;
      var cancelled := world.cancels(polls);
      polls := polls + 1;
      if cancelled { return Some(Cancelled); }
      var now := Now();
      e := if now >= deadline then Some(DeadlineExceeded) else None;
    }

    /** Moves what a query collected into the buffer. */
    method BufferQuery(ghost from: nat, taken: seq<BufferedNotification>, ghost complete: bool)
      returns (e: Option<SnapshotError>)
      requires Shape() && from <= received && (complete ==> Delta(world, [], Messages(taken), from, received))
      modifies this`notifications, this`notificationBytes, this`invalidated
      ensures Shape() && (old(invalidated) ==> invalidated)
      ensures e.Some? ==> e.value.LimitExceeded?
      ensures e.None? <==> Fits(|old(notifications)|, old(notificationBytes), taken)
      ensures e.None? ==> Grown(taken) && (complete ==> Delta(world, old(Buffer()), Buffer(), from, received))
    {
      hide Steady, SumBytes, Delta, Fits;
      MessagesAppend(notifications, taken);
      if complete { DeltaFrom(world, Buffer(), Messages(taken), from, received); }
      e := BufferNotifications(taken);
    }

    /** The buffer grew by these notifications, and nothing was invalidated. */
    twostate predicate Grown(more: seq<BufferedNotification>)
      reads this
    {
      && notifications == old(notifications) + more && notificationBytes == old(notificationBytes) + SumBytes(more)
      && invalidated == old(invalidated)
    }

    /** The conclusion of a complete reply, its notifications moved into the buffer. */
    method AnswerQuery(ghost from: nat, c: Collector) returns (r: Result<QueryResult, SnapshotError>)
      requires Shape() && from <= received && Delta(world, [], Messages(c.notifications), from, received)
      modifies this`notifications, this`notificationBytes, this`invalidated
      ensures Shape() && (old(invalidated) ==> invalidated)
      ensures Fits(|old(notifications)|, old(notificationBytes), c.notifications) ==> r == Conclusion(Outcome(c, None))
      ensures r.Ok? || Benign(r.error) ==>
                && r == Conclusion(Outcome(c, None)) && Grown(c.notifications)
                && Delta(world, old(Buffer()), Buffer(), from, received)
    {
      hide Steady, SumBytes, Delta, Messages, Fits;
      var decoded := FinishedQuery(c);
      if decoded.Err? { return Err(decoded.error); }
      var e := BufferQuery(from, decoded.value.1, true);
      if e.Some? { return Err(e.value); }
      match decoded.value.0[0] {
        case NewRoute(Ok(route)) => return Ok(Routed(route));
        case NewRoute(Err(error)) => return Err(error);
        case _ => return Err(MakeIncomplete(UnexpectedMessage));
      }
    }

    /** The collector of a question that is pending, with the events it holds, and how many checks were made. */
    ghost predicate Listening(q: Question, c: Collector)
      reads this
    {
      && q.position <= received <= |world.tape| && Pending(world, q, received)
      && c == Heard(world, q, received).collector
      && Delta(world, [], Messages(c.notifications), q.position, received) && OnTrack(q)
    }

    ghost predicate OnTrack(q: Question)
      reads this
    {
      && q.position <= received && q.poll <= polls && ticks == q.tick + 1 + (polls - q.poll)
      && polls - q.poll <= 2 * (received - q.position)
    }

    /** The question is concluded here with this result, and the events heard since are in the buffer. */
    twostate predicate Told(q: Question, r: Result<QueryResult, SnapshotError>)
      reads this
    {
      && Concluded(world, q, received) && r == Conclusion(Heard(world, q, received))
      && Grown(Heard(world, q, received).collector.notifications)
      && Delta(world, old(Buffer()), Buffer(), q.position, received) && OnTrack(q)
    }

    /** One datagram of a query: its conclusion, or more to come. */
    method IngestQuery(ghost q: Question, ghost position: nat, collector: DumpCollector, d: Datagram)
      returns (r: Option<Result<QueryResult, SnapshotError>>)
      requires Shape() && q.position <= position && received == position + 1
      requires world.tape[position].reception == Received(d) && OnTrack(q)
      requires Pending(world, q, position) && collector.State() == Heard(world, q, position).collector
      requires collector.decode == world.decode
      requires Delta(world, [], Messages(collector.notifications), q.position, position)
      modifies this`notifications, this`notificationBytes, this`invalidated, collector
      ensures Shape() && (old(invalidated) ==> invalidated)
      ensures r.None? ==> Grown([]) && Listening(q, collector.State())
      ensures r.Some? ==> Concluded(world, q, received)
      ensures r.Some? && (r.value.Ok? || Benign(r.value.error)) ==> Told(q, r.value)
      ensures r.Some? ==>
                var o := Heard(world, q, received);
                Fits(|old(notifications)|, old(notificationBytes), o.collector.notifications) ==>
                  r.value == Conclusion(o)
    {
      hide Ingest, Steady, Delta, Messages, FinishedQuery, Pending, Concluded, Heard, QueryComplete, Fits;
      ghost var before := collector.State();
      HeardStep(world, q, position);
      var ingested := collector.IngestDatagram(d);
      if ingested.Ok? || !QueryFailureInvalidates(ingested.error) {
        BenignDelta(world, before, position);
        DeltaChain(world, [], Messages(before.notifications), Messages(collector.notifications), q.position, position,
            received);
      }
      if ingested.Err? {
        var taken := collector.TakeNotifications();
        var e := BufferQuery(q.position, taken, !QueryFailureInvalidates(ingested.error));
        return Some(Err(if e.Some? then e.value else ingested.error));
      }
      if QueryComplete(collector.State()) {
        var answer := AnswerQuery(q.position, collector.State());
        return Some(answer);
      }
      NothingSummed();
      r := None;
    }

    /** One reception of a query: its conclusion, or more to come. */
    method AwaitQuery(deadline: nat, ghost q: Question, collector: DumpCollector)
      returns (r: Option<Result<QueryResult, SnapshotError>>)
      requires Shape() && collector.decode == world.decode && Listening(q, collector.State())
      modifies this`polls, this`ticks, this`received, collector
      modifies this`notifications, this`notificationBytes, this`invalidated
      ensures Shape() && received >= old(received) && ticks >= old(ticks) && polls >= old(polls)
      ensures old(invalidated) ==> invalidated
      ensures r.None? ==> Grown([]) && received > old(received) && Listening(q, collector.State())
      ensures r.Some? && (r.value.Ok? || Benign(r.value.error)) ==> Told(q, r.value)
      ensures r.Some? ==> Complete(q, deadline, |old(notifications)|, old(notificationBytes), r.value)
    {
      hide Steady, Delta, Timeline, Messages, Pending, Concluded, Heard, Conclusion, Prompt, Fits, Halted;
      ghost var position, n, count, bytes := received, polls - q.poll, |notifications|, notificationBytes;
      var stop := CheckQueryControl(deadline);
      if stop.Some? {
        HaltedNow(world, q, deadline, position, n);
        NotPrompt(world, q, deadline, position, n, count, bytes);
        return Some(Err(stop.value));
      }
      var reception := Receive();
      if reception.Received? {
        r := IngestQuery(q, position, collector, reception.datagram);
        if r.Some? { PromptHere(world, q, deadline, received, count, bytes); }
      } else {
        r := IdleQuery(deadline, q, position, n, collector, reception);
      }
    }

    /** A reception that is no datagram: the queue was empty, and the caller may give up, or the socket failed. */
    method IdleQuery(deadline: nat, ghost q: Question, ghost position: nat, ghost n: nat, collector: DumpCollector,
        reception: Reception) returns (r: Option<Result<QueryResult, SnapshotError>>)
      requires Shape() && q.position <= position && n <= 2 * (position - q.position) && !reception.Received?
      requires if received == position then reception.Failed? && position == |world.tape|
               else received == position + 1 && reception == world.tape[position].reception
      requires polls == q.poll + n + 1 && ticks == q.tick + n + 2
      requires Pending(world, q, position) && collector.State() == Heard(world, q, position).collector
      requires Delta(world, [], Messages(collector.notifications), q.position, position)
      modifies this`polls, this`ticks, this`invalidated
      ensures Shape() && ticks >= old(ticks) && polls >= old(polls) && (old(invalidated) ==> invalidated)
      ensures r.None? ==> received == position + 1 && Grown([]) && Listening(q, collector.State())
      ensures r.Some? ==> r.value.Err? && !Benign(r.value.error)
      ensures r.Some? ==> Complete(q, deadline, |notifications|, notificationBytes, r.value)
    {
      hide Steady, Delta, Timeline, Messages, Pending, Heard, Conclusion, Prompt;
      NothingSummed();
      if reception.WouldBlock? {
        IdleDelta(world, Messages(collector.notifications), q.position, position);
        HeardStep(world, q, position);
        var stop := CheckQueryControl(deadline);
        if stop.None? { return None; }
        NotPrompt(world, q, deadline, position, n, |notifications|, notificationBytes);
        return Some(Err(stop.value));
      }
      NotPrompt(world, q, deadline, position, n, |notifications|, notificationBytes);
      if !reception.Failed? { invalidated := true; }
      r := Some(Err(if reception.Failed? then Io
                    else MakeIncomplete(if reception.Overflow? then ReceiveBufferOverflow else DatagramTruncated)));
    }

    /** A question that is answered promptly has this result, here. */
    ghost predicate Complete(q: Question, deadline: nat, count: nat, bytes: nat, r: Result<QueryResult, SnapshotError>)
      reads this
    {
      forall till | Prompt(world, q, deadline, till, count, bytes) ::
        till == received && r == Conclusion(Heard(world, q, till))
    }

    /** Reads until the question is answered, the caller gives up or the socket fails. */
    method CollectQuery(deadline: nat, sequence: U32, ghost q: Question) returns (r: Result<QueryResult, SnapshotError>)
      requires Shape() && q.position == received && q.sequence == sequence && q.port == localPort
      requires q.poll == polls && q.tick + 1 == ticks
      modifies this`polls, this`ticks, this`received, this`notifications, this`notificationBytes, this`invalidated
      ensures Shape() && received >= old(received) && ticks >= old(ticks) && polls >= old(polls)
      ensures old(invalidated) ==> invalidated
      ensures r.Ok? || Benign(r.error) ==> Told(q, r)
      ensures Complete(q, deadline, |old(notifications)|, old(notificationBytes), r)
    {
      hide Steady, Delta, Timeline, Messages, Pending, Concluded, Heard, Conclusion, Benign, Complete;
      var collector := new DumpCollector(world.decode, Preflight.Route, sequence, localPort);
      NothingBuffered();
      NothingSummed();
      DeltaNone(world, [], received);
      PendingStart(world, q);
      while true
        invariant Shape() && received >= q.position && ticks >= old(ticks) && polls >= old(polls) && Grown([])
        invariant collector.decode == world.decode && Listening(q, collector.State())
        decreases |world.tape| - received
      {
        var outcome := AwaitQuery(deadline, q, collector);
        if outcome.Some? { return outcome.value; }
      }
    }

    /** The question a query puts now. */
    ghost function Asking(query: RouteQuery): Question
      reads this
    {
      Question(received, nextSequence, localPort, query, sent, CurrentSnapshot(), polls, ticks)
    }

    /** One route query. Unless its failure invalidates, the question was sent, the result is what the first
        datagrams to conclude it say, and every event read meanwhile is in the buffer. A question that is answered
        promptly is concluded with its answer. */
    method QueryOnce(query: RouteQuery, deadline: nat) returns (r: Result<QueryResult, SnapshotError>)
      requires Shape()
      modifies this`nextSequence, this`sent, this`polls, this`ticks, this`received, this`questions
      modifies this`notifications, this`notificationBytes, this`invalidated
      ensures Shape() && received >= old(received) && old(ticks) < ticks && old(polls) <= polls
      ensures old(invalidated) ==> invalidated
      ensures old(sent) <= sent <= old(sent) + 1
      ensures if world.times(old(ticks)) <= deadline && world.sends(old(sent))
              then questions == old(questions) + [old(Asking(query))] && sent == old(sent) + 1
              else questions == old(questions) && r.Err? && (world.times(old(ticks)) > deadline || sent > old(sent))
      ensures r.Ok? || Benign(r.error) ==> world.sends(old(sent)) && questions != old(questions)
      ensures r.Ok? || Benign(r.error) ==> Told(old(Asking(query)), r)
      ensures Complete(old(Asking(query)), deadline, |old(notifications)|, old(notificationBytes), r)
    {
      hide Steady, SumBytes, Delta, Messages, Concluded, Heard, Conclusion;
      ghost var q, count, bytes := Asking(query), |notifications|, notificationBytes;
      var now := Now();
      if now > deadline { return Err(DeadlineExceeded); }
      var sequence := TakeSequence();
      var delivered := world.sends(sent);
      sent := sent + 1;
      if !delivered { return Err(Io); }
      questions := questions + [q];
      r := CollectQuery(deadline, sequence, q);
    }

    /** What was buffered is published, and a failure to do so leads to a resynchronisation if one is due. */
    method PublishSettled() returns (e: Option<SnapshotError>)
      requires Inv() && CaughtUp()
      modifies this
      ensures Inv() && Grew()
      ensures questions == old(questions) && (e.None? ==> invalidated || generation != old(generation))
    {
      hide Honest, UpToDate, Messages, SumBytes, Steady, Timeline, Advance;
      var published := PublishNotifications();
      if published.Ok? { return None; }
      invalidated := true;
      var resynced := ResyncIfDue();
      e := if resynced.Err? then Some(resynced.error) else None;
    }

    /** The drain after a query. If the generation is still current, no event was read since `before`. If there was
        nothing to read, nothing changes. */
    method Settle(ghost from: nat, ghost before: seq<Message>) returns (e: Option<SnapshotError>)
      requires Inv() && current.Some? && from <= received && Delta(world, before, Buffer(), from, received)
      modifies this
      ensures Inv() && Grew() && questions == old(questions)
      ensures e.None? && !invalidated && generation == old(generation) ==>
                Offers(old(current).value) && Delta(world, before, [], from, received)
      ensures (exists end :: Drains(world, old(received), end, |old(notifications)|, old(notificationBytes))
                             && old(notifications) + Drained(world, old(received), end) == []) ==>
                e.None? && invalidated == old(invalidated) && generation == old(generation) && current == old(current)
    {
      hide Honest, UpToDate, Messages, SumBytes, Steady, Delta, Timeline, Recount, Drains, Drained;
      ghost var buffer, position, count, bytes := Buffer(), received, |notifications|, notificationBytes;
      e := DrainNotifications();
      if e.Some? {
        invalidated := true;
        var resynced := ResyncAfter(e.value);
        return if resynced.Err? then Some(resynced.error) else None;
      }
      forall till | Drains(world, position, till, count, bytes) ensures till == received {
        DrainsOnce(world, position, till, received, count, bytes);
      }
      if Honest(world, requests) && !invalidated {
        UpToDateStep(world, current.value, buffer, Buffer(), since, position, received);
      }
      DeltaChain(world, before, buffer, Buffer(), from, position, received);
      if notifications == [] {
        NothingBuffered();
        return;
      }
      e := PublishSettled();
    }

    /** What the failure of a query does to the context. */
    method AbandonQuery(error: SnapshotError) returns (e: SnapshotError)
      requires Shape() && (Benign(error) ==> Coherent())
      modifies this
      ensures Inv() && Grew() && questions == old(questions)
    {
      hide Honest, UpToDate, Messages, SumBytes, Steady;
      e := error;
      if QueryFailureInvalidates(error) {
        invalidated := true;
        var resynced := ResyncIfDue();
        if resynced.Err? { e := resynced.error; }
      } else if error.Cancelled? || error.DeadlineExceeded? {
        invalidated := true;
      }
    }

    /** The plan's snapshot was on offer when question `k` was put for this query, and still is. The plan's
        result is the kernel's answer to that question, and no event was read since it was put. */
    ghost predicate Resolved(plan: RoutePlan, query: RouteQuery, k: nat, answered: nat)
      requires received <= |world.tape|
      reads this
    {
      && k < |questions|
      && var q := questions[k];
      && q.query == query && q.port == localPort && world.sends(q.delivery) && q.offered == Some(plan.captured)
      && answered <= received && Concluded(world, q, answered)
      && Answer(Conclusion(Heard(world, q, answered))) == Some(plan.result)
      && Delta(world, [], [], q.position, received)
      && Offers(plan.captured) && plan.captured.generation == generation && plan.destination == query.destination
    }

    /** Question `k` was put since the earlier state. */
    twostate predicate AskedSince(k: nat)
      reads this
    {
      && |old(questions)| <= k < |questions|
      && old(received) <= questions[k].position <= received && old(sent) <= questions[k].delivery < sent
    }

    /** With an honest kernel, nothing happened from the question to now, neither read nor unread: at every
        moment the store was the plan's snapshot, so it is the store the kernel answered from. */
    lemma ResolvedAgainstStore(plan: RoutePlan, query: RouteQuery, k: nat, answered: nat, position: nat)
      requires Inv() && Resolved(plan, query, k, answered) && Honest(world, requests)
      requires questions[k].position <= position <= received
      ensures NowAt(world, position) == NowAt(world, received)
      ensures (LaterPositions(world, 0, position);
               View(TablesOf(plan.captured)) == At(world.start, world.history, NowAt(world, position)))
      ensures RulesFollowed(world, since, received) ==>
                RuleSet(plan.captured.rules) == RulesAt(world.rules, world.history, NowAt(world, position))
    {
      hide KeysDistinct, TablesOrdered, Closed, View, Timeline, RulesFollowed, NoRuleTwice, RuleSet;
      hide Concluded, Heard, Conclusion, Answer;
      var asked := questions[k].position;
      OfferedSnapshot(plan.captured);
      LaterPositions(world, asked, position);
      LaterPositions(world, position, received);
      LaterPositions(world, asked, received);
      assert |world.history[UptoAt(world, asked)..UptoAt(world, received)]| == 0;
    }

    /** Every question put since the earlier state whose course is clean is answered by this plan. */
    twostate predicate Answers(query: RouteQuery, deadline: nat, new r: Option<Result<RoutePlan, SnapshotError>>)
      reads this
    {
      forall k, till, end, a |
        |old(questions)| <= k < |questions| && Clean(world, questions[k], deadline, till, end, a) ::
        && questions[k].offered.Some?
        && r == Some(Ok(RoutePlan(questions[k].offered.value, query.destination, a)))
    }

    /** No question was put since the earlier state because the caller gave up, a request could not be sent, or there
        is no snapshot on offer. */
    twostate predicate Unasked(deadline: nat)
      reads this
    {
      || (exists p :: old(polls) <= p < polls && world.cancels(p))
      || (exists t :: old(ticks) <= t < ticks && world.times(t) >= deadline)
      || (exists n :: old(sent) <= n < sent && !world.sends(n))
      || invalidated
    }

    /** Puts the question while a snapshot is on offer, and settles. */
    method AskAndSettle(query: RouteQuery, deadline: nat, captured: NetworkSnapshot)
      returns (r: Option<Result<RoutePlan, SnapshotError>>, ghost answered: nat)
      requires Inv() && Offers(captured)
      modifies this
      ensures Inv() && Grew()
      ensures questions == old(questions) || questions == old(questions) + [old(Asking(query))]
      ensures questions == old(questions) ==> r.Some? && Unasked(deadline)
      ensures r.Some? && r.value.Ok? ==>
                Resolved(r.value.value, query, |old(questions)|, answered) && AskedSince(|old(questions)|)
      ensures questions != old(questions) ==>
                forall till, end, a | Clean(world, old(Asking(query)), deadline, till, end, a) ::
                  r == Some(Ok(RoutePlan(captured, query.destination, a)))
    {
      hide Honest, UpToDate, Messages, Steady, Delta, Timeline, Benign, QueryFailureInvalidates, Clean;
      hide Concluded, Heard, Conclusion, Answer, Drains, Drained, Prompt, SumBytes, Undisturbed;
      ghost var q := Asking(query);
      NothingSummed();
      NothingBuffered();
      var result := QueryOnce(query, deadline);
      answered := received;
      KernelAnswerBenign(result);
      CleanMeans(world, q, deadline, received, result);
      if (result.Ok? || Benign(result.error)) && Honest(world, requests) {
        UpToDateStep(world, captured, [], Buffer(), since, q.position, received);
      }
      var answer := Answer(result);
      if answer.None? {
        var error := AbandonQuery(result.error);
        return Some(Err(error)), answered;
      }
      forall till, end, a | Clean(world, q, deadline, till, end, a)
        ensures a == answer.value && notifications == [] && Drains(world, received, end, 0, 0)
      { }
      r := SettleAnswer(query, deadline, captured, q, answer.value);
    }

    /** The last check, the last drain, and the plan if the generation is still current. */
    method SettleAnswer(query: RouteQuery, deadline: nat, captured: NetworkSnapshot, ghost q: Question,
        answer: QueryResult) returns (r: Option<Result<RoutePlan, SnapshotError>>)
      requires Inv() && current == Some(captured) && !invalidated && q.position <= received && OnTrack(q)
      requires Delta(world, [], Buffer(), q.position, received)
      modifies this
      ensures Inv() && Grew() && questions == old(questions)
      ensures r.Some? && r.value.Ok? ==>
                && r.value.value == RoutePlan(captured, query.destination, answer) && Offers(captured)
                && generation == captured.generation && Delta(world, [], [], q.position, received)
      ensures old(notifications) == [] && Undisturbed(world, q, deadline, 2 * (old(received) - q.position) + 1)
              && (exists end :: Drains(world, old(received), end, 0, 0) && Drained(world, old(received), end) == []) ==>
                r == Some(Ok(RoutePlan(captured, query.destination, answer)))
    {
      hide Honest, UpToDate, Messages, Steady, Delta, Timeline, Drains, Drained;
      NothingSummed();
      var stop := CheckQueryControl(deadline);
      if stop.Some? { return Some(Err(stop.value)); }
      var settled := Settle(q.position, []);
      if settled.Some? { return Some(Err(settled.value)); }
      if CurrentSnapshot().None? { return Some(Err(ContextUnavailable)); }
      if CurrentSnapshot().value.generation != captured.generation { return None; }
      r := Some(Ok(RoutePlan(captured, query.destination, answer)));
    }

    /** One attempt: capture, query, settle. Nothing is returned when the generation changed meanwhile. */
    method ResolveAttempt(query: RouteQuery, deadline: nat)
      returns (r: Option<Result<RoutePlan, SnapshotError>>, ghost k: nat, ghost answered: nat)
      requires Inv()
      modifies this
      ensures Inv() && Grew() && |questions| <= |old(questions)| + 1
      ensures r.Some? && r.value.Ok? ==> Resolved(r.value.value, query, k, answered) && AskedSince(k)
      ensures Answers(query, deadline, r) && (questions == old(questions) ==> r.Some? && Unasked(deadline))
    {
      hide Honest, UpToDate, Messages, SumBytes, Steady, Timeline, Clean, Resolved, Decided;
      k, answered := |questions|, 0;
      var stop := CheckQueryControl(deadline);
      if stop.Some? { return Some(Err(stop.value)), k, answered; }
      var refreshed := Refresh();
      if refreshed.Err? { return Some(Err(refreshed.error)), k, answered; }
      if refreshed.value.Backoff? || CurrentSnapshot().None? { return Some(Err(ContextUnavailable)), k, answered; }
      r, answered := AskAndSettle(query, deadline, CurrentSnapshot().value);
    }

    /** At most three attempts within the deadline. A question whose course is clean is answered by its plan. */
    method ResolveRoute(query: RouteQuery)
      returns (r: Result<RoutePlan, SnapshotError>, ghost k: nat, ghost answered: nat)
      requires Inv()
      modifies this
      ensures Inv() && Grew()
      ensures !ValidQuery(query) ==> r == Err(InvalidQuery) && unchanged(this)
      ensures r.Ok? ==> Resolved(r.value, query, k, answered) && AskedSince(k)
      ensures ValidQuery(query) ==>
                var deadline := world.times(old(ticks)) + query.deadline;
                Answers(query, deadline, Some(r)) && (questions == old(questions) ==> Unasked(deadline))
    {
      hide Honest, UpToDate, Messages, SumBytes, Steady, Delta, Timeline, Clean, Resolved;
      k, answered := 0, 0;
      if !ValidQuery(query) { return Err(InvalidQuery), k, answered; }
      var now := Now();
      var deadline := now + query.deadline;
      var attempt := 1;
      while attempt <= MAX_ROUTE_QUERY_ATTEMPTS
        invariant 1 <= attempt <= MAX_ROUTE_QUERY_ATTEMPTS && Inv() && Grew() && Answers(query, deadline, None)
        invariant attempt > 1 ==> questions != old(questions)
      {
        var outcome: Option<Result<RoutePlan, SnapshotError>>;
        outcome, k, answered := ResolveAttempt(query, deadline);
        if outcome.Some? { return outcome.value, k, answered; }
        if attempt == MAX_ROUTE_QUERY_ATTEMPTS {
          return Err(WithAttempts(MakeIncomplete(GenerationChanged), attempt)), k, answered;
        }
        attempt := attempt + 1;
      }
      assert false;
    }
  }
}
