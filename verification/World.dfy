/** The environment of a route context: a kernel history, the socket as a tape of receptions, a clock,
    and what it means for that environment to be honest. */
module World {
  import opened Wire
  import opened SnapshotErrors
  import opened Records
  import opened Kernel
  import opened Rules
  import opened Decoder
  import Normalize
  import Preflight

  /** What one receive call returns. */
  datatype Reception =
    | Received(datagram: Datagram)
    | WouldBlock
    | Overflow
    | TooLong
    | Failed

  /** A reception with two positions in the kernel history: after it, the first `upto` events have been
      handed to the socket or reported lost, and `now` events have happened. */
  datatype Arrival = Arrival(reception: Reception, upto: nat, now: nat)

  /** Clock readings, send outcomes and cancellation polls are indexed by how often they were asked for. */
  datatype Environment = Environment(
    start: Store,
    rules: set<Rule>,
    history: seq<Message>,
    tape: seq<Arrival>,
    decode: Decode,
    times: nat -> nat,
    sends: nat -> bool,
    cancels: nat -> bool)

  /** A dump request, with the tape position at which it was sent. */
  datatype Request = Request(position: nat, sequence: U32, port: U32, dump: DumpRequest)

  function KindOf(r: DumpRequest): Preflight.DumpKind {
    match r
    case LinkDump => Preflight.Link
    case AddressDump => Preflight.Address
    case RouteDump(_) => Preflight.Route
    case RuleDump(_) => Preflight.Rule
    case NeighborDump(_) => Preflight.Neighbor
  }

  function UptoAt(w: Environment, position: nat): nat
    requires position <= |w.tape|
  {
    if position == 0 then 0 else w.tape[position - 1].upto
  }

  function NowAt(w: Environment, position: nat): nat
    requires position <= |w.tape|
  {
    if position == 0 then 0 else w.tape[position - 1].now
  }

  // ---------------------------------------------------------------------------------------
  // Datagrams.

  /** Every message framing can reach is a notification, and none is an error message. */
  predicate NotificationsOnly(left: Bytes, groups: U32)
    decreases |left|
  {
    |left| < 16 ||
    var length := NativeU32At(left, 0);
    length < 16 || length > |left| ||
    (&& IsNotification(left[..length], groups) && TypeOf(left[..length]) != NLMSG_ERROR
     && (Align4(length) > |left| || NotificationsOnly(left[Align4(length)..], groups)))
  }

  /** Every message framing can reach is a reply. */
  predicate RepliesOnly(left: Bytes, groups: U32)
    decreases |left|
  {
    |left| < 16 ||
    var length := NativeU32At(left, 0);
    length < 16 || length > |left| ||
    (!IsNotification(left[..length], groups)
        && (Align4(length) > |left| || RepliesOnly(left[Align4(length)..], groups)))
  }

  /** Replies and notifications do not share the datagram, no notification is an error message, replies
      account for no event, and readable notifications are the next events of the history. */
  ghost predicate FaithfulDatagram(w: Environment, d: Datagram, before: nat, after: nat)
    requires before <= after <= |w.history|
  {
    && (RepliesOnly(d.bytes, d.senderGroups) || NotificationsOnly(d.bytes, d.senderGroups))
    && (RepliesOnly(d.bytes, d.senderGroups) ==> after == before)
    && (NotificationsOnly(d.bytes, d.senderGroups) && Tiles(d.bytes).Some?
        && (forall i :: 0 <= i < |Tiles(d.bytes).value| ==> w.decode(Tiles(d.bytes).value[i]).Inner?)
        ==> Normalize.Messages(Announced(Tiles(d.bytes).value, d.senderGroups, w.decode)) == w.history[before..after])
  }

  /** The tape hands out the history in order. An empty queue means every event so far was handed out. */
  ghost predicate Timeline(w: Environment) {
    forall i :: 0 <= i < |w.tape| ==> OnTime(w, i)
  }

  ghost predicate OnTime(w: Environment, i: nat)
    requires i < |w.tape|
  {
    var a := w.tape[i];
    && UptoAt(w, i) <= a.upto <= a.now <= |w.history|
    && NowAt(w, i) <= a.now
    && (a.reception.WouldBlock? ==> UptoAt(w, i) == a.upto == a.now)
    && (a.reception.Received? ==> FaithfulDatagram(w, a.reception.datagram, UptoAt(w, i), a.upto))
  }

  /** The clock never runs backwards. */
  ghost predicate Steady(w: Environment) {
    forall i, j :: i <= j ==> w.times(i) <= w.times(j)
  }

  ghost predicate AllReceived(w: Environment, from: nat, till: nat)
    requires from <= till <= |w.tape|
  {
    forall i :: from <= i < till ==> w.tape[i].reception.Received?
  }

  ghost function Datagrams(w: Environment, from: nat, till: nat): (ds: seq<Datagram>)
    requires from <= till <= |w.tape| && AllReceived(w, from, till)
    ensures |ds| == till - from
  {
    seq(till - from, i requires 0 <= i < till - from => w.tape[from + i].reception.datagram)
  }

  /** If the datagrams from the request up to `till` complete a collection, what was collected is a dump
      taken between the events read when it was requested and the events that had happened by then. Of rules
      this is asked only where no event between is about a confused rule. */
  ghost predicate Answers(w: Environment, r: Request, till: nat)
    requires Timeline(w) && r.position <= till <= |w.tape|
  {
    LaterPositions(w, r.position, till);
    AllReceived(w, r.position, till) ==>
      var o := IngestAll(NewCollector(KindOf(r.dump), r.sequence, r.port), Datagrams(w, r.position, till), w.decode);
      o.error.None? && o.collector.done ==>
        && IsDump(o.collector.messages, r.dump, w.start, w.history, UptoAt(w, r.position), NowAt(w, till))
        && (Followable(w.rules, w.history, UptoAt(w, r.position), NowAt(w, till)) ==>
              IsRuleDump(o.collector.messages, r.dump, w.rules, w.history, UptoAt(w, r.position), NowAt(w, till)))
  }

  /** The kernel keeps its side: the tape follows the history and every dump asked for is answered. */
  ghost predicate Honest(w: Environment, requests: seq<Request>) {
    && Timeline(w)
    && forall r, till {:trigger Answers(w, r, till)} ::
         r in requests && r.position <= till <= |w.tape| ==> Answers(w, r, till)
  }

  lemma {:induction false} LaterPositions(w: Environment, from: nat, till: nat)
    requires Timeline(w) && from <= till <= |w.tape|
    ensures UptoAt(w, from) <= UptoAt(w, till) <= NowAt(w, till) <= |w.history|
    ensures UptoAt(w, from) <= NowAt(w, from) <= NowAt(w, till)
    decreases till
  {
    if till == 0 { return; }
    assert OnTime(w, till - 1);
    if from < till { LaterPositions(w, from, till - 1); } else if from > 0 { LaterPositions(w, from - 1, till - 1); }
  }

  lemma HonestEarlier(w: Environment, earlier: seq<Request>, later: seq<Request>)
    requires earlier <= later && Honest(w, later)
    ensures Honest(w, earlier)
  {
    forall r, till | r in earlier && r.position <= till <= |w.tape| ensures Answers(w, r, till) {
      assert r in later;
    }
  }

  // ---------------------------------------------------------------------------------------
  // What ingesting a faithful datagram adds.

  lemma {:induction false} OnlyReplyTiles(d: Bytes, groups: U32, decode: Decode)
    requires Tiles(d).Some? && RepliesOnly(d, groups)
    ensures Announced(Tiles(d).value, groups, decode) == []
    decreases |d|
  {
    hide IsNotification, Align4;
    if d == [] { return; }
    var length := NativeU32At(d, 0);
    var rest := d[Align4(length)..];
    OnlyReplyTiles(rest, groups, decode);
    assert ([d[..length]] + Tiles(rest).value)[1..] == Tiles(rest).value;
  }

  lemma {:induction false} OnlyNoticeTiles(d: Bytes, groups: U32)
    requires Tiles(d).Some? && NotificationsOnly(d, groups)
    ensures forall i :: 0 <= i < |Tiles(d).value| ==>
              |Tiles(d).value[i]| >= 16 && IsNotification(Tiles(d).value[i], groups)
    decreases |d|
  {
    hide IsNotification, Align4, TypeOf;
    if d == [] { return; }
    OnlyNoticeTiles(d[Align4(NativeU32At(d, 0))..], groups);
  }

  lemma MessagesAppend(a: seq<BufferedNotification>, b: seq<BufferedNotification>)
    ensures Normalize.Messages(a + b) == Normalize.Messages(a) + Normalize.Messages(b)
  {
  }

  /** An accepted datagram adds exactly the events it stands for. */
  lemma IngestDelta(w: Environment, c: Collector, d: Datagram, before: nat, after: nat)
    requires before <= after <= |w.history| && FaithfulDatagram(w, d, before, after)
    requires Ingest(c, d, w.decode).error.None?
    ensures Normalize.Messages(Ingest(c, d, w.decode).collector.notifications)
            == Normalize.Messages(c.notifications) + w.history[before..after]
  {
    hide Ingest, Announced, Replies, Tiles, RepliesOnly, NotificationsOnly, Terminates, IsNotification, WelcomeTo;
    IngestExact(c, d, w.decode);
    var tiles := Tiles(d.bytes).value;
    var r := Ingest(c, d, w.decode).collector;
    MessagesAppend(c.notifications, Announced(tiles, d.senderGroups, w.decode));
    if RepliesOnly(d.bytes, d.senderGroups) {
      OnlyReplyTiles(d.bytes, d.senderGroups, w.decode);
    } else {
      OnlyNoticeTiles(d.bytes, d.senderGroups);
      forall i | 0 <= i < |tiles| ensures w.decode(tiles[i]).Inner? {
        assert WelcomeTo(c, tiles[i], d.senderGroups, w.decode);
        NoticeInner(c, tiles[i], d.senderGroups, w.decode);
      }
    }
  }

  lemma NoticeInner(c: Collector, t: Bytes, groups: U32, decode: Decode)
    requires |t| >= 16 && IsNotification(t, groups) && WelcomeTo(c, t, groups, decode)
    ensures decode(t).Inner?
  {
  }

  predicate IsKernelError(e: Option<SnapshotError>) {
    e.Some? && e.value.Incomplete? && e.value.reason.KernelError?
  }

  /** A kernel error code can only come from a reply. */
  lemma {:induction false} NoticesHideNoKernelError(c: Collector, left: Bytes, groups: U32, decode: Decode)
    requires NotificationsOnly(left, groups)
    ensures !IsKernelError(Frames(c, left, groups, decode).error)
    decreases |left|
  {
    hide MessageStep, Align4, IsNotification, TypeOf;
    if |left| < 16 { return; }
    var length := NativeU32At(left, 0);
    if length < 16 || length > |left| { return; }
    var counted := c.(messageCount := c.messageCount + 1);
    var t := left[..length];
    NoticeStepError(counted, t, groups, decode);
    if Align4(length) <= |left| {
      NoticesHideNoKernelError(MessageStep(counted, t, groups, decode).collector, left[Align4(length)..], groups,
          decode);
    }
  }

  lemma NoticeStepError(c: Collector, t: Bytes, groups: U32, decode: Decode)
    requires |t| >= 16 && IsNotification(t, groups) && TypeOf(t) != NLMSG_ERROR
    ensures !IsKernelError(MessageStep(c, t, groups, decode).error)
  {
    hide Preflight.InnerMessage;
  }

  /** Replies leave the collected notifications alone, even when one of them fails. */
  lemma {:induction false} RepliesAnnounceNothing(c: Collector, left: Bytes, groups: U32, decode: Decode)
    requires RepliesOnly(left, groups)
    ensures Frames(c, left, groups, decode).collector.notifications == c.notifications
    decreases |left|
  {
    hide MessageStep, Align4, IsNotification;
    if |left| < 16 { return; }
    var length := NativeU32At(left, 0);
    if length < 16 || length > |left| { return; }
    var counted := c.(messageCount := c.messageCount + 1);
    var t := left[..length];
    ReplyStepNotifications(counted, t, groups, decode);
    if Align4(length) <= |left| {
      RepliesAnnounceNothing(MessageStep(counted, t, groups, decode).collector, left[Align4(length)..], groups, decode);
    }
  }

  lemma ReplyStepNotifications(c: Collector, t: Bytes, groups: U32, decode: Decode)
    requires |t| >= 16 && !IsNotification(t, groups)
    ensures MessageStep(c, t, groups, decode).collector.notifications == c.notifications
  {
    hide Preflight.InnerMessage;
  }

  /** A datagram that fails with a kernel error code accounts for no event and loses none. */
  lemma KernelErrorDelta(w: Environment, c: Collector, d: Datagram, before: nat, after: nat)
    requires before <= after <= |w.history| && FaithfulDatagram(w, d, before, after)
    requires IsKernelError(Ingest(c, d, w.decode).error)
    ensures after == before && Ingest(c, d, w.decode).collector.notifications == c.notifications
  {
    hide Frames, RepliesOnly, NotificationsOnly;
    var counted := c.(byteCount := c.byteCount + |d.bytes|);
    if NotificationsOnly(d.bytes, d.senderGroups) {
      NoticesHideNoKernelError(counted, d.bytes, d.senderGroups, w.decode);
    } else {
      RepliesAnnounceNothing(counted, d.bytes, d.senderGroups, w.decode);
    }
  }

  // ---------------------------------------------------------------------------------------
  // Where a kernel error code comes from.

  /** `t` is one of the messages framing can reach. */
  predicate Framed(left: Bytes, t: Bytes)
    decreases |left|
  {
    |left| >= 16 &&
    var length := NativeU32At(left, 0);
    16 <= length <= |left| &&
    (t == left[..length] || (Align4(length) <= |left| && Framed(left[Align4(length)..], t)))
  }

  /** The error code a message carries. */
  function KernelCode(p: Payload): Option<int> {
    match p
    case Done(code) => if code == 0 then None else Some(code)
    case ErrorReply(code) => code
    case _ => None
  }

  /** A reply to the request with this sequence number, or an error message that is none. */
  predicate AnswersOrErrs(t: Bytes, groups: U32, sequence: U32, port: U32) {
    && |t| >= 16
    && if IsNotification(t, groups) then TypeOf(t) == NLMSG_ERROR
       else SequenceOf(t) == sequence && (PortOf(t) == 0 || PortOf(t) == port)
  }

  lemma StepKernelError(c: Collector, m: Bytes, groups: U32, decode: Decode)
    requires |m| >= 16
    ensures var o := MessageStep(c, m, groups, decode);
            && (o.collector.expectedSequence, o.collector.localPort) == (c.expectedSequence, c.localPort)
            && (IsKernelError(o.error) ==>
                  && KernelCode(decode(m)) == Some(o.error.value.reason.code)
                  && AnswersOrErrs(m, groups, c.expectedSequence, c.localPort))
  {
    hide Preflight.InnerMessage, TypeOf, SequenceOf, PortOf, Multipart, Interrupted;
  }

  lemma {:induction false} FramesKernelError(c: Collector, left: Bytes, groups: U32, decode: Decode) returns (t: Bytes)
    requires IsKernelError(Frames(c, left, groups, decode).error)
    ensures Framed(left, t) && AnswersOrErrs(t, groups, c.expectedSequence, c.localPort)
    ensures KernelCode(decode(t)) == Some(Frames(c, left, groups, decode).error.value.reason.code)
    decreases |left|
  {
    hide MessageStep, Align4, AnswersOrErrs, NativeU32At, KernelCode;
    var length := NativeU32At(left, 0);
    var counted := c.(messageCount := c.messageCount + 1);
    t := left[..length];
    StepKernelError(counted, t, groups, decode);
    var step := MessageStep(counted, t, groups, decode);
    if step.error.None? { t := FramesKernelError(step.collector, left[Align4(length)..], groups, decode); }
  }

  lemma DatagramKernelError(c: Collector, d: Datagram, decode: Decode) returns (t: Bytes)
    requires IsKernelError(Ingest(c, d, decode).error)
    ensures d.senderPort == 0 && Framed(d.bytes, t)
    ensures AnswersOrErrs(t, d.senderGroups, c.expectedSequence, c.localPort)
    ensures KernelCode(decode(t)) == Some(Ingest(c, d, decode).error.value.reason.code)
  {
    hide Frames, AnswersOrErrs, KernelCode, Framed;
    t := FramesKernelError(c.(byteCount := c.byteCount + |d.bytes|), d.bytes, d.senderGroups, decode);
  }

  lemma {:induction false} FramedAmongReplies(left: Bytes, groups: U32, t: Bytes)
    requires Framed(left, t) && RepliesOnly(left, groups)
    ensures |t| >= 16 && !IsNotification(t, groups)
    decreases |left|
  {
    hide Align4, NativeU32At, IsNotification;
    var length := NativeU32At(left, 0);
    if t != left[..length] { FramedAmongReplies(left[Align4(length)..], groups, t); }
  }

  /** In a faithful datagram that fails with a kernel error code, every message is a reply. */
  lemma FramedReply(w: Environment, c: Collector, d: Datagram, before: nat, after: nat, t: Bytes)
    requires before <= after <= |w.history| && FaithfulDatagram(w, d, before, after)
    requires IsKernelError(Ingest(c, d, w.decode).error) && Framed(d.bytes, t)
    ensures |t| >= 16 && !IsNotification(t, d.senderGroups)
  {
    hide Frames, RepliesOnly, NotificationsOnly, Framed;
    if NotificationsOnly(d.bytes, d.senderGroups) {
      NoticesHideNoKernelError(c.(byteCount := c.byteCount + |d.bytes|), d.bytes, d.senderGroups, w.decode);
    } else {
      FramedAmongReplies(d.bytes, d.senderGroups, t);
    }
  }
}
