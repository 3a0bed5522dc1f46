/** Framing of netlink datagrams and the split of replies from notifications
    (crates/nodenet-linux-context/src/decoder.rs).

    Decoding of a framed message into its payload is third-party code; it is the parameter `decode`. */
module Decoder {
  import opened Wire
  import opened SnapshotErrors
  import opened Records
  import Preflight

  const MAX_NETLINK_DATAGRAM_BYTES: nat := 1048576
  const MAX_DUMP_BYTES: nat := 64 * 1048576
  const MAX_MESSAGES_PER_DUMP: nat := 65536
  const MAX_BUFFERED_NOTIFICATIONS: nat := 8192
  const MAX_BUFFERED_NOTIFICATION_BYTES: nat := 8 * 1048576

  const NLMSG_NOOP: U16 := 1
  const NLMSG_ERROR: U16 := 2
  const NLMSG_DONE: U16 := 3
  const NLMSG_OVERRUN: U16 := 4
  const ENOBUFS: int := 105

  datatype Payload =
    | Done(code: int)
    | ErrorReply(errorCode: Option<int>)
    | Noop
    | OverrunPayload
    | Inner(message: Message)
    | OtherPayload
    | Undecodable

  type Decode = Bytes -> Payload

  /** One received datagram with the sender information of its socket address. */
  datatype Datagram = Datagram(bytes: Bytes, senderPort: U32, senderGroups: U32)

  /** The contents of a `DumpCollector`. */
  datatype Collector = Collector(
    kind: Preflight.DumpKind,
    expectedSequence: U32,
    localPort: U32,
    messageCount: nat,
    byteCount: nat,
    ignoredNotifications: nat,
    done: bool,
    sawSingleResponse: bool,
    messages: seq<Message>,
    notifications: seq<BufferedNotification>,
    notificationBytes: nat)

  function NewCollector(kind: Preflight.DumpKind, sequence: U32, port: U32): Collector {
    Collector(kind, sequence, port, 0, 0, 0, false, false, [], [], 0)
  }

  /** The bytes of buffered notifications. */
  function SumBytes(ns: seq<BufferedNotification>): nat {
    if ns == [] then 0 else SumBytes(ns[..|ns| - 1]) + ns[|ns| - 1].bytes
  }

  lemma {:induction false} SumMonotone(ns: seq<BufferedNotification>, i: nat)
    requires i <= |ns|
    ensures SumBytes(ns[..i]) <= SumBytes(ns)
    decreases |ns|
  {
    if i == |ns| {
      assert ns[..i] == ns;
    } else {
      SumMonotone(ns[..|ns| - 1], i);
      assert ns[..|ns| - 1][..i] == ns[..i];
    }
  }

  lemma {:induction false} SumAppend(a: seq<BufferedNotification>, b: seq<BufferedNotification>)
    ensures SumBytes(a + b) == SumBytes(a) + SumBytes(b)
    decreases |b|
  {
    if b == [] {
      assert a + b == a;
    } else {
      SumAppend(a, b[..|b| - 1]);
      assert (a + b)[..|a + b| - 1] == a + b[..|b| - 1];
    }
  }

  /** The collector after a step, and the error that ended it, if any. */
  datatype Outcome = Outcome(collector: Collector, error: Option<SnapshotError>)

  function Fail(c: Collector, e: SnapshotError): Outcome { Outcome(c, Some(e)) }

  function TypeOf(m: Bytes): U16
    requires |m| >= 16
  {
    NativeU16At(m, 4)
  }

  predicate Interrupted(m: Bytes)
    requires |m| >= 16
  {
    NativeU16At(m, 6) / 0x10 % 2 == 1
  }

  predicate Multipart(m: Bytes)
    requires |m| >= 16
  {
    NativeU16At(m, 6) / 2 % 2 == 1
  }

  function SequenceOf(m: Bytes): U32
    requires |m| >= 16
  {
    NativeU32At(m, 8)
  }

  function PortOf(m: Bytes): U32
    requires |m| >= 16
  {
    NativeU32At(m, 12)
  }

  /** Multicast, or sent without a request of ours. */
  predicate IsNotification(m: Bytes, groups: U32)
    requires |m| >= 16
  {
    SequenceOf(m) == 0 || groups != 0
  }

  /** `ingest_notification`. */
  function NotificationStep(c: Collector, m: Bytes, decode: Decode): Outcome
    requires |m| >= 16
  {
    var messageType := TypeOf(m);
    if messageType == NLMSG_OVERRUN then Fail(c, MakeIncomplete(Overrun))
    else if messageType == NLMSG_ERROR then
      (match decode(m)
       case Undecodable => Fail(c, SnapshotError.Decode)
       case ErrorReply(Some(code)) => Fail(c, MakeIncomplete(KernelError(code)))
       case _ => Fail(c, MakeIncomplete(UnexpectedMessage)))
    else
      match Preflight.FromNotificationType(messageType)
      case None => Fail(c, MakeIncomplete(UnexpectedMessage))
      case Some(kind) =>
        match Preflight.InnerMessage(m, kind)
        case Err(e) => Fail(c, e)
        case Ok(_) =>
          match decode(m)
          case Undecodable => Fail(c, SnapshotError.Decode)
          case Inner(message) =>
            var total := c.notificationBytes + |m|;
            if total > MAX_BUFFERED_NOTIFICATION_BYTES then
              Fail(c, LimitExceeded(BufferedNotificationBytes, total, MAX_BUFFERED_NOTIFICATION_BYTES))
            else if |c.notifications| == MAX_BUFFERED_NOTIFICATIONS then
              Fail(c, LimitExceeded(BufferedNotifications, |c.notifications| + 1, MAX_BUFFERED_NOTIFICATIONS))
            else
              Outcome(c.(notificationBytes := total,
                         notifications := c.notifications + [BufferedNotification(message, |m|)]), None)
          case _ => Fail(c, MakeIncomplete(UnexpectedMessage))
  }

  /** A message that answers our request. */
  function ReplyStep(c: Collector, m: Bytes, decode: Decode): Outcome
    requires |m| >= 16
  {
    var messageType, response := TypeOf(m), Preflight.ResponseType(c.kind);
    if SequenceOf(m) != c.expectedSequence then Fail(c, MakeIncomplete(SequenceMismatch))
    else if PortOf(m) != 0 && PortOf(m) != c.localPort then Fail(c, MakeIncomplete(HeaderPortMismatch))
    else if messageType !in {NLMSG_DONE, NLMSG_ERROR, NLMSG_NOOP, NLMSG_OVERRUN} && messageType != response then
      Fail(c, MakeIncomplete(UnexpectedMessage))
    else if messageType == response && Preflight.InnerMessage(m, c.kind).Err? then
      Fail(c, Preflight.InnerMessage(m, c.kind).error)
    else
      var d := if messageType == response && !Multipart(m) then c.(sawSingleResponse := true) else c;
      match decode(m)
      case Undecodable => Fail(d, SnapshotError.Decode)
      case Done(code) =>
        if code != 0 then Fail(d, MakeIncomplete(KernelError(code))) else Outcome(d.(done := true), None)
      case ErrorReply(None) => Outcome(d, None)
      case ErrorReply(Some(code)) =>
        Fail(d, MakeIncomplete(if code == -ENOBUFS then ReceiveBufferOverflow else KernelError(code)))
      case Noop => Outcome(d, None)
      case OverrunPayload => Fail(d, MakeIncomplete(Overrun))
      case Inner(message) => Outcome(d.(messages := d.messages + [message]), None)
      case OtherPayload => Fail(d, MakeIncomplete(UnexpectedMessage))
  }

  /** `ingest_message`. */
  function MessageStep(c: Collector, m: Bytes, groups: U32, decode: Decode): Outcome
    requires |m| >= 16
  {
    if Interrupted(m) then Fail(c, MakeIncomplete(DumpInterrupted))
    else if IsNotification(m, groups) then
      NotificationStep(c.(ignoredNotifications := c.ignoredNotifications + 1), m, decode)
    else ReplyStep(c, m, decode)
  }

  /** The framing loop on what is left of a datagram. */
  function Frames(c: Collector, left: Bytes, groups: U32, decode: Decode): Outcome
    decreases |left|
  {
    if left == [] then Outcome(c, None)
    else if |left| < 16 then Fail(c, SnapshotError.Decode)
    else
      var length := NativeU32At(left, 0);
      if length < 16 || length > |left| then Fail(c, SnapshotError.Decode)
      else
        var counted := c.(messageCount := c.messageCount + 1);
        if counted.messageCount > MAX_MESSAGES_PER_DUMP then
          Fail(counted, LimitExceeded(DumpMessages, counted.messageCount, MAX_MESSAGES_PER_DUMP))
        else
          var step := MessageStep(counted, left[..length], groups, decode);
          if step.error.Some? then step
          else if Align4(length) > |left| then Fail(step.collector, SnapshotError.Decode)
          else if step.collector.done && Align4(length) != |left| then
            Fail(step.collector, MakeIncomplete(UnexpectedMessage))
          else Frames(step.collector, left[Align4(length)..], groups, decode)
  }

  /** `ingest_datagram`. */
  function Ingest(c: Collector, d: Datagram, decode: Decode): Outcome {
    if c.done then Fail(c, MakeIncomplete(UnexpectedMessage))
    else if |d.bytes| > MAX_NETLINK_DATAGRAM_BYTES then
      Fail(c, LimitExceeded(DatagramBytes, |d.bytes|, MAX_NETLINK_DATAGRAM_BYTES))
    else
      var counted := c.(byteCount := c.byteCount + |d.bytes|);
      if counted.byteCount > MAX_DUMP_BYTES then
        Fail(counted, LimitExceeded(DumpBytes, counted.byteCount, MAX_DUMP_BYTES))
      else if d.senderPort != 0 then Fail(counted, MakeIncomplete(SenderNotKernel))
      else Frames(counted, d.bytes, d.senderGroups, decode)
  }

  /** Datagram after datagram, stopping at the first error. */
  function IngestAll(c: Collector, ds: seq<Datagram>, decode: Decode): Outcome {
    if ds == [] then Outcome(c, None)
    else
      var before := IngestAll(c, ds[..|ds| - 1], decode);
      if before.error.Some? then before else Ingest(before.collector, ds[|ds| - 1], decode)
  }

  // ---------------------------------------------------------------------------------------
  // What an error-free collection has collected.

  /** The messages of a datagram: each starts with its length and is padded to four bytes. */
  function Tiles(d: Bytes): Option<seq<Bytes>>
    decreases |d|
  {
    if d == [] then Some([])
    else if |d| < 16 then None
    else
      var length := NativeU32At(d, 0);
      if length < 16 || Align4(length) > |d| then None
      else
        match Tiles(d[Align4(length)..])
        case None => None
        case Some(rest) => Some([d[..length]] + rest)
  }

  /** Messages laid end to end with their padding. */
  function Weave(tiles: seq<Bytes>, padding: seq<Bytes>): Bytes
    requires |tiles| == |padding|
  {
    if tiles == [] then [] else tiles[0] + padding[0] + Weave(tiles[1..], padding[1..])
  }

  /** Tiles cover a datagram exactly, leaving only alignment padding between them. */
  lemma {:induction false} TilesExact(d: Bytes) returns (padding: seq<Bytes>)
    requires Tiles(d).Some?
    ensures var ts := Tiles(d).value;
            && |ts| == |padding|
            && (forall i :: 0 <= i < |ts| ==> |ts[i]| >= 16 && NativeU32At(ts[i], 0) == |ts[i]|
                                              && |ts[i]| + |padding[i]| == Align4(|ts[i]|))
            && Weave(ts, padding) == d
    decreases |d|
  {
    if d == [] { return []; }
    var length := NativeU32At(d, 0);
    var rest := TilesExact(d[Align4(length)..]);
    padding := [d[length..Align4(length)]] + rest;
    var ts := Tiles(d).value;
    assert ts[1..] == Tiles(d[Align4(length)..]).value && padding[1..] == rest;
    assert d == d[..length] + d[length..Align4(length)] + d[Align4(length)..];
    assert ts[0][0..4] == d[0..4];
    forall i | 0 <= i < |ts|
      ensures |ts[i]| >= 16 && NativeU32At(ts[i], 0) == |ts[i]| && |ts[i]| + |padding[i]| == Align4(|ts[i]|)
    {
      if i > 0 { assert ts[i] == ts[1..][i - 1] && padding[i] == rest[i - 1]; }
    }
  }

  function ReplyOf(t: Bytes, groups: U32, decode: Decode): seq<Message> {
    if |t| >= 16 && !IsNotification(t, groups) && decode(t).Inner? then [decode(t).message] else []
  }

  function AnnouncedBy(t: Bytes, groups: U32, decode: Decode): seq<BufferedNotification> {
    if |t| >= 16 && IsNotification(t, groups) && decode(t).Inner?
    then [BufferedNotification(decode(t).message, |t|)] else []
  }

  /** The inner messages among the replies, in order. */
  function Replies(tiles: seq<Bytes>, groups: U32, decode: Decode): seq<Message> {
    if tiles == [] then [] else ReplyOf(tiles[0], groups, decode) + Replies(tiles[1..], groups, decode)
  }

  /** The notifications, in order, with their sizes. */
  function Announced(tiles: seq<Bytes>, groups: U32, decode: Decode): seq<BufferedNotification> {
    if tiles == [] then [] else AnnouncedBy(tiles[0], groups, decode) + Announced(tiles[1..], groups, decode)
  }

  /** A reply that ends the dump. */
  predicate Terminates(t: Bytes, groups: U32, decode: Decode) {
    |t| >= 16 && !IsNotification(t, groups) && decode(t).Done?
  }

  // ---------------------------------------------------------------------------------------
  // Messages that are accepted, by their bytes.

  /** The message type that answers a dump; the deletion of such a record has the next number. */
  function NewType(kind: Preflight.DumpKind): nat {
    match kind
    case Link => 16
    case Address => 20
    case Route => 24
    case Neighbor => 28
    case Rule => 32
  }

  /** Behind both headers there is an attribute forest within the limits. */
  ghost predicate Described(t: Bytes, kind: Preflight.DumpKind) {
    var offset := 16 + Preflight.FixedHeaderLength(kind);
    |t| >= offset && exists f :: Preflight.Describes(f, t[offset..], kind, 0, 0)
  }

  /** No message may carry the flag of an interrupted dump. A message without sequence number, or one that was
      multicast, announces the arrival or the removal of a record. Any other answers our request: it has our
      sequence number, names no port or ours, and either carries a record of the kind that was asked for or is a
      control message without an error code. */
  ghost predicate Welcome(t: Bytes, groups: U32, kind: Preflight.DumpKind, sequence: U32, port: U32, decode: Decode) {
    && |t| >= 16 && t[6] / 16 % 2 == 0
    && var messageType := LittleEndian(t[4..6]);
    if LittleEndian(t[8..12]) == 0 || groups != 0 then
      decode(t).Inner? && exists k :: (messageType == NewType(k) || messageType == NewType(k) + 1) && Described(t, k)
    else
      && LittleEndian(t[8..12]) == sequence && (LittleEndian(t[12..16]) == 0 || LittleEndian(t[12..16]) == port)
      && ((messageType == NewType(kind) && Described(t, kind)) || messageType in {1, 2, 3, 4})
      && (decode(t).Inner? || decode(t).Noop? || decode(t) == Payload.Done(0) || decode(t) == ErrorReply(None))
  }

  ghost predicate WelcomeTo(c: Collector, t: Bytes, groups: U32, decode: Decode) {
    Welcome(t, groups, c.kind, c.expectedSequence, c.localPort, decode)
  }

  lemma InterruptedBit(t: Bytes)
    requires |t| >= 16
    ensures Interrupted(t) <==> t[6] / 16 % 2 == 1
  {
    hide LittleEndian;
    LittlePair(t[6..8]);
    LowBits(t[7], t[6]);
  }

  /** A high byte does not touch the bits of the low one. */
  lemma LowBits(hi: Byte, lo: Byte)
    ensures Pair(hi, lo) / 16 % 2 == lo / 16 % 2 && Pair(hi, lo) / 2 % 2 == lo / 2 % 2
  {
    SixteenFold(hi * 16 + lo / 16, lo % 16);
    Parity(hi * 8, lo / 16);
    TwoFold(hi * 128 + lo / 2, lo % 2);
    Parity(hi * 64, lo / 2);
  }

  lemma SixteenFold(q: nat, r: nat)
    requires r < 16
    ensures (16 * q + r) / 16 == q
  {
  }

  lemma TwoFold(q: nat, r: nat)
    requires r < 2
    ensures (2 * q + r) / 2 == q
  {
  }

  lemma Parity(x: nat, q: nat)
    ensures (2 * x + q) % 2 == q % 2
  {
  }

  lemma NoticeKinds(messageType: U16)
    ensures var k := Preflight.FromNotificationType(messageType);
            if k.Some? then
              && (messageType == NewType(k.value) || messageType == NewType(k.value) + 1)
              && forall j :: messageType == NewType(j) || messageType == NewType(j) + 1 ==> j == k.value
            else forall j :: messageType != NewType(j) && messageType != NewType(j) + 1
  {
  }

  lemma PreflightDescribed(t: Bytes, kind: Preflight.DumpKind)
    ensures Preflight.InnerMessage(t, kind).Ok? <==> Described(t, kind)
  {
    hide Preflight.InnerMessage, Preflight.Describes;
    Preflight.PreflightExact(t, kind);
  }

  lemma NoticeWelcome(t: Bytes, groups: U32, c: Collector, decode: Decode)
    requires |t| >= 16 && IsNotification(t, groups) && !Interrupted(t)
    ensures WelcomeTo(c, t, groups, decode) <==>
            && decode(t).Inner? && Preflight.FromNotificationType(TypeOf(t)).Some?
            && Preflight.InnerMessage(t, Preflight.FromNotificationType(TypeOf(t)).value).Ok?
  {
    hide Preflight.InnerMessage, Described, LittleEndian, Interrupted;
    InterruptedBit(t);
    NoticeKinds(TypeOf(t));
    if Preflight.FromNotificationType(TypeOf(t)).Some? {
      PreflightDescribed(t, Preflight.FromNotificationType(TypeOf(t)).value);
    }
  }

  lemma ReplyWelcome(t: Bytes, groups: U32, c: Collector, decode: Decode)
    requires |t| >= 16 && !IsNotification(t, groups) && !Interrupted(t)
    ensures WelcomeTo(c, t, groups, decode) <==>
            && SequenceOf(t) == c.expectedSequence && (PortOf(t) == 0 || PortOf(t) == c.localPort)
            && (TypeOf(t) in {NLMSG_DONE, NLMSG_ERROR, NLMSG_NOOP, NLMSG_OVERRUN}
                || (TypeOf(t) == Preflight.ResponseType(c.kind) && Preflight.InnerMessage(t, c.kind).Ok?))
            && (decode(t).Inner? || decode(t).Noop? || decode(t) == Payload.Done(0) || decode(t) == ErrorReply(None))
  {
    hide Preflight.InnerMessage, Described, LittleEndian, Interrupted;
    InterruptedBit(t);
    PreflightDescribed(t, c.kind);
  }

  /** The collector after an accepted message. */
  function Stored(c: Collector, t: Bytes, groups: U32, decode: Decode): Collector
    requires |t| >= 16
  {
    if IsNotification(t, groups) then
      c.(ignoredNotifications := c.ignoredNotifications + 1, notificationBytes := c.notificationBytes + |t|,
         notifications := c.notifications + AnnouncedBy(t, groups, decode))
    else
      c.(done := c.done || Terminates(t, groups, decode),
         sawSingleResponse := c.sawSingleResponse || Single(t, c.kind),
         messages := c.messages + ReplyOf(t, groups, decode))
  }

  /** A record of the kind that was asked for, not marked as one of several. */
  predicate Single(t: Bytes, kind: Preflight.DumpKind)
    requires |t| >= 16
  {
    LittleEndian(t[4..6]) == NewType(kind) && t[6] / 2 % 2 == 0
  }

  lemma MultipartBit(t: Bytes)
    requires |t| >= 16
    ensures Multipart(t) <==> t[6] / 2 % 2 == 1
  {
    hide LittleEndian;
    LittlePair(t[6..8]);
    LowBits(t[7], t[6]);
  }

  /** A message is accepted exactly if it is welcome and, as a notification, finds room. */
  lemma StepAccepts(c: Collector, t: Bytes, groups: U32, decode: Decode)
    requires |t| >= 16
    ensures MessageStep(c, t, groups, decode).error.None? <==>
            && WelcomeTo(c, t, groups, decode)
            && (IsNotification(t, groups) ==>
                  c.notificationBytes + |t| <= MAX_BUFFERED_NOTIFICATION_BYTES
                  && |c.notifications| != MAX_BUFFERED_NOTIFICATIONS)
    ensures MessageStep(c, t, groups, decode).error.None? ==>
              MessageStep(c, t, groups, decode).collector == Stored(c, t, groups, decode)
  {
    hide Preflight.InnerMessage, Welcome, SequenceOf, TypeOf, PortOf, Multipart, IsNotification, Interrupted;
    InterruptedBit(t);
    MultipartBit(t);
    if Interrupted(t) {
      NotWelcome(t, groups, c.kind, c.expectedSequence, c.localPort, decode);
    } else if IsNotification(t, groups) {
      NoticeWelcome(t, groups, c, decode);
      ControlTypes(TypeOf(t));
    } else {
      ReplyWelcome(t, groups, c, decode);
      SingleType(t, c.kind);
    }
  }

  lemma SingleType(t: Bytes, kind: Preflight.DumpKind)
    requires |t| >= 16
    ensures TypeOf(t) == Preflight.ResponseType(kind) <==> LittleEndian(t[4..6]) == NewType(kind)
  {
    hide LittleEndian;
  }

  lemma ControlTypes(messageType: U16)
    ensures messageType in {NLMSG_ERROR, NLMSG_OVERRUN} ==> Preflight.FromNotificationType(messageType).None?
  {
  }

  lemma NotWelcome(t: Bytes, groups: U32, kind: Preflight.DumpKind, sequence: U32, port: U32, decode: Decode)
    requires |t| >= 16 && t[6] / 16 % 2 == 1
    ensures !Welcome(t, groups, kind, sequence, port, decode)
  {
  }

  /** Which message is refused for what, the flag of an interrupted dump before all else. */
  lemma RefusalsExact(c: Collector, t: Bytes, groups: U32, decode: Decode)
    requires |t| >= 16
    ensures var e, ours := MessageStep(c, t, groups, decode).error, t[6] / 16 % 2 == 0 && !IsNotification(t, groups);
            var sequence, port := LittleEndian(t[8..12]), LittleEndian(t[12..16]);
            && (e == Some(MakeIncomplete(DumpInterrupted)) <==> t[6] / 16 % 2 == 1)
            && (e == Some(MakeIncomplete(SequenceMismatch)) <==> ours && sequence != c.expectedSequence)
            && (e == Some(MakeIncomplete(HeaderPortMismatch)) <==>
                ours && sequence == c.expectedSequence && port != 0 && port != c.localPort)
  {
    hide Preflight.InnerMessage, LittleEndian, Multipart, Interrupted;
    InterruptedBit(t);
  }

  // ---------------------------------------------------------------------------------------
  // What a collection holds.

  /** What one accepted message does to the collector. */
  ghost predicate Accepted(c: Collector, r: Collector, t: Bytes, groups: U32, decode: Decode) {
    && |t| >= 16
    && r.messages == c.messages + ReplyOf(t, groups, decode)
    && r.notifications == c.notifications + AnnouncedBy(t, groups, decode)
    && r.done == Terminates(t, groups, decode)
    && (r.kind, r.expectedSequence, r.localPort) == (c.kind, c.expectedSequence, c.localPort)
    && WelcomeTo(c, t, groups, decode)
  }

  lemma MessageStepExact(c: Collector, t: Bytes, groups: U32, decode: Decode)
    requires |t| >= 16 && !c.done && MessageStep(c, t, groups, decode).error.None?
    ensures Accepted(c, MessageStep(c, t, groups, decode).collector, t, groups, decode)
  {
    hide Preflight.InnerMessage, SequenceOf, TypeOf, Multipart, PortOf, Interrupted, Welcome;
    StepAccepts(c, t, groups, decode);
  }

  /** After `tiles` the collector holds everything they answered and announced, in order. Only the last
      of them can have ended the dump. */
  ghost predicate Collected(c: Collector, r: Collector, tiles: seq<Bytes>, groups: U32, decode: Decode) {
    && r.messages == c.messages + Replies(tiles, groups, decode)
    && r.notifications == c.notifications + Announced(tiles, groups, decode)
    && (r.kind, r.expectedSequence, r.localPort) == (c.kind, c.expectedSequence, c.localPort)
    && (r.done <==> tiles != [] && Terminates(tiles[|tiles| - 1], groups, decode))
    && (forall i :: 0 <= i < |tiles| - 1 ==> !Terminates(tiles[i], groups, decode))
    && (forall i :: 0 <= i < |tiles| ==> WelcomeTo(c, tiles[i], groups, decode))
  }

  lemma CollectedStep(c: Collector, m: Collector, r: Collector, t: Bytes, rest: seq<Bytes>, groups: U32, decode: Decode)
    requires Accepted(c, m, t, groups, decode)
    requires if m.done then r == m && rest == [] else Collected(m, r, rest, groups, decode)
    ensures Collected(c, r, [t] + rest, groups, decode)
  {
    hide ReplyOf, AnnouncedBy, SequenceOf, Welcome;
    var ts := [t] + rest;
    assert ts[0] == t && ts[1..] == rest;
    assert Replies(ts, groups, decode) == ReplyOf(t, groups, decode) + Replies(rest, groups, decode);
    assert Announced(ts, groups, decode) == AnnouncedBy(t, groups, decode) + Announced(rest, groups, decode);
    forall i | 0 <= i < |ts| ensures WelcomeTo(c, ts[i], groups, decode) {
      if i > 0 { assert ts[i] == rest[i - 1]; }
    }
    forall i | 0 <= i < |ts| - 1 ensures !Terminates(ts[i], groups, decode) {
      if i > 0 { assert ts[i] == rest[i - 1]; }
    }
  }

  lemma {:induction false} FramesExact(c: Collector, left: Bytes, groups: U32, decode: Decode)
    requires !c.done && Frames(c, left, groups, decode).error.None?
    ensures Tiles(left).Some?
    ensures Collected(c, Frames(c, left, groups, decode).collector, Tiles(left).value, groups, decode)
    decreases |left|
  {
    hide MessageStep, Collected, Accepted, Align4;
    if left == [] {
      EmptyCollected(c, groups, decode);
      return;
    }
    var length := NativeU32At(left, 0);
    var t, rest := left[..length], left[Align4(length)..];
    var counted := c.(messageCount := c.messageCount + 1);
    var m := MessageStep(counted, t, groups, decode).collector;
    MessageStepExact(counted, t, groups, decode);
    CountIrrelevant(c, counted, m, t, groups, decode);
    if !m.done { FramesExact(m, rest, groups, decode); }
    CollectedStep(c, m, Frames(m, rest, groups, decode).collector, t,
                  if m.done then [] else Tiles(rest).value, groups, decode);
  }

  lemma EmptyCollected(c: Collector, groups: U32, decode: Decode)
    requires !c.done
    ensures Collected(c, c, [], groups, decode)
  {
  }

  /** The counters play no part in what is collected. */
  lemma CountIrrelevant(c: Collector, d: Collector, m: Collector, t: Bytes, groups: U32, decode: Decode)
    requires d == c.(messageCount := d.messageCount) && Accepted(d, m, t, groups, decode)
    ensures Accepted(c, m, t, groups, decode)
  {
  }

  lemma IngestExact(c: Collector, d: Datagram, decode: Decode)
    requires Ingest(c, d, decode).error.None?
    ensures !c.done && d.senderPort == 0 && Tiles(d.bytes).Some?
    ensures Collected(c, Ingest(c, d, decode).collector, Tiles(d.bytes).value, d.senderGroups, decode)
  {
    hide Frames, Replies, Announced;
    FramesExact(c.(byteCount := c.byteCount + |d.bytes|), d.bytes, d.senderGroups, decode);
  }

  function TilesOf(d: Datagram): seq<Bytes> {
    if Tiles(d.bytes).Some? then Tiles(d.bytes).value else []
  }

  function AllReplies(ds: seq<Datagram>, decode: Decode): seq<Message> {
    if ds == [] then []
    else AllReplies(ds[..|ds| - 1], decode) + Replies(TilesOf(ds[|ds| - 1]), ds[|ds| - 1].senderGroups, decode)
  }

  function AllAnnounced(ds: seq<Datagram>, decode: Decode): seq<BufferedNotification> {
    if ds == [] then []
    else AllAnnounced(ds[..|ds| - 1], decode) + Announced(TilesOf(ds[|ds| - 1]), ds[|ds| - 1].senderGroups, decode)
  }

  /** The last message of the datagram is a reply that ends the dump. */
  predicate EndsDump(d: Datagram, decode: Decode) {
    var ts := TilesOf(d);
    ts != [] && Terminates(ts[|ts| - 1], d.senderGroups, decode)
  }

  /** An error-free collection over any sequence of datagrams: every datagram tiles exactly and comes
      from the kernel, replies and notifications are kept apart in order of arrival without loss, and
      the dump ends with the very last message or not at all. */
  lemma {:induction false} CollectionExact(kind: Preflight.DumpKind, sequence: U32, port: U32, ds: seq<Datagram>,
      decode: Decode)
    requires IngestAll(NewCollector(kind, sequence, port), ds, decode).error.None?
    ensures var r := IngestAll(NewCollector(kind, sequence, port), ds, decode).collector;
            && r.messages == AllReplies(ds, decode)
            && r.notifications == AllAnnounced(ds, decode)
            && (Finished(r).Ok? <==> r.done)
            && (r.done ==> Finished(r) == Ok((AllReplies(ds, decode), AllAnnounced(ds, decode))))
            && (r.kind, r.expectedSequence, r.localPort) == (kind, sequence, port)
            && (r.done <==> ds != [] && EndsDump(ds[|ds| - 1], decode))
            && (forall i :: 0 <= i < |ds| ==> ds[i].senderPort == 0 && Tiles(ds[i].bytes).Some?)
            && (forall i :: 0 <= i < |ds| - 1 ==> !EndsDump(ds[i], decode))
            && (forall i, j :: 0 <= i < |ds| && 0 <= j < |TilesOf(ds[i])| ==>
                  Welcome(TilesOf(ds[i])[j], ds[i].senderGroups, kind, sequence, port, decode))
    decreases |ds|
  {
    hide Ingest, Replies, Announced, Terminates, Welcome, Tiles;
    if ds == [] { return; }
    var init, last := ds[..|ds| - 1], ds[|ds| - 1];
    CollectionExact(kind, sequence, port, init, decode);
    var before := IngestAll(NewCollector(kind, sequence, port), init, decode).collector;
    IngestExact(before, last, decode);
    forall i | 0 <= i < |ds| - 1 ensures ds[i] == init[i] { }
  }

  /** The framing function on the datagram from `offset` on, one message at a time. */
  lemma FrameAt(c: Collector, datagram: Bytes, offset: nat, groups: U32, decode: Decode)
    requires offset <= |datagram|
    ensures Frames(c, datagram[offset..], groups, decode) ==
            if offset == |datagram| then Outcome(c, None)
            else if |datagram| - offset < 16 then Fail(c, SnapshotError.Decode)
            else
              var length := NativeU32At(datagram, offset);
              if length < 16 || offset + length > |datagram| then Fail(c, SnapshotError.Decode)
              else
                var counted := c.(messageCount := c.messageCount + 1);
                if counted.messageCount > MAX_MESSAGES_PER_DUMP then
                  Fail(counted, LimitExceeded(DumpMessages, counted.messageCount, MAX_MESSAGES_PER_DUMP))
                else
                  var step := MessageStep(counted, datagram[offset..offset + length], groups, decode);
                  if step.error.Some? then step
                  else if offset + Align4(length) > |datagram| then Fail(step.collector, SnapshotError.Decode)
                  else if step.collector.done && offset + Align4(length) != |datagram| then
                    Fail(step.collector, MakeIncomplete(UnexpectedMessage))
                  else Frames(step.collector, datagram[offset + Align4(length)..], groups, decode)
  {
    hide MessageStep, Align4;
    var left := datagram[offset..];
    if |left| >= 16 {
      var length := NativeU32At(left, 0);
      assert left[0..4] == datagram[offset..offset + 4];
      if 16 <= length <= |left| {
        assert left[..length] == datagram[offset..offset + length];
        if Align4(length) <= |left| {
          assert left[Align4(length)..] == datagram[offset + Align4(length)..];
        }
      }
    }
  }

  /** `finish`. */
  function Finished(c: Collector): Result<(seq<Message>, seq<BufferedNotification>), SnapshotError> {
    if c.done then Ok((c.messages, c.notifications)) else Err(MakeIncomplete(MissingTerminator))
  }

  /** `finish_query`. */
  function FinishedQuery(c: Collector): Result<(seq<Message>, seq<BufferedNotification>), SnapshotError> {
    if !c.done && !c.sawSingleResponse then Err(MakeIncomplete(MissingTerminator))
    else if |c.messages| != 1 then Err(MakeIncomplete(UnexpectedMessage))
    else Ok((c.messages, c.notifications))
  }

  // ---------------------------------------------------------------------------------------
  // The collector as the mutable object of the source.

  class DumpCollector {
    const decode: Decode
    const kind: Preflight.DumpKind
    const expectedSequence: U32
    const localPort: U32
    var messageCount: nat
    var byteCount: nat
    var ignoredNotifications: nat
    var done: bool
    var sawSingleResponse: bool
    var messages: seq<Message>
    var notifications: seq<BufferedNotification>
    var notificationBytes: nat

    function State(): Collector
      reads this
    {
      Collector(kind, expectedSequence, localPort, messageCount, byteCount, ignoredNotifications, done,
                sawSingleResponse, messages, notifications, notificationBytes)
    }

    constructor (decode: Decode, kind: Preflight.DumpKind, sequence: U32, port: U32)
      ensures State() == NewCollector(kind, sequence, port) && this.decode == decode
    {
      this.decode, this.kind, expectedSequence, localPort := decode, kind, sequence, port;
      messageCount, byteCount, ignoredNotifications := 0, 0, 0;
      done, sawSingleResponse := false, false;
      messages, notifications, notificationBytes := [], [], 0;
    }

    method IngestNotification(m: Bytes) returns (e: Option<SnapshotError>)
      requires |m| >= 16
      modifies this
      ensures Outcome(State(), e) == NotificationStep(old(State()), m, decode)
    {
      var messageType := TypeOf(m);
      if messageType == NLMSG_OVERRUN { return Some(MakeIncomplete(Overrun)); }
      if messageType == NLMSG_ERROR {
        match decode(m) {
          case Undecodable => return Some(SnapshotError.Decode);
          case ErrorReply(Some(code)) => return Some(MakeIncomplete(KernelError(code)));
          case _ => return Some(MakeIncomplete(UnexpectedMessage));
        }
      }
      var noticeKind := Preflight.FromNotificationType(messageType);
      if noticeKind.None? { return Some(MakeIncomplete(UnexpectedMessage)); }
      var valid := Preflight.ValidateInnerMessage(m, noticeKind.value);
      if valid.Err? { return Some(valid.error); }
      var payload := decode(m);
      if payload.Undecodable? { return Some(SnapshotError.Decode); }
      if !payload.Inner? { return Some(MakeIncomplete(UnexpectedMessage)); }
      var total := notificationBytes + |m|;
      if total > MAX_BUFFERED_NOTIFICATION_BYTES {
        return Some(LimitExceeded(BufferedNotificationBytes, total, MAX_BUFFERED_NOTIFICATION_BYTES));
      }
      if |notifications| == MAX_BUFFERED_NOTIFICATIONS {
        return Some(LimitExceeded(BufferedNotifications, |notifications| + 1, MAX_BUFFERED_NOTIFICATIONS));
      }
      notificationBytes := total;
      notifications := notifications + [BufferedNotification(payload.message, |m|)];
      e := None;
    }

    method IngestReply(m: Bytes) returns (e: Option<SnapshotError>)
      requires |m| >= 16
      modifies this
      ensures Outcome(State(), e) == ReplyStep(old(State()), m, decode)
    {
      hide Preflight.InnerMessage, TypeOf, SequenceOf, PortOf, Multipart, Preflight.ResponseType;
      var messageType, response := TypeOf(m), Preflight.ResponseType(kind);
      if SequenceOf(m) != expectedSequence { return Some(MakeIncomplete(SequenceMismatch)); }
      if PortOf(m) != 0 && PortOf(m) != localPort { return Some(MakeIncomplete(HeaderPortMismatch)); }
      if messageType !in {NLMSG_DONE, NLMSG_ERROR, NLMSG_NOOP, NLMSG_OVERRUN} && messageType != response {
        return Some(MakeIncomplete(UnexpectedMessage));
      }
      if messageType == response {
        var valid := Preflight.ValidateInnerMessage(m, kind);
        if valid.Err? { return Some(valid.error); }
        if !Multipart(m) { sawSingleResponse := true; }
      }
      e := None;
      match decode(m)
      case Undecodable => return Some(SnapshotError.Decode);
      case Done(code) =>
        if code != 0 { return Some(MakeIncomplete(KernelError(code))); }
        done := true;
      case ErrorReply(None) =>
      case ErrorReply(Some(code)) =>
        return Some(MakeIncomplete(if code == -ENOBUFS then ReceiveBufferOverflow else KernelError(code)));
      case Noop =>
      case OverrunPayload => return Some(MakeIncomplete(Overrun));
      case Inner(message) => messages := messages + [message];
      case OtherPayload => return Some(MakeIncomplete(UnexpectedMessage));
    }

    method IngestMessage(m: Bytes, groups: U32) returns (e: Option<SnapshotError>)
      requires |m| >= 16
      modifies this
      ensures Outcome(State(), e) == MessageStep(old(State()), m, groups, decode)
    {
      hide NotificationStep, ReplyStep, SequenceOf, Interrupted;
      if Interrupted(m) { return Some(MakeIncomplete(DumpInterrupted)); }
      if SequenceOf(m) == 0 || groups != 0 {
        ignoredNotifications := ignoredNotifications + 1;
        e := IngestNotification(m);
        return;
      }
      e := IngestReply(m);
    }

    method IngestDatagram(d: Datagram) returns (r: Result<bool, SnapshotError>)
      modifies this
      ensures var o := Ingest(old(State()), d, decode);
              State() == o.collector && r == (if o.error.Some? then Err(o.error.value) else Ok(done))
    {
      hide MessageStep, Frames, Align4;
      if done { return Err(MakeIncomplete(UnexpectedMessage)); }
      var datagram := d.bytes;
      if |datagram| > MAX_NETLINK_DATAGRAM_BYTES {
        return Err(LimitExceeded(DatagramBytes, |datagram|, MAX_NETLINK_DATAGRAM_BYTES));
      }
      byteCount := byteCount + |datagram|;
      if byteCount > MAX_DUMP_BYTES { return Err(LimitExceeded(DumpBytes, byteCount, MAX_DUMP_BYTES)); }
      if d.senderPort != 0 { return Err(MakeIncomplete(SenderNotKernel)); }
      ghost var counted := State();
      var offset := 0;
      assert datagram[0..] == datagram;
      while offset < |datagram|
        invariant 0 <= offset <= |datagram|
        invariant Frames(State(), datagram[offset..], d.senderGroups, decode)
            == Frames(counted, datagram, d.senderGroups, decode)
      {
        FrameAt(State(), datagram, offset, d.senderGroups, decode);
        if |datagram| - offset < 16 { return Err(SnapshotError.Decode); }
        var length := NativeU32At(datagram, offset);
        if length < 16 { return Err(SnapshotError.Decode); }
        var end := offset + length;
        if end > |datagram| { return Err(SnapshotError.Decode); }
        messageCount := messageCount + 1;
        if messageCount > MAX_MESSAGES_PER_DUMP {
          return Err(LimitExceeded(DumpMessages, messageCount, MAX_MESSAGES_PER_DUMP));
        }
        var e := IngestMessage(datagram[offset..end], d.senderGroups);
        if e.Some? { return Err(e.value); }
        if offset + Align4(length) > |datagram| { return Err(SnapshotError.Decode); }
        offset := offset + Align4(length);
        if done && offset != |datagram| { return Err(MakeIncomplete(UnexpectedMessage)); }
      }
      FrameAt(State(), datagram, offset, d.senderGroups, decode);
      r := Ok(done);
    }

    method TakeNotifications() returns (taken: seq<BufferedNotification>)
      modifies this
      ensures taken == old(notifications)
      ensures State() == old(State()).(notifications := [], notificationBytes := 0)
    {
      taken := notifications;
      notifications, notificationBytes := [], 0;
    }
  }
}
