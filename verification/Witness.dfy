/** A world with an honest kernel: all eight dumps of a snapshot complete, and a link is announced during each. */
module Witness {
  import opened Wire
  import opened SnapshotErrors
  import opened Records
  import opened Kernel
  import opened Rules
  import opened Decoder
  import opened Tables
  import opened Normalize
  import opened World
  import opened Coherence
  import Preflight

  /** A netlink header with small fields: length, type, no flags, sequence number, port zero. */
  function Header(length: Byte, messageType: Byte, sequence: Byte): (h: Bytes)
    ensures |h| == 16
  {
    [length, 0, 0, 0, messageType, 0, 0, 0, sequence, 0, 0, 0, 0, 0, 0, 0]
  }

  /** A link announcement without attributes. */
  const NOTICE: Bytes := Header(32, 16, 0) + Zeros(16)

  /** The end of the dump with this sequence number. */
  function Ending(sequence: Byte): (m: Bytes)
    ensures |m| == 16
  {
    Header(16, 3, sequence)
  }

  const LINK: Interface := Interface(7, None, None, None, [], [])
  const EVENT: Message := NewLink(Ok(LINK))

  function SampleDecode(m: Bytes): Payload { if |m| == 32 then Inner(EVENT) else Payload.Done(0) }

  function Packet(m: Bytes): Datagram { Datagram(m, 0, 0) }

  function Repeated(n: nat): (ms: seq<Message>)
    ensures |ms| == n && forall i :: 0 <= i < n ==> ms[i] == EVENT
  {
    seq(n, _ => EVENT)
  }

  /** An announcement, then the end of dump one; an announcement, then the end of dump two; and so on. Behind the
      eighth the queue is empty. */
  function Reading(i: nat): Arrival
    requires i <= 16
  {
    if i == 16 then Arrival(WouldBlock, 8, 8)
    else Arrival(Received(Packet(if i % 2 == 0 then NOTICE else Ending(i / 2 + 1))), i / 2 + 1, i / 2 + 1)
  }

  function BusyWorld(times: nat -> nat, sends: nat -> bool, cancels: nat -> bool): Environment {
    Environment(map[], {}, Repeated(8), seq(17, i requires 0 <= i < 17 => Reading(i)), SampleDecode,
                times, sends, cancels)
  }

  ghost predicate IsBusy(w: Environment) { w == BusyWorld(w.times, w.sends, w.cancels) }

  /** The eight requests, each sent when the one before has been answered. */
  function Asked(port: U32, k: nat): Request
    requires k < 8
  {
    Request(2 * k, k + 1, port, SNAPSHOT_DUMPS[k])
  }

  function AllAsked(port: U32): (rs: seq<Request>)
    ensures |rs| == 8 && forall k :: 0 <= k < 8 ==> rs[k] == Asked(port, k)
  {
    seq(8, k requires 0 <= k < 8 => Asked(port, k))
  }

  // ---------------------------------------------------------------------------------------
  // Headers.

  lemma {:induction false} ZeroLittle(s: Bytes)
    requires AllZero(s)
    ensures LittleEndian(s) == 0
  {
    if s != [] { ZeroLittle(s[1..]); }
  }

  lemma SmallWord(s: Bytes, i: nat, b: Byte)
    requires i + 4 <= |s| && s[i] == b && s[i + 1] == 0 && s[i + 2] == 0 && s[i + 3] == 0
    ensures NativeU32At(s, i) == b && NativeU16At(s, i) == b && NativeU16At(s, i + 2) == 0
  {
    assert LittleEndian(s[i..i + 4][1..]) == 0 by { ZeroLittle(s[i..i + 4][1..]); }
    assert LittleEndian(s[i..i + 2][1..]) == 0 by { ZeroLittle(s[i..i + 2][1..]); }
    ZeroLittle(s[i + 2..i + 4]);
  }

  lemma HeaderFields(m: Bytes, length: Byte, messageType: Byte, sequence: Byte)
    requires |m| >= 16 && m[..16] == Header(length, messageType, sequence)
    ensures NativeU32At(m, 0) == length && TypeOf(m) == messageType && SequenceOf(m) == sequence && PortOf(m) == 0
    ensures !Interrupted(m)
  {
    hide NativeU32At, NativeU16At;
    forall i | 0 <= i < 16 ensures m[i] == Header(length, messageType, sequence)[i] { assert m[i] == m[..16][i]; }
    SmallWord(m, 0, length);
    SmallWord(m, 4, messageType);
    SmallWord(m, 8, sequence);
    SmallWord(m, 12, 0);
  }

  lemma NoticeFields()
    ensures |NOTICE| == 32 == NativeU32At(NOTICE, 0) && Align4(32) == 32 && NOTICE[..32] == NOTICE && NOTICE[32..] == []
    ensures TypeOf(NOTICE) == 16 && SequenceOf(NOTICE) == 0 && !Interrupted(NOTICE) && IsNotification(NOTICE, 0)
  {
    hide NativeU32At, NativeU16At;
    HeaderFields(NOTICE, 32, 16, 0);
  }

  lemma EndingFields(n: Byte)
    requires n > 0
    ensures var m := Ending(n);
            && NativeU32At(m, 0) == 16 && Align4(16) == 16 && m[..16] == m && m[16..] == []
            && TypeOf(m) == NLMSG_DONE && SequenceOf(m) == n && PortOf(m) == 0
            && !Interrupted(m) && !IsNotification(m, 0)
  {
    hide NativeU32At, NativeU16At;
    HeaderFields(Ending(n), 16, 3, n);
  }

  // ---------------------------------------------------------------------------------------
  // One collection.

  lemma NoticeStep(c: Collector)
    requires c.notifications == [] && c.notificationBytes == 0
    ensures var o := MessageStep(c, NOTICE, 0, SampleDecode);
            && o.error.None?
            && o.collector == c.(ignoredNotifications := c.ignoredNotifications + 1, notificationBytes := 32,
                                 notifications := [BufferedNotification(EVENT, 32)])
  {
    hide TypeOf, SequenceOf, PortOf, Interrupted, Multipart, Preflight.AttributeList;
    NoticeFields();
    assert NOTICE[32..] == [];
    NoAttributes();
  }

  lemma NoAttributes()
    ensures Preflight.AttributeList([], Preflight.Link, 0, 0) == Ok(0)
  {
  }

  lemma EndingStep(c: Collector, n: Byte)
    requires c.expectedSequence == n > 0
    ensures MessageStep(c, Ending(n), 0, SampleDecode) == Outcome(c.(done := true), None)
  {
    hide Preflight.InnerMessage, TypeOf, SequenceOf, PortOf, Interrupted, Multipart, IsNotification;
    EndingFields(n);
  }

  /** A datagram that holds one message. */
  lemma OneFrame(c: Collector, d: Datagram, decode: Decode)
    requires 16 <= |d.bytes| <= 32 && NativeU32At(d.bytes, 0) == |d.bytes| == Align4(|d.bytes|)
    requires !c.done && c.messageCount < 2 && c.byteCount <= 32 && d.senderPort == 0
    ensures var counted := c.(byteCount := c.byteCount + |d.bytes|, messageCount := c.messageCount + 1);
            Ingest(c, d, decode) == MessageStep(counted, d.bytes, d.senderGroups, decode)
  {
    hide MessageStep, NativeU32At, Align4;
    var m := d.bytes;
    assert m[..|m|] == m && m[|m|..] == [];
    var counted := c.(byteCount := c.byteCount + |m|, messageCount := c.messageCount + 1);
    var o := MessageStep(counted, m, d.senderGroups, decode);
    NothingLeft(o.collector, d.senderGroups, decode);
  }

  lemma NothingLeft(c: Collector, groups: U32, decode: Decode)
    ensures Frames(c, [], groups, decode) == Outcome(c, None)
  {
  }

  lemma BusyCollected(kind: Preflight.DumpKind, n: Byte, port: U32)
    requires n > 0
    ensures var c := NewCollector(kind, n, port);
            var o := Ingest(c, Packet(NOTICE), SampleDecode);
            var p := Ingest(o.collector, Packet(Ending(n)), SampleDecode);
            && o.error.None? && !o.collector.done
            && p.error.None? && p.collector.done && p.collector.messages == []
            && p.collector.notifications == [BufferedNotification(EVENT, 32)]
  {
    hide MessageStep, NativeU32At, Align4, TypeOf, SequenceOf, PortOf, Interrupted, Ingest, Ending;
    var c := NewCollector(kind, n, port);
    NoticeFields();
    EndingFields(n);
    OneFrame(c, Packet(NOTICE), SampleDecode);
    NoticeStep(c.(byteCount := 32, messageCount := 1));
    var o := Ingest(c, Packet(NOTICE), SampleDecode);
    OneFrame(o.collector, Packet(Ending(n)), SampleDecode);
    EndingStep(o.collector.(byteCount := 48, messageCount := 2), n);
  }

  // ---------------------------------------------------------------------------------------
  // The timeline.

  lemma NoticeFaithful(w: Environment, k: nat)
    requires IsBusy(w) && k < 8
    ensures FaithfulDatagram(w, Packet(NOTICE), k, k + 1)
  {
    hide NativeU32At, Align4, TypeOf, SequenceOf, PortOf, Interrupted;
    NoticeFields();
    assert NotificationsOnly([], 0);
    assert NotificationsOnly(NOTICE, 0) && !RepliesOnly(NOTICE, 0);
    assert Tiles([]) == Some([]);
    assert Tiles(NOTICE).Some? ==> Tiles(NOTICE).value == [NOTICE] + [];
    assert [NOTICE][1..] == [] && Announced([], 0, w.decode) == [];
    assert w.history[k..k + 1] == [EVENT];
  }

  lemma EndingFaithful(w: Environment, n: Byte)
    requires IsBusy(w) && 0 < n <= 8
    ensures FaithfulDatagram(w, Packet(Ending(n)), n, n)
  {
    hide NativeU32At, Align4, TypeOf, SequenceOf, PortOf, Interrupted, IsNotification, Ending;
    EndingFields(n);
    assert RepliesOnly([], 0);
    assert RepliesOnly(Ending(n), 0) && !NotificationsOnly(Ending(n), 0);
  }

  lemma BusyPositions(w: Environment, i: nat)
    requires IsBusy(w) && i <= 17
    ensures |w.tape| == 17 && |w.history| == 8
    ensures UptoAt(w, i) == NowAt(w, i) == if i == 17 then 8 else (i + 1) / 2
  {
  }

  lemma BusyTimeline(w: Environment)
    requires IsBusy(w)
    ensures Timeline(w)
  {
    hide FaithfulDatagram, IsBusy;
    forall i | 0 <= i < |w.tape| ensures OnTime(w, i) { BusyMoment(w, i); }
  }

  lemma BusyMoment(w: Environment, i: nat)
    requires IsBusy(w) && i < |w.tape|
    ensures OnTime(w, i)
  {
    hide FaithfulDatagram, Ending;
    BusyPositions(w, i);
    if i < 16 {
      if i % 2 == 0 { NoticeFaithful(w, i / 2); } else { EndingFaithful(w, i / 2 + 1); }
    }
  }

  // ---------------------------------------------------------------------------------------
  // The answers.

  lemma {:induction false} OnlyLinks(n: nat, k: Key)
    requires !k.LinkKey?
    ensures Lookup(Replay(map[], Repeated(n)), k) == None
  {
    hide Replay;
    ReplayPointwise(map[], map[], Repeated(n), k);
    forall i | 0 <= i < n ensures Subject(Repeated(n)[i]) != Some(k) { }
  }

  lemma {:induction false} NoRules(n: nat)
    ensures ReplayRules({}, Repeated(n)) == {}
  {
    if n > 0 {
      NoRules(n - 1);
      assert Repeated(n)[..n - 1] == Repeated(n - 1);
    }
  }

  /** An empty report is right about everything but links, and the first also about these, before the event. */
  lemma EmptyDump(k: nat)
    requires k < 8
    ensures IsDump([], SNAPSHOT_DUMPS[k], map[], Repeated(8), k, k + 1)
    ensures IsRuleDump([], SNAPSHOT_DUMPS[k], {}, Repeated(8), k, k + 1)
  {
    hide Repeated;
    var history := Repeated(8);
    assert history[..k] == Repeated(k);
    forall key | Covers(SNAPSHOT_DUMPS[k], key) ensures SeenBetween(Replay(map[], []), map[], history, k, k + 1, key) {
      if !key.LinkKey? { OnlyLinks(k, key); }
      assert Lookup(Replay(map[], []), key) == Lookup(At(map[], history, k), key);
    }
    NoRules(k);
    assert Reported([]) == {};
    var next := k + 1;
    forall r ensures RuleSeen({}, {}, history, k, next, r) {
      assert r in {} <==> r in RulesAt({}, history, k);
    }
  }

  lemma BusyRun(w: Environment, port: U32, k: nat)
    requires IsBusy(w) && k < 8
    ensures |w.tape| == 17 && AllReceived(w, 2 * k, 2 * k + 2)
    ensures var c := NewCollector(KindOf(SNAPSHOT_DUMPS[k]), k + 1, port);
            && !IngestAll(c, Datagrams(w, 2 * k, 2 * k), w.decode).collector.done
            && !IngestAll(c, Datagrams(w, 2 * k, 2 * k + 1), w.decode).collector.done
            && var o := IngestAll(c, Datagrams(w, 2 * k, 2 * k + 2), w.decode);
            && o.error.None? && o.collector.done && o.collector.messages == []
            && o.collector.notifications == [BufferedNotification(EVENT, 32)]
  {
    hide Ingest, Ending, IsBusy, Packet, IngestAll;
    BusyStart(w);
    BusyPair(w, k);
    BusyCollected(KindOf(SNAPSHOT_DUMPS[k]), k + 1, port);
    var c := NewCollector(KindOf(SNAPSHOT_DUMPS[k]), k + 1, port);
    NothingHeard(c, SampleDecode);
    TwoHeard(c, Packet(NOTICE), Packet(Ending(k + 1)), SampleDecode);
  }

  lemma BusyPair(w: Environment, k: nat)
    requires IsBusy(w) && k < 8
    ensures |w.tape| == 17 && AllReceived(w, 2 * k, 2 * k + 2)
    ensures Datagrams(w, 2 * k, 2 * k) == [] && Datagrams(w, 2 * k, 2 * k + 1) == [Packet(NOTICE)]
    ensures Datagrams(w, 2 * k, 2 * k + 2) == [Packet(NOTICE), Packet(Ending(k + 1))]
  {
    hide Ending, Packet;
    assert w.tape[2 * k] == Reading(2 * k) && w.tape[2 * k + 1] == Reading(2 * k + 1);
    assert 2 * k % 2 == 0 && (2 * k + 1) % 2 == 1 && (2 * k + 1) / 2 == k;
  }

  lemma NothingHeard(c: Collector, decode: Decode)
    ensures IngestAll(c, [], decode) == Outcome(c, None)
  {
  }

  lemma TwoHeard(c: Collector, d: Datagram, e: Datagram, decode: Decode)
    ensures IngestAll(c, [d], decode) == Ingest(c, d, decode)
    ensures Ingest(c, d, decode).error.None? ==>
              IngestAll(c, [d, e], decode) == Ingest(Ingest(c, d, decode).collector, e, decode)
  {
    hide Ingest;
    assert [d][..0] == [] && [d, e][..1] == [d];
  }

  /** Reading on behind the end of a dump is an error. */
  lemma BusyOver(w: Environment, port: U32, k: nat, till: nat)
    requires IsBusy(w) && k < 8 && 2 * k + 2 < till <= |w.tape| && AllReceived(w, 2 * k, till)
    ensures var c := NewCollector(KindOf(SNAPSHOT_DUMPS[k]), k + 1, port);
            IngestAll(c, Datagrams(w, 2 * k, till), w.decode).error.Some?
  {
    hide IngestAll, EndsDump, IsBusy, TilesOf, Welcome, AllReplies, AllAnnounced, Tiles;
    BusyRun(w, port, k);
    var kind, ds, first := KindOf(SNAPSHOT_DUMPS[k]), Datagrams(w, 2 * k, till), Datagrams(w, 2 * k, 2 * k + 2);
    assert ds[1] == first[1];
    CollectionExact(kind, k + 1, port, first, w.decode);
    if IngestAll(NewCollector(kind, k + 1, port), ds, w.decode).error.None? {
      CollectionExact(kind, k + 1, port, ds, w.decode);
    }
  }

  lemma BusyAnswers(w: Environment, port: U32, k: nat, till: nat)
    requires IsBusy(w) && Timeline(w) && k < 8 && 2 * k <= till <= |w.tape|
    ensures Answers(w, Asked(port, k), till)
  {
    hide Timeline, IngestAll, IsDump, IsRuleDump, Followable, IsBusy;
    LaterPositions(w, 2 * k, till);
    BusyRun(w, port, k);
    if till > 2 * k + 2 {
      if AllReceived(w, 2 * k, till) { BusyOver(w, port, k, till); }
    } else if till == 2 * k + 2 {
      BusyPositions(w, 2 * k);
      BusyPositions(w, till);
      EmptyDump(k);
      BusyStart(w);
    }
  }

  lemma BusyStart(w: Environment)
    requires IsBusy(w)
    ensures w.start == map[] && w.rules == {} && w.history == Repeated(8) && w.decode == SampleDecode
  {
  }

  lemma BusyHonest(w: Environment, port: U32)
    requires IsBusy(w)
    ensures Honest(w, AllAsked(port))
  {
    hide Timeline, Answers, IsBusy;
    BusyTimeline(w);
    forall r, till | r in AllAsked(port) && r.position <= till <= |w.tape| ensures Answers(w, r, till) {
      var k :| 0 <= k < 8 && AllAsked(port)[k] == r;
      BusyAnswers(w, port, k, till);
    }
  }

  // ---------------------------------------------------------------------------------------
  // The snapshot.

  const OneLink: Parts := NoParts.(interfaces := [LINK])

  lemma LinkRetained()
    ensures Retain([LINK], KeyOfLink, LinkKey(7)) == []
  {
    var s := [LINK];
    assert s[..|s| - 1] == [] && KeyOfLink(s[|s| - 1]) == LinkKey(7);
    assert Retain(s, KeyOfLink, LinkKey(7)) == Retain(s[..|s| - 1], KeyOfLink, LinkKey(7)) + [];
  }

  lemma EventApplied(p: Parts)
    requires p == NoParts || p == OneLink
    ensures ApplyOne(p, EVENT) == Ok(OneLink)
  {
    assert [LINK][1..] == [];
    LinkRetained();
    var kept := Retain(p.interfaces, KeyOfLink, KeyOfLink(LINK));
    assert kept == [] && kept + [LINK] == [LINK];
    assert Replace(p.interfaces, KeyOfLink, LINK, MAX_INTERFACES, Interfaces) == Ok([LINK]);
    assert Change(p, EVENT) == Ok(OneLink);
    assert Concat([LINK], UnknownOfLink) == [];
    assert UnknownSizes(OneLink) == [];
  }

  lemma {:induction false} EventsApplied(p: Parts, n: nat)
    requires p == OneLink || (p == NoParts && n > 0)
    ensures ApplyAll(p, Repeated(n)) == Ok(OneLink)
    decreases n
  {
    hide ApplyOne;
    if n > 0 {
      EventApplied(p);
      assert Repeated(n)[1..] == Repeated(n - 1);
      EventsApplied(OneLink, n - 1);
    }
  }

  lemma LinkFinished()
    ensures Finish(OneLink) == Ok(OneLink)
  {
    assert [LINK][1..] == [];
    assert Sort([LINK], FlatLink) == Insert(LINK, [], FlatLink) == [LINK];
    assert Sorted(OneLink) == OneLink;
    assert RefsOfLink(LINK) == [] && Concat([LINK], RefsOfLink) == [];
    assert References(OneLink) == [];
  }

  lemma {:induction false} BusyPartial(w: Environment, k: nat)
    requires IsBusy(w) && Timeline(w) && k <= 8 && |w.tape| == 17
    ensures Partial(w, NoParts, k, 0, 2 * k)
  {
    hide Timeline, Partial, Dumped, IsBusy;
    if k == 0 {
      PartialStart(w, 0);
    } else {
      BusyPartial(w, k - 1);
      BusyDumped(w, k - 1);
      PartialStep(w, NoParts, k - 1, [], 0, 2 * k - 2, 2 * k);
    }
  }

  lemma BusyDumped(w: Environment, k: nat)
    requires IsBusy(w) && Timeline(w) && k < 8 && |w.tape| == 17
    ensures Dumped(w, [], SNAPSHOT_DUMPS[k], 2 * k, 2 * k + 2)
  {
    hide Timeline, IsDump, IsRuleDump, Followable, IsBusy;
    LaterPositions(w, 2 * k, 2 * k + 2);
    BusyPositions(w, 2 * k);
    BusyPositions(w, 2 * k + 2);
    BusyStart(w);
    EmptyDump(k);
  }

  lemma BusyFollowed(w: Environment)
    requires IsBusy(w) && Timeline(w) && |w.tape| == 17
    ensures RulesFollowed(w, 0, 17)
  {
    hide Timeline, RulesAt, Confused;
    LaterPositions(w, 0, 17);
  }

  /** Honesty can be met through a whole snapshot. Each of the eight requests is answered to its end while an
      event is announced, the drain finds the queue empty, the tables close, and the snapshot shows the link that
      was announced. */
  lemma HonestKernelExists(port: U32, times: nat -> nat, sends: nat -> bool, cancels: nat -> bool)
    ensures var w := BusyWorld(times, sends, cancels);
            && |w.tape| == 17 && w.tape[16].reception.WouldBlock? && Honest(w, AllAsked(port))
            && (forall k :: 0 <= k < 8 ==> Completed(w, Asked(port, k), 2 * k + 2))
            && var p := ApplyAll(NoParts, w.history);
            && p.Ok? && Finish(p.value).Ok? && Finish(p.value).value.interfaces == [LINK]
            && UpToDate(w, SnapshotOf(1, Finish(p.value).value), [], 0, 17) && RulesFollowed(w, 0, 17)
  {
    hide Timeline, Answers, IngestAll, Partial, UpToDate, RulesFollowed, Finish, ApplyAll;
    var w := BusyWorld(times, sends, cancels);
    BusyHonest(w, port);
    forall k | 0 <= k < 8 ensures Completed(w, Asked(port, k), 2 * k + 2) { BusyRun(w, port, k); }
    BusyPartial(w, 8);
    BusyPositions(w, 0);
    BusyPositions(w, 17);
    EventsApplied(NoParts, 8);
    LinkFinished();
    BusyFollowed(w);
    assert w.history[0..8] == w.history;
    SnapshotUpToDate(w, NoParts, w.history, 0, 16, 17, 1);
  }

  /** The dump is answered to its end with no replies, and an event was announced meanwhile. */
  ghost predicate Completed(w: Environment, r: Request, till: nat) {
    && r.position <= till <= |w.tape| && AllReceived(w, r.position, till)
    && var o := IngestAll(NewCollector(KindOf(r.dump), r.sequence, r.port), Datagrams(w, r.position, till), w.decode);
    && o.error.None? && o.collector.done && Messages(o.collector.notifications) == [EVENT]
  }
}
