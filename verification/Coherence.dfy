/** What a buffer of notifications, a dump in progress and a published snapshot mean against the kernel
    history: the arguments behind crates/nodenet-linux-context/src/context.rs. */
module Coherence {
  import opened Wire
  import opened SnapshotErrors
  import opened Records
  import opened Kernel
  import opened Rules
  import opened Decoder
  import opened World
  import opened Normalize

  datatype NetworkSnapshot = NetworkSnapshot(
    generation: U64,
    interfaces: seq<Interface>,
    addresses: seq<Address>,
    routes: seq<Route>,
    rules: seq<Rule>,
    neighbors: seq<Neighbor>)

  function TablesOf(s: NetworkSnapshot): Parts {
    Parts(s.interfaces, s.addresses, s.routes, s.rules, s.neighbors, 0)
  }

  function SnapshotOf(generation: U64, p: Parts): NetworkSnapshot {
    NetworkSnapshot(generation, p.interfaces, p.addresses, p.routes, p.rules, p.neighbors)
  }

  /** The tables of the next generation: count, replay, close. */
  function Advance(s: NetworkSnapshot, ms: seq<Message>): Result<Parts, SnapshotError> {
    match Recount(TablesOf(s))
    case Err(e) => Err(e)
    case Ok(p) =>
      match ApplyAll(p, ms)
      case Err(e) => Err(e)
      case Ok(q) => Finish(q)
  }

  // ---------------------------------------------------------------------------------------
  // What a buffer and a snapshot mean against the kernel history.

  /** The buffer grew by exactly the events read between two tape positions. */
  ghost predicate Delta(w: Environment, before: seq<Message>, after: seq<Message>, from: nat, till: nat)
    requires from <= till <= |w.tape|
  {
    Timeline(w) ==> (LaterPositions(w, from, till); after == before + w.history[UptoAt(w, from)..UptoAt(w, till)])
  }

  lemma DeltaChain(w: Environment, a: seq<Message>, b: seq<Message>, c: seq<Message>, i: nat, j: nat, k: nat)
    requires i <= j <= k <= |w.tape| && Delta(w, a, b, i, j) && Delta(w, b, c, j, k)
    ensures Delta(w, a, c, i, k)
  {
    if Timeline(w) {
      LaterPositions(w, i, j);
      LaterPositions(w, j, k);
      assert w.history[UptoAt(w, i)..UptoAt(w, k)]
          == w.history[UptoAt(w, i)..UptoAt(w, j)] + w.history[UptoAt(w, j)..UptoAt(w, k)];
    }
  }

  lemma DeltaNone(w: Environment, a: seq<Message>, i: nat)
    requires i <= |w.tape|
    ensures Delta(w, a, a, i, i)
  {
    if Timeline(w) { LaterPositions(w, i, i); }
  }

  /** Replaying the buffer over the snapshot gives the kernel store after the last event read; the
      snapshot itself has unique identities, is sorted, and resolves every interface it refers to. The same
      holds of its rules if no event read since position `since` was about a confused rule. */
  ghost predicate UpToDate(w: Environment, s: NetworkSnapshot, buffer: seq<Message>, since: nat, position: nat)
    requires since <= position <= |w.tape|
  {
    && Timeline(w)
    && KeysDistinct(TablesOf(s)) && TablesOrdered(TablesOf(s)) && Closed(View(TablesOf(s)))
    && (LaterPositions(w, 0, position);
        Replay(View(TablesOf(s)), buffer) == At(w.start, w.history, UptoAt(w, position)))
    && (RulesFollowed(w, since, position) ==> RulesUpToDate(w, s.rules, buffer, position))
  }

  /** The events read between two positions can be followed by the rule table. */
  ghost predicate RulesFollowed(w: Environment, since: nat, position: nat)
    requires Timeline(w) && since <= position <= |w.tape|
  {
    LaterPositions(w, since, position);
    Followable(w.rules, w.history, UptoAt(w, since), UptoAt(w, position))
  }

  ghost predicate RulesUpToDate(w: Environment, rules: seq<Rule>, buffer: seq<Message>, position: nat)
    requires Timeline(w) && position <= |w.tape|
  {
    && NoRuleTwice(rules)
    && (LaterPositions(w, 0, position);
        RuleSet(ReplayTable(rules, buffer)) == RulesAt(w.rules, w.history, UptoAt(w, position)))
  }

  lemma RulesStep(w: Environment, rules: seq<Rule>, before: seq<Message>, since: nat, from: nat, till: nat)
    requires Timeline(w) && since <= from <= till <= |w.tape|
    requires RulesFollowed(w, since, from) ==> RulesUpToDate(w, rules, before, from)
    requires RulesFollowed(w, since, till) && UptoAt(w, from) <= UptoAt(w, till) <= |w.history|
    ensures RulesUpToDate(w, rules, before + w.history[UptoAt(w, from)..UptoAt(w, till)], till)
  {
    hide NoRuleTwice, Timeline, ReplayTable, RuleSet, RulesAt, Followable;
    LaterPositions(w, 0, till);
    LaterPositions(w, since, from);
    var start, lo, hi := UptoAt(w, since), UptoAt(w, from), UptoAt(w, till);
    FollowableWithin(w.rules, w.history, start, hi, start, lo);
    FollowableWithin(w.rules, w.history, start, hi, lo, hi);
    ReplayTableAppend(rules, before, w.history[lo..hi]);
    FollowsExact(ReplayTable(rules, before), w.rules, w.history, lo, hi);
  }

  lemma UpToDateStep(w: Environment, s: NetworkSnapshot, before: seq<Message>, after: seq<Message>, since: nat,
      from: nat, till: nat)
    requires since <= from <= till <= |w.tape|
    requires UpToDate(w, s, before, since, from) && Delta(w, before, after, from, till)
    ensures UpToDate(w, s, after, since, till)
  {
    hide KeysDistinct, TablesOrdered, Closed, View, Timeline, Replay, RulesFollowed, RulesUpToDate;
    LaterPositions(w, from, till);
    if RulesFollowed(w, since, till) { RulesStep(w, s.rules, before, since, from, till); }
    LaterPositions(w, 0, till);
    LaterPositions(w, 0, from);
    var events := w.history[UptoAt(w, from)..UptoAt(w, till)];
    ReplayAppend(View(TablesOf(s)), before, events);
    AtStep(w.start, w.history, UptoAt(w, from), UptoAt(w, till));
  }

  /** Publishing the buffer moves it into the snapshot without losing an event. */
  lemma PublishStep(w: Environment, s: NetworkSnapshot, buffer: seq<Message>, since: nat, position: nat,
      generation: U64)
    requires since <= position <= |w.tape| && UpToDate(w, s, buffer, since, position) && Advance(s, buffer).Ok?
    ensures UpToDate(w, SnapshotOf(generation, Advance(s, buffer).value), [], since, position)
  {
    hide KeysDistinct, TablesOrdered, Closed, View, Timeline, ApplyAll, Finish, Total, NoRuleTwice, RulesFollowed;
    var p := Recount(TablesOf(s)).value;
    SameTables(TablesOf(s), p);
    ApplyAllView(p, buffer);
    if RulesFollowed(w, since, position) {
      ApplyAllTable(p, buffer);
      ReplayTableTwice(p.rules, buffer);
      NothingReplayed(ApplyAll(p, buffer).value.rules);
    }
    FinishedUpToDate(w, ApplyAll(p, buffer).value, since, position, generation);
  }

  lemma FinishedUpToDate(w: Environment, p: Parts, since: nat, position: nat, generation: U64)
    requires since <= position <= |w.tape| && Timeline(w) && KeysDistinct(p) && Finish(p).Ok?
    requires (LaterPositions(w, 0, position); View(p) == At(w.start, w.history, UptoAt(w, position)))
    requires RulesFollowed(w, since, position) ==> RulesUpToDate(w, p.rules, [], position)
    ensures UpToDate(w, SnapshotOf(generation, Finish(p).value), [], since, position)
  {
    hide KeysDistinct, TablesOrdered, Closed, View, Timeline, Finish, RulesFollowed, RulesUpToDate;
    FinishExact(p);
    if RulesFollowed(w, since, position) { RulesFinished(w, p, position); }
    var q := Finish(p).value;
    SameTables(q, TablesOf(SnapshotOf(generation, q)));
    SameOrder(q, TablesOf(SnapshotOf(generation, q)));
  }

  lemma RulesFinished(w: Environment, p: Parts, position: nat)
    requires position <= |w.tape| && Timeline(w) && Finish(p).Ok? && RulesUpToDate(w, p.rules, [], position)
    ensures RulesUpToDate(w, Finish(p).value.rules, [], position)
  {
    hide Timeline, Finish, NoRuleTwice, ReplayTable, RuleSet;
    FinishedRules(p);
    NothingReplayed(p.rules);
    NothingReplayed(Finish(p).value.rules);
  }

  lemma SameOrder(p: Parts, q: Parts)
    requires q == p.(unknownBytes := q.unknownBytes)
    ensures TablesOrdered(p) == TablesOrdered(q)
  {
  }

  lemma EmptyQueue(w: Environment, buffer: seq<Message>, position: nat)
    requires position < |w.tape| && w.tape[position].reception.WouldBlock?
    ensures Timeline(w) ==> UptoAt(w, position + 1) == NowAt(w, position + 1)
    ensures Delta(w, buffer, buffer, position, position + 1)
  {
    if Timeline(w) {
      assert OnTime(w, position);
      LaterPositions(w, position, position + 1);
    }
  }

  /** An accepted datagram moves the collected notifications along the history. */
  lemma DatagramDelta(w: Environment, c: Collector, position: nat)
    requires position < |w.tape| && w.tape[position].reception.Received?
    requires Ingest(c, w.tape[position].reception.datagram, w.decode).error.None?
    ensures Delta(w, Messages(c.notifications),
                  Messages(Ingest(c, w.tape[position].reception.datagram, w.decode).collector.notifications),
                  position, position + 1)
  {
    hide Ingest, FaithfulDatagram;
    if Timeline(w) {
      assert OnTime(w, position);
      LaterPositions(w, position, position + 1);
      IngestDelta(w, c, w.tape[position].reception.datagram, UptoAt(w, position), UptoAt(w, position + 1));
    }
  }

  /** Events gathered from nothing can be appended to any buffer. */
  lemma DeltaFrom(w: Environment, before: seq<Message>, added: seq<Message>, from: nat, till: nat)
    requires from <= till <= |w.tape| && Delta(w, [], added, from, till)
    ensures Delta(w, before, before + added, from, till)
  {
    hide Timeline;
    if Timeline(w) { LaterPositions(w, from, till); }
  }

  lemma IdleDelta(w: Environment, gathered: seq<Message>, from: nat, position: nat)
    requires from <= position < |w.tape| && w.tape[position].reception.WouldBlock?
        && Delta(w, [], gathered, from, position)
    ensures Delta(w, [], gathered, from, position + 1)
  {
    hide Delta, Timeline;
    EmptyQueue(w, gathered, position);
    DeltaChain(w, [], gathered, gathered, from, position, position + 1);
  }

  // ---------------------------------------------------------------------------------------
  // One dump.

  /** Every reception since the request was a datagram, the collector has ingested exactly these, and
      its notifications are exactly the events read since. */
  ghost predicate Collecting(w: Environment, r: Request, c: Collector, position: nat)
    requires r.position <= position <= |w.tape|
  {
    && AllReceived(w, r.position, position)
    && IngestAll(NewCollector(KindOf(r.dump), r.sequence, r.port), Datagrams(w, r.position, position), w.decode)
        == Outcome(c, None)
    && Delta(w, [], Messages(c.notifications), r.position, position)
  }

  lemma CollectingStart(w: Environment, r: Request)
    requires r.position <= |w.tape|
    ensures Collecting(w, r, NewCollector(KindOf(r.dump), r.sequence, r.port), r.position)
  {
    hide Timeline;
    DeltaNone(w, [], r.position);
  }

  lemma CollectingStep(w: Environment, r: Request, c: Collector, position: nat)
    requires r.position <= position < |w.tape| && Collecting(w, r, c, position)
    requires w.tape[position].reception.Received?
    requires Ingest(c, w.tape[position].reception.datagram, w.decode).error.None?
    ensures Collecting(w, r, Ingest(c, w.tape[position].reception.datagram, w.decode).collector, position + 1)
  {
    hide Timeline, Ingest, Delta;
    var d := w.tape[position].reception.datagram;
    var before, after := Datagrams(w, r.position, position), Datagrams(w, r.position, position + 1);
    assert after[..|after| - 1] == before && after[|after| - 1] == d;
    DatagramDelta(w, c, position);
    DeltaChain(w, [], Messages(c.notifications), Messages(Ingest(c, d, w.decode).collector.notifications), r.position,
        position, position + 1);
  }

  /** A dump shows every identity it covers at some instant since the request. */
  ghost predicate Dumped(w: Environment, ms: seq<Message>, dump: DumpRequest, from: nat, till: nat)
    requires from <= till <= |w.tape|
  {
    && Timeline(w)
    && (LaterPositions(w, from, till); IsDump(ms, dump, w.start, w.history, UptoAt(w, from), NowAt(w, till)))
    && (Followable(w.rules, w.history, UptoAt(w, from), NowAt(w, till)) ==>
          IsRuleDump(ms, dump, w.rules, w.history, UptoAt(w, from), NowAt(w, till)))
  }

  lemma CollectingDone(w: Environment, requests: seq<Request>, r: Request, c: Collector, position: nat)
    requires r.position <= position <= |w.tape| && Collecting(w, r, c, position) && c.done
    requires Honest(w, requests) && r in requests
    ensures Dumped(w, c.messages, r.dump, r.position, position)
  {
    hide Timeline, IngestAll, IsDump, IsRuleDump, Followable, Delta;
    LaterPositions(w, r.position, position);
    assert Answers(w, r, position);
  }

  // ---------------------------------------------------------------------------------------
  // One query.

  /** Every reception was a datagram or an empty poll. */
  ghost predicate Awaited(w: Environment, from: nat, till: nat)
    requires from <= till <= |w.tape|
  {
    forall i :: from <= i < till ==> w.tape[i].reception.Received? || w.tape[i].reception.WouldBlock?
  }

  /** The datagrams among the receptions, in order. */
  ghost function Arrived(w: Environment, from: nat, till: nat): seq<Datagram>
    requires from <= till <= |w.tape|
    decreases till
  {
    if till == from then []
    else
      Arrived(w, from, till - 1)
      + match w.tape[till - 1].reception { case Received(d) => [d] case _ => [] }
  }

  // ---------------------------------------------------------------------------------------
  // Eight dumps, the drain and the replay.

  /** The first `n` dumps since position `from` are in the tables. */
  ghost predicate Partial(w: Environment, p: Parts, n: nat, from: nat, till: nat)
    requires from <= till <= |w.tape| && n <= |SNAPSHOT_DUMPS|
  {
    && Timeline(w) && KeysDistinct(p)
    && (LaterPositions(w, from, till);
        PartialView(View(p), SNAPSHOT_DUMPS[..n], w.start, w.history, UptoAt(w, from), NowAt(w, till)))
    && (Followable(w.rules, w.history, UptoAt(w, from), NowAt(w, till)) ==>
          RulesPartial(w, p.rules, n, UptoAt(w, from), NowAt(w, till)))
  }

  ghost predicate RulesPartial(w: Environment, rules: seq<Rule>, n: nat, lo: nat, hi: nat)
    requires lo <= hi <= |w.history| && n <= |SNAPSHOT_DUMPS|
  {
    NoRuleTwice(rules) && PartialRules(RuleSet(rules), SNAPSHOT_DUMPS[..n], w.rules, w.history, lo, hi)
  }

  lemma PartialStart(w: Environment, from: nat)
    requires from <= |w.tape| && Timeline(w)
    ensures Partial(w, NoParts, 0, from, from)
  {
    hide Timeline, SeenBetween, RuleSeen;
    LaterPositions(w, from, from);
    assert SNAPSHOT_DUMPS[..0] == [];
    assert View(NoParts) == map[];
  }

  lemma HonestStart(w: Environment, requests: seq<Request>, from: nat)
    requires from <= |w.tape| && Honest(w, requests)
    ensures Partial(w, NoParts, 0, from, from)
  {
    hide Timeline, Partial;
    PartialStart(w, from);
  }

  lemma PartialStep(w: Environment, p: Parts, n: nat, ms: seq<Message>, from: nat, sent: nat, till: nat)
    requires from <= sent <= till <= |w.tape| && n < |SNAPSHOT_DUMPS| && PushAll(p, ms).Ok?
    requires Partial(w, p, n, from, sent) && Dumped(w, ms, SNAPSHOT_DUMPS[n], sent, till)
    ensures Partial(w, PushAll(p, ms).value, n + 1, from, till)
  {
    hide Timeline, IsDump, View, KeysDistinct, PushAll, PartialView, IsRuleDump, PartialRules, NoRuleTwice, Followable;
    LaterPositions(w, from, sent);
    LaterPositions(w, sent, till);
    var lo := UptoAt(w, from);
    PartialLater(View(p), SNAPSHOT_DUMPS[..n], w.start, w.history, lo, NowAt(w, sent), NowAt(w, till));
    DumpExtends(p, n, ms, w.start, w.history, lo, UptoAt(w, sent), NowAt(w, till));
    if Followable(w.rules, w.history, lo, NowAt(w, till)) {
      FollowableWithin(w.rules, w.history, lo, NowAt(w, till), lo, NowAt(w, sent));
      FollowableWithin(w.rules, w.history, lo, NowAt(w, till), UptoAt(w, sent), NowAt(w, till));
      PartialRulesLater(RuleSet(p.rules), SNAPSHOT_DUMPS[..n], w.rules, w.history, lo, NowAt(w, sent), NowAt(w, till));
      RuleDumpExtends(p, n, ms, w.rules, w.history, lo, UptoAt(w, sent), NowAt(w, till));
    }
  }

  /** Dumps, drain, replay and close give the kernel store at the drain. */
  lemma SnapshotUpToDate(w: Environment, p: Parts, buffer: seq<Message>, from: nat, dumped: nat, drained: nat,
      generation: U64)
    requires from <= dumped <= drained <= |w.tape| && Partial(w, p, |SNAPSHOT_DUMPS|, from, dumped)
    requires Delta(w, [], buffer, from, drained) && (Timeline(w) ==> UptoAt(w, drained) == NowAt(w, drained))
    requires ApplyAll(p, buffer).Ok? && Finish(ApplyAll(p, buffer).value).Ok?
    ensures UpToDate(w, SnapshotOf(generation, Finish(ApplyAll(p, buffer).value).value), [], from, drained)
  {
    hide Timeline, View, KeysDistinct, PartialView, ApplyAll, Finish, UpToDate, PartialRules, NoRuleTwice,
        Followable;
    LaterPositions(w, from, dumped);
    LaterPositions(w, dumped, drained);
    LaterPositions(w, from, drained);
    var lo, hi := UptoAt(w, from), UptoAt(w, drained);
    assert SNAPSHOT_DUMPS[..|SNAPSHOT_DUMPS|] == SNAPSHOT_DUMPS;
    PartialLater(View(p), SNAPSHOT_DUMPS, w.start, w.history, lo, NowAt(w, dumped), hi);
    assert buffer == w.history[lo..hi];
    SnapshotCoherence(p, w.start, w.history, lo, hi);
    if RulesFollowed(w, from, drained) {
      FollowableWithin(w.rules, w.history, lo, hi, lo, NowAt(w, dumped));
      PartialRulesLater(RuleSet(p.rules), SNAPSHOT_DUMPS, w.rules, w.history, lo, NowAt(w, dumped), hi);
      RuleCoherence(p, w.rules, w.history, lo, hi);
      NothingReplayed(ApplyAll(p, buffer).value.rules);
    }
    FinishedUpToDate(w, ApplyAll(p, buffer).value, from, drained, generation);
  }
}
