/** What the tape of receptions, the clock and the outcomes of sends make of the operations of a route context: when
    a drain reads dry, a dump is answered and a full snapshot succeeds
    (crates/nodenet-linux-context/src/context.rs). */
module Course {
  import opened Wire
  import opened SnapshotErrors
  import opened Records
  import opened Kernel
  import opened Decoder
  import opened Normalize
  import opened World
  import opened Coherence
  import Preflight

  // Durations are milliseconds.
  const RECEIVE_TIMEOUT: nat := 2000
  const LAST_GENERATION: U64 := 0xffff_ffff_ffff_ffff

  // ---------------------------------------------------------------------------------------
  // Draining.

  /** The reception is a datagram that a fresh collector accepts. No request has its sequence number. */
  ghost predicate Readable(w: Environment, i: nat)
    requires i < |w.tape|
  {
    && w.tape[i].reception.Received?
    && Ingest(NewCollector(Preflight.Link, 0xffff_ffff, 0), w.tape[i].reception.datagram, w.decode).error.None?
  }

  /** What a reception announces. */
  function Notices(w: Environment, i: nat): seq<BufferedNotification>
    requires i < |w.tape|
  {
    match w.tape[i].reception
    case Received(d) => Announced(TilesOf(d), d.senderGroups, w.decode)
    case _ => []
  }

  /** What is announced between two positions, in order. */
  function Drained(w: Environment, from: nat, till: nat): seq<BufferedNotification>
    requires from <= till <= |w.tape|
    decreases till
  {
    if till == from then [] else Drained(w, from, till - 1) + Notices(w, till - 1)
  }

  ghost predicate Legible(w: Environment, from: nat, till: nat)
    requires from <= till <= |w.tape|
  {
    forall i :: from <= i < till ==> Readable(w, i)
  }

  /** Reading from one position finds nothing but readable datagrams until the queue is empty at the other. */
  ghost predicate Dry(w: Environment, from: nat, till: nat) {
    from < till <= |w.tape| && Legible(w, from, till - 1) && w.tape[till - 1].reception.WouldBlock?
  }

  /** There is room for more notifications in a buffer of this size. */
  predicate Fits(count: nat, bytes: nat, more: seq<BufferedNotification>) {
    count + |more| <= MAX_BUFFERED_NOTIFICATIONS && bytes + SumBytes(more) <= MAX_BUFFERED_NOTIFICATION_BYTES
  }

  /** Replaying the buffer over a snapshot and closing the tables succeeds, and there is a number for the result. */
  predicate Publishes(s: NetworkSnapshot, buffer: seq<Message>, generation: U64) {
    Advance(s, buffer).Ok? && generation < LAST_GENERATION
  }

  /** The queue is read to its end and everything announced meanwhile finds room. */
  ghost predicate Drains(w: Environment, from: nat, till: nat, count: nat, bytes: nat) {
    Dry(w, from, till) && Fits(count, bytes, Drained(w, from, till))
  }

  lemma NothingDrained(w: Environment, from: nat)
    requires from <= |w.tape|
    ensures Drained(w, from, from) == [] && Legible(w, from, from)
  {
  }

  lemma DrainedNext(w: Environment, from: nat, position: nat)
    requires from <= position < |w.tape|
    ensures Drained(w, from, position + 1) == Drained(w, from, position) + Notices(w, position)
    ensures w.tape[position].reception.WouldBlock? ==> Drained(w, from, position + 1) == Drained(w, from, position)
    ensures Legible(w, from, position) && Readable(w, position) ==> Legible(w, from, position + 1)
    ensures Legible(w, from, position) && w.tape[position].reception.WouldBlock? ==> Dry(w, from, position + 1)
    ensures SumBytes(Drained(w, from, position + 1))
            == SumBytes(Drained(w, from, position)) + SumBytes(Notices(w, position))
  {
    hide Readable, Notices;
    SumAppend(Drained(w, from, position), Notices(w, position));
    QuietNotices(w, position);
  }

  lemma QuietNotices(w: Environment, position: nat)
    requires position < |w.tape|
    ensures w.tape[position].reception.WouldBlock? ==> Notices(w, position) == []
  {
  }

  /** More is announced later, never less. */
  lemma {:induction false} DrainedGrows(w: Environment, from: nat, position: nat, till: nat)
    requires from <= position <= till <= |w.tape|
    ensures Drained(w, from, position) <= Drained(w, from, till)
    ensures SumBytes(Drained(w, from, position)) <= SumBytes(Drained(w, from, till))
    decreases till
  {
    hide Notices;
    if position < till {
      DrainedGrows(w, from, position, till - 1);
      DrainedNext(w, from, till - 1);
    }
  }

  /** A drain that has come to a position it cannot pass does not read dry. */
  lemma Stuck(w: Environment, from: nat, position: nat, till: nat, count: nat, bytes: nat)
    requires from <= position <= |w.tape| && Legible(w, from, position)
    requires position < |w.tape| ==>
               && !w.tape[position].reception.WouldBlock?
               && !(Readable(w, position) && Fits(count, bytes, Drained(w, from, position + 1)))
    ensures !Drains(w, from, till, count, bytes)
  {
    hide Readable, Drained;
    if Dry(w, from, till) {
      if till - 1 < position {
        assert Readable(w, till - 1);
        Received(w, till - 1);
      } else if position < till - 1 {
        assert Readable(w, position);
        DrainedGrows(w, from, position + 1, till);
      }
    }
  }

  lemma StuckHere(w: Environment, from: nat, position: nat, count: nat, bytes: nat)
    requires from <= position <= |w.tape| && Legible(w, from, position)
    requires position < |w.tape| ==>
               && !w.tape[position].reception.WouldBlock?
               && !(Readable(w, position) && Fits(count, bytes, Drained(w, from, position + 1)))
    ensures forall till :: !Drains(w, from, till, count, bytes)
  {
    hide Drains;
    forall till ensures !Drains(w, from, till, count, bytes) { Stuck(w, from, position, till, count, bytes); }
  }

  lemma DrainsNow(w: Environment, from: nat, till: nat, count: nat, bytes: nat)
    requires Dry(w, from, till) && Fits(count, bytes, Drained(w, from, till))
    ensures Drains(w, from, till, count, bytes)
  {
  }

  lemma Unreadable(w: Environment, i: nat)
    requires i < |w.tape| && !w.tape[i].reception.Received?
    ensures !Readable(w, i)
  {
  }

  lemma Received(w: Environment, i: nat)
    requires i < |w.tape| && Readable(w, i)
    ensures w.tape[i].reception.Received?
  {
  }

  lemma DryOnce(w: Environment, from: nat, i: nat, j: nat)
    requires Dry(w, from, i) && Dry(w, from, j)
    ensures i == j
  {
    hide Readable;
    if i < j {
      assert Readable(w, i - 1);
      Received(w, i - 1);
    } else if j < i {
      assert Readable(w, j - 1);
      Received(w, j - 1);
    }
  }

  lemma DrainsOnce(w: Environment, from: nat, i: nat, j: nat, count: nat, bytes: nat)
    requires Drains(w, from, i, count, bytes) && Drains(w, from, j, count, bytes)
    ensures i == j
  {
    hide Dry;
    DryOnce(w, from, i, j);
  }

  // ---------------------------------------------------------------------------------------
  // One dump.

  /** Where the context is: in the tape, among sequence numbers, sends and clock readings. */
  datatype Cursor = Cursor(position: nat, sequence: U32, sent: nat, ticks: nat)

  /** The sequence number after this one; zero is left out. */
  function NextSequence(s: U32): U32 { if s == 0xffff_ffff then 1 else s + 1 }

  /** The `n` clock readings after this one are within the receive timeout. */
  ghost predicate InTime(w: Environment, tick: nat, n: nat) {
    forall j :: tick < j <= tick + n ==> w.times(j) < w.times(tick) + RECEIVE_TIMEOUT
  }

  /** The request is delivered, and every reception from there on is a datagram that comes in time, up to the one that
      completes the collection. */
  ghost predicate Answered(w: Environment, port: U32, dump: DumpRequest, from: Cursor, till: Cursor, c: Collector) {
    && from.position < till.position <= |w.tape| && w.sends(from.sent)
    && AllReceived(w, from.position, till.position) && InTime(w, from.ticks, till.position - from.position)
    && IngestAll(NewCollector(KindOf(dump), from.sequence, port), Datagrams(w, from.position, till.position), w.decode)
       == Outcome(c, None)
    && c.done
    && till == Cursor(till.position, NextSequence(from.sequence), from.sent + 1,
                      from.ticks + 1 + till.position - from.position)
  }

  /** A reception that ends a dump. */
  predicate Ends(w: Environment, i: nat)
    requires i < |w.tape|
  {
    w.tape[i].reception.Received? && EndsDump(w.tape[i].reception.datagram, w.decode)
  }

  /** In a collection without an error, no reception but the last ends the dump, and the last one does if the
      collection is complete. */
  lemma EndsOnce(w: Environment, kind: Preflight.DumpKind, sequence: U32, port: U32, from: nat, till: nat, c: Collector)
    requires from <= till <= |w.tape| && AllReceived(w, from, till)
    requires IngestAll(NewCollector(kind, sequence, port), Datagrams(w, from, till), w.decode) == Outcome(c, None)
    ensures c.done <==> from < till && Ends(w, till - 1)
    ensures forall i :: from <= i < till - 1 ==> !Ends(w, i)
  {
    hide IngestAll, AllReplies, AllAnnounced, Welcome, Tiles, EndsDump;
    var ds := Datagrams(w, from, till);
    CollectionExact(kind, sequence, port, ds, w.decode);
    assert forall i :: from <= i < till ==> ds[i - from] == w.tape[i].reception.datagram;
  }

  /** A collection that is not complete is complete only later. */
  lemma CompleteLater(w: Environment, port: U32, dump: DumpRequest, from: Cursor, till: Cursor, c: Collector,
      position: nat, d: Collector)
    requires Answered(w, port, dump, from, till, c) && from.position <= position <= |w.tape|
    requires AllReceived(w, from.position, position) && !d.done
    requires IngestAll(NewCollector(KindOf(dump), from.sequence, port), Datagrams(w, from.position, position), w.decode)
             == Outcome(d, None)
    ensures position < till.position
  {
    hide IngestAll, InTime, Ends;
    EndsOnce(w, KindOf(dump), from.sequence, port, from.position, till.position, c);
    EndsOnce(w, KindOf(dump), from.sequence, port, from.position, position, d);
  }

  lemma AnsweredOnce(w: Environment, port: U32, dump: DumpRequest, from: Cursor, i: Cursor, c: Collector, j: Cursor,
      d: Collector)
    requires Answered(w, port, dump, from, i, c) && Answered(w, port, dump, from, j, d)
    ensures i == j && c == d
  {
    hide IngestAll, InTime, Ends;
    EndsOnce(w, KindOf(dump), from.sequence, port, from.position, i.position, c);
    EndsOnce(w, KindOf(dump), from.sequence, port, from.position, j.position, d);
  }

  datatype Reply = Reply(cursor: Cursor, collector: Collector)

  /** The answer to a dump request sent at a cursor, if there is one. */
  ghost function ReplyTo(w: Environment, port: U32, dump: DumpRequest, from: Cursor): (r: Option<Reply>)
    ensures r.Some? ==> Answered(w, port, dump, from, r.value.cursor, r.value.collector)
    ensures r.None? ==> forall till, c :: !Answered(w, port, dump, from, till, c)
  {
    if exists till, c :: Answered(w, port, dump, from, till, c) then
      var till, c :| Answered(w, port, dump, from, till, c);
      Some(Reply(till, c))
    else None
  }

  lemma ReplyIs(w: Environment, port: U32, dump: DumpRequest, from: Cursor, till: Cursor, c: Collector)
    requires Answered(w, port, dump, from, till, c)
    ensures ReplyTo(w, port, dump, from) == Some(Reply(till, c))
  {
    hide Answered;
    var r := ReplyTo(w, port, dump, from).value;
    AnsweredOnce(w, port, dump, from, till, c, r.cursor, r.collector);
  }

  lemma {:induction false} CollectedBefore(c: Collector, ds: seq<Datagram>, n: nat, decode: Decode)
    requires n <= |ds| && IngestAll(c, ds, decode).error.None?
    ensures IngestAll(c, ds[..n], decode).error.None?
    decreases |ds|
  {
    hide Ingest;
    if n == |ds| {
      assert ds[..n] == ds;
    } else {
      CollectedBefore(c, ds[..|ds| - 1], n, decode);
      assert ds[..|ds| - 1][..n] == ds[..n];
    }
  }

  lemma CollectedNext(w: Environment, c: Collector, from: nat, position: nat)
    requires from <= position < |w.tape| && AllReceived(w, from, position + 1)
    requires IngestAll(c, Datagrams(w, from, position), w.decode).error.None?
    ensures IngestAll(c, Datagrams(w, from, position + 1), w.decode)
            == Ingest(IngestAll(c, Datagrams(w, from, position), w.decode).collector,
                      w.tape[position].reception.datagram, w.decode)
  {
    hide Ingest;
    var before, after := Datagrams(w, from, position), Datagrams(w, from, position + 1);
    assert after[..|after| - 1] == before && after[|after| - 1] == w.tape[position].reception.datagram;
  }

  /** The clock reading before the reception at a position. */
  function TickAt(from: Cursor, position: nat): nat
    requires from.position <= position
  {
    from.ticks + 1 + position - from.position
  }

  /** What keeps a collection from being completed. */
  ghost predicate Obstructed(w: Environment, from: Cursor, position: nat, d: Collector)
    requires from.position <= position
  {
    position >= |w.tape| || !w.tape[position].reception.Received?
    || w.times(TickAt(from, position)) >= w.times(from.ticks) + RECEIVE_TIMEOUT
    || Ingest(d, w.tape[position].reception.datagram, w.decode).error.Some?
  }

  lemma ObstructedEarlier(w: Environment, port: U32, dump: DumpRequest, from: Cursor, till: Cursor, c: Collector,
      position: nat, d: Collector)
    requires Answered(w, port, dump, from, till, c) && from.position <= position < till.position
    requires IngestAll(NewCollector(KindOf(dump), from.sequence, port), Datagrams(w, from.position, position), w.decode)
             == Outcome(d, None)
    ensures !Obstructed(w, from, position, d)
  {
    hide IngestAll, Ingest;
    var start, ds := NewCollector(KindOf(dump), from.sequence, port), Datagrams(w, from.position, till.position);
    CollectedBefore(start, ds, position + 1 - from.position, w.decode);
    assert ds[..position + 1 - from.position] == Datagrams(w, from.position, position + 1);
    CollectedNext(w, start, from.position, position);
  }

  lemma Unanswered(w: Environment, port: U32, dump: DumpRequest, from: Cursor, position: nat, d: Collector)
    requires from.position <= position <= |w.tape| && AllReceived(w, from.position, position) && !d.done
    requires IngestAll(NewCollector(KindOf(dump), from.sequence, port), Datagrams(w, from.position, position), w.decode)
             == Outcome(d, None)
    requires Obstructed(w, from, position, d)
    ensures ReplyTo(w, port, dump, from).None?
  {
    hide IngestAll, Answered, Obstructed;
    forall till, c ensures !Answered(w, port, dump, from, till, c) {
      if Answered(w, port, dump, from, till, c) {
        CompleteLater(w, port, dump, from, till, c, position, d);
        ObstructedEarlier(w, port, dump, from, till, c, position, d);
      }
    }
  }

  lemma NoTime(w: Environment, tick: nat)
    ensures InTime(w, tick, 0)
  {
  }

  lemma MoreTime(w: Environment, tick: nat, n: nat)
    requires InTime(w, tick, n) && w.times(tick + n + 1) < w.times(tick) + RECEIVE_TIMEOUT
    ensures InTime(w, tick, n + 1)
  {
  }

  lemma LateDump(w: Environment, asked: Request, from: Cursor, d: Collector, position: nat)
    requires from.position == asked.position <= position <= |w.tape| && asked.sequence == from.sequence
    requires Collecting(w, asked, d, position) && !d.done
    requires Obstructed(w, from, position, d)
    ensures ReplyTo(w, asked.port, asked.dump, from).None?
  {
    hide Ingest, IngestAll, Obstructed, Delta;
    Unanswered(w, asked.port, asked.dump, from, position, d);
  }

  lemma AnsweredNow(w: Environment, asked: Request, from: Cursor, c: Collector, position: nat)
    requires from.position == asked.position <= position <= |w.tape| && asked.sequence == from.sequence
    requires Collecting(w, asked, c, position) && c.done && w.sends(from.sent)
    requires InTime(w, from.ticks, position - from.position)
    ensures ReplyTo(w, asked.port, asked.dump, from)
            == Some(Reply(Cursor(position, NextSequence(from.sequence), from.sent + 1, TickAt(from, position)), c))
  {
    hide Ingest, Delta, InTime;
    var till := Cursor(position, NextSequence(from.sequence), from.sent + 1, TickAt(from, position));
    SomethingRead(w, asked, c, position);
    ReplyIs(w, asked.port, asked.dump, from, till, c);
  }

  lemma SomethingRead(w: Environment, asked: Request, c: Collector, position: nat)
    requires asked.position <= position <= |w.tape| && Collecting(w, asked, c, position) && c.done
    ensures asked.position < position
  {
    hide Ingest, Delta;
  }

  lemma Undelivered(w: Environment, port: U32, dump: DumpRequest, from: Cursor)
    requires !w.sends(from.sent)
    ensures ReplyTo(w, port, dump, from).None?
  {
    hide IngestAll, InTime;
  }

  // ---------------------------------------------------------------------------------------
  // A full snapshot.

  /** The tables and the buffer after some of the dumps. */
  datatype Progress = Progress(cursor: Cursor, tables: Parts, notices: seq<BufferedNotification>)

  /** One dump is answered, its records fit the tables, and what was announced meanwhile fits the buffer. */
  ghost function DumpStep(w: Environment, port: U32, dump: DumpRequest, g: Progress): Option<Progress> {
    match ReplyTo(w, port, dump, g.cursor)
    case None => None
    case Some(r) =>
      match PushAll(g.tables, r.collector.messages)
      case Err(_) => None
      case Ok(tables) =>
        if Fits(|g.notices|, SumBytes(g.notices), r.collector.notifications)
        then Some(Progress(r.cursor, tables, g.notices + r.collector.notifications)) else None
  }

  /** The first `n` dumps, one after the other. */
  ghost function Dumping(w: Environment, port: U32, from: Cursor, n: nat): Option<Progress>
    requires n <= |SNAPSHOT_DUMPS|
  {
    if n == 0 then Some(Progress(from, NoParts, []))
    else
      match Dumping(w, port, from, n - 1)
      case None => None
      case Some(g) => DumpStep(w, port, SNAPSHOT_DUMPS[n - 1], g)
  }

  lemma {:induction false} DumpingStops(w: Environment, port: U32, from: Cursor, n: nat, m: nat)
    requires n <= m <= |SNAPSHOT_DUMPS| && Dumping(w, port, from, n).None?
    ensures Dumping(w, port, from, m).None?
    decreases m
  {
    hide DumpStep;
    if n < m { DumpingStops(w, port, from, n, m - 1); }
  }

  /** All eight dumps, the drain behind them, the replay of what was announced and the closing of the tables. */
  ghost predicate Snapshots(w: Environment, port: U32, from: Cursor, till: nat, tables: Parts) {
    var g := Dumping(w, port, from, |SNAPSHOT_DUMPS|);
    && g.Some?
    && Drains(w, g.value.cursor.position, till, |g.value.notices|, SumBytes(g.value.notices))
    && var events := Messages(g.value.notices + Drained(w, g.value.cursor.position, till));
    var applied := ApplyAll(g.value.tables, events);
    applied.Ok? && Finish(applied.value) == Ok(tables)
  }

  /** The snapshot holds the tables of such a course. */
  ghost predicate Takes(w: Environment, port: U32, from: Cursor, till: nat, s: NetworkSnapshot) {
    exists tables :: Snapshots(w, port, from, till, tables) && s == SnapshotOf(s.generation, tables)
  }

  lemma NoSnapshot(w: Environment, port: U32, from: Cursor)
    requires Dumping(w, port, from, |SNAPSHOT_DUMPS|).None?
    ensures forall till, tables :: !Snapshots(w, port, from, till, tables)
  {
  }

  lemma NotDrained(w: Environment, port: U32, from: Cursor, g: Progress)
    requires Dumping(w, port, from, |SNAPSHOT_DUMPS|) == Some(g)
    requires forall till :: !Drains(w, g.cursor.position, till, |g.notices|, SumBytes(g.notices))
    ensures forall till, tables :: !Snapshots(w, port, from, till, tables)
  {
    hide Dumping, Drains, ApplyAll, Finish, Messages;
  }

  lemma NotReplayed(w: Environment, port: U32, from: Cursor, g: Progress, drained: nat)
    requires Dumping(w, port, from, |SNAPSHOT_DUMPS|) == Some(g)
    requires Drains(w, g.cursor.position, drained, |g.notices|, SumBytes(g.notices))
    requires var applied := ApplyAll(g.tables, Messages(g.notices + Drained(w, g.cursor.position, drained)));
             applied.Err? || Finish(applied.value).Err?
    ensures forall till, tables :: !Snapshots(w, port, from, till, tables)
  {
    hide Dumping, ApplyAll, Finish, Messages, Drained, Dry;
    forall till, tables ensures !Snapshots(w, port, from, till, tables) {
      if Snapshots(w, port, from, till, tables) { DryOnce(w, g.cursor.position, till, drained); }
    }
  }
}
