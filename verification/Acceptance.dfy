/** Exactly which datagrams, and which runs of datagrams, a collector accepts
    (crates/nodenet-linux-context/src/decoder.rs). */
module Acceptance {
  import opened Wire
  import opened SnapshotErrors
  import opened Records
  import opened Decoder
  import Preflight

  /** The room a collector has used is within its ceilings. */
  predicate Within(c: Collector) {
    && |c.notifications| <= MAX_BUFFERED_NOTIFICATIONS && c.notificationBytes <= MAX_BUFFERED_NOTIFICATION_BYTES
    && c.messageCount <= MAX_MESSAGES_PER_DUMP && c.byteCount <= MAX_DUMP_BYTES
  }

  // ---------------------------------------------------------------------------------------
  // One datagram.

  /** There is room for these messages and for what they announce. */
  predicate Room(c: Collector, tiles: seq<Bytes>, groups: U32, decode: Decode) {
    var announced := Announced(tiles, groups, decode);
    && c.messageCount + |tiles| <= MAX_MESSAGES_PER_DUMP
    && |c.notifications| + |announced| <= MAX_BUFFERED_NOTIFICATIONS
    && c.notificationBytes + SumBytes(announced) <= MAX_BUFFERED_NOTIFICATION_BYTES
  }

  /** Every message is welcome, and none but the last ends the dump. */
  ghost predicate Fine(tiles: seq<Bytes>, groups: U32, kind: Preflight.DumpKind, sequence: U32, port: U32,
      decode: Decode)
  {
    && (forall i :: 0 <= i < |tiles| ==> Welcome(tiles[i], groups, kind, sequence, port, decode))
    && (forall i :: 0 <= i < |tiles| - 1 ==> !Terminates(tiles[i], groups, decode))
  }

  ghost predicate FineFor(c: Collector, tiles: seq<Bytes>, groups: U32, decode: Decode) {
    Fine(tiles, groups, c.kind, c.expectedSequence, c.localPort, decode)
  }

  lemma FineSplit(c: Collector, t: Bytes, rest: seq<Bytes>, groups: U32, decode: Decode)
    ensures FineFor(c, [t] + rest, groups, decode) <==>
            && WelcomeTo(c, t, groups, decode) && FineFor(c, rest, groups, decode)
            && (rest != [] ==> !Terminates(t, groups, decode))
  {
    hide Welcome, Terminates;
    var ts := [t] + rest;
    assert ts[0] == t;
    assert forall i :: 0 < i < |ts| ==> ts[i] == rest[i - 1];
    assert forall i :: 0 <= i < |rest| ==> rest[i] == ts[i + 1];
  }

  lemma RoomSplit(c: Collector, t: Bytes, rest: seq<Bytes>, groups: U32, decode: Decode)
    requires Within(c) && WelcomeTo(c, t, groups, decode)
    ensures var announced := Announced([t] + rest, groups, decode);
            && announced == AnnouncedBy(t, groups, decode) + Announced(rest, groups, decode)
            && (SumBytes(announced)
                == SumBytes(AnnouncedBy(t, groups, decode)) + SumBytes(Announced(rest, groups, decode)))
    ensures var a := AnnouncedBy(t, groups, decode);
            if IsNotification(t, groups) then |a| == 1 && SumBytes(a) == |t| else a == [] && SumBytes(a) == 0
  {
    hide LittleEndian;
    var ts := [t] + rest;
    assert ts[0] == t && ts[1..] == rest;
    SumAppend(AnnouncedBy(t, groups, decode), Announced(rest, groups, decode));
    assert IsNotification(t, groups) ==> decode(t).Inner?;
    var a := AnnouncedBy(t, groups, decode);
    if a != [] { assert a[..0] == [] && SumBytes(a[..0]) == 0; }
  }

  lemma NoRoomNeeded(c: Collector, groups: U32, decode: Decode)
    requires Within(c)
    ensures Room(c, [], groups, decode) && FineFor(c, [], groups, decode)
  {
  }

  /** The collector after accepted messages, as far as the ceilings and later messages are concerned. */
  predicate Counted(c: Collector, r: Collector, tiles: seq<Bytes>, groups: U32, decode: Decode) {
    && r.messageCount == c.messageCount + |tiles| && r.byteCount == c.byteCount
    && r.notificationBytes == c.notificationBytes + SumBytes(Announced(tiles, groups, decode))
    && (r.sawSingleResponse <==>
        c.sawSingleResponse || exists i :: 0 <= i < |tiles| && SingleReply(tiles[i], groups, c.kind))
  }

  predicate SingleReply(t: Bytes, groups: U32, kind: Preflight.DumpKind) {
    |t| >= 16 && !IsNotification(t, groups) && Single(t, kind)
  }

  lemma CountedSplit(c: Collector, r: Collector, t: Bytes, rest: seq<Bytes>, groups: U32, decode: Decode)
    requires Within(c) && WelcomeTo(c, t, groups, decode) && |t| >= 16
    requires Counted(Stored(c.(messageCount := c.messageCount + 1), t, groups, decode), r, rest, groups, decode)
    ensures Counted(c, r, [t] + rest, groups, decode)
  {
    hide IsNotification, Terminates, Welcome, AnnouncedBy, Announced, SumBytes, ReplyOf, Single;
    RoomSplit(c, t, rest, groups, decode);
    var ts := [t] + rest;
    assert ts[0] == t;
    assert forall i :: 0 < i < |ts| ==> ts[i] == rest[i - 1];
    assert forall i :: 0 <= i < |rest| ==> rest[i] == ts[i + 1];
  }

  lemma NothingCounted(c: Collector, groups: U32, decode: Decode)
    ensures Counted(c, c, [], groups, decode)
  {
  }

  /** What the framing loop does with the message in front. */
  lemma FramesHead(c: Collector, left: Bytes, groups: U32, decode: Decode)
    requires left != []
    ensures |left| < 16 ==> Frames(c, left, groups, decode).error.Some? && Tiles(left).None?
    ensures |left| >= 16 ==>
              var length := NativeU32At(left, 0);
              if length < 16 || Align4(length) > |left| then
                Frames(c, left, groups, decode).error.Some? && Tiles(left).None?
              else
                var t, rest := left[..length], left[Align4(length)..];
                var counted := c.(messageCount := c.messageCount + 1);
                var step := MessageStep(counted, t, groups, decode);
                && (Tiles(left).Some? <==> Tiles(rest).Some?)
                && (Tiles(rest).Some? ==> Tiles(left).value == [t] + Tiles(rest).value)
                && (Frames(c, left, groups, decode).error.None? <==>
                    && counted.messageCount <= MAX_MESSAGES_PER_DUMP && step.error.None?
                    && (step.collector.done ==> rest == []) && Frames(step.collector, rest, groups, decode).error.None?)
                && (Frames(c, left, groups, decode).error.None? ==>
                      Frames(c, left, groups, decode) == Frames(step.collector, rest, groups, decode))
  {
    hide MessageStep, LittleEndian;
  }

  lemma {:induction false} FramesAccept(c: Collector, left: Bytes, groups: U32, decode: Decode)
    requires !c.done && Within(c)
    ensures Frames(c, left, groups, decode).error.None? <==>
            && Tiles(left).Some? && FineFor(c, Tiles(left).value, groups, decode)
            && Room(c, Tiles(left).value, groups, decode)
    ensures Frames(c, left, groups, decode).error.None? ==>
              Counted(c, Frames(c, left, groups, decode).collector, Tiles(left).value, groups, decode)
    decreases |left|, 0
  {
    hide MessageStep, Frames, FineFor, Counted, Room, Tiles, Align4, WelcomeTo, Terminates, IsNotification;
    hide Announced, SumBytes;
    if left == [] {
      NothingFramed(c, groups, decode);
      NoRoomNeeded(c, groups, decode);
      NothingCounted(c, groups, decode);
      return;
    }
    FramesHead(c, left, groups, decode);
    if |left| < 16 { return; }
    var length := NativeU32At(left, 0);
    if length < 16 || Align4(length) > |left| { return; }
    var t, rest := left[..length], left[Align4(length)..];
    var counted := c.(messageCount := c.messageCount + 1);
    StepAccepts(counted, t, groups, decode);
    SameWelcome(c, counted, t, groups, decode);
    if Tiles(rest).Some? { FineSplit(c, t, Tiles(rest).value, groups, decode); }
    if MessageStep(counted, t, groups, decode).error.None? && counted.messageCount <= MAX_MESSAGES_PER_DUMP {
      FramesStep(c, t, rest, groups, decode);
    } else if Tiles(rest).Some? && WelcomeTo(c, t, groups, decode) {
      RoomRefused(c, t, Tiles(rest).value, groups, decode);
    }
  }

  lemma NothingFramed(c: Collector, groups: U32, decode: Decode)
    ensures Frames(c, [], groups, decode) == Outcome(c, None) && Tiles([]) == Some([])
  {
  }

  lemma SameWelcome(c: Collector, d: Collector, t: Bytes, groups: U32, decode: Decode)
    requires (c.kind, c.expectedSequence, c.localPort) == (d.kind, d.expectedSequence, d.localPort)
    ensures WelcomeTo(c, t, groups, decode) == WelcomeTo(d, t, groups, decode)
  {
  }

  lemma RoomRefused(c: Collector, t: Bytes, rest: seq<Bytes>, groups: U32, decode: Decode)
    requires Within(c) && WelcomeTo(c, t, groups, decode)
    requires c.messageCount + 1 > MAX_MESSAGES_PER_DUMP
             || (IsNotification(t, groups)
                 && (c.notificationBytes + |t| > MAX_BUFFERED_NOTIFICATION_BYTES
                     || |c.notifications| == MAX_BUFFERED_NOTIFICATIONS))
    ensures !Room(c, [t] + rest, groups, decode)
  {
    hide IsNotification, WelcomeTo, AnnouncedBy, Announced, SumBytes;
    RoomSplit(c, t, rest, groups, decode);
  }

  lemma RoomStep(c: Collector, t: Bytes, rest: seq<Bytes>, groups: U32, decode: Decode)
    requires Within(c) && WelcomeTo(c, t, groups, decode) && |t| >= 16
    requires c.messageCount + 1 <= MAX_MESSAGES_PER_DUMP
    requires IsNotification(t, groups) ==>
               c.notificationBytes + |t| <= MAX_BUFFERED_NOTIFICATION_BYTES
               && |c.notifications| != MAX_BUFFERED_NOTIFICATIONS
    ensures var m := Stored(c.(messageCount := c.messageCount + 1), t, groups, decode);
            Within(m) && (Room(c, [t] + rest, groups, decode) <==> Room(m, rest, groups, decode))
  {
    hide IsNotification, WelcomeTo, AnnouncedBy, Announced, SumBytes, ReplyOf, Terminates, Single;
    RoomSplit(c, t, rest, groups, decode);
  }

  lemma FramesStep(c: Collector, t: Bytes, rest: Bytes, groups: U32, decode: Decode)
    requires !c.done && Within(c) && |t| >= 16 && c.messageCount + 1 <= MAX_MESSAGES_PER_DUMP
    requires MessageStep(c.(messageCount := c.messageCount + 1), t, groups, decode).error.None?
    ensures var m := MessageStep(c.(messageCount := c.messageCount + 1), t, groups, decode).collector;
            && ((m.done ==> rest == []) && Frames(m, rest, groups, decode).error.None? <==>
                && Tiles(rest).Some? && FineFor(c, [t] + Tiles(rest).value, groups, decode)
                && Room(c, [t] + Tiles(rest).value, groups, decode))
            && ((m.done ==> rest == []) && Frames(m, rest, groups, decode).error.None? ==>
                  Counted(c, Frames(m, rest, groups, decode).collector, [t] + Tiles(rest).value, groups, decode))
    decreases |rest|, 1
  {
    hide MessageStep, Frames, FineFor, Counted, Room, Tiles, WelcomeTo, IsNotification, Announced, SumBytes;
    var counted := c.(messageCount := c.messageCount + 1);
    StepAccepts(counted, t, groups, decode);
    SameWelcome(c, counted, t, groups, decode);
    var m := MessageStep(counted, t, groups, decode).collector;
    if rest == [] {
      NothingFramed(m, groups, decode);
      FineSplit(c, t, [], groups, decode);
      RoomStep(c, t, [], groups, decode);
      NoRoomNeeded(m, groups, decode);
      SameFine(c, m, [], groups, decode);
      NothingCounted(m, groups, decode);
      CountedSplit(c, m, t, [], groups, decode);
    } else if Terminates(t, groups, decode) {
      if Tiles(rest).Some? {
        SomeTiles(rest);
        FineSplit(c, t, Tiles(rest).value, groups, decode);
      }
    } else {
      FramesAccept(m, rest, groups, decode);
      if Tiles(rest).Some? {
        var tiles := Tiles(rest).value;
        SomeTiles(rest);
        FineSplit(c, t, tiles, groups, decode);
        SameFine(c, m, tiles, groups, decode);
        RoomStep(c, t, tiles, groups, decode);
        if Frames(m, rest, groups, decode).error.None? {
          CountedSplit(c, Frames(m, rest, groups, decode).collector, t, tiles, groups, decode);
        }
      }
    }
  }

  lemma SameFine(c: Collector, d: Collector, tiles: seq<Bytes>, groups: U32, decode: Decode)
    requires (c.kind, c.expectedSequence, c.localPort) == (d.kind, d.expectedSequence, d.localPort)
    ensures FineFor(c, tiles, groups, decode) == FineFor(d, tiles, groups, decode)
  {
  }

  lemma SomeTiles(left: Bytes)
    requires left != [] && Tiles(left).Some?
    ensures Tiles(left).value != []
  {
  }

  /** A datagram from the kernel, of bounded size, that tiles into welcome messages for which there is room. */
  ghost predicate Taken(c: Collector, d: Datagram, decode: Decode) {
    && !c.done && d.senderPort == 0
    && |d.bytes| <= MAX_NETLINK_DATAGRAM_BYTES && c.byteCount + |d.bytes| <= MAX_DUMP_BYTES
    && Tiles(d.bytes).Some? && FineFor(c, Tiles(d.bytes).value, d.senderGroups, decode)
    && Room(c, Tiles(d.bytes).value, d.senderGroups, decode)
  }

  /** A datagram is ingested without an error exactly if its bytes are as they should be. */
  lemma IngestAccepts(c: Collector, d: Datagram, decode: Decode)
    requires Within(c)
    ensures Ingest(c, d, decode).error.None? <==> Taken(c, d, decode)
    ensures Ingest(c, d, decode).error.None? ==>
              && Counted(c.(byteCount := c.byteCount + |d.bytes|), Ingest(c, d, decode).collector, TilesOf(d),
                         d.senderGroups, decode)
              && Within(Ingest(c, d, decode).collector)
  {
    hide Frames, Fine, Tiles, Announced, SumBytes, Replies, Terminates, Welcome, SingleReply;
    var counted := c.(byteCount := c.byteCount + |d.bytes|);
    if !c.done && counted.byteCount <= MAX_DUMP_BYTES { FramesAccept(counted, d.bytes, d.senderGroups, decode); }
    if Ingest(c, d, decode).error.None? { IngestExact(c, d, decode); }
  }

  // ---------------------------------------------------------------------------------------
  // A run of datagrams.

  function ByteTotal(ds: seq<Datagram>): nat {
    if ds == [] then 0 else ByteTotal(ds[..|ds| - 1]) + |ds[|ds| - 1].bytes|
  }

  function TileTotal(ds: seq<Datagram>): nat {
    if ds == [] then 0 else TileTotal(ds[..|ds| - 1]) + |TilesOf(ds[|ds| - 1])|
  }

  /** Each datagram comes from the kernel, is of bounded size and tiles into welcome messages. Only the very last
      message can end the dump, and all of them together stay within the ceilings. */
  ghost predicate WellCollected(kind: Preflight.DumpKind, sequence: U32, port: U32, ds: seq<Datagram>, decode: Decode) {
    && (forall i :: 0 <= i < |ds| ==>
          && ds[i].senderPort == 0 && |ds[i].bytes| <= MAX_NETLINK_DATAGRAM_BYTES && Tiles(ds[i].bytes).Some?
          && Fine(TilesOf(ds[i]), ds[i].senderGroups, kind, sequence, port, decode))
    && (forall i :: 0 <= i < |ds| - 1 ==> !EndsDump(ds[i], decode))
    && ByteTotal(ds) <= MAX_DUMP_BYTES && TileTotal(ds) <= MAX_MESSAGES_PER_DUMP
    && |AllAnnounced(ds, decode)| <= MAX_BUFFERED_NOTIFICATIONS
    && SumBytes(AllAnnounced(ds, decode)) <= MAX_BUFFERED_NOTIFICATION_BYTES
  }

  lemma WellCollectedSplit(kind: Preflight.DumpKind, sequence: U32, port: U32, ds: seq<Datagram>, decode: Decode)
    requires ds != []
    ensures var init, last := ds[..|ds| - 1], ds[|ds| - 1];
            var announced := Announced(TilesOf(last), last.senderGroups, decode);
            && AllAnnounced(ds, decode) == AllAnnounced(init, decode) + announced
            && SumBytes(AllAnnounced(ds, decode)) == SumBytes(AllAnnounced(init, decode)) + SumBytes(announced)
            && (WellCollected(kind, sequence, port, ds, decode) <==>
                && WellCollected(kind, sequence, port, init, decode)
                && (init != [] ==> !EndsDump(init[|init| - 1], decode))
                && last.senderPort == 0 && |last.bytes| <= MAX_NETLINK_DATAGRAM_BYTES && Tiles(last.bytes).Some?
                && Fine(TilesOf(last), last.senderGroups, kind, sequence, port, decode)
                && ByteTotal(ds) <= MAX_DUMP_BYTES && TileTotal(ds) <= MAX_MESSAGES_PER_DUMP
                && |AllAnnounced(ds, decode)| <= MAX_BUFFERED_NOTIFICATIONS
                && SumBytes(AllAnnounced(ds, decode)) <= MAX_BUFFERED_NOTIFICATION_BYTES)
  {
    hide Fine, EndsDump, Tiles, TilesOf, Announced, SumBytes;
    var init, last := ds[..|ds| - 1], ds[|ds| - 1];
    SumAppend(AllAnnounced(init, decode), Announced(TilesOf(last), last.senderGroups, decode));
    assert forall i :: 0 <= i < |init| ==> init[i] == ds[i];
  }

  /** A run of datagrams is collected without an error exactly if it is well formed as a whole. */
  lemma {:induction false} CollectionAccepts(kind: Preflight.DumpKind, sequence: U32, port: U32, ds: seq<Datagram>,
      decode: Decode)
    ensures IngestAll(NewCollector(kind, sequence, port), ds, decode).error.None? <==>
            WellCollected(kind, sequence, port, ds, decode)
    ensures var r := IngestAll(NewCollector(kind, sequence, port), ds, decode).collector;
            WellCollected(kind, sequence, port, ds, decode) ==>
              && Within(r) && r.byteCount == ByteTotal(ds) && r.messageCount == TileTotal(ds)
              && r.notificationBytes == SumBytes(AllAnnounced(ds, decode))
              && (r.sawSingleResponse <==>
                  exists i, j :: 0 <= i < |ds| && 0 <= j < |TilesOf(ds[i])|
                                 && SingleReply(TilesOf(ds[i])[j], ds[i].senderGroups, kind))
    decreases |ds|
  {
    hide Fine, EndsDump, Tiles, TilesOf, Announced, SumBytes, Ingest, Taken, SingleReply, WellCollected, Counted;
    hide Welcome;
    if ds == [] {
      NothingCollected(kind, sequence, port, decode);
      return;
    }
    var init, last := ds[..|ds| - 1], ds[|ds| - 1];
    var c := NewCollector(kind, sequence, port);
    CollectionAccepts(kind, sequence, port, init, decode);
    WellCollectedSplit(kind, sequence, port, ds, decode);
    if WellCollected(kind, sequence, port, init, decode) {
      CollectionExact(kind, sequence, port, init, decode);
      var before := IngestAll(c, init, decode).collector;
      IngestAccepts(before, last, decode);
      TakenExact(before, last, decode);
      if Taken(before, last, decode) {
        CountedFields(before, last, decode);
        assert forall i :: 0 <= i < |init| ==> init[i] == ds[i];
      }
    }
  }

  lemma NothingCollected(kind: Preflight.DumpKind, sequence: U32, port: U32, decode: Decode)
    ensures var c := NewCollector(kind, sequence, port); IngestAll(c, [], decode) == Outcome(c, None)
    ensures WellCollected(kind, sequence, port, [], decode) && SumBytes(AllAnnounced([], decode)) == 0
  {
  }

  lemma TakenExact(c: Collector, d: Datagram, decode: Decode)
    ensures Taken(c, d, decode) <==>
            && !c.done && d.senderPort == 0 && |d.bytes| <= MAX_NETLINK_DATAGRAM_BYTES && Tiles(d.bytes).Some?
            && Fine(TilesOf(d), d.senderGroups, c.kind, c.expectedSequence, c.localPort, decode)
            && c.byteCount + |d.bytes| <= MAX_DUMP_BYTES && c.messageCount + |TilesOf(d)| <= MAX_MESSAGES_PER_DUMP
            && |c.notifications| + |Announced(TilesOf(d), d.senderGroups, decode)| <= MAX_BUFFERED_NOTIFICATIONS
            && (c.notificationBytes + SumBytes(Announced(TilesOf(d), d.senderGroups, decode))
                <= MAX_BUFFERED_NOTIFICATION_BYTES)
  {
    hide Fine, Tiles, Announced, SumBytes;
  }

  lemma CountedFields(c: Collector, d: Datagram, decode: Decode)
    requires Counted(c.(byteCount := c.byteCount + |d.bytes|), Ingest(c, d, decode).collector, TilesOf(d),
                     d.senderGroups, decode)
    ensures var r := Ingest(c, d, decode).collector;
            && r.messageCount == c.messageCount + |TilesOf(d)| && r.byteCount == c.byteCount + |d.bytes|
            && r.notificationBytes == c.notificationBytes + SumBytes(Announced(TilesOf(d), d.senderGroups, decode))
            && (r.sawSingleResponse <==> c.sawSingleResponse || exists i ::
                  0 <= i < |TilesOf(d)| && SingleReply(TilesOf(d)[i], d.senderGroups, c.kind))
  {
    hide Ingest, TilesOf, SingleReply, Announced, SumBytes;
  }
}
