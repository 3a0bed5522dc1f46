# Verified model of the nodenet core

This project models the hard core of nodenet in Dafny and proves what it promises:

- the route-netlink snapshot cache of `nodenet-linux-context`: eight non-atomic dumps, buffered
  notifications, generations, invalidation and bounded resynchronisation, with the kernel as a history of
  keyed events and the socket as a tape of receptions;
- the driver that serialises work on that cache across threads, as a state machine with one step per atomic
  operation;
- the bounded packet codecs of `nodenet-protocols` (IPv6 extension chains, IPv4, UDP, TCP, Neighbor Discovery)
  over one streaming Internet checksum, and the recognition of one's own probe in a truncated ICMP quote;
- the self-referential and recursive parsers: DNS name decompression and the bencode reader;
- the small stateful guards: identifier leases and patch templates.

Each codec has the same shape. A specification function says what the parser computes. A printer or a
derivation says, independently, what is on the wire. Lemmas prove that the two agree in both directions. The
loops and in-place writes of the source are methods proved equal to the specification.

| module | contents |
|---|---|
| `Wire`, `Buffers`, `Packet`, `SnapshotErrors`, `Records` | bytes and integers, output buffers, shared packet types, errors, netlink records |
| `Preflight`, `Decoder`, `Acceptance` | attribute forests, netlink framing, the split of replies from notifications, and exactly which datagrams are accepted |
| `Tables`, `Normalize`, `Ceilings`, `Kernel`, `Rules` | identity-keyed tables, their update and limits, the kernel store they stand for, and the rules beside it |
| `World`, `Witness`, `Coherence`, `Course`, `Context` | honest kernels, a world that has one, what buffers and snapshots mean, how drains, dumps and attempts come out on a given tape, and the `RouteContext` object |
| `Driver` | interleavings of callers, worker and drop |
| `Checksum` | accumulator, closed form, validation and error detection |
| `ExtensionOrder`, `Ipv6`, `Ipv6Packet`, `Ipv6Builder`, `Ipv6Codec`, `Ipv6Layout` | IPv6 |
| `Ipv4`, `Udp`, `Tcp`, `TcpSegment`, `Ndp`, `NdpPacket` | the other codecs |
| `Ipv4Exact`, `UdpExact`, `TcpExact`, `NdpExact` | which bytes each of them accepts, and building again what was parsed |
| `Echo`, `Quoted`, `Probes` | echo messages, quotes and probe recognition, end to end |
| `ReuseGuard`, `Patching`, `Template`, `UdpRequest` | leases and templates |
| `Dns`, `Bencode`, `Dht`, `BencodeReader` | recursive parsers |

## What honesty of the kernel means

`World.Honest` states the assumptions under which the cache is correct, and `Witness.HonestKernelExists` shows
that they can be met through a whole snapshot, with an event announced during each dump. The socket hands out the kernel's events in order. An empty queue means that all events
so far were handed out. Replies and notifications do not share a datagram, and no notification datagram
carries an error message. A completed dump shows every identity it covers at some instant since the request,
each identity at its own instant; of rules this is asked only if no event between is about a
confused rule. Nothing is assumed about timing, about what dumps and events contain, or
about how often receptions fail. `Kernel.LostEventBreaksReplay` shows why a gap in the events may not be
replayed over; the context never does so, because every path that drops a received event leaves it
invalidated.

## Where a promise holds only in part

- IPv6 build and parse: a builder whose upper-layer number is itself an extension number is accepted, but its
  packet does not parse back. `Ipv6Builder.BuildParseExact` gives the exact condition,
  `Ipv6Builder.AmbiguousPacket` such a builder.
- IPv6 parse and build: one family of canonical inputs is not rebuilt, namely non-first fragments whose next
  header says that nothing follows but which carry bytes. `Ipv6Builder.ParseBuild` gives the exact condition,
  `Ipv6Builder.HeadlessFragment` such a packet.
- `same_rule` confuses rules that the kernel keeps apart: two of one priority, or one with a priority and one of
  the same selector without (`Rules.ConfusedPairs`); it is not even transitive (`Rules.SameRuleNotTransitive`). A
  table that holds the kernel's rules follows them through a window of events exactly when no event of the window
  is about a rule that is confused with one the kernel holds at that moment (`Rules.FollowsExact`). Under that
  condition, on the window from the start of a full snapshot to the last event read, dump, replay and publication
  are coherent for rules too (`Rules.RuleCoherence`, `Context.RouteContext.OfferedSnapshot`). A full snapshot
  starts a new window. Every confused pair breaks the replay of some history (`Rules.ConfusionLosesRule`). The
  other tables are coherent in either case.
- Neighbor solicitations: the builder refuses a source link-layer address under the unspecified source, as section
  7.1.1 of RFC 4861 demands; the parser checks this for router solicitations only. `NdpExact.StrictExact` shows that
  this is the only rule of addressing it lets pass, `NdpExact.LaxAccepted` that it does, for every unicast target.
- Parse and build: a checksum field may hold 0xffff where the builder writes zero, since the two are the same number.
  Apart from that field, TCP, IPv4 and Neighbor Discovery packets without a remark are rebuilt byte for byte
  (`TcpExact.ParseBuild`, `Ipv4Exact.ParseBuild`, `NdpExact.ParseBuild`), UDP datagrams without exception
  (`UdpExact.ParseBuild`).
- Checksums: the only undetected change of one aligned word swaps 0x0000 and 0xffff
  (`Checksum.WordChangeDetected`). `Checksum.UnnoticedChange` is one.

## Model

| member | source | states |
|---|---|---|
| `Preflight.PreflightExact` | crates/nodenet-linux-context/src/preflight.rs:51-200 | a message passes preflight exactly when its attribute bytes are the print of a well-typed, four-aligned attribute forest with depth at most 8, at most 256 attributes, at most 64 next hops per multipath and bounded strings; the counter returned is the size of that forest |
| `Preflight.ForestAccepted` | crates/nodenet-linux-context/src/preflight.rs:62-140 | every printed forest within the limits is accepted and counted exactly |
| `Preflight.AcceptedForest` | crates/nodenet-linux-context/src/preflight.rs:62-140 | every accepted attribute slice is the print of a forest within the limits |
| `Preflight.HopsAccepted` | crates/nodenet-linux-context/src/preflight.rs:142-191 | the same for next hops of a multipath attribute, forward direction |
| `Preflight.AcceptedHops` | crates/nodenet-linux-context/src/preflight.rs:142-191 | the same for next hops, backward direction |
| `Preflight.ValidateAttributes` | crates/nodenet-linux-context/src/preflight.rs:62-140 | the offset loop with its threaded counter computes the specification, and terminates because every nested slice is shorter |
| `Preflight.ValidateMultipath` | crates/nodenet-linux-context/src/preflight.rs:142-191 | the next-hop loop computes the specification |
| `Preflight.ValidateInnerMessage` | crates/nodenet-linux-context/src/preflight.rs:51-60 | entry point: skips netlink and fixed header, starts the counter at zero |
| `Decoder.TilesExact` | crates/nodenet-linux-context/src/decoder.rs:46-141 | aligned message lengths tile a datagram exactly: its bytes are the messages with only alignment padding between them |
| `Decoder.IngestExact` | crates/nodenet-linux-context/src/decoder.rs:46-141 | an error-free datagram is tiled, its replies and notifications are appended in order, and nothing follows a terminator |
| `Decoder.CollectionExact` | crates/nodenet-linux-context/src/decoder.rs:46-318 | over any error-free sequence of datagrams, stored messages and notifications are the order-preserving split of all tiles by sequence and sender group; a dump is done exactly if its last datagram ends it, and `finish` then returns every matching reply |
| `Decoder.StepAccepts` | crates/nodenet-linux-context/src/decoder.rs:143-283 | a message is accepted if and only if its bytes are welcome: bit 4 of the flags clear; as a notification, the type of some kind with a passed preflight, decoded, and room in both ceilings; as a reply, the expected sequence number, port zero or ours, and the response type with a passed preflight or a control message without an error code; what is stored then follows from the bytes |
| `Decoder.RefusalsExact` | crates/nodenet-linux-context/src/decoder.rs:143-180 | a message is refused as an interrupted dump exactly if that flag is set, before all else; as a wrong sequence number or a wrong port exactly under its own condition |
| `Acceptance.IngestAccepts` | crates/nodenet-linux-context/src/decoder.rs:46-283 | a datagram is ingested without an error if and only if it comes from the kernel within the byte and message ceilings, is tiled by welcome messages, nothing follows a terminator, and its notifications fit; the counters then grow by exactly its bytes and messages |
| `Acceptance.CollectionAccepts` | crates/nodenet-linux-context/src/decoder.rs:46-318 | a run of datagrams is collected without an error if and only if every datagram is so and the totals stay within the ceilings; the collector then counts exactly all of them |
| `Decoder.DumpCollector.IngestDatagram` | crates/nodenet-linux-context/src/decoder.rs:46-141 | the framing loop on the mutable collector computes the specification, also in what it leaves behind on an error |
| `Decoder.DumpCollector.IngestMessage` | crates/nodenet-linux-context/src/decoder.rs:143-218 | one framed message, notification or reply, computes `MessageStep`, which `Decoder.StepAccepts` and `Decoder.RefusalsExact` pin on the bytes |
| `Decoder.DumpCollector.IngestNotification` | crates/nodenet-linux-context/src/decoder.rs:220-283 | one notification: type table, preflight, decoding, then both buffer ceilings |
| `Decoder.DumpCollector.IngestReply` | crates/nodenet-linux-context/src/decoder.rs:143-218 | one reply: sequence, port, type, preflight, then the payload cases |
| `Decoder.DumpCollector.TakeNotifications` | crates/nodenet-linux-context/src/decoder.rs:324-327 | hands over the notifications and leaves none behind |
| `Normalize.NormalizedParts.PushMessages` | crates/nodenet-linux-context/src/normalize.rs:46-100 | the dump loop computes the specification, error for error, by kind |
| `Normalize.NormalizedParts.ApplyNotifications` | crates/nodenet-linux-context/src/normalize.rs:132-214 | retain-then-push per identity, with the unknown-byte recount after each event |
| `Normalize.NormalizedParts.RecomputeUnknownBytes` | crates/nodenet-linux-context/src/normalize.rs:216-267 | the recount loop with its ceiling |
| `Normalize.NormalizedParts.CloseTables` | crates/nodenet-linux-context/src/normalize.rs:102-130 | sorts every table, then reports the first dangling interface reference |
| `Normalize.ValidateReferences` | crates/nodenet-linux-context/src/normalize.rs:756-765 | the first reference, in table order, to an interface that is not present |
| `Ceilings.PushExact` | crates/nodenet-linux-context/src/normalize.rs:46-100 | a dumped record is taken if and only if it is one of the five kinds, decoded, its table has room and its unknown attributes may be copied; it is then appended, and only routes, rules and neighbors advance the byte count |
| `Ceilings.ChangeExact` | crates/nodenet-linux-context/src/normalize.rs:132-214 | which notifications are applied: per kind, decoded, room after the old record of that identity is gone, and unknown attributes that may be copied |
| `Ceilings.RecountExact` | crates/nodenet-linux-context/src/normalize.rs:216-267 | the recount accepts exactly tables within the ceiling for unknown bytes, and counts what every record and next hop holds |
| `Ceilings.CopyExact` | crates/nodenet-linux-context/src/normalize.rs:654-687 | unknown attributes are copied if and only if each and all together stay within their ceilings; the count then grows by their sum |
| `Ceilings.IdentitiesExact` | crates/nodenet-linux-context/src/normalize.rs:270-311 | which fields tell two interfaces, addresses, routes or neighbors apart, field by field |
| `Ceilings.ReplayWithinCeilings` | crates/nodenet-linux-context/src/normalize.rs:132-214 | any buffer of notifications keeps every table within its ceiling, and leaves exactly the bytes held as the count |
| `Ceilings.DumpWithinCeilings` | crates/nodenet-linux-context/src/normalize.rs:46-100 | any dump keeps every table and the byte count within their ceilings |
| `Kernel.ChangeView` | crates/nodenet-linux-context/src/normalize.rs:132-214 | one notification changes the keyed store exactly as the kernel event does, and keeps identities unique |
| `Kernel.ApplyAllView` | crates/nodenet-linux-context/src/normalize.rs:132-214 | so does a whole buffer |
| `Kernel.ReplayCoherence` | crates/nodenet-linux-context/src/context.rs:253-292 | replaying every event since an instant over a view that shows each identity at its own later instant gives exactly the store at the end |
| `Kernel.LostEventBreaksReplay` | crates/nodenet-linux-context/src/context.rs:443-479 | a concrete history in which replaying all but the newest event gives a wrong store |
| `Kernel.DumpsCoverAll` | crates/nodenet-linux-context/src/context.rs:253-263 | the eight dumps cover every identity |
| `Kernel.DumpsDisjoint` | crates/nodenet-linux-context/src/context.rs:253-263 | no identity is covered twice |
| `Kernel.DumpExtends` | crates/nodenet-linux-context/src/context.rs:284-292 | one more dump extends the partial view to exactly the identities it covers |
| `Kernel.SnapshotCoherence` | crates/nodenet-linux-context/src/context.rs:253-292 | dumps at arbitrary instants after the clear plus the in-order events since then leave exactly the kernel's keyed store at the drain |
| `Kernel.FinishExact` | crates/nodenet-linux-context/src/normalize.rs:102-130 | `finish` succeeds exactly on stores in which every interface index that a record names, field by field, is there, and then only sorts |
| `Kernel.FinishRecords` | crates/nodenet-linux-context/src/normalize.rs:102-130 | on the tables themselves: `finish` succeeds if and only if every index named by a controller or link, an address, a route with its input, output and next-hop interfaces, or a neighbor is one of the interfaces; otherwise it reports one that is named and missing |
| `Kernel.FinishedDeterministic` | crates/nodenet-linux-context/src/normalize.rs:102-130 | a finished snapshot depends on the store alone: equal stores give equal tables |
| `Rules.SameRuleNotTransitive` | crates/nodenet-linux-context/src/normalize.rs:290-305 | three rules on which the rule identity is not transitive |
| `Rules.SameRuleExact` | crates/nodenet-linux-context/src/normalize.rs:290-305 | the rule identity is equality of family and priority, or of selector where there is none, exactly on pairs without a priority-presence clash |
| `Rules.RuleStepExact` | crates/nodenet-linux-context/src/normalize.rs:180-189 | a table follows the arrival of a rule, and its departure, if and only if it confuses that rule with no other it holds |
| `Rules.ConfusedPairs` | crates/nodenet-linux-context/src/normalize.rs:290-305 | two different rules of one priority are confused, and so are a rule with and one without priority |
| `Rules.ConfusionLosesRule` | crates/nodenet-linux-context/src/normalize.rs:290-305 | for every confused pair there is a history after which the table holds one rule and the kernel two |
| `Rules.TableCoherence` | crates/nodenet-linux-context/src/context.rs:253-292 | replaying every event of a followable window over a table that shows each rule at its own instant of the window gives exactly the rules at its end |
| `Rules.FollowsExact` | crates/nodenet-linux-context/src/normalize.rs:132-214 | a table that starts as the kernel's rules follows them through every event of a window if and only if no event is about a rule confused with one the kernel holds at that moment |
| `Rules.RuleCoherence` | crates/nodenet-linux-context/src/context.rs:253-292 | the dumps and the in-order events since the clear leave exactly the kernel's rules at the drain, each once, when no event between is about a rule confused with one the kernel then holds |
| `Rules.FinishedRulesDeterministic` | crates/nodenet-linux-context/src/normalize.rs:102-130 | two finished rule tables of the same rules are equal |
| `World.IngestDelta` | crates/nodenet-linux-context/src/decoder.rs:46-141 | an accepted faithful datagram adds exactly the events it stands for |
| `World.KernelErrorDelta` | crates/nodenet-linux-context/src/context.rs:418-426 | a datagram that fails with a kernel error code accounts for no event and loses none |
| `Witness.HonestKernelExists` | crates/nodenet-linux-context/src/context.rs:294-356 | the assumptions on the kernel can be met through a whole snapshot: eight requests answered to their ends, an event announced during each, an empty queue at the drain, tables that close, and an up-to-date snapshot with the announced link |
| `Coherence.PublishStep` | crates/nodenet-linux-context/src/context.rs:521-548 | publishing moves the buffer into the snapshot without losing an event |
| `Coherence.SnapshotUpToDate` | crates/nodenet-linux-context/src/context.rs:253-282 | dumps, drain, replay and close give the kernel store at the drain |
| `Coherence.CollectingDone` | crates/nodenet-linux-context/src/context.rs:294-356 | a completed collection is a dump taken since its request |
| `Course.DrainsOnce` | crates/nodenet-linux-context/src/context.rs:443-479 | a drain that succeeds ends at one position of the tape only |
| `Course.AnsweredOnce` | crates/nodenet-linux-context/src/context.rs:294-356 | a request has at most one reply on the tape, and one point at which it is complete |
| `Context.IngestErrorKinds` | crates/nodenet-linux-context/src/context.rs:757-771 | a datagram is accepted, carries a kernel error code, or fails in a way that invalidates the context |
| `Context.BackoffDelay` | crates/nodenet-linux-context/src/context.rs:577-586 | between 100 ms and 5 s; 100 ms after the first failure |
| `Context.BackoffGrows` | crates/nodenet-linux-context/src/context.rs:577-586 | consecutive failures never shorten the wait, and from the seventh on it is the longest |
| `Context.RouteContext.constructor` | crates/nodenet-linux-context/src/context.rs:65-107 | a new context satisfies the invariant and offers nothing |
| `Context.RouteContext.TakeSequence` | crates/nodenet-linux-context/src/context.rs:588-595 | sequence numbers wrap but are never zero, so no reply is taken for a notification |
| `Context.RouteContext.BufferNotifications` | crates/nodenet-linux-context/src/context.rs:481-514 | succeeds exactly within both ceilings and then appends everything; otherwise the context is invalidated |
| `Context.RouteContext.DrainNotifications` | crates/nodenet-linux-context/src/context.rs:443-479 | succeeds if and only if the tape can be read dry from here with every notification within both ceilings; the buffer then grew by exactly the events read, and the socket has been read dry |
| `Context.RouteContext.PublishNotifications` | crates/nodenet-linux-context/src/context.rs:521-548 | succeeds if and only if the buffer can be replayed over the current snapshot, the tables close and the generation is not the last; the next generation is then exactly that replay, is current, and the buffer is empty |
| `Context.RouteContext.Dump` | crates/nodenet-linux-context/src/context.rs:294-356 | the reply is the one the tape holds for the request: it succeeds if and only if the request can be sent and its terminator is reached in time without an error, and then returns exactly the messages and notifications read; against an honest kernel the answer is a dump taken since the request |
| `Context.RouteContext.SnapshotOnce` | crates/nodenet-linux-context/src/context.rs:253-282 | succeeds if and only if the tape from here holds eight complete dumps, a dry drain and tables that replay and close, and the generation is not the last; the snapshot is then exactly these tables and, with an honest kernel, its store now: unique, sorted, referentially closed |
| `Context.RouteContext.Snapshot` | crates/nodenet-linux-context/src/context.rs:115-124 | generation plus one and valid on success; invalidated with the old generation on failure, and only if the tape from here holds no snapshot or the generation is the last; an attempt is followed by another if and only if it came back incomplete and was not the third, and the outcome is that of the last |
| `Context.RouteContext.TrySnapshot` | crates/nodenet-linux-context/src/context.rs:598-609 | the retry loop: one to three attempts, each but the last incomplete, the last not unless it is the third; the error carries the number of attempts |
| `Context.RouteContext.OfferedSnapshot` | crates/nodenet-linux-context/src/context.rs:126-134 | no lost update: whenever a snapshot is on offer with an empty buffer after a drain, it is the kernel's store at that moment; its rules are the kernel's rules, each once, if no event read since the snapshot began was about a confused rule |
| `Context.RouteContext.RecordResyncFailure` | crates/nodenet-linux-context/src/context.rs:577-586 | counts the failure, invalidates, and sets the next attempt by the backoff table |
| `Context.RouteContext.ResyncIfDue` | crates/nodenet-linux-context/src/context.rs:550-563 | asks to wait if and only if a next attempt is recorded that is not before the clock, and then for exactly the difference; otherwise attempts are made in this call, and their last decides: a strictly newer generation, or an error left invalidated |
| `Context.RouteContext.ResyncAfter` | crates/nodenet-linux-context/src/context.rs:565-575 | the same after a notification failure |
| `Context.RouteContext.Refresh` | crates/nodenet-linux-context/src/context.rs:146-169 | what is read decides: without a snapshot, or invalidated, resynchronise; if the drain fails, resynchronise; if nothing is buffered, unchanged; if the buffer can be published, exactly the replay of all of it under the next generation; otherwise resynchronise. Backoff means that the recorded attempt is not due, an error that an attempt in this call failed; a snapshot on offer is up to date and generations strictly increase |
| `Context.RouteContext.QueryOnce` | crates/nodenet-linux-context/src/context.rs:358-441 | asked if and only if the deadline has not passed and the send succeeds; unless its failure invalidates, the result is the conclusion of the first datagram since then that completes or fails a collector for the sequence number just taken, and every event read meanwhile is in the buffer; a conclusion that arrives before deadline and cancellation is returned |
| `Context.RouteContext.CheckQueryControl` | crates/nodenet-linux-context/src/context.rs:726-737 | no objection exactly if the next poll is not cancelled and the next reading is before the deadline; cancellation is reported first |
| `Context.AnswerUnique` | crates/nodenet-linux-context/src/context.rs:387-440 | a question is concluded at one position of the tape at most |
| `Context.RoutedReply` | crates/nodenet-linux-context/src/context.rs:419-440 | a routed answer is the only reply since the question; every datagram came from the kernel, and every message in it announces an event or carries the sequence number of the question |
| `Context.UnusableReply` | crates/nodenet-linux-context/src/context.rs:200-218 | an unusable answer is an error code in the datagram that concluded the question; with a kernel that keeps the timeline it came as a reply, with the sequence number of the question and port zero or ours |
| `Context.RouteContext.Settle` | crates/nodenet-linux-context/src/context.rs:222-229 | if the generation is still current after the final drain, no event was read since the capture; if the drain finds nothing, everything stays as it was |
| `Context.RouteContext.AskAndSettle` | crates/nodenet-linux-context/src/context.rs:196-243 | one round of the loop: the same for its one question |
| `Context.RouteContext.ResolveRoute` | crates/nodenet-linux-context/src/context.rs:181-251 | a plan is returned only if, in this call, its query was sent while the plan's snapshot was on offer, the plan's result is the kernel's answer to that question, no event was read from the question to the return, and the snapshot is still on offer under the current generation; and a question whose answer arrives in time, uncancelled and with no event before the socket is dry, always ends in the plan of that answer; a valid query that is never asked was cancelled, late, not sent, or met an invalidated context; invalid queries touch nothing; the bounded loop always returns |
| `Context.RouteContext.ResolvedAgainstStore` | crates/nodenet-linux-context/src/context.rs:181-251 | with an honest kernel no event happened from the question to the return: at every moment between, the kernel's store was the plan's snapshot, and so were its rules under the condition of `OfferedSnapshot` |
| `Driver.InvRun` | crates/nodenet-linux-context/src/driver.rs:139-333 | the invariant holds in every state of every interleaving of callers, worker and drop |
| `Driver.PendingExact` | crates/nodenet-linux-context/src/driver.rs:139-152 | `pending` is exactly reserved-not-sent plus queued plus taken-not-released, and at most 1024 |
| `Driver.AdmissionNeverFails` | crates/nodenet-linux-context/src/driver.rs:139-152 | after a successful reservation neither the full nor the disconnected branch can be taken |
| `Driver.AnsweredOnce` | crates/nodenet-linux-context/src/driver.rs:257-320 | commands are answered at most once, in the order of admission |
| `Driver.InProgressIsStopped` | crates/nodenet-linux-context/src/driver.rs:155-170 | once drop has signalled, a running command's own token is cancelled |
| `Driver.NoLateStart` | crates/nodenet-linux-context/src/driver.rs:290-333 | once shutdown is flagged no execution starts, in any continuation |
| `Driver.NoLateSuccess` | crates/nodenet-linux-context/src/driver.rs:290-333 | once shutdown is flagged no further success is granted |
| `Driver.JudgedOut` | crates/nodenet-linux-context/src/driver.rs:290-333 | a command that is judged with its deadline passed, its token cancelled or shutdown flagged is never run and never answered with success, in any continuation |
| `Driver.CleanCommandSucceeds` | crates/nodenet-linux-context/src/driver.rs:257-333 | a command in time, not cancelled, and undisturbed by shutdown is answered with success |
| `Driver.AtMostOneLateCommand` | crates/nodenet-linux-context/src/driver.rs:257-281 | after the flag at most one more command leaves the queue |
| `Driver.ShutdownBounded` | crates/nodenet-linux-context/src/driver.rs:257-281 | the worker stops within twelve of its own steps after the flag, however the others interleave |
| `Driver.ShutdownProgress` | crates/nodenet-linux-context/src/driver.rs:257-281 | until it has stopped the worker always has a step to take |
| `Checksum.FeedAppend` | crates/nodenet-protocols/src/checksum.rs:84-102 | any split of the input across updates gives the one-shot state |
| `Checksum.PaddedResidue` | crates/nodenet-protocols/src/checksum.rs:84-118 | the finished sum is the one's-complement residue of the plain word sum, and the running sum never exceeds 0xffff |
| `Checksum.InternetChecksumAccumulator.Update` | crates/nodenet-protocols/src/checksum.rs:85-102 | the chunk loop with its pending odd byte feeds exactly the input |
| `Checksum.InternetChecksumAccumulator.Finish` | crates/nodenet-protocols/src/checksum.rs:109-118 | complement of the settled, padded sum |
| `Checksum.ComputeInternetChecksum` | crates/nodenet-protocols/src/checksum.rs:18-22 | the closed form |
| `Checksum.ComputeTransportChecksum` | crates/nodenet-protocols/src/checksum.rs:36-66 | the closed form over pseudo-header and segment, or none when the length cannot be represented |
| `Checksum.ValidatesExact` | crates/nodenet-protocols/src/checksum.rs:26-28 | a sequence validates exactly when its word sum is a positive multiple of 0xffff |
| `Checksum.WrittenValidates` | crates/nodenet-protocols/src/checksum.rs:18-28 | writing the computed value, or 0xffff for a UDP zero, into its cleared even-offset field always validates |
| `Checksum.TransportWrittenValidates` | crates/nodenet-protocols/src/checksum.rs:36-76 | the same with a pseudo-header |
| `Checksum.FieldUnique` | crates/nodenet-protocols/src/checksum.rs:18-28 | the converse: a field that validates holds what the builder writes, or all ones where that is zero; a UDP field other than zero holds exactly what the UDP builder writes |
| `Checksum.TransportFieldUnique` | crates/nodenet-protocols/src/checksum.rs:36-76 | the same with a pseudo-header |
| `Checksum.WordChangeDetected` | crates/nodenet-protocols/src/checksum.rs:26-28 | changing one aligned word of a valid sequence goes unnoticed exactly when it swaps 0x0000 and 0xffff and something nonzero is left |
| `Checksum.UnnoticedChange` | crates/nodenet-protocols/src/checksum.rs:26-28 | a sequence that validates before and after one of its words changes |
| `ExtensionOrder.OrderExact` | crates/nodenet-protocols/src/ipv6.rs:761-842 | no issue is reported exactly for: hop-by-hop at most once and first, at most one destination options before routing, routing, fragment and authentication at most once in this order, destination options last; at most two of them with routing and one without |
| `ExtensionOrder.OrderWatcher.ObserveHeader` | crates/nodenet-protocols/src/ipv6.rs:773-842 | the mutable observer computes the automaton |
| `Ipv6.ExtensionRoundTrip` | crates/nodenet-protocols/src/ipv6.rs:552-731 | every sound extension header parses back from its bytes with the right next header and length |
| `Ipv6.ExtensionRebuilt` | crates/nodenet-protocols/src/ipv6.rs:552-731 | every parsed extension header is sound and prints to the bytes it came from |
| `Ipv6.ValidateOptions` | crates/nodenet-protocols/src/ipv6.rs:733-752 | the option loop decides well-formed option areas |
| `Ipv6Layout.OptionsExact` | crates/nodenet-protocols/src/ipv6.rs:733-752 | an option area is accepted if and only if it is tiled by one-byte padding and options of the length they state |
| `Ipv6Layout.ExtensionExact` | crates/nodenet-protocols/src/ipv6.rs:552-637 | an extension header is read as this value if and only if its bytes stand for it, field by field and bit by bit |
| `Ipv6Layout.FixedExact` | crates/nodenet-protocols/src/ipv6.rs:403-450 | the fields of the fixed header, bit by bit |
| `Ipv6Packet.ParsePrinted` | crates/nodenet-protocols/src/ipv6.rs:403-550 | printing any acceptable packet and parsing it, in either mode, gives exactly its parts |
| `Ipv6Packet.PrintParsed` | crates/nodenet-protocols/src/ipv6.rs:403-550 | every accepted input, in either mode, is the print of an acceptable packet with that meaning |
| `Ipv6Builder.TotalExact` | crates/nodenet-protocols/src/ipv6.rs:185-199 | the running total succeeds exactly on sound headers within the byte limit |
| `Ipv6Builder.BuildParse` | crates/nodenet-protocols/src/ipv6.rs:121-264 | every accepted unambiguous packet parses strictly back to its fields, extension list and payload with canonical conformance |
| `Ipv6Builder.BuildParseExact` | crates/nodenet-protocols/src/ipv6.rs:121-264 | the round trip holds if and only if the upper-layer number is no extension number or the last header is a non-first fragment; otherwise parsing fails or finds more headers |
| `Ipv6Builder.AmbiguousPacket` | crates/nodenet-protocols/src/ipv6.rs:173-264 | an accepted builder whose packet does not parse back |
| `Ipv6Builder.ParseBuild` | crates/nodenet-protocols/src/ipv6.rs:403-752 | every strictly accepted canonical input is rebuilt byte for byte up to its declared end, except exactly non-first fragments with next header 59 and a payload, which the builder rejects |
| `Ipv6Builder.HeadlessFragment` | crates/nodenet-protocols/src/ipv6.rs:403-550 | a strictly accepted canonical packet whose builder is rejected |
| `Ipv6Builder.Truncation` | crates/nodenet-protocols/src/ipv6.rs:403-550 | cutting a strictly valid packet anywhere after its headers keeps every header, extension and fragment field and makes the payload a prefix |
| `Ipv6Codec.WalkChain` | crates/nodenet-protocols/src/ipv6.rs:453-501 | the extension loop with its cursor, fragment and order state computes the chain specification |
| `Ipv6Codec.ParsePacket` | crates/nodenet-protocols/src/ipv6.rs:403-550 | the parser, error for error, by kind |
| `Ipv6Codec.ValidatePacket` | crates/nodenet-protocols/src/ipv6.rs:173-263 | the builder's validation, error for error, by kind |
| `Ipv6Codec.WriteInto` | crates/nodenet-protocols/src/ipv6.rs:148-159 | exactly the packet and nothing else is written, or an error is returned and nothing is |
| `Ipv4.ValidateOptions` | crates/nodenet-protocols/src/ipv4.rs:338-373 | the option loop computes the specification |
| `Ipv4.BuildParse` | crates/nodenet-protocols/src/ipv4.rs:52-145 | every accepted packet parses strictly back to its fields, options and payload with a valid header checksum and canonical conformance |
| `Ipv4.Truncation` | crates/nodenet-protocols/src/ipv4.rs:183-309 | cutting a strictly valid packet anywhere after its header keeps every header field and makes the payload a prefix |
| `Ipv4Exact.OptionsExact` | crates/nodenet-protocols/src/ipv4.rs:338-373 | an option area is accepted if and only if it is tiled by options up to its end marker; the padding remark says exactly whether zeros follow |
| `Ipv4Exact.ParseExact` | crates/nodenet-protocols/src/ipv4.rs:183-309 | the parser returns this packet if and only if the bytes stand for it: version, header length, every field and flag bit, header words that sum to a multiple of 0xffff, lengths within the mode, options and payload |
| `Ipv4Exact.ParseBuild` | crates/nodenet-protocols/src/ipv4.rs:52-309 | every complete packet without a remark is accepted by the builder and rebuilt byte for byte up to its declared end, but for a checksum field of all ones |
| `Ipv4.ParsePacket` | crates/nodenet-protocols/src/ipv4.rs:183-309 | the parser, error for error, by kind |
| `Ipv4.WriteInto` | crates/nodenet-protocols/src/ipv4.rs:75-86 | exactly the packet and nothing else is written, or an error is returned and nothing is |
| `Udp.BuildParse` | crates/nodenet-protocols/src/udp.rs:28-98 | every accepted datagram parses back to its ports and payload, also with trailing bytes; zero on the wire means exactly that no checksum was sent |
| `UdpExact.ParseExact` | crates/nodenet-protocols/src/udp.rs:153-212 | the parser returns this datagram if and only if the bytes stand for it: ports, a length of 8 to the input, payload and trailing bytes, and a checksum that balances or is zero over IPv4 |
| `UdpExact.ParseBuild` | crates/nodenet-protocols/src/udp.rs:28-212 | every accepted datagram is accepted by the builder and rebuilt byte for byte |
| `Udp.WriteInto` | crates/nodenet-protocols/src/udp.rs:62-85 | exactly the datagram and nothing else is written, or an error is returned and nothing is |
| `Tcp.OptionRoundTrip` | crates/nodenet-protocols/src/tcp.rs:454-565 | every sendable option that has a length byte parses back from its bytes; the one-byte no-operation is read by the option loop |
| `Tcp.OptionsRoundTrip` | crates/nodenet-protocols/src/tcp.rs:454-565 | a printed and padded option list parses to itself followed by one end-of-list exactly if padded |
| `Tcp.StoreNeverOverflows` | crates/nodenet-protocols/src/tcp.rs:290-302 | on any forty bytes the forty-entry option store never overflows |
| `TcpSegment.BuildParse` | crates/nodenet-protocols/src/tcp.rs:138-201 | every accepted segment parses back to the same header, payload and options, one end-of-list if and only if padding was needed, canonical |
| `TcpExact.ParseExact` | crates/nodenet-protocols/src/tcp.rs:335-565 | the parser returns this segment if and only if the bytes stand for it: every field and bit, words that balance with the pseudo-header, options that tile their area up to its end marker, and exact remarks |
| `TcpExact.ParseBuild` | crates/nodenet-protocols/src/tcp.rs:138-565 | every segment without a remark and without superfluous padding is accepted by the builder and rebuilt byte for byte, but for a checksum field of all ones |
| `TcpSegment.ParseOptionList` | crates/nodenet-protocols/src/tcp.rs:500-565 | the cursor loop computes the specification |
| `TcpSegment.ValidateOptions` | crates/nodenet-protocols/src/tcp.rs:403-431 | the length loop computes the specification |
| `TcpSegment.WriteInto` | crates/nodenet-protocols/src/tcp.rs:172-188 | exactly the segment and nothing else is written, or an error is returned and nothing is; the late error exit is never taken |
| `Ndp.OptionRead` | crates/nodenet-protocols/src/ndp.rs:848-888 | every sendable option is read back, with its padding, clean reserved bytes and ordered lifetimes |
| `Ndp.OptionsRead` | crates/nodenet-protocols/src/ndp.rs:444-547 | a printed option list parses to what each option is seen as |
| `Ndp.MessageRead` | crates/nodenet-protocols/src/ndp.rs:801-846 | the fixed fields of all five messages are read back whatever the checksum and the options |
| `NdpPacket.BuildParse` | crates/nodenet-protocols/src/ndp.rs:113-200 | every accepted packet parses with canonical conformance to the same message and options, up to zero padding of unknown and redirected-header bodies |
| `NdpExact.ParseExact` | crates/nodenet-protocols/src/ndp.rs:320-438 | the parser returns this packet if and only if the bytes and addresses bear it out: hop limit 255, code zero, words that balance with the pseudo-header, the fixed fields of the message, at most 64 options that tile at most 4096 bytes, the addressing rules of RFC 4861, and each remark exactly by its own rule |
| `NdpExact.OptionsComplete` | crates/nodenet-protocols/src/ndp.rs:444-547 | every row of options on the wire is read one by one, with exact remarks |
| `NdpExact.OptionsSound` | crates/nodenet-protocols/src/ndp.rs:444-547 | whatever the option loop accepts is such a row |
| `NdpExact.LegalExact` | crates/nodenet-protocols/src/ndp.rs:549-627 | the checks on addresses are the rules of sections 6.1, 7.1 and 8.1 of RFC 4861, message by message |
| `NdpExact.StrictExact` | crates/nodenet-protocols/src/ndp.rs:629-709 | an accepted packet keeps all rules of the builder, unless it is a neighbor solicitation from the unspecified source with a source link-layer address |
| `NdpExact.LaxAccepted` | crates/nodenet-protocols/src/ndp.rs:629-709 | such a solicitation is accepted without a remark, for every unicast target |
| `NdpExact.ParseBuild` | crates/nodenet-protocols/src/ndp.rs:113-438 | every packet without a remark whose options can be sent and whose addresses the builder allows is rebuilt byte for byte, but for a checksum field of all ones |
| `NdpPacket.ValidatePlacement` | crates/nodenet-protocols/src/ndp.rs:718-769 | the placement loop computes the specification |
| `NdpPacket.ValidatePacket` | crates/nodenet-protocols/src/ndp.rs:119-156 | the builder's validation, error for error, by kind |
| `NdpPacket.ParseOptionList` | crates/nodenet-protocols/src/ndp.rs:444-547 | the option loop computes the specification |
| `NdpPacket.WriteInto` | crates/nodenet-protocols/src/ndp.rs:163-187 | exactly the packet and nothing else is written, or an error is returned and nothing is; the error exits behind the first write are never taken |
| `Packet.TerminalExact` | crates/nodenet-protocols/src/quoted.rs:105-122 | classification of the upper layer forgets neither the protocol nor a byte |
| `Packet.ClassesExact` | crates/nodenet-protocols/src/network.rs:64-108 | each class of upper layer exactly under its own condition: fragments first, then the end of headers in IPv6 only, then the least header of each protocol |
| `Quoted.ReadTruncated` | crates/nodenet-protocols/src/quoted.rs:66-103 | a strictly valid IPv4 or IPv6 packet cut after its headers reads as the same packet with a payload prefix |
| `Echo.BuildFields` | crates/nodenet-protocols/src/icmpv4.rs:90-119 | type, code zero, identifier, sequence and payload of every echo message that is built, for both address families |
| `Echo.BuildValidates` | crates/nodenet-protocols/src/icmpv6.rs:108-166 | every echo message that is built validates, the ICMPv6 one with its pseudo-header |
| `Quoted.QuoteRecognised` | crates/nodenet-protocols/src/correlation.rs:363-421 | any TCP, UDP or echo probe carrying its token is recognised from any quote with eight transport bytes: the sequence number proves TCP, sixteen payload bytes prove UDP and echo, fewer are reported as truncated; fewer than eight bytes are reported as insufficient |
| `Quoted.EvidenceExact` | crates/nodenet-protocols/src/correlation.rs:363-421 | both directions, on the bytes of any quote: each strength of evidence and each rejection is returned if and only if its own condition on hosts, protocol, fragment, numbers and token bytes holds |
| `Probes.Ipv4ProbeRecognised` | crates/nodenet-protocols/src/correlation.rs:363-421 | the same end to end, for every probe the TCP, UDP and echo builders accept inside every IPv4 packet the builder accepts |
| `Probes.Ipv6ProbeRecognised` | crates/nodenet-protocols/src/correlation.rs:363-421 | the same behind every accepted IPv6 extension chain |
| `ReuseGuard.CorrelationReuseGuard.ReserveKey` | crates/nodenet-protocols/src/correlation.rs:506-522 | prunes, then reserves or reports unsupported, conflict or exhausted, as the specification |
| `ReuseGuard.CorrelationReuseGuard.CompleteKey` | crates/nodenet-protocols/src/correlation.rs:529-538 | moves an outstanding lease into grace, or reports not outstanding or overflow |
| `ReuseGuard.ReserveExact` | crates/nodenet-protocols/src/correlation.rs:506-522 | a reservation succeeds if and only if the protocol is supported, no lease blocks the key at that time and the blocking leases leave room; each refusal has its own condition; every blocking lease stays and nothing else does |
| `ReuseGuard.CompleteExact` | crates/nodenet-protocols/src/correlation.rs:529-538 | a completion succeeds if and only if the key is outstanding and the deadline can be represented; the key is then blocked exactly until that deadline, and no other key is affected |
| `ReuseGuard.CorrelationReuseGuard.PruneExpired` | crates/nodenet-protocols/src/correlation.rs:541-545 | removes exactly the expired grace entries |
| `ReuseGuard.CorrelationReuseGuard.Create` | crates/nodenet-protocols/src/correlation.rs:490-499 | refuses zero and excessive capacities |
| `ReuseGuard.ReuseSafe` | crates/nodenet-protocols/src/correlation.rs:484-556 | in every run with nondecreasing time two successful reservations of a key are separated by a successful completion whose grace has passed |
| `ReuseGuard.OutstandingStays` | crates/nodenet-protocols/src/correlation.rs:541-545 | an outstanding lease leaves the table only by its completion |
| `ReuseGuard.CapacityKept` | crates/nodenet-protocols/src/correlation.rs:506-522 | the table never exceeds its capacity in any run |
| `Dns.DecodeExact` | crates/nodenet-protocols/src/discovery_dns.rs:341-432 | a name is accepted exactly when the pointer-following reading of section 4.1.4 of RFC 1035 is finite with at most 32 jumps and 255 bytes, and then decodes to its meaning |
| `Dns.TargetsDistinct` | crates/nodenet-protocols/src/discovery_dns.rs:366-376 | a readable name never jumps to a position twice, so the loop check rejects no readable name |
| `Dns.DecodeIdempotent` | crates/nodenet-protocols/src/discovery_dns.rs:341-432 | a decoded name is at most 255 bytes and decodes to itself |
| `Dns.ConsumedInside` | crates/nodenet-protocols/src/discovery_dns.rs:341-432 | start plus consumed stays inside the message |
| `Dns.DecodePrinted` | crates/nodenet-protocols/src/discovery_dns.rs:434-453 | a printed name decodes to its lower-cased form wherever it stands |
| `Dns.DecodeName` | crates/nodenet-protocols/src/discovery_dns.rs:341-432 | the loop over cursor, visited list and wire computes the specification, and terminates |
| `Dns.EncodeLabels` | crates/nodenet-protocols/src/discovery_dns.rs:434-453 | the label loop computes the encoding |
| `Dns.SplitExact` | crates/nodenet-protocols/src/discovery_dns.rs:434-441 | splitting at full stops loses nothing |
| `Dns.EncodeExact` | crates/nodenet-protocols/src/discovery_dns.rs:434-453 | a name is encoded to these bytes if and only if it presents labels of 1 to 63 bytes, perhaps with a final full stop, whose print these bytes are and has at most 255 |
| `Dns.BuildExact` | crates/nodenet-protocols/src/discovery_dns.rs:119-145 | a query is built for exactly the names that can be encoded: the size check never refuses |
| `Dns.MessageExact` | crates/nodenet-protocols/src/discovery_dns.rs:164-217 | a message is parsed to this value if and only if it has 12 to 9000 bytes, at most 1024 entries, the counted questions end to end, with type, class and unicast bit as the bytes say, and records behind them up to its end |
| `Dns.QueryRoundTrip` | crates/nodenet-protocols/src/discovery_dns.rs:119-217 | every built query parses back to the same id, type, unicast bit and name, whatever reads the resource records |
| `Bencode.SkipExact` | crates/nodenet-protocols/src/udp_extended.rs:970-1023 | the reader accepts and consumes exactly one well-formed value: strictly increasing keys, depth at most 4, at most 63 entries per container, canonical lengths and numbers |
| `Bencode.PrefixFree` | crates/nodenet-protocols/src/udp_extended.rs:970-1023 | no accepted value is a proper prefix of another |
| `Bencode.StrRead` | crates/nodenet-protocols/src/udp_extended.rs:936-968 | every length-prefixed string within nine digits is read back |
| `Bencode.StrReadSound` | crates/nodenet-protocols/src/udp_extended.rs:936-968 | every string that is read has the canonical prefix |
| `Dht.NeverRepeats` | crates/nodenet-protocols/src/udp_extended.rs:849-934 | the duplicate-key rejections are unreachable on every input |
| `Dht.ParseExact` | crates/nodenet-protocols/src/udp_extended.rs:849-934 | a value is parsed to a transaction if and only if it has at most 512 bytes and is the print of a dictionary of at most 31 increasing keys, each value fit for its key, that names this transaction and kind and, where required, a response with a twenty-byte id |
| `Dht.MessageRead` | crates/nodenet-protocols/src/udp_extended.rs:849-901 | every printed message whose values fit their keys parses to its transaction, or is refused exactly when transaction, kind or response id is missing or wrong |
| `Dht.PingParses` | crates/nodenet-protocols/src/udp_extended.rs:332-340 | every ping that is built parses to its own two-byte transaction |
| `BencodeReader.ParseBytes` | crates/nodenet-protocols/src/udp_extended.rs:936-968 | the digit loop computes the specification |
| `BencodeReader.SkipValue` | crates/nodenet-protocols/src/udp_extended.rs:970-1023 | the recursive cursor reader computes the specification |
| `BencodeReader.ParseDhtMessage` | crates/nodenet-protocols/src/udp_extended.rs:849-901 | the message loop computes the specification |
| `BencodeReader.ParseResponse` | crates/nodenet-protocols/src/udp_extended.rs:903-934 | the response-dictionary loop computes the specification |
| `Patching.OrderIrrelevant` | crates/nodenet-protocols/src/template.rs:250-263 | any two orders of the same patches give the same result |
| `Patching.ApplyInside` | crates/nodenet-protocols/src/template.rs:250-263 | a patched span holds the value written there, whatever else is patched |
| `Patching.ApplyOutside` | crates/nodenet-protocols/src/template.rs:250-263 | outside patched spans the template is unchanged |
| `Patching.OverlapExact` | crates/nodenet-protocols/src/template.rs:160-167 | for nonempty spans the overlap test says exactly that a position is covered twice |
| `Patching.CheckSpans` | crates/nodenet-protocols/src/template.rs:149-168 | the nested loops accept exactly spans in bounds and pairwise apart |
| `Template.NewDescriptor` | crates/nodenet-protocols/src/template.rs:53-86 | accepted exactly if the span is in bounds and has the length of its kind |
| `Template.FrameTemplate.Create` | crates/nodenet-protocols/src/template.rs:138-174 | accepted exactly within the length and count limits with spans in bounds and apart |
| `Template.FrameTemplate.ValidatePatches` | crates/nodenet-protocols/src/template.rs:227-248 | accepts exactly patches for known descriptors, each at most once and of the right type |
| `Template.FrameTemplate.InstantiateInto` | crates/nodenet-protocols/src/template.rs:197-213 | exactly the patched template is written and later bytes stay; on any error the whole output is unchanged |
| `UdpRequest.UdpRequestPlan.Create` | crates/nodenet-protocols/src/udp_request.rs:107-142 | accepted exactly within the limits with nonempty fields in bounds and apart |
| `UdpRequest.UdpRequestPlan.ValidatePatches` | crates/nodenet-protocols/src/udp_request.rs:202-247 | accepts exactly patches for known fields, each at most once and of the right type |
| `UdpRequest.UdpRequestPlan.InstantiateInto` | crates/nodenet-protocols/src/udp_request.rs:166-200 | exactly the patched request is written and later bytes stay; on any error the whole output is unchanged |

## Left out

- Socket creation, socket options and the libc calls: receptions, send outcomes, clock readings and cancellation polls are inputs of the model; the tape of receptions is finite and behind its end every reception fails.
- An overflow or truncation report says that events were lost but not which; how congestion orders reports and later events inside the kernel is not modelled beyond the position the report carries.
- Third-party decoding of framed netlink messages and HMAC-SHA-256: parameters of the model.
- Attribute-by-attribute filling of netlink records: a record is its identity, its interface references, its unknown attribute sizes and opaque detail; record order is the order of a flattened record.
- The bytes of a route query and the planner: a question records the query it was sent for, and a plan is the captured snapshot with the kernel's answer. How the kernel computes that answer from its store is not modelled.
- The network-namespace cookie, and the error texts carried by error variants.
- Overflow branches of `usize` arithmetic: lengths are bounded far below them. Native byte order is little-endian.
- Rules.RuleCoherence: a rule is the whole record, so a kernel that holds the same rule twice is not modelled; where an event is about a confused rule the table may differ from the kernel's rules until the next full snapshot.
- A panicking worker thread and memory ordering weaker than one step per atomic operation in the driver; the caller's side of a pending operation (`try_result`, `wait`) appears only as token cancellation.
- Driver.ShutdownProgress: a running command is taken to return; that it does is what the context's own deadline and cancellation checks are for.
- Resource records of DNS messages (`parse_records`, `parse_txt`): a parameter of `Dns.ParseMessage`. Text forms of names (UTF-8) are left out; names are bytes.
- Dns.QueryRoundTrip: the name comes back lower-cased, as the decoder makes it.
- The link-layer, ARP and passive parsers, ICMP parsing and the ICMP error messages that carry a quote, the service parsers of `udp_extended.rs` other than bencode, the static registries, and the Node-API bindings: fixed-offset field checks and tables.
- Direct replies (`classify_tcp_reply`, `classify_echo_reply`, `classify_udp_reply`): one comparison each.
- Error layers, required and actual sizes carried by parse errors: errors are compared by kind and field.
- TcpExact.ParseBuild: segments with a remark (reserved bits, a large window scale, padding that is not zero), with an urgent pointer but no urgent flag, or with superfluous padding are parsed but not rebuilt: the builder cannot express them.
- NdpExact.ParseBuild: options the builder cannot express, such as a link-layer address of other than six bytes or further flags of a prefix, are parsed but not rebuilt.
