# jt-ipam agents: verified models

Dafny models of the algorithmic parts of the two jt-ipam agents and of two smaller programs, with proofs of what
they are relied on for. `dafny verify dfyconfig.toml` checks everything.

Code that changes state (module-level dictionaries, cursors, buffers) is modelled as classes whose methods are
proved equal to specification functions; what the state guarantees over whole runs is proved about those functions.

| module | what it models |
|---|---|
| `PyDict`, `PyText`, `Sizes`, `Integers`, `Wrappers` | Python's insertion-ordered dictionary and small helpers |
| `EventQueue`, `EventRuns`, `EventFates`, `EventRounds` | the RustDesk agent's forwarding queue: capacity, heartbeat coalescing, drop counters, the snapshot/POST/remove cycle, and every interleaving of the handler threads with the forwarder |
| `NonceGate`, `RateGate`, `RateRuns` | audit de-duplication by nonce, the per-source request limit, housekeeping of both |
| `VerifyCache`, `VerifyCacheRuns`, `VerifyCacheSize` | the verification cache in front of the hbbs database, with lookups that overlap database changes and deletions |
| `RustDeskWire`, `OnlineAnswers`, `Bits` | protobuf varints and fields, hbb_common framing, the batched online query |
| `LogTail`, `LogTailRuns`, `KeyLog`, `KeyLogRuns`, `KeyLogTotals` | following a growing log, counting its lines between polls, putting back what was not delivered |
| `DeleteJobs`, `DeleteRuns`, `DeleteTruth`, `DeleteStore` | deletion of registrations on request, executed once per delivered result |
| `Runs`, `ScanPlan`, `ScanCoverage`, `PassCoverage`, `UsableAddresses` | address runs (server and agent side), the rotating scan planner with its cursors, and what its passes cover when plans change and subnets take turns |
| `DhcpdSyntax`, `DhcpdStatements`, `DhcpdConf`, `DhcpdMeaning`, `DhcpdBlocks`, `DhcpdLeases`, `DhcpdRecords` | ISC dhcpd: scanner, tree builder, dhcpd.conf with includes, replay of the lease log |
| `WebSocket`, `WebSocketBytes`, `WebSocketStreams` | client frames with masking, server frames out of a stream (RFC 6455 sections 5.2 and 5.3) |
| `DeviceLink`, `DeviceGuards`, `DeviceRelink` | linking IP records to devices by port MAC |
| `Guacamole`, `GuacamoleText`, `GuacamoleReader`, `GuacamoleStuck`, `FiniteLoops` | the length-prefixed Guacamole instructions; the client's loops as Python runs them, negative lengths included |

## What the proofs brought to light

- **Nonces and clocks.** The de-duplication window does not always hold for its full TTL: the clock is read before the
  lock is taken, so housekeeping with a later reading can forget a nonce before a thread with an earlier reading offers
  it again (`NonceGate.StaleClockAcceptsTwice`). `EarlyAcceptedExactly` says when: a repetition within the TTL is accepted
  if and only if some step in between found the entry and everything ahead of it expired, or pushed it out by capacity.
  With readings in lock order only the capacity remains (`AcceptedTwiceInLockOrder`).
- **Binary search over runs.** `_in_runs` looks at one run only. It answers membership for every address if and only if
  no run reaches past a later one into a hole (`Runs.InRunsExact`; `ShadowExample` is a table that misses an address);
  what the server sends always satisfies that.
- **Rate limit and clocks.** The request limit has the same weakness. Housekeeping with reading `t` is invisible to every
  request with reading `now` if and only if `now` is at least `t - 1` (`RateRuns.InvisibleExactly`); a request stalled for
  longer can be let through, and three requests of one second can pass a limit of one
  (`RateRuns.StalledRequestsExceedTwice`). With requests at most a second behind housekeeping and at most `d` behind each
  other, the largest number of grants that a second can see is `(2 + d rounded up) * (limit - 1) + 1`
  (`RateRuns.MostExactly`, for every limit). Twice the limit is therefore kept in all runs if and only if `d` is zero, or
  the limit is at most one, or it is two and `d` at most a second (`RateRuns.AtMostTwiceExactly`; the agent's limit is 20).
  That a single window grants no more than the limit needs no assumption on clocks.
- **WebSocket errors.** A read that meets a bad frame loses the good frames of the same read (`WebSocket.ErrorLosesFrames`
  says which). The frames handed over are independent of the chunking if and only if the stream has no error or no
  complete frame precedes it (`WebSocketStreams.CutsAgreeExactly`, with an example in `GoodThenBad`).
- **Reserved bits.** The WebSocket client ignores the three reserved bits of a frame's first byte, although RFC 6455
  section 5.2 has it fail the connection (`WebSocketBytes.ReservedIgnored`, `ReservedExample`); otherwise it accepts just
  the valid unfragmented frames and longer length forms than needed (`FrameExactly`).
- **Forgetting a deleted ID.** Forgetting takes effect at once if and only if no lookup that has already read the older
  database is under way (`VerifyCache.ForgetTakesEffect`). Such a lookup can be under way: `VerifyCacheRuns.ForgottenTooLate`
  is a run in which a deleted registration is confirmed for another minute. The age of any answer is bounded by the TTL.
- **Evicted and delivered.** An event that is pushed out of the queue is delivered all the same if and only if the POST
  under way carries it and succeeds (`EventFates.PushedOutYetDelivered`). The overflow counter therefore counts more than
  is lost; `EventFates.LostCount` gives the difference.
- **Deletions executed twice.** A request is carried out twice without a report in between if and only if a failed report
  that found the store too full threw its result away and the server asked again later, or one poll used its number for two
  registrations (`DeleteRuns.ExecutedTwiceExactly`; `SecondExecution` is an example).
- **One number for two registrations.** A result belongs to a request number. If one poll uses a number for two
  registrations, the outcome of the last is reported for both: a registration that has been deleted can be reported as kept
  because another one is online (`DeleteTruth.SharedNumberMisleads`). `ExecutedTruly` says what a status is true of.
- **Long log lines.** The log reader returns exactly the complete lines of what it read if and only if no call finds more
  than 65536 bytes after the last line break (`LogTailRuns.FollowRunExactly`); otherwise the beginning of a line is lost.
  A longer line that is read before its line break comes is returned as an empty one (`LogTailRuns.LongLineLost`;
  `LongLineExample` has 65537 letters).
- **Negative lengths.** The Guacamole client's loop does not end on the text `-4.` (`GuacamoleReader.LoopsForEver`). It ends
  if and only if it ends within as many rounds as the buffer has characters and one more (`GuacamoleReader.EndsExactly`).
  One round stays where it is if and only if the length is `-(k + 2)` for a text of `k` characters, or less than that by the
  size of the buffer (`GuacamoleStuck.StaysExactly`). Behind a semicolon such a length does not stop the loop: after any
  complete instruction the text `-4.` makes every call return the same empty instruction (`GuacamoleStuck.SameForEver`).
- **A neighbourhood that changes.** Each usable address is looked at in exactly one cycle of a discovery pass, however the
  known addresses change (`PassCoverage.DiscoverPass`). The neighbourhood is a list that can itself change, and then an
  address that is listed throughout can be passed over, when it falls back behind the cursor
  (`PassCoverage.ChangeMisses`); this is the only way to miss one (`PassCoverage.NearListed`).

## Model

| member | source | states |
|---|---|---|
| EventQueue.Forwarder.Enqueue | agent/jt_ipam_rustdesk_agent.py:876-890 | the older heartbeat of the ID goes, then as many of the oldest entries as capacity demands, each counted; the new event is last |
| EventQueue.Forwarder.Count | agent/jt_ipam_rustdesk_agent.py:739-741 | exactly one drop counter rises by one |
| EventRounds.RoundsDeliver | agent/jt_ipam_rustdesk_agent.py:1224-1244 | undisturbed successful rounds send the queue oldest first in full batches, exactly the first `n` of them, and leave the rest |
| EventQueue.Forwarder.FlushEnd | agent/jt_ipam_rustdesk_agent.py:1236-1242 | after a success the queue is what it was without the very objects sent, order kept; counters lose what was reported |
| EventQueue.Forwarder.Flush | agent/jt_ipam_rustdesk_agent.py:1217-1244 | undisturbed, what was sent followed by what is left is the old queue whatever POSTs fail; success means all events and counts went out |
| EventQueue.WithoutStep | agent/jt_ipam_rustdesk_agent.py:1237-1239 | removing a key only if it still holds the sent object, entry by entry, removes exactly the sent entries |
| EventQueue.WithoutPrefix | agent/jt_ipam_rustdesk_agent.py:1225-1239 | on an untouched queue a delivered snapshot leaves exactly what followed it |
| EventRuns.InvStep | agent/jt_ipam_rustdesk_agent.py:876-890 | every step of handlers and forwarder keeps the whole invariant (order, keys, fates, counters, POST under way) |
| EventRuns.NoEventLost | agent/jt_ipam_rustdesk_agent.py:1217-1244 | over every interleaving each accepted event is pending, delivered, replaced by a newer heartbeat of its ID or evicted, leaves the queue in one way only, and evictions are all counted |
| EventRuns.DeliveredInOrder | agent/jt_ipam_rustdesk_agent.py:1217-1244 | deliveries follow the order of acceptance, none twice, all older than what is pending |
| EventRuns.QueueBounded | agent/jt_ipam_rustdesk_agent.py:876-888 | never more than max(1, cap) entries, and at most one heartbeat per ID, its newest |
| EventRuns.DropsConserved | agent/jt_ipam_rustdesk_agent.py:1226-1241 | increments equal what successful POSTs reported plus what is held; the floor at zero never bites |
| EventRuns.EvictedYetDelivered | agent/jt_ipam_rustdesk_agent.py:884-886 | a concrete run in which an event is both evicted and delivered |
| EventFates.PushedOutYetDelivered | agent/jt_ipam_rustdesk_agent.py:880-886 | in every run an event pushed out by capacity or by a newer heartbeat is delivered if and only if the POST under way at that moment carries it and succeeds |
| EventFates.LostCount | agent/jt_ipam_rustdesk_agent.py:884-886 | after every run the events lost are the overflow count less the evictions during a successful POST that carried them |
| NonceGate.NonceTable.AcceptOnce | agent/jt_ipam_rustdesk_agent.py:893-906 | refused exactly while an unexpired entry exists; an accepted nonce becomes the youngest entry |
| NonceGate.NonceTable.Housekeeping | agent/jt_ipam_rustdesk_agent.py:867-871 | the expired entries at the front go, up to the first that has not expired |
| NonceGate.AcceptedTwice | agent/jt_ipam_rustdesk_agent.py:893-906 | two successive acceptances of a nonce: a full TTL apart, or a late housekeeping in between, or a table's worth of other nonces in between, for any clock readings |
| NonceGate.AcceptedTwiceInLockOrder | agent/jt_ipam_rustdesk_agent.py:893-906 | with readings in lock order: a TTL apart unless capacity removed it |
| NonceGate.StaleClockAcceptsTwice | agent/jt_ipam_rustdesk_agent.py:896-900 | without that order a nonce can be accepted twice at the same reading |
| NonceGate.ForgetsExactly | agent/jt_ipam_rustdesk_agent.py:867-871 | one step removes a given nonce exactly under the stated guard and otherwise leaves its expiry alone |
| NonceGate.EarlyAcceptedExactly | agent/jt_ipam_rustdesk_agent.py:893-906 | a repetition within the TTL is accepted if and only if a step in between forgot the nonce |
| NonceGate.OnlyRepetitionsRefused | agent/jt_ipam_rustdesk_agent.py:898-900 | every refusal has an earlier acceptance of the same nonce less than a TTL before |
| NonceGate.OrderedByExpiry | agent/jt_ipam_rustdesk_agent.py:901-904 | with readings in lock order the table is sorted by expiry |
| NonceGate.HousekeepingExact | agent/jt_ipam_rustdesk_agent.py:867-871 | then looking only at the front removes exactly the expired entries |
| NonceGate.TableBounded | agent/jt_ipam_rustdesk_agent.py:902-903 | the table never exceeds max(1, RDAPI_NONCE_MAX) |
| RateGate.RateLimiter.RateOk | agent/jt_ipam_rustdesk_agent.py:851-859 | the decision and the new window; refused requests count too |
| RateGate.RateLimiter.Housekeeping | agent/jt_ipam_rustdesk_agent.py:865-866 | exactly the windows at least two seconds old go |
| RateGate.WindowCountsGrants | agent/jt_ipam_rustdesk_agent.py:855-859 | for readings in any order: a window was opened by a request at its starting time and has granted exactly its first requests up to the limit |
| RateGate.RefusedExactly | agent/jt_ipam_rustdesk_agent.py:851-859 | for readings in any order: refused if and only if a window less than a second old has granted the limit |
| RateRuns.TidyChangesExactly | agent/jt_ipam_rustdesk_agent.py:865-866 | housekeeping changes a decision if and only if it dropped a used-up window that is not over for the reading of the request |
| RateRuns.InvisibleExactly | agent/jt_ipam_rustdesk_agent.py:853-866 | for a pair of readings: invisible whatever the windows if and only if the request is at most a second behind |
| RateRuns.HousekeepingInvisible | agent/jt_ipam_rustdesk_agent.py:862-866 | over every run whose requests are at most a second behind earlier housekeeping no decision changes, the requests in any order |
| RateRuns.LateRequestShows | agent/jt_ipam_rustdesk_agent.py:853-866 | for any two readings a run in which housekeeping changes a decision if and only if the request is more than a second behind |
| RateRuns.GrantsPerSecond | agent/jt_ipam_rustdesk_agent.py:851-859 | with requests at most `d` behind earlier ones and a second behind housekeeping, a half-open second sees at most (2 + d rounded up) times (limit - 1), and one more |
| RateRuns.MostIsReached | agent/jt_ipam_rustdesk_agent.py:851-859 | for every `d` and limit a run in which a second sees just that many |
| RateRuns.MostExactly | agent/jt_ipam_rustdesk_agent.py:851-866 | a number is never exceeded in any such run if and only if it is at least that bound |
| RateRuns.AtMostTwiceExactly | agent/jt_ipam_rustdesk_agent.py:851-866 | twice the limit is kept in all such runs if and only if `d` is zero, or the limit at most one, or two with `d` at most a second |
| RateRuns.LessThanTwiceTheLimit | agent/jt_ipam_rustdesk_agent.py:851-859 | readings in lock order: less than twice the limit in any half-open second |
| RateRuns.StalledRequestPasses | agent/jt_ipam_rustdesk_agent.py:853-866 | a run in which housekeeping lets a late request through |
| RateRuns.StalledRequestsExceedTwice | agent/jt_ipam_rustdesk_agent.py:853-866 | a run in which one second sees three grants under a limit of one |
| VerifyCacheRuns.StoredThenHit | agent/jt_ipam_rustdesk_agent.py:784-816 | a stored answer is given to later calls exactly for the TTL of its kind, counted from when the lookup began |
| VerifyCacheRuns.StoreLosesExactly | agent/jt_ipam_rustdesk_agent.py:810-815 | storing costs another ID its unexpired answer if and only if the cache is full even of unexpired ones |
| VerifyCache.VerifyTable.Forget | agent/jt_ipam_rustdesk_agent.py:819-823 | exactly the named IDs leave the cache |
| VerifyCacheRuns.PurgeChangesExactly | agent/jt_ipam_rustdesk_agent.py:872-873 | housekeeping changes what a call gets if and only if the call reads a time before the expiry that housekeeping found past |
| VerifyCacheRuns.AnswersFresh | agent/jt_ipam_rustdesk_agent.py:781-816 | over every interleaving from the start each answer is what the database said during the call or less than the TTL of its kind before it |
| VerifyCache.FreshRun | agent/jt_ipam_rustdesk_agent.py:781-823 | once nothing older than a version is cached or under way, no later answer is older |
| VerifyCache.ForgetTakesEffect | agent/jt_ipam_rustdesk_agent.py:819-823 | forgetting is effective in every continuation if and only if no lookup with an older reading is under way |
| VerifyCacheRuns.ForgottenTooLate | agent/jt_ipam_rustdesk_agent.py:781-823 | a run from the start in which a deleted and forgotten registration is answered and then cached for a minute |
| VerifyCacheSize.CacheBounded | agent/jt_ipam_rustdesk_agent.py:810-815 | over every interleaving the cache stays within its limit |
| RustDeskWire.PbVarint | agent/jt_ipam_rustdesk_agent.py:368-375 | the bitwise loop writes the base-128 form |
| RustDeskWire.PbReadVarint | agent/jt_ipam_rustdesk_agent.py:382-390 | shifting and or-ing reads the base-128 number at that position, or runs off the end |
| RustDeskWire.VarintRoundTrip | agent/jt_ipam_rustdesk_agent.py:368-390 | reading inverts writing for every number, whatever follows |
| RustDeskWire.FieldRoundTrip | agent/jt_ipam_rustdesk_agent.py:378-379 | tag, payload and remainder are recovered from a field |
| RustDeskWire.RequestReadable | agent/jt_ipam_rustdesk_agent.py:405-406 | the request parses to the agent's name and all IDs in order |
| RustDeskWire.FrameRoundTrip | agent/jt_ipam_rustdesk_agent.py:393-402 | framing succeeds exactly below 2^30 bytes and unframing recovers the data, whatever follows |
| RustDeskWire.ReadReply | agent/jt_ipam_rustdesk_agent.py:411-423 | reading chunk by chunk yields the framed message of the whole stream, or fails when it ends early |
| RustDeskWire.ReplySurvivesChunking | agent/jt_ipam_rustdesk_agent.py:411-423 | a framed message is recovered from every chunking |
| RustDeskWire.ReadStates | agent/jt_ipam_rustdesk_agent.py:428-435 | the loop over the fields keeps the payload of the last field 1 |
| RustDeskWire.OnlineBatch | agent/jt_ipam_rustdesk_agent.py:424-437 | the answer map of one batch, or failure |
| RustDeskWire.Online | agent/jt_ipam_rustdesk_agent.py:440-448 | the batches' answers united in order; any failing batch fails the query |
| RustDeskWire.BitOfBitmap | agent/jt_ipam_rustdesk_agent.py:436-437 | bit k, most significant first, of a bitmap is flag k; past the end is off |
| RustDeskWire.AnswersByPosition | agent/jt_ipam_rustdesk_agent.py:436-437 | distinct IDs each get the bit at their position, offline beyond the bitmap |
| RustDeskWire.BatchTruth | agent/jt_ipam_rustdesk_agent.py:405-437 | the answer of a truthful server, framed and chunked anyhow, is understood as sent |
| RustDeskWire.OnlineTruth | agent/jt_ipam_rustdesk_agent.py:440-448 | for any IDs and batch size the agent learns for exactly these IDs whether each is online |
| OnlineAnswers.ReceivedUntilClosed | agent/jt_ipam_rustdesk_agent.py:410-422 | what counts is what arrives before the connection is closed |
| OnlineAnswers.UnframeExactly | agent/jt_ipam_rustdesk_agent.py:410-423 | a message is taken exactly if the header, as many bytes as its low bits say and one, announces it and all of it is there; otherwise there are fewer bytes than the header has or announces |
| OnlineAnswers.VarintCut | agent/jt_ipam_rustdesk_agent.py:382-390 | a number cannot be read exactly if every byte says that another follows |
| OnlineAnswers.FieldExactly | agent/jt_ipam_rustdesk_agent.py:424-435 | a field is two numbers and then as many bytes as the second says or as are left |
| OnlineAnswers.StatesExactly | agent/jt_ipam_rustdesk_agent.py:428-435 | the bitmap is the payload of the last field 1, empty if there is none; reading fails exactly if the fields cannot be read to the end |
| OnlineAnswers.OnlineFailsExactly | agent/jt_ipam_rustdesk_agent.py:405-448 | for all batches and replies: the query fails if and only if some batch's connection is closed before a whole frame has arrived or its message is not field 24 with readable fields inside |
| OnlineAnswers.ClosedFails | agent/jt_ipam_rustdesk_agent.py:411-422 | in particular a connection that is closed at once fails the whole query |
| OnlineAnswers.OnlineAnswersExactly | agent/jt_ipam_rustdesk_agent.py:436-448 | otherwise each ID gets the bit at the place of its last occurrence, within its batch, of what the reply to that batch says |
| OnlineAnswers.OnlyAsked | agent/jt_ipam_rustdesk_agent.py:436-448 | and exactly the IDs asked have an answer |
| LogTail.TailReader.Read | agent/jt_ipam_rustdesk_agent.py:1443-1467 | the lines of one call and what is remembered, for first, continued and rotated files |
| LogTail.LinesAppend | agent/jt_ipam_rustdesk_agent.py:1460-1462 | splitting piece by piece with the unfinished rest in front equals splitting the whole |
| LogTailRuns.KeepStep | agent/jt_ipam_rustdesk_agent.py:1454-1462 | for lines of any length one more call returns exactly the lines it adds to the kept bytes and keeps their unfinished suffix |
| LogTailRuns.KeepRun | agent/jt_ipam_rustdesk_agent.py:1443-1467 | over any calls on any growing file the lines returned are the lines of the kept bytes |
| LogTailRuns.FollowRunExactly | agent/jt_ipam_rustdesk_agent.py:1443-1467 | they are the complete lines of all bytes consumed, with the unfinished suffix remembered, if and only if no call finds more than 65536 bytes after the last line break |
| LogTailRuns.LongLineLost | agent/jt_ipam_rustdesk_agent.py:1460-1466 | any line above the limit that is read before its line break comes is returned as an empty line, and the account is wrong |
| LogTailRuns.LongLineExample | agent/jt_ipam_rustdesk_agent.py:1460-1466 | so for 65537 letters |
| LogTailRuns.ShortLinesKeepUp | agent/jt_ipam_rustdesk_agent.py:1463-1464 | with lines of at most 65536 bytes that is always so |
| LogTailRuns.PositionExactly | agent/jt_ipam_rustdesk_agent.py:1446-1459 | where a call begins to read and where it stops |
| LogTailRuns.FirstRead | agent/jt_ipam_rustdesk_agent.py:1448-1466 | the first call starts at the last 256 KiB and drops only the line that may be cut; without a line break there everything is thrown away |
| LogTailRuns.WholeRun | agent/jt_ipam_rustdesk_agent.py:1443-1467 | a whole life on one growing file: the dropped line and all returned ones are the complete lines from the start on, if and only if no call meets a rest above the limit |
| LogTailRuns.AfterRotation | agent/jt_ipam_rustdesk_agent.py:1452-1453 | a replaced or shortened file is read from its beginning and followed like any other, if and only if the rest is within the limit |
| KeyLog.KeyCounter.AddFailure | agent/jt_ipam_rustdesk_agent.py:1428-1440 | counts added, first and last time widened, target of the later one, or the counts dropped |
| KeyLog.KeyCounter.Collect | agent/jt_ipam_rustdesk_agent.py:1484-1487 | the lines are counted in order |
| KeyLog.KeyCounter.Restore | agent/jt_ipam_rustdesk_agent.py:1504-1509 | what was taken is merged back in order |
| KeyLog.KeyCounter.Poll | agent/jt_ipam_rustdesk_agent.py:1595-1616 | a poll reports all that is counted; a failed one leaves the counters as if it had not happened |
| KeyLog.AddLinesSound | agent/jt_ipam_rustdesk_agent.py:1419-1440 | both tables stay within their limit, keys unique, counts positive, first no later than last |
| KeyLog.RestoreUndoesTake | agent/jt_ipam_rustdesk_agent.py:1492-1509 | putting back into the emptied tables restores the exact former state |
| KeyLogRuns.FailedPollsInvisible | agent/jt_ipam_rustdesk_agent.py:1595-1616 | after any polls the counters are those of counting in one go the lines since the last delivery |
| KeyLogRuns.ReportCounts | agent/jt_ipam_rustdesk_agent.py:1595-1616 | a delivered report counts exactly the lines since the delivery before |
| KeyLogRuns.LinesCoveredOnce | agent/jt_ipam_rustdesk_agent.py:1595-1616 | every line is in exactly one delivered report or still pending |
| KeyLogRuns.AbsentMeansFull | agent/jt_ipam_rustdesk_agent.py:1423-1432 | an address that occurred but has no entry met a full table |
| KeyLogRuns.DroppedExactly | agent/jt_ipam_rustdesk_agent.py:1425-1432 | the dropped count is the number of lines without an entry |
| KeyLogRuns.FailureEntry | agent/jt_ipam_rustdesk_agent.py:1428-1440 | an entry tells the number of its lines, their earliest and latest time and, in chronological logs, the last target |
| KeyLogRuns.OkEntry | agent/jt_ipam_rustdesk_agent.py:1420-1424 | an accepted address carries its latest time |
| KeyLogRuns.LinesConserved | agent/jt_ipam_rustdesk_agent.py:1419-1440 | counted failures, accepted lines with an entry and dropped lines add up to all lines |
| KeyLogTotals.RunTotals | agent/jt_ipam_rustdesk_agent.py:1595-1616 | over every run the failure lines found are those in delivered reports, those pending and those without room; all dropped counts are the lines of both kinds without room |
| DeleteJobs.DeleteWorker.DeletePeers | agent/jt_ipam_rustdesk_agent.py:525-556 | exactly one status per ID; exactly the IDs reported deleted disappear, no online one among them; any failure leaves every registration in place |
| DeleteJobs.DeleteWorker.Transaction | agent/jt_ipam_rustdesk_agent.py:538-554 | all rows are deleted or none |
| DeleteJobs.DeleteWorker.DeleteOnce | agent/jt_ipam_rustdesk_agent.py:577-605 | results for every job in order, waiting ones unchanged; the store after a delivered and after a failed report |
| DeleteJobs.ResultsComplete | agent/jt_ipam_rustdesk_agent.py:579-588 | every job gets a result and nothing else does |
| DeleteJobs.ResultTells | agent/jt_ipam_rustdesk_agent.py:525-587 | what is reported for a job that is not waiting is true of its registration before and after, of the online query and of the transaction, for each of the four statuses |
| DeleteJobs.OnlyAskedGo | agent/jt_ipam_rustdesk_agent.py:525-587 | a registration goes if and only if a job that is not waiting asks for it, it is known to be offline and the transaction goes through; none appears |
| DeleteTruth.ExecutedTruly | agent/jt_ipam_rustdesk_agent.py:577-590 | over every run each execution was asked for by one poll, and its status is true of the registration its request number stood for last in that poll |
| DeleteTruth.ExecutedTrulyOfIts | agent/jt_ipam_rustdesk_agent.py:577-590 | of its own registration if polls give each number one |
| DeleteTruth.SharedNumberMisleads | agent/jt_ipam_rustdesk_agent.py:583-587 | two registrations under one number: the deleted one is reported as kept because it is online |
| DeleteRuns.RoundKeeps | agent/jt_ipam_rustdesk_agent.py:577-605 | one poll keeps the history in order if and only if it uses no request number for two registrations; then store and history agree |
| DeleteRuns.ReportsInOrderExactly | agent/jt_ipam_rustdesk_agent.py:577-605 | over every run: nothing is executed while its result is owed and every report tells what is owed, if and only if no poll uses one number for two registrations |
| DeleteRuns.LostExactly | agent/jt_ipam_rustdesk_agent.py:590-600 | a result leaves the store unreported if and only if a failed report finds the store too full and the server has not just asked for it |
| DeleteRuns.RoundLosesExactly | agent/jt_ipam_rustdesk_agent.py:590-600 | when a round throws any result away |
| DeleteRuns.ExecutedTwiceExactly | agent/jt_ipam_rustdesk_agent.py:577-605 | over every run: executed twice without a report in between if and only if the result was thrown away and asked for later, or its number stood for two registrations |
| DeleteRuns.SecondExecution | agent/jt_ipam_rustdesk_agent.py:577-605 | a run with two executions and no report |
| DeleteStore.StoreBounded | agent/jt_ipam_rustdesk_agent.py:590-594 | over every run the store of unsent results stays within its limit |
| Runs.ParseRuns | agent/jt_ipam_agent.py:1115-1127 | the readable ranges, clipped and sorted |
| Runs.ParsedCovers | agent/jt_ipam_agent.py:1115-1127 | the agent holds exactly the sent addresses that the subnet can use |
| Runs.RunsSlice | agent/jt_ipam_agent.py:1130-1143 | slicing run by run equals slicing the expanded list |
| Runs.SliceRunsIsSlice | agent/jt_ipam_agent.py:1130-1143 | the recursive run-by-run form is the slice of the expansion |
| Runs.Started | agent/jt_ipam_agent.py:1146-1147 | bisection finds how many runs start at or before an address |
| Runs.InRunsSound | agent/jt_ipam_agent.py:1146-1148 | a found address is in some run |
| Runs.InRunsExact | agent/jt_ipam_agent.py:1146-1148 | the search is membership for all addresses if and only if no run shadows a hole |
| Runs.ShadowExample | agent/jt_ipam_agent.py:1146-1148 | a sorted table of two runs in which the search misses an address of the first |
| Runs.ToRuns | backend/app/services/scan_plan.py:63-71 | any addresses are compressed to separated runs that expand to exactly them, sorted and once each |
| Runs.MergeRanges | backend/app/services/scan_plan.py:74-83 | merged ranges cover the same addresses and leave a gap between any two |
| Runs.SentRunsSearchable | agent/jt_ipam_agent.py:1115-1148 | runs sent by the server, clipped by the agent, are exactly covered and correctly searched |
| ScanPlan.Planner.SubnetChunk | agent/jt_ipam_agent.py:1091-1112 | the slice scanned, the next cursor and the reported position without a plan |
| ScanPlan.Planner.PlanHosts | agent/jt_ipam_agent.py:1151-1218 | one cycle under a plan: addresses, cursors and everything reported; other subnets keep their positions, few known addresses are all scanned |
| ScanPlan.Planner.ScanKnown | agent/jt_ipam_agent.py:1170-1182 | the known part of a cycle |
| ScanPlan.Planner.ScanNear | agent/jt_ipam_agent.py:1190-1207 | the neighbourhood part of a cycle, known addresses left out |
| ScanPlan.Planner.ScanDiscover | agent/jt_ipam_agent.py:1208-1217 | the discovery part of a cycle, known addresses left out |
| ScanPlan.InfoLocates | agent/jt_ipam_agent.py:1102-1217 | each reported chunk is the slice scanned, within 1..rounds, and rounds is just as many as needed |
| ScanPlan.TotalSize | agent/jt_ipam_agent.py:1169-1170 | summing run sizes gives the length of the expansion |
| UsableAddresses.UsableExactly | agent/jt_ipam_agent.py:1101-1110 | which addresses of a network count, by base and prefix length alone: all but the first and the last, and all of networks with one or two |
| UsableAddresses.SmallSubnet | agent/jt_ipam_agent.py:1101-1103 | a subnet within the limit: every cycle scans exactly these, in order |
| UsableAddresses.LargeSubnet | agent/jt_ipam_agent.py:1101-1112 | a larger one: as many cycles as its size takes scan exactly these, none twice, from any stored position |
| UsableAddresses.KnownHosts | agent/jt_ipam_agent.py:1165-1182 | of what a plan calls known exactly these are kept |
| UsableAddresses.PassLooksAtHosts | agent/jt_ipam_agent.py:1165-1217 | a discovery pass looks at exactly these, each in one cycle, and discovers each unless it is known there |
| UsableAddresses.ClampExactly | agent/jt_ipam_agent.py:1185-1197 | how many addresses a walk takes in one cycle |
| UsableAddresses.SixtyTwoHosts | agent/jt_ipam_agent.py:1101-1103 | a network of 64 addresses: 62 are scanned, the first and the last are not |
| ScanCoverage.Rotation | agent/jt_ipam_agent.py:1102-1112 | a rotation with a fixed step scans the whole list once and comes back to where it began |
| ScanCoverage.PlannedAligned | agent/jt_ipam_agent.py:1151-1218 | every cycle of every subnet keeps stored positions multiples of the step |
| ScanCoverage.KnownEveryRotation | agent/jt_ipam_agent.py:1168-1182 | any `rounds` consecutive cycles scan all known addresses once each, whatever discovery does |
| ScanCoverage.WholeSubnetEveryRotation | agent/jt_ipam_agent.py:1091-1112 | without a plan any `rounds` consecutive calls scan every usable address once |
| PassCoverage.CycleScans | agent/jt_ipam_agent.py:1183-1218 | a cycle scans its known part, then what the two walks of that cycle add |
| PassCoverage.DiscoverPass | agent/jt_ipam_agent.py:1208-1217 | from one wrap-around to the next, with any step sizes, known runs that change from plan to plan and cycles of other subnets in between: every usable address is looked at in exactly one cycle, where it is discovered or known to that cycle's plan |
| PassCoverage.DiscoverPassInOrder | agent/jt_ipam_agent.py:1208-1217 | with known runs that stay the same such a pass discovers exactly the addresses the search does not report as known, once each and in order |
| PassCoverage.PassEnds | agent/jt_ipam_agent.py:1198-1216 | a pass, of the subnet or of the neighbourhood, ends within as many cycles as its list has addresses |
| PassCoverage.NearPass | agent/jt_ipam_agent.py:1190-1207 | the same for every address of an unchanged neighbourhood, known runs and other subnets' cycles changing as they like |
| PassCoverage.NearListed | agent/jt_ipam_agent.py:1190-1207 | for a neighbourhood that changes in every cycle: an address listed throughout is looked at, and discovered or known there, unless a change makes it fall behind the cursor |
| PassCoverage.ChangeMisses | agent/jt_ipam_agent.py:1198-1206 | two concrete cycles in which an address listed in both is never looked at |
| PassCoverage.OthersInvisible | agent/jt_ipam_agent.py:1102-1217 | in any interleaving the cycles of one subnet scan what they scan without the cycles of the others |
| ScanCoverage.KnownAndDiscovered | agent/jt_ipam_agent.py:1151-1218 | known plus discovered is the usable range; nothing known is discovered if and only if no run shadows a hole |
| ScanCoverage.ExtrasUnknown | agent/jt_ipam_agent.py:1190-1214 | neither neighbourhood nor discovery returns an address the search reports as known |
| DhcpdSyntax.BuildTree | agent/jt_ipam_agent.py:822-850 | the loop with its list of open blocks builds the tree of the tokens, for every text |
| DhcpdSyntax.TokensRoundTrip | agent/jt_ipam_agent.py:822-850 | the tokens of any tree are read back as that tree |
| DhcpdSyntax.BracesForgiven | agent/jt_ipam_agent.py:839-844 | one closing brace more or fewer at the end changes nothing once statements are terminated |
| DhcpdSyntax.LexText | agent/jt_ipam_agent.py:809-809 | any spaces and comments between tokens leave the tokens unchanged |
| DhcpdSyntax.TextRoundTrip | agent/jt_ipam_agent.py:809-850 | printing a tree in any layout and parsing it gives the tree back |
| DhcpdSyntax.TreeWellFormed | agent/jt_ipam_agent.py:822-850 | every text parses to a tree that has a spelling |
| DhcpdSyntax.ReprintedUnchanged | agent/jt_ipam_agent.py:809-850 | parse, print in any layout and parse again is parse, for every text |
| DhcpdSyntax.SpacedLayout | agent/jt_ipam_agent.py:809-809 | such a layout always exists |
| DhcpdStatements.LastSaidAt | agent/jt_ipam_agent.py:871-880 | of several statements of one kind the last is the one that counts |
| DhcpdStatements.NothingSaid | agent/jt_ipam_agent.py:869-880 | without any the field stays empty |
| DhcpdStatements.HostExactly | agent/jt_ipam_agent.py:866-880 | MAC, addresses and names of a host are those of the last `hardware`, `fixed-address`, `option host-name` and `ddns-hostname` statements |
| DhcpdStatements.NameExactly | agent/jt_ipam_agent.py:886-886 | the option's name, if not empty, then the dynamic one, then the label |
| DhcpdStatements.CommasIgnored | agent/jt_ipam_agent.py:875-876 | commas among the addresses are left out, the others keep their order |
| DhcpdStatements.HostReserves | agent/jt_ipam_agent.py:881-887 | one reservation for each readable address, in order |
| DhcpdStatements.BootpIgnored | agent/jt_ipam_agent.py:897-897 | the word `dynamic-bootp` makes no difference wherever it stands |
| DhcpdStatements.RangeExactly | agent/jt_ipam_agent.py:896-903 | what a range statement with one or two addresses names |
| DhcpdBlocks.BlockContributes | agent/jt_ipam_agent.py:925-937 | by the keywords: grouping blocks and blocks without words contribute their contents in the same network, a readable subnet in its own, a host its reservations, any other block nothing |
| DhcpdBlocks.FileExactly | agent/jt_ipam_agent.py:890-940 | over everything that a file and its includes contain at any depth: the pools are the readable ranges all of whose blocks are open by their keywords, each in its innermost subnet, and the reservations those of such host blocks |
| DhcpdConf.ParseHost | agent/jt_ipam_agent.py:866-887 | a host block's reservations: its last statements count, one per readable address |
| DhcpdConf.RangeOf | agent/jt_ipam_agent.py:896-903 | exactly the addresses between the two named ends, whichever comes first, or the one named; none if a named end is unreadable |
| DhcpdConf.ConfReader.Parse | agent/jt_ipam_agent.py:890-940 | the accumulating recursive walk ends, for every include graph, in the specified state |
| DhcpdConf.ConfReader.WalkNodes | agent/jt_ipam_agent.py:907-937 | a walk over any part of the tree adds to the accumulators what the specification says |
| DhcpdConf.ConfReader.ReadStatement | agent/jt_ipam_agent.py:914-924 | ranges and includes, with the depth limit, the include limit and each path once |
| DhcpdConf.ConfReader.AddHost | agent/jt_ipam_agent.py:931-934 | reservations are added in order while there is room |
| DhcpdMeaning.ConfMeaning | agent/jt_ipam_agent.py:890-940 | pools and reservations are the capped prefix of what the visited items mean, each range in its innermost subnet |
| DhcpdMeaning.WalkIsVisit | agent/jt_ipam_agent.py:907-937 | at any point of any walk the state is the start plus the meaning of the items visited |
| DhcpdMeaning.IncludesBounded | agent/jt_ipam_agent.py:917-923 | each path is loaded at most once and never more than the limit |
| DhcpdMeaning.PoolsOrdered | agent/jt_ipam_agent.py:902-905 | every pool reported starts no later than it ends |
| DhcpdLeases.ParseLease | agent/jt_ipam_agent.py:978-990 | a lease record by its last statements, nothing carried over |
| DhcpdLeases.ParseLeases | agent/jt_ipam_agent.py:961-1011 | the whole replay: leases capped then sorted, reservations capped |
| DhcpdLeases.CollectActive | agent/jt_ipam_agent.py:1000-1008 | the active leases in table order, cut at the limit |
| DhcpdRecords.TimeExactly | agent/jt_ipam_agent.py:943-958 | `never`, `epoch N`, or a day, a date and a time, as far as readable |
| DhcpdRecords.RecordExactly | agent/jt_ipam_agent.py:978-990 | state, end, MAC and client name of a record by its last `binding state`, `ends`, `hardware` and `client-hostname` statements |
| DhcpdRecords.CurrentExactly | agent/jt_ipam_agent.py:974-1005 | an address is current if and only if its last lease block is `active` and ends `never` or later than now |
| DhcpdRecords.ReportedRecords | agent/jt_ipam_agent.py:961-1011 | what is reported comes from such blocks with their MAC and name, and all of them are reported within the limit |
| DhcpdRecords.LastHostExactly | agent/jt_ipam_agent.py:993-998 | a host of the log is what its last `host` block says, unless that contains `deleted` |
| DhcpdLeases.LastRecordWins | agent/jt_ipam_agent.py:974-992 | the table holds exactly each address's last record |
| DhcpdLeases.LastHostWins | agent/jt_ipam_agent.py:993-998 | a host survives exactly when its last record is no deletion, with that record's contents |
| DhcpdLeases.TableByPosition | agent/jt_ipam_agent.py:991-992 | the table is in the order of last occurrence |
| DhcpdLeases.SortAscending | agent/jt_ipam_agent.py:1009-1009 | sorting keeps the leases and orders them numerically |
| DhcpdLeases.ReportedExactly | agent/jt_ipam_agent.py:961-1011 | exactly the current leases, once each, sorted; with more than the limit just as many as it allows, and what is cut was last recorded later than what is reported |
| DhcpdLeases.CurrentCount | agent/jt_ipam_agent.py:1000-1008 | the table holds one active entry for each current address |
| DhcpdRecords.NoHostRecord | agent/jt_ipam_agent.py:993-998 | a name without host blocks is none of the hosts |
| WebSocket.MaskIsOctetwise | agent/jt_ipam_agent.py:2835-2841 | one big-integer XOR is the octet-wise XOR with key octet i mod 4 (RFC 6455 section 5.3), for every length |
| WebSocket.MaskTwice | agent/jt_ipam_agent.py:2835-2841 | masking is its own inverse |
| WebSocket.SentIsReceived | agent/jt_ipam_agent.py:2844-2855 | a receiver strict in opcode, length form, top bit and control-frame size (RFC 6455 sections 5.2 and 5.5) recovers opcode and payload if and only if a client may send them |
| WebSocket.Receiver.TakeFrame | agent/jt_ipam_agent.py:2858-2889 | one frame off the front; an incomplete or bad one leaves the buffer untouched |
| WebSocket.Receiver.BufferedFrames | agent/jt_ipam_agent.py:2916-2923 | all complete frames, the undecoded suffix left; an error hands out none |
| WebSocket.Receiver.Feed | agent/jt_ipam_agent.py:2901-2914 | the same for a read |
| WebSocketBytes.FrameExactly | agent/jt_ipam_agent.py:2858-2889 | on the bytes: a frame is handed out if and only if a final, unmasked header of a known opcode announces at most 65536 bytes, in any of the three forms, and they are there |
| WebSocketBytes.ErrorsExactly | agent/jt_ipam_agent.py:2864-2884 | on the bytes: for which first two bytes and length each error is raised |
| WebSocketBytes.NeedMoreExactly | agent/jt_ipam_agent.py:2864-2886 | on the bytes: when more are asked for |
| WebSocketBytes.ReservedIgnored | agent/jt_ipam_agent.py:2864-2882 | the reserved bits make no difference |
| WebSocketBytes.ReservedExample | agent/jt_ipam_agent.py:2864-2889 | a frame with a reserved bit that is accepted |
| WebSocket.DecodeStable | agent/jt_ipam_agent.py:2858-2889 | a frame or error once decided is not changed by more bytes |
| WebSocket.DrainAppend | agent/jt_ipam_agent.py:2916-2923 | decoding a stream in two parts equals decoding it whole |
| WebSocket.ChunkingIrrelevant | agent/jt_ipam_agent.py:2901-2923 | without an error every chunking gives the same frames and the same leftover |
| WebSocket.ErrorLosesFrames | agent/jt_ipam_agent.py:2916-2923 | with an error the caller gets exactly the frames completed by the reads before the one that meets it |
| WebSocketStreams.CutsAgreeExactly | agent/jt_ipam_agent.py:2901-2923 | all chunkings hand over the same frames if and only if there is no error or no complete frame before it |
| WebSocketStreams.GoodThenBad | agent/jt_ipam_agent.py:2916-2923 | one stream that yields no frame in one read and one in two |
| WebSocketStreams.PrefixNeedsMore | agent/jt_ipam_agent.py:2858-2889 | a proper prefix of a valid server frame is never a frame nor an error |
| WebSocketStreams.DrainUnfinished | agent/jt_ipam_agent.py:2858-2923 | frames followed by the beginning of one more decode to just that |
| WebSocketStreams.UnfinishedSurvivesChunking | agent/jt_ipam_agent.py:2901-2923 | however such a stream is cut up |
| WebSocket.DrainWire | agent/jt_ipam_agent.py:2858-2923 | a concatenation of valid server frames decodes to exactly these |
| WebSocket.FramesSurviveChunking | agent/jt_ipam_agent.py:2901-2923 | and does so however it is cut up |
| DeviceLink.ByMac | backend/ip_device_link.py:133-140 | for each MAC the set of all devices owning it |
| DeviceLink.CollectMacs | backend/ip_device_link.py:133-142 | the MACs with one owner, with that owner, and those with several |
| DeviceGuards.LinkableExactly | backend/ip_device_link.py:84-97 | a MAC identifies an interface if and only if it has twelve hexadecimal digits, is unicast, neither all zero nor broadcast, and in none of the four shared ranges |
| DeviceGuards.LabelExactly | backend/ip_device_link.py:100-102 | the label of a name is what precedes its first dot once white space around it is gone, lower-cased |
| DeviceGuards.ContradictsExactly | backend/ip_device_link.py:105-115 | two names contradict each other if and only if their labels differ at a place that both have |
| DeviceGuards.NoNameAgrees | backend/ip_device_link.py:112-115 | a missing name contradicts nothing |
| DeviceGuards.OutcomeExactly | backend/ip_device_link.py:133-202 | each outcome of a record by its guards: scope, usable MAC, owners among the ports, change by hand, names, customers |
| DeviceLink.LinkedExactly | backend/ip_device_link.py:176-202 | a record is linked to a device if and only if every guard passes and that device is the MAC's one owner |
| DeviceLink.OnlyEmptyFilled | backend/ip_device_link.py:152-212 | existing links never change and nothing but the device of a record changes |
| DeviceLink.Linker.LinkByPortMac | backend/ip_device_link.py:118-224 | final table, counters, dry run and any interruption, after which the session sees the committed table |
| DeviceLink.Linker.LinkRows | backend/ip_device_link.py:176-224 | the batch loop: after an interruption exactly the links of the full batches of 25 before it are there, with earlier records dealt with and later ones untouched |
| DeviceLink.CandidatesCountedOnce | backend/ip_device_link.py:176-202 | each candidate falls in exactly one bucket |
| DeviceLink.RerunCompletes | backend/ip_device_link.py:206-223 | from any partly linked table the same decisions reach the uninterrupted result |
| DeviceRelink.MacsUnique | backend/ip_device_link.py:133-142 | the ports determine the MAC tables |
| DeviceRelink.LinkTwice | backend/ip_device_link.py:118-224 | the job stopped anywhere and run again ends in the uninterrupted table, and the links of both runs add up to those of one |
| DeviceLink.SecondRun | backend/ip_device_link.py:118-224 | a second run links nothing and skips what the first skipped |
| GuacamoleText.DecimalExactly | scripts/guacd/guacli.py:21-22 | a length is written in decimal digits without leading zeros |
| GuacamoleText.ValueExactly | scripts/guacd/guacli.py:27-37 | on the text: a value is read exactly if a readable length, a dot, that many characters and a terminator are there |
| GuacamoleText.NoValueExactly | scripts/guacd/guacli.py:27-33 | on the text: when the length is bad, negative, or something is missing |
| GuacamoleText.ParseExactly | scripts/guacd/guacli.py:24-37 | on the text: an instruction is read exactly if values follow one another up to one that a semicolon follows |
| GuacamoleText.RoundExactly | scripts/guacd/guacli.py:27-37 | one round of the loop from any position and for any length: when it fails, when it waits, which value it reads and where it goes on |
| GuacamoleText.NoDotWaits | scripts/guacd/guacli.py:27-29 | without a dot from the position on the loop waits |
| GuacamoleReader.Scan | scripts/guacd/guacli.py:24-37 | the loop with Python's clipped slices and negative indices, for lengths of either sign |
| GuacamoleReader.ForwardLoop | scripts/guacd/guacli.py:24-37 | unless a negative length is met the loop ends in time with what the format says |
| GuacamoleReader.EndsExactly | scripts/guacd/guacli.py:27-37 | whatever the lengths, the loop ends if and only if it ends within one round more than the buffer has characters |
| GuacamoleReader.LoopsForEver | scripts/guacd/guacli.py:27-37 | on the text `-4.` it never ends |
| GuacamoleStuck.StaysExactly | scripts/guacd/guacli.py:27-37 | a round stays in its place if and only if the length is -(k + 2) for a text of k characters, or once around the buffer less |
| GuacamoleStuck.StuckExactly | scripts/guacd/guacli.py:27-37 | with such a length the loop never ends, or, if a semicolon stands before it, returns one instruction without getting any further |
| GuacamoleStuck.SameForEver | scripts/guacd/guacli.py:27-37 | after any complete instruction the text `-4.` gives the same empty instruction in every call, whatever follows |
| GuacamoleReader.Reader.TryParse | scripts/guacd/guacli.py:24-37 | from any position the outcome of the loop; a complete instruction is consumed, otherwise the position stays |
| GuacamoleReader.Reader.Feed | scripts/guacd/guacli.py:44-51 | discarding consumed text changes nothing that is pending; a negative position moves along with the end of the buffer |
| Guacamole.RoundTrip | scripts/guacd/guacli.py:21-37 | an encoded instruction is read back exactly, whatever its values contain and whatever follows |
| Guacamole.ParseStable | scripts/guacd/guacli.py:24-37 | a decision is not changed by more text |
| Guacamole.PrefixIncomplete | scripts/guacd/guacli.py:24-37 | every proper prefix of an instruction is incomplete |
| Guacamole.DrainWire | scripts/guacd/guacli.py:39-51 | a stream of instructions and the beginning of one more is read as just that |
| GuacamoleReader.ChunkingIrrelevant | scripts/guacd/guacli.py:39-51 | instructions and the reason why reading stops do not depend on how the text arrives |
| GuacamoleReader.StreamIsRead | scripts/guacd/guacli.py:39-51 | such a stream is read as sent however it is cut up |

## Left out

- Sockets, TLS, HTTP, threads, subprocesses and real clocks: inputs and steps of the models (clock readings, chunks, whether a POST or a transaction succeeds).
- SHA-256, base64, JSON, SQLite, SQLAlchemy and Python's library parsers (lower-casing, IPv4 and MAC texts, network texts, `int`, times): function parameters.
- `_rdapi_stop` and the restart of the forwarder while an old POST is in flight: it empties the queue on purpose.
- EventQueue.Forwarder.Enqueue: events are told apart by their order of acceptance instead of object identity, and waking the forwarder early is not modelled.
- EventQueue.Forwarder.Count: the drop counters are a record with four fields, so that `.get(key, 0)` has no missing key.
- NonceGate.NonceTable.AcceptOnce: the call to the queue that follows an acceptance is the Accept step of EventRuns.
- VerifyCache.VerifyTable.Store: a registration without a fingerprint is one with an empty fingerprint; the warnings printed are not modelled.
- RustDeskWire.OnlineBatch: the IDs are given as encoded bytes; sending the request is not modelled beyond its contents.
- LogTail.TailReader.Read: a file that is cut and refilled beyond the old position between two calls, or replaced between `stat` and `open`, is not noticed by the code and not covered by the run lemmas; decoding the lines as UTF-8 is left out.
- KeyLog.KeyCounter.Collect: recognising the lines (`_keylog_parse`) is left out; times are numbers, because only their order is used.
- KeyLog.KeyCounter.Poll: the second POST after a 422 answer carries no counts and is part of a failed delivery here.
- DeleteJobs.DeleteWorker.DeletePeers: the texts explaining a failure are left out, and so is the call that makes the verification cache forget the IDs.
- DeleteRuns.RoundKeeps: the running flag that keeps two rounds apart is left out; rounds follow one another.
- ScanPlan.Planner.PlanHosts: addresses are numbers, IPv4 only; the cursor keys are a datatype, so that a subnet ID ending in `:k` cannot meet another subnet's cursor; the scan limit is positive.
- DhcpdConf.ConfReader.Parse: a loader for included files is always given; addresses are numbers.
- DhcpdSyntax.BuildTree: the source's stack of shared lists is a stack of values, so aliasing is not modelled.
- DeviceLink.Linker.LinkByPortMac: no concurrent writers, so the second look at a row before writing always finds it unlinked; the samples list and the change log are left out.
- GuacamoleReader.Reader.TryParse: takes the number of rounds after which to stop, since the loop need not end; text arrives decoded; time limits are left out.
- WebSocket.Receiver.Feed: the end of the stream and TLS's pending bytes only decide what is fed.
- `_HeavyQueue`, relay slots, the SNMP cadence, DER and DHCP packet walks, RustDesk field validators, nmap parsing, `near_addresses` and the database queries behind scan plans: easier state machines, fixed-layout parsing or plumbing that would add only easy members.
