# Session analysis platform: verified model

A Dafny model of the platform's write path, its read-time session query and its event identities, with
proofs of what they keep over every run, every table and every input.

The platform receives media-server webhooks at least once and in any order. Each delivery is one
transaction over two tables: `event_raw`, keyed by (occurred_at, event_id), and `participant_join`,
keyed by started_event_id. Sessions are never stored; a query groups joins under a caller's reconnect
threshold.

| file | what it holds |
|---|---|
| `Domain.dfy` | events, joins, sessions, event types |
| `JoinStore.dfy` | the tables and one transaction as the function `Step`; runs as `After` and `Outcomes` |
| `PostgresStore.dfy` | the class `Store`: the statements, `RecordEvent` and its rollback, proved to implement `Step` |
| `CloseTargets.dfy` | which rows a close touches, and when it is refused |
| `StoreInvariants.dfy` | provenance, write-once history, rows come from deliveries |
| `Confluence.dfy` | when delivery order does not matter, and that it matters otherwise |
| `RoomProjection.dfy` | rooms do not interfere, and when exactly they would |
| `Concurrency.dfy`, `Progress.dfy` | any number of deliveries in flight: each event is applied exactly once, runs are schedules and conversely, nothing blocks for good |
| `Partitions.dfy` | the partition bootstrap loop and data loss outside its window |
| `EventId.dfy`, `LiveKit.dfy` | the hashed bytes behind an id, `itoa`, translation of a delivery |
| `Webhook.dfy` | the receiver: `ServeHTTP` as a function and as the class `Handler` |
| `Intake.dfy` | from a request to its answer and its rows, stated on the payload |
| `Conservation.dfy`, `Redelivery.dfy` | counters against tables; repeats are invisible end to end |
| `Grouping.dfy`, `Windowing.dfy`, `Query.dfy` | ordinals against sessions, the window filter, the whole query |
| `VisibleSessions.dfy` | the query's rows against the sessions of the whole history |

Choices of the model:

- A Go string is a sequence of bytes, an instant an integer of microseconds. `Nullable` maps the empty
  text to NULL as the store does. `join_id` is a random uuid, so rows are keyed by started_event_id.
- What the database may choose or suffer is a parameter of a delivery, so every theorem about runs holds
  for every choice: `hint` resolves ties of `ORDER BY started_at DESC LIMIT 1`, `fault` makes begin,
  insert, effect or commit fail. A failed commit is an abort.
- Signature verification and JSON decoding are fields of the request; SHA-1 with the uuid layout and the
  RFC 3339 text of an instant are functions in `Platform`. The injectivity of the time text is assumed where
  ids are compared, and that the hash does not collide on the inputs at hand where distinct ids are concluded
  (`LiveKit.IdsMatchExactly`, `Redelivery.OnlyRedeliveriesRepeat`).
- `Store.UpdateRows` changes rows one at a time and may stop half way, as an UPDATE does; the rollback in
  `Store.RecordEvent` is what makes the transaction all or nothing.

Where the code and its comments differ, the model follows the code:

- A close refused as out of order aborts the transaction, so its event is *not* stored, although
  `internal/ingest/webhook/handler.go:149` and `ARCHITECTURE.md:2211` say it is
  (`CloseTargets.LeftRefusedExactly`; `Redelivery.AcknowledgedIffStored` says exactly which acknowledged
  events are stored, `Redelivery.AcknowledgedAndLost` shows one that is not).
- One participant_left can close several joins, although `internal/ingest/store/store.go:36` names
  only room_finished (`CloseTargets.SeveralClosedExactly`, `CloseTargets.TwoJoinsOneLeft`).
- The dedup key is the pair of time and id, although `migrations/000001_event_raw.up.sql:50-53` and
  `internal/ingest/eventid/eventid.go:3-6` speak of the id: the same id at another time is stored and
  applied again. The unique started_event_id stops a second join, but nothing stops a second close
  (`CloseTargets.SameIdOtherTime`, `CloseTargets.OneIdTwoLefts`, `Redelivery.RepeatsExactly`).

Properties that hold only under a condition are proved with the exact condition: the order of deliveries
(`Confluence.OrderMattersExactly`), the window filter before `lag` (`Windowing.WindowAgreesExactly`, with
two histories that the filter regroups), the independence of rooms (`RoomProjection.StepsAloneExactly`),
the 32-bit length prefix (`EventId.RoundTripExactly`, with the collisions beyond it).

`dafny verify dfyconfig.toml` checks the project.

## Model

| member | source | states |
|---|---|---|
| `PostgresStore.Store.constructor` | migrations/000001_event_raw.up.sql:11-55 | a fresh store has two empty tables |
| `PostgresStore.Store.UpdateRows` | internal/ingest/store/postgres/postgres.go:41-66 | the row-by-row UPDATE succeeds exactly when no selected row started after the event, and then exactly the selected rows are closed and counted |
| `PostgresStore.Store.SelectLatest` | internal/ingest/store/postgres/postgres.go:54-58 | the scan returns some open join of maximal started_at, and none exactly when there is none |
| `PostgresStore.Store.Close` | internal/ingest/store/postgres/postgres.go:150-171 | SID first, identity only when that affected no row; the rows closed are the specified target |
| `PostgresStore.Store.ApplyJoinEffect` | internal/ingest/store/postgres/postgres.go:116-148 | the join table and result fields are those of the specified effect; it fails exactly when that is out of order |
| `PostgresStore.Store.RecordEvent` | internal/ingest/store/postgres/postgres.go:73-114 | insert, effect, commit or rollback together implement the atomic step: tables and outcome, including partial updates undone on failure |
| `CloseTargets.LatestExists` | internal/ingest/store/postgres/postgres.go:54-58 | a non-empty candidate set has a latest row, so LIMIT 1 finds one |
| `CloseTargets.ExactLeftTarget` | internal/ingest/store/postgres/postgres.go:127-136 | a stored participant_left closes all open joins of its room with its SID if any, else exactly one latest open join of its identity; CloseUnmatched exactly when neither exists; all other rows unchanged |
| `CloseTargets.OutOfOrderExactly` | internal/ingest/store/postgres/postgres.go:188-200 | the effect is out of order exactly when a row the close would select started after the event, whatever tie is picked |
| `CloseTargets.LeftRefusedExactly` | internal/ingest/store/postgres/postgres.go:150-171 | a left is refused exactly when a row of its SID, or lacking any of its identity, started later; then neither table changes, and otherwise it is stored |
| `CloseTargets.SeveralClosedExactly` | internal/ingest/store/postgres/postgres.go:41-45 | a left closes more than one join exactly when two open joins of its room carry its SID |
| `CloseTargets.TwoJoinsOneLeft` | internal/ingest/store/postgres/postgres.go:41-45 | a run from empty tables in which one left closes two joins |
| `CloseTargets.RoomCloseAllOrNothing` | internal/ingest/store/postgres/postgres.go:138-145 | room_finished leaves no open join in its room, each newly closed row carrying its time, id and reason, or, if an open join there started later, changes nothing and is not stored |
| `CloseTargets.SameIdOtherTime` | internal/ingest/store/postgres/postgres.go:82-114 | a covered delivery without failure is a duplicate exactly when its id is stored with its time; otherwise it is refused exactly when its close would select a later row, and else stored and applied, also when its id is stored with another time: no second join for a joined event, the rows of a left or room_finished again |
| `CloseTargets.JoinedIdsHaveJoins` | internal/ingest/store/postgres/postgres.go:30-35 | after every run a stored joined event has its id in the join table, so an id never opens two joins |
| `CloseTargets.OneIdTwoLefts` | migrations/000001_event_raw.up.sql:54-54 | a run from empty tables in which one event id, delivered with two times, closes two joins |
| `StoreInvariants.ProvenanceStep` | internal/ingest/store/postgres/postgres.go:73-171 | every transaction keeps provenance |
| `StoreInvariants.EveryRunHasProvenance` | migrations/000003_participant_join.up.sql:51-80 | after every run each join starts at a stored participant_joined of its room, identity and SIDs; its three end columns are set together or not at all, name a stored closing event of its room that agrees on SID or identity, and do not precede its start; inferred_timeout never occurs |
| `StoreInvariants.WriteOnceHistory` | internal/ingest/store/postgres/postgres.go:41-66 | between any two points of any run event_raw only grows, no join disappears, start fields never change and a closed join never changes again |
| `StoreInvariants.RowsAreDeliveries` | internal/ingest/store/postgres/postgres.go:22-28 | every row of event_raw is field for field an event that was delivered |
| `Confluence.FinalTable` | internal/ingest/store/postgres/postgres.go:73-171 | along every run of a scenario with joins first, the join table is the one its arrived events stand for |
| `Confluence.OrderDoesNotMatter` | internal/ingest/store/postgres/postgres.go:73-171 | two runs with the same arrivals, joins before their lefts, any redeliveries, bodies, ties and failures, end in the same join table, each join closed by its own left or open |
| `Confluence.EarlyLeftNeverEnds` | internal/ingest/store/postgres/postgres.go:132-136 | a left that arrives before its join never ends it, whatever follows except a retry of its refusal |
| `Confluence.OrderMattersExactly` | internal/ingest/store/postgres/postgres.go:73-171 | when every event arrives, with any redeliveries that retry no refused close, the table is the expected one if and only if every join arrived before its left |
| `Confluence.OrderMattersWithRefusals` | internal/ingest/store/postgres/postgres.go:105-113 | the same for every run, a refused close counting as a failed delivery until a retry is accepted |
| `Confluence.EarlyLeftLeavesJoinOpen` | internal/ingest/store/postgres/postgres.go:132-136 | the two-delivery run in which an early left is stored as unmatched and its join stays open |
| `RoomProjection.StepInside` | internal/ingest/store/postgres/postgres.go:41-66 | a step inside a room that meets no row of another room is the same step on that room's rows alone, with the same outcome |
| `RoomProjection.StepsAloneExactly` | internal/ingest/store/postgres/postgres.go:22-66 | for a covered delivery without failure exactly then: it fails to be only when its key is stored by another room, or its key is new and the join it would open is another room's |
| `RoomProjection.StepOutside` | internal/ingest/store/postgres/postgres.go:41-66 | a step of another room leaves this room's rows alone |
| `RoomProjection.RoomsAreIndependent` | internal/ingest/store/postgres/postgres.go:116-171 | when no two events of different rooms share a key, or share an id and both open a join, any run restricted to one room's rows and results equals running that room's deliveries only |
| `RoomProjection.SharedIdInterferes` | migrations/000001_event_raw.up.sql:54-54 | two rooms sharing a key: the second room's join is hidden |
| `Concurrency.Reachable` | internal/ingest/store/postgres/postgres.go:68-114 | the locking, ledger and accounting invariant holds in every state any interleaving reaches |
| `Concurrency.ExactlyOnce` | internal/ingest/store/postgres/postgres.go:68-114 | in every reachable state a new key has a committed delivery exactly when exactly one committed with Stored, its writes are applied once, and the tables are the replay of the ledger; that deliveries do commit is `Concurrency.RunsAreSchedules` and `Progress.EveryDeliveryCanBeStored` |
| `Concurrency.ScheduleIsSerial` | internal/ingest/store/postgres/postgres.go:105-113 | a schedule in which each write is the event's effect on the joins committed then, and no store commits while another has written, yields a ledger whose every entry is the sequential effect |
| `Concurrency.SerialExecutionsAreRuns` | internal/ingest/store/postgres/postgres.go:68-114 | under such a schedule the tables are those of running the stored deliveries one after another in commit order; the converse is `Concurrency.RunsAreSchedules` |
| `Concurrency.RunsAreSchedules` | internal/ingest/store/postgres/postgres.go:73-114 | for every start and every run, failures included, there is a schedule that keeps effects apart and ends with the run's tables; its transaction i is for delivery i and ended committed, with Stored as reported, where the outcome is no error, and aborted where it is |
| `Progress.RaceResolved` | internal/ingest/store/postgres/postgres.go:68-98 | two deliveries of one key: the second waits while the first holds the row, is a duplicate once the first commits, and inserts once the first is rolled back |
| `Progress.NoDeadlock` | internal/ingest/store/postgres/postgres.go:73-114 | from every state some further actions finish every transaction, by a commit unless its insert is still to come and has no partition |
| `Progress.EveryDeliveryCanBeStored` | internal/ingest/store/postgres/postgres.go:68-114 | after any interleaving the deliveries in flight can be completed so that every one that was not aborted and has a partition has its event in the tables, stored by exactly one transaction if it was new; what an effect writes is left open |
| `Partitions.DailyTiles` | migrations/000002_event_raw_bootstrap_partitions.up.sql:28-37 | consecutive daily ranges are pairwise disjoint and cover exactly the span from the first to the last |
| `Partitions.Bootstrap` | migrations/000002_event_raw_bootstrap_partitions.up.sql:21-38 | the loop terminates with 21 daily ranges, in order, that tile the window from 7 days back to 14 days ahead |
| `Partitions.LostExactlyOutsideWindow` | internal/ingest/store/postgres/postgres.go:99-103 | an event with a new key fails for a missing partition exactly when it lies outside the window, changing nothing |
| `EventId.Encode` | internal/ingest/eventid/eventid.go:100-113 | the two loops build the length-prefixed encoding, and the first computes its exact size |
| `EventId.PrefixIsBigEndian` | internal/ingest/eventid/eventid.go:108-109 | the four bytes of a prefix are the length modulo 2^32, most significant first |
| `EventId.RoundTripExactly` | internal/ingest/eventid/eventid.go:92-113 | decoding recovers the fields if and only if every field is shorter than 2^32 bytes |
| `EventId.EncodingOfDecode` | internal/ingest/eventid/eventid.go:100-113 | every decodable buffer is the encoding of what it decodes to |
| `EventId.Unforgeable` | internal/ingest/eventid/eventid.go:92-113 | equal encodings have equal field lists, across arities |
| `EventId.LongFieldCollides` | internal/ingest/eventid/eventid.go:108-109 | a fact about encode alone: one field of 2^32 zero bytes encodes like 2^30 + 1 empty fields |
| `EventId.WriteDigits` | internal/ingest/eventid/eventid.go:123-130 | the digit loop stays inside the 20-byte buffer, terminates, leaves room for a sign and writes the digits |
| `EventId.Itoa` | internal/ingest/eventid/eventid.go:115-135 | prints the decimal text for every 64-bit value, and a bare minus for the minimum, whose negation wraps |
| `EventId.PrintParse` | internal/ingest/eventid/eventid.go:115-135 | parsing the printed text returns the number for every value but the minimum |
| `EventId.PrintedInjective` | internal/ingest/eventid/eventid.go:115-135 | no two 64-bit values print alike |
| `EventId.DecimalExamples` | internal/ingest/eventid/eventid.go:115-135 | the bytes printed for 0, 12 and -120 |
| `EventId.DerivationsDisjoint` | internal/ingest/eventid/eventid.go:43-90 | for short fields a fallback hash input never equals a backend-id hash input |
| `EventId.DerivationsCollide` | internal/ingest/eventid/eventid.go:43-113 | with a backend id of more than 2^32 bytes it can: for every fallback tuple there are a short room name and such an id with the same hash input |
| `EventId.FallbackSeparates` | internal/ingest/eventid/eventid.go:78-90 | equal fallback hash inputs force equality of every identity field |
| `EventId.BackendIdSeparates` | internal/ingest/eventid/eventid.go:43-45 | equal backend-id hash inputs force the same backend and event id; that the id is the hash of this input is `LiveKit.IdFromPayload` |
| `EventId.BackendIdBytes` | internal/ingest/eventid/eventid.go:37-45 | the bytes hashed for a LiveKit event id: length and scheme "v1", length and "livekit", length and the id |
| `LiveKit.Translate` | internal/ingest/adapter/livekit/translate.go:100-158 | the field-by-field construction yields the specified event and disposition, no event exactly for an empty type, and otherwise every field holds the payload's own value: room name and SID, identity, participant SID, track SID, backend id, type, body |
| `LiveKit.IdFromPayload` | internal/ingest/adapter/livekit/translate.go:140-157 | the id is the hash of scheme, backend and LiveKit's event id; without one, of scheme, backend, type, room, identity, participant SID, track SID, time text and "0", in that order |
| `LiveKit.TimeIsTheBackends` | internal/ingest/adapter/livekit/translate.go:160-178 | the event time is createdAt, else joinedAt, else creationTime, in microseconds, and the zero time of year 1 exactly when none is given |
| `LiveKit.IdsMatchExactly` | internal/ingest/adapter/livekit/translate.go:140-157 | two deliveries hash the same bytes if and only if they carry the same LiveKit id, or none and the same fallback fields; unless the hash collides on these two inputs, they get the same id if and only if they do |
| `LiveKit.NamesInScope` | internal/ingest/adapter/livekit/translate.go:40-92 | scope, rejection and effect of a type, at the names LiveKit sends |
| `LiveKit.OnlyIngestedTypesAct` | internal/ingest/adapter/livekit/translate.go:40-92 | scope and rejection lists are disjoint, and only ingested types act on joins |
| `Webhook.Handler.Admit` | internal/ingest/webhook/handler.go:72-122 | cap, signature, decoding and scope decide in that order how far a request gets; `Intake.GateExactly` says who that lets through |
| `Webhook.Handler.CountAccepted` | internal/ingest/webhook/handler.go:176-189 | the counters of a stored event |
| `Webhook.Handler.Answer` | internal/ingest/webhook/handler.go:133-191 | status, outcome and counters for every store result |
| `Webhook.Handler.Record` | internal/ingest/webhook/handler.go:123-191 | storing and answering one admitted event, tables, counters and response together |
| `Webhook.Handler.ServeHTTP` | internal/ingest/webhook/handler.go:49-191 | one request moves tables and counters as specified and gets the specified response, which `Intake` states on the payload |
| `Intake.GateExactly` | internal/ingest/webhook/handler.go:72-122 | 413 over the cap, 400 for an unreadable body, 401 when the signature does not verify, 400 for a verified body without an event, 200 ignored for a rejected type; verified is reported exactly for a read body with a good signature, and no request but an admitted one changes a table |
| `Intake.AnswerExactly` | internal/ingest/webhook/handler.go:132-191 | an admitted request is answered 500 exactly when the database fails it at a point it reaches, data loss exactly without a partition, duplicate exactly for a stored key, else accepted; the tables change exactly when it is accepted and its close selects no later row |
| `Intake.EventRowFromPayload` | internal/ingest/store/postgres/postgres.go:82-88 | a stored request adds exactly one row of event_raw under a new key, and each column is the payload's value, NULL for an empty or missing one |
| `Intake.JoinFromPayload` | internal/ingest/store/postgres/postgres.go:118-125 | a stored participant_joined opens exactly one join, with the payload's room, identity, SIDs and time, unless its id has opened one before; no other join changes |
| `Intake.LeftFromPayload` | internal/ingest/store/postgres/postgres.go:127-171 | a stored participant_left ends the open joins of the payload's room with the payload's SID, else the latest with its identity, else none and is unmatched; each gets the event's time, id and reason, no other join changes |
| `Intake.RoomFromPayload` | internal/ingest/store/postgres/postgres.go:138-145 | a stored room_finished ends every open join of the payload's room with its time, id and reason; no other join changes |
| `Intake.OthersLeaveJoins` | internal/ingest/store/postgres/postgres.go:116-148 | no other type changes a join |
| `Conservation.EffectMoves` | internal/ingest/store/postgres/postgres.go:116-148 | the result fields are exactly the change in rows, open rows and rows per end reason |
| `Conservation.EffectLeftKeys` | internal/ingest/store/postgres/postgres.go:127-136 | a stored left becomes the ending event of some join exactly when it is not unmatched |
| `Conservation.CountersMatchTables` | internal/ingest/webhook/handler.go:49-201 | after any deliveries from empty tables: stored per type equals event rows per type, opened equals join rows, closed per reason equals rows with that reason, opened minus closed equals open rows, stored lefts equal ending lefts plus unmatched, accepted equals stored plus out-of-order, duplicates, ignored and data loss match their counters, one request counted per delivery |
| `Conservation.LabelsMatchAnswers` | internal/ingest/webhook/handler.go:62-125 | over any calls from any state the requests counted are the answers given, by outcome and verification, and duplicates, rejected and unrecognised types are counted under the names in the payloads, as often as they came |
| `Redelivery.RepeatStutters` | internal/ingest/store/postgres/postgres.go:90-98 | a repeat changes no table and, without a failure, is answered 200 duplicate |
| `Redelivery.RepeatsAreInvisible` | internal/ingest/webhook/handler.go:132-190 | any set of repeats can be erased from any run without changing a table or any other delivery's answer |
| `Redelivery.RepeatsExactly` | internal/ingest/store/postgres/postgres.go:82-98 | after any calls from empty tables an admitted request is a repeat if and only if an earlier call with its id and time was answered without error |
| `Redelivery.SameIdentityRepeats` | internal/ingest/adapter/livekit/translate.go:117-158 | while an identity has come with one time only, a further admitted delivery of it is a repeat if and only if it comes with that time |
| `Redelivery.OnlyRedeliveriesRepeat` | internal/ingest/adapter/livekit/translate.go:140-157 | unless the hash collides, after any calls from empty tables an admitted request is taken for a repeat if and only if an earlier call of its identity and time was answered without error, so no distinct event is lost as a duplicate |
| `Redelivery.RedeliveriesAreInvisible` | internal/ingest/webhook/handler.go:49-191 | from any state, any calls each of which repeats the identity and time of an earlier call answered without error can be taken out: same tables, same answers to all others, whatever the raw bytes |
| `Redelivery.AcknowledgedIffStored` | internal/ingest/webhook/handler.go:132-190 | an admitted delivery without failure is answered 200; whenever one is, its event is in event_raw afterwards if and only if it was before, or its time has a partition and no row its close would select started later |
| `Redelivery.AcknowledgedAndLost` | internal/ingest/webhook/handler.go:148-157 | a run from empty tables, for any hash, in which a left is answered 200 accepted and is not stored |
| `Grouping.OrdinalsAscend` | benchmarks/reference_query.sql:33-39 | ordinals start at 1 and never decrease |
| `Grouping.OrdinalsGapless` | benchmarks/reference_query.sql:33-39 | every number from 1 to the last ordinal occurs |
| `Grouping.SameOrdinalIffUnbroken` | benchmarks/reference_query.sql:21-39 | two rows share an ordinal exactly when every consecutive pair between them has a closed predecessor and a gap within the threshold |
| `Grouping.GroupsAreSessions` | benchmarks/reference_query.sql:29-46 | the groups of the running sum are the sessions of a simple walk, numbered from 1, and there are no others |
| `Grouping.SessionsPartition` | benchmarks/reference_query.sql:29-46 | the sessions laid end to end are the joins, in order |
| `Grouping.SessionsMaximal` | benchmarks/reference_query.sql:29-46 | each session is a linked chain that the next session's first join does not continue |
| `Grouping.AggregatesAreAccessors` | internal/session/session.go:157-165 | in a session only the last join can be open, so min, bool_or and count - 1 equal StartedAt, IsOpen and Reconnects |
| `Grouping.JoinsAreSessionsPlusReconnects` | benchmarks/reference_query.sql:40-46 | joins equal sessions plus total reconnects |
| `Grouping.ThresholdMonotone` | benchmarks/reference_query.sql:29-38 | a larger threshold only merges sessions and never yields more of them |
| `Windowing.MatchedMeansSharedInstant` | migrations/000003_participant_join.up.sql:57-60 | a join matches a window exactly when some instant lies in both ranges |
| `Windowing.MatchedClosedForm` | benchmarks/reference_query.sql:25-26 | matching is: started before the window's end, and open or of positive length and ended after the window's start |
| `Windowing.WindowAgreesExactly` | benchmarks/reference_query.sql:21-38 | for every history, windowed sessions are the full-history sessions restricted to the matched joins, in every window and at every threshold, if and only if each gap that some window creates is the largest of the gaps it replaces |
| `Windowing.OrderedHistoriesAgree` | benchmarks/reference_query.sql:21-38 | this holds whenever closed joins have positive length and end in the order they start, open joins anywhere |
| `Windowing.NestedJoinRegroups` | benchmarks/reference_query.sql:21-38 | a history with a join inside another that some window regroups |
| `Windowing.EmptyJoinRegroups` | benchmarks/reference_query.sql:25-26 | a history with a zero-length join that some window regroups |
| `Query.GroupIsSession` | benchmarks/reference_query.sql:40-46 | in one partition a non-empty group is a session and its aggregates describe it |
| `Query.QueryReturnsSessions` | benchmarks/reference_query.sql:21-46 | the query returns exactly one row per session of every participant and room, with its number, start, openness, joins and reconnects; the rows it groups are pinned by `Query.RowsExactly` |
| `Query.RowsExactly` | benchmarks/reference_query.sql:21-28 | for every participant and window the rows grouped are, with multiplicity, the participant's joins in the table that started before the window's end and are open or of positive length and ended after its start |
| `Query.EmptyWindow` | benchmarks/reference_query.sql:25-26 | a window of no length shows nothing |
| `Query.RowSummarisesSession` | benchmarks/reference_query.sql:40-46 | a row of the result gives the least start of its session's joins, whether any is open, their number and one less |
| `VisibleSessions.RowsAreWindowed` | benchmarks/reference_query.sql:21-28 | the rows grouped are the participant's history, in order, at the joins the window matches |
| `VisibleSessions.QueryAgreesExactly` | benchmarks/reference_query.sql:21-46 | in every window and at every threshold the joins the query counts in one row are those that share a session of the participant's whole history, if and only if each gap that some window creates is the largest of the gaps it replaces |
| `VisibleSessions.ResultShowsSessions` | benchmarks/reference_query.sql:21-46 | where they agree, every row of the result describes one session of the whole history as far as the window shows it |
| `VisibleSessions.SessionsAreShown` | benchmarks/reference_query.sql:21-46 | and every session of the whole history that the window shows at all has a row |
| `Query.RoomFinishedEndsSessions` | internal/ingest/store/postgres/postgres.go:60-66 | from a stored room_finished on, as long as no further join is opened in that room, no window or threshold shows an open session there |
| `Query.StoredJoinsFitTheirRange` | migrations/000003_participant_join.up.sql:57-74 | every table a run produces meets what the query asks of its rows |

## Left out

- JWT verification, SHA-1, SHA-256, base64, uuid formatting, JSON decoding and time formatting: library code, represented by request fields and the two functions of `Platform`.
- `received_at`, `created_at`, `updated_at` and `join_id`: values of the database's clock and of a random source that nothing reads.
- The per-request logging, tracing and duration histogram, configuration, connection pool, both main packages: no effect on tables, answers or counts.
- Query plans, indexes and benchmark seeding: performance only.
- Statement-level interleaving of two effects on the same join row: write-once is proved for atomic transactions. `Concurrency.ExactlyOnce` leaves what an effect writes arbitrary, so it holds at any isolation level, but says nothing about which rows interleaved effects choose.
- Creation of partitions after the bootstrap, and dropping of old ones: the partition set is fixed during a run.
- Timestamps finer than a microsecond or beyond what the database can represent, and commits that succeed but report failure.
- The partition names built by the bootstrap loop, and its IF NOT EXISTS when partitions are already there.
- The mediasoup adapter, the correlate and the query packages: documentation without code.
