# gopgq in Dafny

gopgq is a message queue kept in a database table. Producers `Publish` batches of byte payloads. Consumers claim batches with `ConsumeBatch`, or poll with `Stream`. A consumer reports success or failure per message with receipts, and `Commit` deletes the rows named by successful receipts. There are four backends:

- `pq` (PostgreSQL, schema from a `text/template`),
- `pgmq` (PostgreSQL, schema from `fmt.Sprintf`),
- `liteq` (SQLite, select then update),
- `mq` (PostgreSQL, rows carry a topic and are never checked out).

This project models the four backends and the shared value types.

The database is an in-memory table inside each handle: a sequence of rows, the next id, and a clock. A storage call does what its SQL means only when the built statement text is one its engine knows (module `Engine`, which keeps the PostgreSQL and the SQLite statements apart). Any other text fails to prepare with `BadStatement`. Every storage call a Go function makes is numbered, and a `failAt: Option<nat>` input names the one that fails (`StorageFailure`). Each error path of the source is therefore reachable and stated.

Files:

- `gq.dfy`, module `Gq`:
  - the types of `type.go`;
  - the receipt filter every `Commit` runs;
  - the trace a `Stream` run produces (polls, sends, pauses, close).
- `text.dfy`, module `Text`: the part of Go's `fmt` and `strings` the backends use:
  - `%s`-only `Sprintf` and template execution;
  - `fmt.Sprint` of an `[]int64`;
  - `strings.Replace` and `strings.Trim`;
  - the SQLite id list.
- `table.dfy`, module `Table`: the queue table (id, timestamp, checkout, payload) and the effects of the `WHERE checkout IS null ORDER BY timestamp LIMIT n` claim, of the stamping update, of `DELETE … WHERE id = ANY(…)` and of inserts, with their lemmas.
- `engine.dfy`, module `Engine`: the schema scripts and the statement texts the engines accept.
- `pq.dfy`, `pgmq.dfy`, `liteq.dfy`, `mq.dfy`: one class per backend, whose methods are the Go methods. In pq, pgmq and liteq its fields are the Go struct's `Prefix`, `Ttl` and `exit`, plus the table. mq's struct has only `Prefix` (and the database handle), so mq's class holds `prefix` and the table only.

The model follows the code as written, in four places where the code and its comments or neighbours differ:

- **pgmq's claim query never prepares.** It orders by `imestamp`, a column the table lacks. So pgmq's `ConsumeBatch` always returns an empty batch with an error, and its `Stream` never sends anything.
- **A positive `Ttl` breaks the claim or select text.** In pq, pgmq and liteq it replaces the text built so far with the bare `OR checkout …` fragment instead of extending it. That text never prepares. mq has no `Ttl` and no checkout column.
- **liteq's delete never prepares.** It reads `id = IN(?)`, so its `Commit` always fails and deletes nothing.
- **liteq binds the whole comma-joined id list as one parameter.** The model states the matching rule as an explicit assumption: the parameter matches a row when it is that row's id in decimal. So a one-row select stamps its row, and a select of several rows stamps nothing.

Stream loops are bounded by a `faults` sequence, one entry per poll. Another goroutine's `StopConsumer` is an input `stopAt`: the exit-check number before which it lands.

## Model

| member | source | states |
|---|---|---|
| Gq.CollectSuccessIds | pq/q.go:125-130 | the append loop returns exactly the ids of the receipts with `Success`, in receipt order |
| Gq.SuccessIdsMembers | pgmq/q.go:99-104 | an id is in the delete list iff some successful receipt carries it; the list is never longer than the receipts |
| Gq.SuccessIdsAppend | liteq/liteq.go:97-102 | the receipt filter works receipt by receipt: the filter of a concatenation is the concatenation of the filters |
| Gq.FailedReceiptsIgnored | pq/q.go:126-130 | receipts without `Success` contribute no id, wherever they sit in the list |
| Gq.AllFailed | pq/q.go:126-130 | a list of failed receipts yields an empty delete list |
| Gq.StreamTraceFacts | pq/q.go:181-201 | in any Stream trace every send carries the non-empty error-free batch of the poll before it, every pause follows an empty or failed poll, every poll is answered by a send or a pause, and the close comes last |
| Gq.SendsFollowPolls | pq/q.go:191-196 | a batch goes on the channel only right after the poll that returned it non-empty and without error |
| Gq.PausesFollowPolls | pq/q.go:193-199 | a pause happens only right after an empty or failed poll |
| Gq.PollsAreAnswered | pq/q.go:191-199 | every poll is followed by its send or by a pause |
| Gq.ClosedIsLast | pq/q.go:182-190 | the channel is closed once, as the last event, and only when Stream returned |
| Gq.DeliveredFromPolls | pq/q.go:191-196 | every message on the channel was returned by some ConsumeBatch call that delivered |
| Text.SprintfFillsEveryVerb | pgmq/q.go:43 | formatting with the prefix passed once per `%s` equals the format with every verb replaced by the prefix |
| Text.SprintCommas | liteq/liteq.go:103 | replacing the spaces of `fmt.Sprint(ids)` by commas gives the decimal ids joined by commas inside brackets |
| Text.TrimBrackets | liteq/liteq.go:103 | trimming `[]` off a bracketed text whose ends are not brackets gives the inner text |
| Text.IdListIsCommaJoin | liteq/liteq.go:103 | the serialised id list is the decimal ids joined by single commas, and empty for no ids |
| Text.IdListMatches | liteq/liteq.go:160-161 | the id-list text equals the decimal of an id iff the list is exactly that one id |
| Text.DecimalInjective | liteq/liteq.go:103 | distinct int64 ids print as distinct decimals |
| Table.PickRule | pq/q.go:139-144 | the claim picks the smaller of `size` and the number of unclaimed rows, all of them unclaimed rows of the table, in id and timestamp order; it picks every unclaimed row when there are no more than `size`; no unclaimed row left behind is strictly older than a picked one |
| Table.ClaimEffect | pq/q.go:139 | a claim changes only the checkout of the picked rows, to the current time; ids, payloads, timestamps and every other row are unchanged |
| Table.NoRedelivery | pq/q.go:139 | a row claimed once is never picked by a later claim, whatever its limit |
| Table.ScanMessages | pq/q.go:171-176 | the scan loop returns one message per row, with that row's id and payload, in row order |
| Table.DeleteFacts | pq/q.go:119-131 | after the delete a row survives iff its id is not listed; survivors keep their order and the table stays well formed |
| Table.DeleteUnknown | pgmq/q.go:93-105 | ids that name no row leave the table unchanged |
| Table.DeleteUnion | pq/q.go:118-133 | two deletes in a row equal one delete of the union of their ids |
| Table.CommitEffect | pq/q.go:118-133 | Commit's delete removes exactly the rows that some successful receipt names |
| Table.AppendNewRows | pq/q.go:104-114 | published rows get fresh ids above every existing id and no checkout, and the table stays well formed |
| Table.AvailableAfterInsert | pq/q.go:104-114 | after an insert the unclaimed rows are the old unclaimed rows followed by the new rows |
| Table.PublishThenClaim | pq/q.go:95-178 | publishing into a queue with nothing waiting and then claiming at least that many rows returns exactly the published payloads, in order, under consecutive new ids |
| Table.ClaimAllThenCommit | pq/q.go:118-178 | claiming with a limit that covers every waiting row, then committing a successful receipt for every message returned, leaves exactly the rows that were claimed before: nothing waits and nothing else is lost |
| Table.AllSucceededIds | pq/q.go:125-131 | successful receipts for every message of a batch make Commit delete exactly that batch's rows |
| Table.ClaimedSurvive | pq/q.go:131 | deleting the ids of a claim that took every waiting row leaves exactly the rows claimed before it, unchanged |
| Table.ClaimAll | liteq/liteq_test.go:80-86 | claiming every waiting row leaves none waiting |
| Table.ClaimStamps | pq/q.go:139 | a claim keeps every row, and every checkout set since a given starting table |
| Table.ClaimDelivers | pq/q.go:181-197 | what Stream has sent stays claimed, and a new batch consists of rows that were unclaimed at the start and are claimed now |
| Table.ClaimDistinct | pq/q.go:181-197 | a new batch repeats no id, either within itself or from earlier batches |
| Table.ClaimKeeps | pq/q.go:187-197 | one successful claim keeps the "sent rows were handed out once each" invariant of the Stream loop |
| Table.ChainedClaim | pq/q.go:139 | a claim keeps the table well formed |
| Table.ChainedInsert | pq/q.go:104-114 | an insert keeps the table well formed |
| Table.ChainedDelete | pq/q.go:131 | a delete keeps the table well formed |
| Table.ChainedStamp | liteq/liteq.go:154-161 | stamping any id set keeps the table well formed |
| Table.PickOffered | liteq/liteq.go:112-150 | a select over a table that kept every row of the start returns rows that were unclaimed at the start |
| Pq.CreateText | pq/q.go:17-30 | the executed template is the sequence `<prefix>q_id_seq`, the table `<prefix>q`, the index `<prefix>q_timestamp_idx` over checkout then timestamp, and the four autovacuum settings |
| Pq.DestroyText | pq/q.go:31-34 | the executed template drops `<prefix>q`, then `<prefix>q_id_seq` |
| Pq.ClaimQueryText | pq/q.go:139-144 | with `Ttl` zero the query is the engine's claim statement; with a positive `Ttl` the query is only the `OR checkout` fragment plus the order clause |
| Pq.ClaimQueryPrepares | pq/q.go:139-155 | the claim query prepares iff `Ttl` is not positive |
| Pq.DeleteQueryPrepares | pq/q.go:119-120 | the delete text is the engine's `id = ANY($1)` statement and prepares |
| Pq.Pgmq.constructor | pq/q.go:45-47 | a new handle has `Ttl` 0 and exit false |
| Pq.Pgmq.StopConsumer | pq/q.go:81-85 | sets exit and changes nothing else |
| Pq.Pgmq.Exit | pq/q.go:87-92 | reports the exit flag; only StopConsumer changes it, as every other method's contract keeps `exit` |
| Pq.Pgmq.Publish | pq/q.go:95-116 | the COPY appends one new row per message, in order, or nothing; an error is returned iff Begin, Prepare, an Exec or the flush fails; a failed deferred transaction Commit loses the batch silently |
| Pq.Pgmq.CopyIn | pq/q.go:104-114 | the committed COPY appends the new rows and advances the id sequence |
| Pq.Pgmq.Commit | pq/q.go:118-133 | without a fault it deletes exactly the rows of the successful receipts; a failed Prepare or Exec deletes nothing and is returned |
| Pq.Pgmq.ConsumeBatch | pq/q.go:136-178 | without a fault, with `Ttl` zero and a non-negative size it claims the picked rows and returns them; any error returns an empty batch and leaves the table as it was; a positive `Ttl` always errors |
| Pq.Pgmq.PrepareClaim | pq/q.go:146-155 | Begin and Prepare succeed iff `Ttl` is zero and neither faults; a positive `Ttl` reports the refused text |
| Pq.Pgmq.ClaimRows | pq/q.go:164 | the query stamps the picked rows |
| Pq.Pgmq.Stream | pq/q.go:181-201 | the run is a Stream trace, closed iff exit was raised before the polls ran out; it polls once per exit check that found exit clear (none when exit was already set); every row of the start is kept, and every message sent was handed out once from a row unclaimed at the start |
| Pq.Pgmq.Cycle | pq/q.go:183-200 | one pass of the outer loop: the inner loop, then a pause after an empty or failed poll |
| Pq.Pgmq.Burst | pq/q.go:187-197 | the inner loop ends at exit (closing the channel), at an empty or failed poll, or when the polls run out |
| Pq.Pgmq.PollAndSend | pq/q.go:191-196 | one poll, and the send of its batch when that batch is non-empty and error-free |
| Pq.Pgmq.Sleep | pq/q.go:199 | the pause moves the clock on and changes nothing else |
| Pgmq.CreateText | pgmq/q.go:13-22 | the formatted script is the sequence, the table and the index, each named after the prefix |
| Pgmq.DestroyText | pgmq/q.go:23-26 | the formatted script drops the table, then the sequence |
| Pgmq.ClaimQueryText | pgmq/q.go:113-118 | with `Ttl` zero the query orders by `imestamp`; with a positive `Ttl` it is only the `OR checkout` fragment plus the order clause |
| Pgmq.ClaimQueryLength | pgmq/q.go:113-118 | the `Ttl`-zero query is one character shorter than the claim statement and starts with `U` |
| Pgmq.ClaimQueryNeverPrepares | pgmq/q.go:113-129 | no claim query this backend builds is prepared |
| Pgmq.DeleteQueryPrepares | pgmq/q.go:93-94 | the delete text is the engine's `id = ANY($1)` statement |
| Pgmq.Pgmq.constructor | pgmq/q.go:37-39 | a new handle has `Ttl` 0 and exit false |
| Pgmq.Pgmq.StopConsumer | pgmq/q.go:55-59 | sets exit and changes nothing else |
| Pgmq.Pgmq.Exit | pgmq/q.go:61-66 | reports the exit flag; only StopConsumer changes it, as every other method's contract keeps `exit` |
| Pgmq.Pgmq.Publish | pgmq/q.go:69-90 | the COPY appends one new row per message, in order, or nothing; an error is returned iff Begin, Prepare, an Exec or the flush fails |
| Pgmq.Pgmq.CopyIn | pgmq/q.go:78-88 | the committed COPY appends the new rows and advances the id sequence |
| Pgmq.Pgmq.Commit | pgmq/q.go:92-107 | without a fault it deletes exactly the rows of the successful receipts; a failed Prepare or Exec deletes nothing and is returned |
| Pgmq.Pgmq.ConsumeBatch | pgmq/q.go:110-152 | every call returns an empty batch and an error: a Begin fault, or the refused claim text (which is reported ahead of a storage fault on the Prepare) |
| Pgmq.Pgmq.PrepareClaim | pgmq/q.go:126-129 | the Prepare reports the refused claim text |
| Pgmq.Pgmq.Stream | pgmq/q.go:155-175 | the run is a Stream trace, closed iff exit was raised before the polls ran out, with one poll per exit check that found exit clear; nothing is ever sent and the table is unchanged |
| Pgmq.Pgmq.Sleep | pgmq/q.go:173 | the pause moves the clock on and changes nothing else |
| Liteq.CreateText | liteq/liteq.go:14-22 | the formatted script is the table with an autoincrement id and the index over checkout then timestamp, named after the prefix |
| Liteq.DestroyText | liteq/liteq.go:23-25 | the formatted script drops the table |
| Liteq.SelectQueryText | liteq/liteq.go:112-118 | with `Ttl` zero the select is the engine's SQLite select; with a positive `Ttl` it is only the `OR checkout` fragment plus the order clause |
| Liteq.SelectQueryPrepares | liteq/liteq.go:112-128 | the select prepares iff `Ttl` is not positive |
| Liteq.UpdateQueryPrepares | liteq/liteq.go:154-156 | the update text is the engine's `id IN (?)` statement and prepares |
| Liteq.InsertQueryPrepares | liteq/liteq.go:75-76 | the insert text is the engine's insert statement and prepares |
| Liteq.DeleteQueryNeverPrepares | liteq/liteq.go:91-95 | the `id = IN(?)` delete is one character longer than SQLite's `id IN (?)` delete, the only delete SQLite knows, and is never prepared |
| Liteq.SelectLimitTakesAll | liteq/liteq.go:137 | a negative size selects every waiting row |
| Liteq.MatchingPick | liteq/liteq.go:154-161 | the id list of a select matches the selected row when exactly one was selected, and no row otherwise |
| Liteq.UpdateEffect | liteq/liteq.go:154-161 | the update stamps the single selected row (the PostgreSQL claim) when the select returned one row, and changes nothing otherwise |
| Liteq.ScanRows | liteq/liteq.go:143-151 | the loop collects exactly the selected ids and messages, in result order |
| Liteq.DeleteClause | liteq/liteq.go:97-103 | the delete parameter is the successful receipt ids joined by commas |
| Liteq.Liteq.constructor | liteq/liteq.go:36-38 | a new handle has `Ttl` 0 and exit false |
| Liteq.Liteq.StopConsumer | liteq/liteq.go:54-58 | sets exit and changes nothing else |
| Liteq.Liteq.Exit | liteq/liteq.go:60-64 | reports the exit flag; only StopConsumer changes it, as every other method's contract keeps `exit` |
| Liteq.Liteq.Publish | liteq/liteq.go:67-88 | the inserts before the first failing Exec are kept by the deferred Commit, in message order; an error is returned iff Begin, Prepare or an Exec fails; a failed deferred Commit loses every insert silently |
| Liteq.Liteq.Insert | liteq/liteq.go:69-86 | the committed inserts append their rows and advance the id |
| Liteq.Liteq.Commit | liteq/liteq.go:90-106 | Commit always returns the refused delete text and deletes nothing |
| Liteq.Liteq.ConsumeBatch | liteq/liteq.go:109-168 | succeeds iff `Ttl` is zero and no call faults; it returns the first `size` waiting rows (all of them for a negative size) and stamps the row only when it returned exactly one; a failed update Prepare still returns the batch; any other error returns nothing and leaves the table as it was |
| Liteq.Liteq.PrepareSelect | liteq/liteq.go:119-128 | Begin and Prepare succeed iff `Ttl` is zero and neither faults; a positive `Ttl` reports the refused text |
| Liteq.Liteq.SelectAndStamp | liteq/liteq.go:143-167 | the selected rows are read and returned; a failed update Exec returns no messages; after the update exactly the matching row is stamped |
| Liteq.Liteq.PrepareUpdate | liteq/liteq.go:154-159 | the update prepares unless the call faults |
| Liteq.Liteq.StampMatching | liteq/liteq.go:160-161 | the rows the bound parameter matches get the current time as checkout |
| Liteq.Liteq.Stream | liteq/liteq.go:171-191 | the run is a Stream trace, closed iff exit was raised before the polls ran out, with one poll per exit check that found exit clear; every row of the start is kept, and every message sent comes from a row unclaimed at the start |
| Liteq.Liteq.Cycle | liteq/liteq.go:173-190 | one pass of the outer loop: the inner loop, then a pause after an empty or failed poll |
| Liteq.Liteq.Burst | liteq/liteq.go:177-187 | the inner loop ends at exit (closing the channel), at an empty or failed poll, or when the polls run out |
| Liteq.Liteq.PollAndSend | liteq/liteq.go:181-186 | one poll, and the send of its batch when that batch is non-empty and error-free |
| Liteq.Liteq.Poll | liteq/liteq.go:181 | a batch returned without error consists of rows unclaimed at the start |
| Liteq.Liteq.Sleep | liteq/liteq.go:189 | the pause moves the clock on and changes nothing else |
| Liteq.SelectKeeps | liteq/liteq.go:145-161 | one select, whether it stamped or not, keeps the start's rows and adds only rows unclaimed at the start to what was sent |
| Liteq.OneRoundTrip | liteq/liteq_test.go:60-86 | one new row in a queue with nothing waiting is the row a batch of one returns, and once it is stamped a batch of one returns nothing |
| Liteq.PublishConsumeScenario | liteq/liteq_test.go:51-87 | publish one message, consume one, commit, consume again: the first batch is that message under its new id, Commit errs, and the second batch is empty |
| Mq.CreateText | mq/q.go:10-19 | the formatted script is the sequence, the table with a topic column and no checkout, and the index over topic then timestamp |
| Mq.DestroyText | mq/q.go:20-23 | the formatted script drops the table, then the sequence |
| Mq.SelectQueryPrepares | mq/q.go:93-100 | the select text is the engine's topic select and prepares |
| Mq.DeleteQueryPrepares | mq/q.go:105-106 | the delete text is the engine's `id = ANY($1)` statement and prepares |
| Mq.OnTopicMembers | mq/q.go:93 | the `WHERE topic = $1` filter keeps exactly the rows of the topic |
| Mq.OnTopicWellformed | mq/q.go:93 | the filter keeps table order, so its rows are in timestamp order |
| Mq.SelectRule | mq/q.go:93-133 | Consumer's select returns at most `size` rows, all of the requested topic, in timestamp order, every row of the topic when there are no more than `size`, and leaves behind no row of the topic strictly older than one it returns |
| Mq.PrefixRule | mq/q.go:93 | the `LIMIT` prefix of a timestamp-ordered list keeps the order and leaves behind no strictly older row |
| Mq.DeleteIdsMembers | mq/q.go:105-124 | after the delete a row survives iff its id is not listed |
| Mq.DeleteIdsUnknown | mq/q.go:105-124 | ids that name no row leave the table unchanged |
| Mq.DeleteIdsWellformed | mq/q.go:124 | the delete keeps the table well formed |
| Mq.ReceiptDelete | mq/q.go:117-124 | the receipt-driven delete removes exactly the rows named by successful receipts; failed receipts change nothing |
| Mq.AppendTopicRows | mq/q.go:76-87 | published rows carry each message's topic and payload in order under consecutive new ids, and the table stays well formed |
| Mq.Pgmq.constructor | mq/q.go:49-51 | a new handle on the prefix and the given table |
| Mq.Pgmq.Publish | mq/q.go:68-88 | the COPY appends one (topic, payload) row per message, in order, or nothing; an error is returned iff Begin, Prepare, an Exec or the flush fails |
| Mq.Pgmq.CopyIn | mq/q.go:76-86 | the committed COPY appends the new rows and advances the id sequence |
| Mq.Pgmq.Consumer | mq/q.go:91-135 | succeeds iff no call up to the Query faults and the size is non-negative; it returns the selected rows of the topic, marking none; the rows of the successful receipts are deleted only when the receipt goroutine's Exec runs and succeeds; any error returns nothing and leaves the table as it was |
| Mq.Pgmq.Prepare | mq/q.go:94-115 | Begin, both Prepares and the Query succeed unless one of them faults |
| Mq.Pgmq.DeleteReceipts | mq/q.go:117-125 | the goroutine deletes exactly the rows of the successful receipts |
| Mq.Pgmq.DeleteRows | mq/q.go:124 | the delete removes the listed rows and keeps the table well formed |
| Mq.ScanTopicRows | mq/q.go:127-133 | the loop returns one message per selected row, with its id, topic and payload, in row order |
| Mq.ConsumeTwice | mq/q.go:93-112 | two Consumer calls with no receipts return the same messages, at most `size` of them, all of the topic |

## Left out

- The `MQ` interface of `type.go` is not declared: each backend is its own class with the interface's methods.
- Whether the table exists is not tracked. Create and Destroy are modelled by the script text they execute: `CreateText`, `DestroyText`.
- Concurrency is not modelled: `FOR UPDATE SKIP LOCKED`, the race between SQLite's select and update, the `RWMutex` around `exit`, and channel blocking. The model has one consumer. The other goroutine of `Stream` is the `stopAt` input, and the mq receipt goroutine is the `deleteRuns` input.
- The panic of `defer txn.Commit()` on a nil transaction after a failed Begin is not modelled. A failed Begin returns its error.
- Ids and timestamps are unbounded integers: int64 overflow and sequence gaps after rollbacks are not modelled.
- Ties on timestamp are resolved in table order. The proved claim rule is the order-independent one: no unclaimed row left behind is strictly older. `RETURNING` order is taken as claim order.
- `Ttl` is an integer number of nanoseconds compared with zero; the float `Ttl.Seconds() > 0.0` is not modelled.
- Pq.Pgmq.ConsumeBatch and Liteq.Liteq.ConsumeBatch: claims with a positive `Ttl` (lease expiry) are not modelled beyond the refused text, since that text never prepares.
- Pgmq.Pgmq.ConsumeBatch: the Query, scan loop and claim after a successful Prepare are not modelled, since they are unreachable.
- Liteq.Liteq.Commit: the receipt loop and delete after a successful Prepare are unreachable. The loop and serialiser are modelled on their own as `Liteq.DeleteClause`.
- Stream's `Ttl`-specific behaviour is carried by ConsumeBatch, not restated in Stream's contract.
- Liteq.Liteq.StampMatching: SQLite's treatment of a comma-joined text bound to `id IN (?)` is an assumption of the model: a text matches a row when it is that row's id in decimal.
- `fmt.Printf` of pgmq's Publish, `stmt.Close`, `rows.Close` and `txn.Rollback` are left out: they do not change the table in this model.
- `cmd/rcload` (benchmark harness) is not part of this model.
- `mq/q_test.go` calls methods mq/q.go does not define, so it is not used as a statement of mq's behaviour.
