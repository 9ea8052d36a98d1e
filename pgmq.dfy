/** The first PostgreSQL queue, pgmq/q.go: the schema as a `%s` format, a
    claim query whose order clause names a column the table lacks, and a handle
    whose Publish, Commit, ConsumeBatch and Stream work on an in-memory copy of
    the queue table. */
module Pgmq {
  import opened Gq
  import opened Text
  import opened Table
  import Engine

  // ---------------------------------------------------------------------------
  // Schema

  /** `createSchema`, between its five `%s` verbs; each piece after the first
      is written as the name suffix the verb completes followed by the rest. */
  const CreateFormat: Format := [
    "\nCREATE SEQUENCE IF NOT EXISTS ",
    "q_id_seq" + ";\nCREATE TABLE IF NOT EXISTS ",
    "q" + " (\n\tid INT8 NOT NULL DEFAULT nextval('",
    "q_id_seq" + "') PRIMARY KEY,\n\ttimestamp TIMESTAMP NOT NULL DEFAULt now(),\n\tcheckout TIMESTAMP,\n\tpayload BYTEA\n);\nCREATE INDEX IF NOT EXISTS ",
    "q_timestamp_idx" + " ON ",
    "q" + " (checkout ASC NULLS FIRST, timestamp ASC);\n"]

  /** `dropScrema`, between its two verbs. */
  const DropFormat: Format := ["\nDROP TABLE IF EXISTS ", "q" + ";\nDROP SEQUENCE IF EXISTS ", "q_id_seq" + ";\n"]

  /** The script Create executes: the sequence, the table whose ids default to
      that sequence, and the index, all named after the prefix (no autovacuum
      settings in this backend). */
  function CreateText(prefix: string): (s: string)
    ensures s == Engine.SchemaScript(Engine.SequenceName(prefix), Engine.TableName(prefix), Engine.IndexName(prefix))
  {
    SprintfFillsEveryVerb(CreateFormat, prefix);
    Regroup6(CreateFormat, prefix,
      "q_id_seq", ";\nCREATE TABLE IF NOT EXISTS ",
      "q", " (\n\tid INT8 NOT NULL DEFAULT nextval('",
      "q_id_seq", "') PRIMARY KEY,\n\ttimestamp TIMESTAMP NOT NULL DEFAULt now(),\n\tcheckout TIMESTAMP,\n\tpayload BYTEA\n);\nCREATE INDEX IF NOT EXISTS ",
      "q_timestamp_idx", " ON ",
      "q", " (checkout ASC NULLS FIRST, timestamp ASC);\n");
    Sprintf(CreateFormat, Repeat(prefix, 5))
  }

  /** The script Destroy executes: drop the table, then its sequence. */
  function DestroyText(prefix: string): (s: string)
    ensures s == Engine.DropScript(Engine.TableName(prefix), Engine.SequenceName(prefix))
  {
    SprintfFillsEveryVerb(DropFormat, prefix);
    Regroup3(DropFormat, prefix, "q", ";\nDROP SEQUENCE IF EXISTS ", "q_id_seq", ";\n");
    Sprintf(DropFormat, Repeat(prefix, 2))
  }

  // ---------------------------------------------------------------------------
  // Claim query

  const ClaimHead: Format :=
    ["UPDATE ", "q SET checkout = now() " + "WHERE id IN (SELECT id FROM ", "q WHERE checkout " + "IS null "]
  const TtlClause: Format := ["OR checkout + $2 > now()"]
  const ClaimOrder: Format :=
    ["", " ORDER BY checkout ASC " + "NULLS FIRST, imestamp ASC " + "FOR UPDATE SKIP LOCKED "
         + "LIMIT $1) RETURNING id, payload;"]

  /** The text ConsumeBatch prepares. With a positive ttl the `OR checkout`
      fragment replaces the text built so far; either way the order clause
      names the column `imestamp`. */
  function ClaimQuery(prefix: string, ttl: int): string
  {
    var head := Sprintf(ClaimHead, [prefix, prefix]);
    var q := if ttl > 0 then Sprintf(TtlClause, []) else head;
    Sprintf(ClaimOrder, [q])
  }

  /** The ttl-0 query is the claim statement with `timestamp` misspelt in its
      order clause; the ttl query is the bare `OR checkout ...` fragment with
      the order and limit attached. */
  lemma ClaimQueryText(prefix: string, ttl: int)
    ensures ttl <= 0 ==>
      ClaimQuery(prefix, ttl)
      == "UPDATE " + prefix + ("q SET checkout = now() " + "WHERE id IN (SELECT id FROM ") + prefix
         + ("q WHERE checkout " + "IS null ")
         + (" ORDER BY checkout ASC " + "NULLS FIRST, imestamp ASC " + "FOR UPDATE SKIP LOCKED "
            + "LIMIT $1) RETURNING id, payload;")
    ensures ttl > 0 ==> ClaimQuery(prefix, ttl) == TtlClause[0] + ClaimOrder[1]
  {
    var h := ClaimHead;
    Sprintf3(h, prefix, prefix);
    Sprintf1(TtlClause);
    var q := if ttl > 0 then Sprintf(TtlClause, []) else Sprintf(h, [prefix, prefix]);
    Sprintf2(ClaimOrder, q);
    assert ClaimOrder[0] + q == q;
  }

  /** No claim query this backend builds prepares: the ttl-0 text is one
      character short of the claim statement, the only update PostgreSQL
      knows, and the ttl text starts with no verb. */
  lemma ClaimQueryNeverPrepares(prefix: string, ttl: int)
    ensures !Engine.PgPrepares(ClaimQuery(prefix, ttl), prefix)
  {
    var q := ClaimQuery(prefix, ttl);
    if ttl > 0 {
      ClaimQueryText(prefix, ttl);
      assert q[0] == 'O';
      Engine.NoVerb(q, prefix);
    } else {
      ClaimQueryLength(prefix, ttl);
      Engine.ClaimStatementLength(prefix);
      Engine.PgUpdateVerb(q, prefix);
    }
  }

  lemma ClaimQueryLength(prefix: string, ttl: int)
    requires ttl <= 0
    ensures |ClaimQuery(prefix, ttl)| == 2 * |prefix| + 187 && ClaimQuery(prefix, ttl)[0] == 'U'
  {
    ClaimQueryText(prefix, ttl);
  }

  /** Commit's delete statement. */
  function DeleteQuery(prefix: string): string
  {
    Sprintf(["DELETE FROM ", "q WHERE id = ANY($1)"], [prefix])
  }

  lemma DeleteQueryPrepares(prefix: string)
    ensures DeleteQuery(prefix) == Engine.DeleteAnyStatement(prefix)
    ensures Engine.PgPrepares(DeleteQuery(prefix), prefix)
  {
    var f: Format := ["DELETE FROM ", "q WHERE id = ANY($1)"];
    assert Sprintf(f, [prefix]) == f[0] + prefix + Sprintf(f[1..], []);
  }

  // ---------------------------------------------------------------------------
  // The queue handle

  /** Whether a COPY of `n` rows reaches the table when storage call `failAt`
      fails. The calls are numbered in the order Publish makes them: Begin (0),
      Prepare (1), one Exec per message (2 .. n+1), the flushing Exec (n+2) and
      the deferred transaction Commit (n+3). */
  predicate Copied(failAt: Option<nat>, n: nat)
  {
    failAt.None? || failAt.value > n + 3
  }

  class Pgmq {
    const prefix: string
    /** Claim lease in nanoseconds (`Ttl`); positive means a lease is asked for. */
    var ttl: int
    var exit: bool
    /** The queue table, the next value of its id sequence, and the current time. */
    var rows: seq<Row>
    var nextId: int
    var clock: int

    predicate Valid()
      reads this
    {
      Chained(rows, nextId, clock)
    }

    /** NewPgmq: a handle on a store that already holds the given table. */
    constructor (prefix: string, rows: seq<Row>, nextId: int, clock: int)
      requires Wellformed(rows, nextId, clock)
      ensures Valid()
      ensures this.prefix == prefix && ttl == 0 && !exit
      ensures this.rows == rows && this.nextId == nextId && this.clock == clock
    {
      this.prefix := prefix;
      ttl := 0;
      exit := false;
      this.rows := rows;
      this.nextId := nextId;
      this.clock := clock;
      ChainedIff(rows, nextId, clock);
    }

    /** StopConsumer: raises the exit flag; nothing ever lowers it. */
    method StopConsumer()
      modifies this
      ensures exit
      ensures rows == old(rows) && nextId == old(nextId) && clock == old(clock) && ttl == old(ttl)
    {
      exit := true;
    }

    /** Exit: the exit flag as read under the lock. Only StopConsumer sets
        it; every other method keeps it. */
    function Exit(): (stopped: bool)
      reads this
      ensures stopped <==> exit
    {
      exit
    }

    /** Publish: COPY the payloads in; the batch lands whole or not at all. A
        failing transaction Commit is deferred and its error dropped, so the
        batch is lost while Publish reports success. */
    method Publish(messages: seq<Message>, failAt: Option<nat>) returns (err: Option<Error>)
      requires Valid()
      modifies this
      ensures Valid()
      ensures err.Some? <==> failAt.Some? && failAt.value <= |messages| + 2
      ensures Copied(failAt, |messages|) ==>
        rows == old(rows) + NewRows(old(nextId), clock, Payloads(messages)) && nextId == old(nextId) + |messages|
      ensures !Copied(failAt, |messages|) ==> rows == old(rows) && nextId == old(nextId)
      ensures clock == old(clock) && exit == old(exit) && ttl == old(ttl)
    {
      if failAt == Some(0) || failAt == Some(1) {
        return Some(StorageFailure);
      }
      var buffered: seq<Payload> := [];
      for i := 0 to |messages|
        invariant |buffered| == i
        invariant forall k :: 0 <= k < i ==> buffered[k] == messages[k].payload
        invariant !(failAt.Some? && failAt.value < i + 2)
      {
        if failAt == Some(i + 2) {
          return Some(StorageFailure);
        }
        buffered := buffered + [messages[i].payload];
      }
      assert buffered == Payloads(messages);
      if failAt == Some(|messages| + 2) {
        return Some(StorageFailure);
      }
      if failAt == Some(|messages| + 3) {
        return None;
      }
      CopyIn(buffered);
      err := None;
    }

    /** The store's side of a committed COPY: the payloads become new rows,
        numbered by the id sequence and stamped with the current time. */
    method CopyIn(payloads: seq<Payload>)
      requires Valid()
      modifies this
      ensures Valid()
      ensures rows == old(rows) + NewRows(old(nextId), clock, payloads) && nextId == old(nextId) + |payloads|
      ensures clock == old(clock) && exit == old(exit) && ttl == old(ttl)
    {
      ChainedInsert(rows, nextId, clock, payloads);
      rows := rows + NewRows(nextId, clock, payloads);
      nextId := nextId + |payloads|;
    }

    /** Commit: delete the rows of the successful receipts. Calls: Prepare (0),
        Exec (1). */
    method Commit(receipts: seq<Receipt>, failAt: Option<nat>) returns (err: Option<Error>)
      requires Valid()
      modifies this
      ensures Valid()
      ensures err.Some? <==> failAt == Some(0) || failAt == Some(1)
      ensures rows == if err.None? then DeleteWhere(old(rows), SuccessIdSet(receipts)) else old(rows)
      ensures nextId == old(nextId) && clock == old(clock) && exit == old(exit) && ttl == old(ttl)
    {
      DeleteQueryPrepares(prefix);
      if failAt == Some(0) {
        return Some(StorageFailure);
      }
      var deleteIds := CollectSuccessIds(receipts);
      if failAt == Some(1) {
        return Some(StorageFailure);
      }
      ChainedDelete(rows, SuccessIdSet(receipts), nextId, clock);
      rows := DeleteWhere(rows, set x | x in deleteIds);
      err := None;
    }

    /** ConsumeBatch: Begin (call 0), then Prepare of the claim query, which the
        engine refuses whatever the ttl. Every call returns an empty batch and
        an error, and no row is claimed. As in the other backends, a refused
        text is reported ahead of a storage fault on the Prepare (call 1), so
        here a fault at call 1 is merged into the `BadStatement` error. */
    method ConsumeBatch(size: int, failAt: Option<nat>) returns (ms: seq<ConsumerMessage>, err: Option<Error>)
      ensures ms == [] && err.Some?
      ensures failAt == Some(0) ==> err == Some(StorageFailure)
      ensures failAt != Some(0) ==> err.value.BadStatement?
    {
      ms := [];
      if failAt == Some(0) {
        return ms, Some(StorageFailure);
      }
      err := PrepareClaim();
    }

    /** ConsumeBatch's Prepare of the claim query, refused by the engine. The
        Query, the scan loop and the claim that would follow a successful
        Prepare are unreachable. */
    method PrepareClaim() returns (err: Option<Error>)
      ensures err == Some(BadStatement(ClaimQuery(prefix, ttl)))
    {
      var q := ClaimQuery(prefix, ttl);
      ClaimQueryNeverPrepares(prefix, ttl);
      if !Engine.PgPrepares(q, prefix) {
        return Some(BadStatement(q));
      }
      assert false;
    }

    /** Stream: poll until the exit flag is seen, sending each non-empty batch
        and pausing after an empty or failed poll. `faults` gives the storage
        fault of each poll and bounds the number of polls; another goroutine's
        StopConsumer lands just before exit check number `stopAt`. Every poll
        fails, so nothing is ever sent and the table is left as it was. */
    method Stream(size: int, pause: int, faults: seq<Option<nat>>, stopAt: nat)
      returns (trace: seq<Event>, closed: bool)
      requires Valid()
      modifies this
      ensures Valid()
      ensures StreamTrace(trace, closed)
      ensures closed == (old(exit) || stopAt <= |faults|) && exit == closed
      ensures Polls(trace) == if old(exit) then 0 else Min(stopAt, |faults|)
      ensures Delivered(trace) == []
      ensures rows == old(rows) && nextId == old(nextId) && ttl == old(ttl)
    {
      trace := [];
      var polls := 0;
      // One pass of the source's inner loop per iteration: its send, the only
      // way back to the head of the inner loop, is unreachable, so each pass
      // is an exit check, a failed poll and the pause.
      while true
        invariant Valid() && rows == old(rows) && nextId == old(nextId) && ttl == old(ttl)
        invariant exit == old(exit) && (exit ==> polls == 0)
        invariant polls <= |faults| && polls <= stopAt
        invariant Rounds(trace) && Polls(trace) == polls && Delivered(trace) == []
        decreases |faults| - polls
      {
        if polls == stopAt {
          StopConsumer();
        }
        if Exit() {
          Closing(trace);
          trace := trace + [Closed];
          return trace, true;
        }
        if polls == |faults| {
          return trace, false;
        }
        var ms, err := ConsumeBatch(size, faults[polls]);
        polls := polls + 1;
        var poll := Polled(ms, err);
        if |ms| == 0 || err.Some? {
          Step(trace, poll);
          Round(trace, poll);
          Step(trace + [poll], Paused);
          trace := trace + [poll] + [Paused];
          Sleep(pause);
        } else {
          assert false;
        }
      }
    }

    /** time.Sleep: the store's clock moves on by the pause (a negative pause
        returns at once). */
    method Sleep(pause: int)
      requires Valid()
      modifies this
      ensures Valid() && clock == old(clock) + (if pause > 0 then pause else 0)
      ensures rows == old(rows) && nextId == old(nextId) && ttl == old(ttl) && exit == old(exit)
    {
      clock := clock + if pause > 0 then pause else 0;
    }
  }
}
