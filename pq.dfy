/** The PostgreSQL queue of pq/q.go: the schema as a text/template, the claim
    query, and a handle whose Publish, Commit, ConsumeBatch and Stream work on
    an in-memory copy of the queue table. */
module Pq {
  import opened Gq
  import opened Text
  import opened Table
  import Engine

  // ---------------------------------------------------------------------------
  // Schema

  /** `createSchema`: the literal text between its nine `{{.TableName}}`
      actions, each piece written as the name suffix the action completes
      followed by the rest of the piece. */
  const CreateSchema: Template := [
    "\nCREATE SEQUENCE IF NOT EXISTS ",
    "q_id_seq" + ";\nCREATE TABLE IF NOT EXISTS ",
    "q" + " (\n\tid INT8 NOT NULL DEFAULT nextval('",
    "q_id_seq" + "') PRIMARY KEY,\n\ttimestamp TIMESTAMP NOT NULL DEFAULt now(),\n\tcheckout TIMESTAMP,\n\tpayload BYTEA\n);\nCREATE INDEX IF NOT EXISTS ",
    "q_timestamp_idx" + " ON ",
    "q" + " (checkout ASC NULLS FIRST, timestamp ASC);\n" + "ALTER TABLE ",
    "q" + " SET (autovacuum_vacuum_scale_factor = 0.0);\n" + "ALTER TABLE ",
    "q" + " SET (autovacuum_vacuum_threshold = 250000);\n" + "ALTER TABLE ",
    "q" + " SET (autovacuum_analyze_scale_factor = 0.0);\n" + "ALTER TABLE ",
    "q" + " SET (autovacuum_analyze_threshold = 50000);\n"]

  /** `dropScrema`, between its two actions. */
  const DropSchema: Template := ["\nDROP TABLE IF EXISTS ", "q" + ";\nDROP SEQUENCE IF EXISTS ", "q_id_seq" + ";\n"]

  /** The script Create executes: the sequence, the table whose ids default to
      that sequence, the index, all named after the prefix, and then the four
      autovacuum settings of the table. */
  function CreateText(prefix: string): (s: string)
    ensures s == Engine.SchemaScript(Engine.SequenceName(prefix), Engine.TableName(prefix), Engine.IndexName(prefix))
                 + Engine.AutovacuumScript(Engine.TableName(prefix))
  {
    CreateSchemaPieces();
    CreateRegroup(CreateSchema, prefix,
      ";\nCREATE TABLE IF NOT EXISTS ",
      " (\n\tid INT8 NOT NULL DEFAULT nextval('",
      "') PRIMARY KEY,\n\ttimestamp TIMESTAMP NOT NULL DEFAULt now(),\n\tcheckout TIMESTAMP,\n\tpayload BYTEA\n);\nCREATE INDEX IF NOT EXISTS ",
      " ON ",
      " (checkout ASC NULLS FIRST, timestamp ASC);\n",
      " SET (autovacuum_vacuum_scale_factor = 0.0);\n",
      " SET (autovacuum_vacuum_threshold = 250000);\n",
      " SET (autovacuum_analyze_scale_factor = 0.0);\n",
      " SET (autovacuum_analyze_threshold = 50000);\n",
      "ALTER TABLE ");
    Execute(CreateSchema, prefix)
  }

  lemma CreateSchemaPieces()
    ensures |CreateSchema| == 10
    ensures CreateSchema[0] == "\nCREATE SEQUENCE IF NOT EXISTS "
    ensures CreateSchema[1] == "q_id_seq" + ";\nCREATE TABLE IF NOT EXISTS "
    ensures CreateSchema[2] == "q" + " (\n\tid INT8 NOT NULL DEFAULT nextval('"
    ensures CreateSchema[3] == "q_id_seq" + "') PRIMARY KEY,\n\ttimestamp TIMESTAMP NOT NULL DEFAULt now(),\n\tcheckout TIMESTAMP,\n\tpayload BYTEA\n);\nCREATE INDEX IF NOT EXISTS "
    ensures CreateSchema[4] == "q_timestamp_idx" + " ON "
    ensures CreateSchema[5] == "q" + " (checkout ASC NULLS FIRST, timestamp ASC);\n" + "ALTER TABLE "
    ensures CreateSchema[6] == "q" + " SET (autovacuum_vacuum_scale_factor = 0.0);\n" + "ALTER TABLE "
    ensures CreateSchema[7] == "q" + " SET (autovacuum_vacuum_threshold = 250000);\n" + "ALTER TABLE "
    ensures CreateSchema[8] == "q" + " SET (autovacuum_analyze_scale_factor = 0.0);\n" + "ALTER TABLE "
    ensures CreateSchema[9] == "q" + " SET (autovacuum_analyze_threshold = 50000);\n"
  {
  }

  /** The executed schema template, regrouped over its literal pieces `b1` ..
      `b9`: the schema proper up to `b5`, then the `ALTER TABLE` lines (`al`
      ends each of the pieces 5 to 8). */
  lemma CreateRegroup(t: Template, p: string, b1: string, b2: string, b3: string, b4: string, b5: string,
                      b6: string, b7: string, b8: string, b9: string, al: string)
    requires |t| == 10
    requires t[1] == "q_id_seq" + b1 && t[2] == "q" + b2 && t[3] == "q_id_seq" + b3 && t[4] == "q_timestamp_idx" + b4
    requires t[5] == "q" + b5 + al && t[6] == "q" + b6 + al && t[7] == "q" + b7 + al && t[8] == "q" + b8 + al
    requires t[9] == "q" + b9
    ensures Join(t, p)
         == t[0] + (p + "q_id_seq") + b1 + (p + "q") + b2 + (p + "q_id_seq") + b3 + (p + "q_timestamp_idx") + b4
            + (p + "q") + b5
            + (al + (p + "q") + b6 + al + (p + "q") + b7 + al + (p + "q") + b8 + al + (p + "q") + b9)
  {
    var tb := p + "q";
    Gq.Assoc("q", b5, al);
    Regroup6(t[..6], p, "q_id_seq", b1, "q", b2, "q_id_seq", b3, "q_timestamp_idx", b4, "q", b5 + al);
    var x := t[0] + (p + "q_id_seq") + b1 + tb + b2 + (p + "q_id_seq") + b3 + (p + "q_timestamp_idx") + b4;
    Gq.Assoc(x + tb, b5, al);
    var s := x + tb + b5;
    AlterLines(t, p, s + al, b6, b7, b8, b9, al);
    SplitLines(s, tb, b6, b7, b8, b9, al);
  }

  /** The last four pieces of the schema template, one `ALTER TABLE` line
      each, appended to the text `h` of the first six. */
  lemma AlterLines(t: Template, p: string, h: string, b6: string, b7: string, b8: string, b9: string, al: string)
    requires |t| == 10 && Join(t[..6], p) == h
    requires t[6] == "q" + b6 + al && t[7] == "q" + b7 + al && t[8] == "q" + b8 + al && t[9] == "q" + b9
    ensures Join(t, p) == h + (p + "q") + b6 + al + (p + "q") + b7 + al + (p + "q") + b8 + al + (p + "q") + b9
  {
    var tb := p + "q";
    assert t[..7][..6] == t[..6] && t[..8][..7] == t[..7] && t[..9][..8] == t[..8] && t[..10] == t;
    JoinFromEnd(t[..7], p);
    PieceThen(h, p, "q", b6, al);
    var y6 := h + tb + b6 + al;
    JoinFromEnd(t[..8], p);
    PieceThen(y6, p, "q", b7, al);
    var y7 := y6 + tb + b7 + al;
    JoinFromEnd(t[..9], p);
    PieceThen(y7, p, "q", b8, al);
    var y8 := y7 + tb + b8 + al;
    JoinFromEnd(t, p);
    Piece(y8, p, "q", b9);
  }

  /** The schema proper `s` followed by four lines `al + tb + b`, read as `s`
      then the block of lines. */
  lemma SplitLines(s: string, tb: string, b6: string, b7: string, b8: string, b9: string, al: string)
    ensures s + al + tb + b6 + al + tb + b7 + al + tb + b8 + al + tb + b9
         == s + (al + tb + b6 + al + tb + b7 + al + tb + b8 + al + tb + b9)
  {
    var a2 := al + tb;
    var a3 := a2 + b6;
    var a4 := a3 + al;
    var a5 := a4 + tb;
    var a6 := a5 + b7;
    var a7 := a6 + al;
    var a8 := a7 + tb;
    var a9 := a8 + b8;
    var a10 := a9 + al;
    var a11 := a10 + tb;
    Gq.Assoc(s, a11, b9);
    Gq.Assoc(s, a10, tb);
    Gq.Assoc(s, a9, al);
    Gq.Assoc(s, a8, b8);
    Gq.Assoc(s, a7, tb);
    Gq.Assoc(s, a6, al);
    Gq.Assoc(s, a5, b7);
    Gq.Assoc(s, a4, tb);
    Gq.Assoc(s, a3, al);
    Gq.Assoc(s, a2, b6);
    Gq.Assoc(s, al, tb);
  }

  /** The script Destroy executes: drop the table, then its sequence. */
  function DestroyText(prefix: string): (s: string)
    ensures s == Engine.DropScript(Engine.TableName(prefix), Engine.SequenceName(prefix))
  {
    Regroup3(DropSchema, prefix, "q", ";\nDROP SEQUENCE IF EXISTS ", "q_id_seq", ";\n");
    Execute(DropSchema, prefix)
  }

  // ---------------------------------------------------------------------------
  // Claim query

  const ClaimHead: Format :=
    ["UPDATE ", "q SET checkout = now() " + "WHERE id IN (SELECT id FROM ", "q WHERE checkout " + "IS null "]
  const TtlClause: Format := ["OR checkout + $2 > now()"]
  const ClaimOrder: Format :=
    ["", " ORDER BY checkout ASC " + "NULLS FIRST, timestamp ASC " + "FOR UPDATE SKIP LOCKED "
         + "LIMIT $1) RETURNING id, payload;"]

  /** The text ConsumeBatch prepares. With a positive ttl the `OR checkout`
      fragment replaces the text built so far instead of extending it. */
  function ClaimQuery(prefix: string, ttl: int): string
  {
    var head := Sprintf(ClaimHead, [prefix, prefix]);
    var q := if ttl > 0 then Sprintf(TtlClause, []) else head;
    Sprintf(ClaimOrder, [q])
  }

  /** The ttl-0 query is the claim statement the engine knows; the ttl query is
      the bare `OR checkout ...` fragment with the order and limit attached. */
  lemma ClaimQueryText(prefix: string, ttl: int)
    ensures ttl <= 0 ==> ClaimQuery(prefix, ttl) == Engine.ClaimStatement(prefix)
    ensures ttl > 0 ==> ClaimQuery(prefix, ttl) == TtlClause[0] + ClaimOrder[1]
  {
    var h := ClaimHead;
    Sprintf3(h, prefix, prefix);
    Sprintf1(TtlClause);
    var q := if ttl > 0 then Sprintf(TtlClause, []) else Sprintf(h, [prefix, prefix]);
    Sprintf2(ClaimOrder, q);
    assert ClaimOrder[0] + q == q;
  }

  /** Only the ttl-0 query prepares: the ttl query names no table and starts
      with no verb. */
  lemma ClaimQueryPrepares(prefix: string, ttl: int)
    ensures Engine.PgPrepares(ClaimQuery(prefix, ttl), prefix) <==> ttl <= 0
  {
    ClaimQueryText(prefix, ttl);
    if ttl > 0 {
      assert ClaimQuery(prefix, ttl)[0] == 'O';
      Engine.NoVerb(ClaimQuery(prefix, ttl), prefix);
    }
  }

  /** Commit's delete statement. */
  function DeleteQuery(prefix: string): string
  {
    Sprintf(["DELETE FROM ", "q WHERE id = ANY($1)"], [prefix])
  }

  lemma DeleteQueryPrepares(prefix: string)
    ensures DeleteQuery(prefix) == Engine.DeleteAnyStatement(prefix)
    ensures Engine.PgPrepares(DeleteQuery(prefix), prefix)
  {
    var f: Format := ["DELETE FROM ", "q WHERE id = ANY($1)"];
    assert Sprintf(f, [prefix]) == f[0] + prefix + Sprintf(f[1..], []);
  }

  // ---------------------------------------------------------------------------
  // The queue handle

  /** Whether a COPY of `n` rows reaches the table when storage call `failAt`
      fails. The calls are numbered in the order Publish makes them: Begin (0),
      Prepare (1), one Exec per message (2 .. n+1), the flushing Exec (n+2) and
      the deferred transaction Commit (n+3). */
  predicate Copied(failAt: Option<nat>, n: nat)
  {
    failAt.None? || failAt.value > n + 3
  }

  class Pgmq {
    const prefix: string
    /** Claim lease in nanoseconds (`Ttl`); positive means a lease is asked for. */
    var ttl: int
    var exit: bool
    /** The queue table, the next value of its id sequence, and the current time. */
    var rows: seq<Row>
    var nextId: int
    var clock: int

    predicate Valid()
      reads this
    {
      Chained(rows, nextId, clock)
    }

    /** NewPgmq: a handle on a store that already holds the given table. */
    constructor (prefix: string, rows: seq<Row>, nextId: int, clock: int)
      requires Wellformed(rows, nextId, clock)
      ensures Valid()
      ensures this.prefix == prefix && ttl == 0 && !exit
      ensures this.rows == rows && this.nextId == nextId && this.clock == clock
    {
      this.prefix := prefix;
      ttl := 0;
      exit := false;
      this.rows := rows;
      this.nextId := nextId;
      this.clock := clock;
      ChainedIff(rows, nextId, clock);
    }

    /** StopConsumer: raises the exit flag; nothing ever lowers it. */
    method StopConsumer()
      modifies this
      ensures exit
      ensures rows == old(rows) && nextId == old(nextId) && clock == old(clock) && ttl == old(ttl)
    {
      exit := true;
    }

    /** Exit: the exit flag as read under the lock. Only StopConsumer sets
        it; every other method keeps it. */
    function Exit(): (stopped: bool)
      reads this
      ensures stopped <==> exit
    {
      exit
    }

    /** Publish: COPY the payloads in; the batch lands whole or not at all. A
        failing transaction Commit is deferred and its error dropped, so the
        batch is lost while Publish reports success. */
    method Publish(messages: seq<Message>, failAt: Option<nat>) returns (err: Option<Error>)
      requires Valid()
      modifies this
      ensures Valid()
      ensures err.Some? <==> failAt.Some? && failAt.value <= |messages| + 2
      ensures Copied(failAt, |messages|) ==>
        rows == old(rows) + NewRows(old(nextId), clock, Payloads(messages)) && nextId == old(nextId) + |messages|
      ensures !Copied(failAt, |messages|) ==> rows == old(rows) && nextId == old(nextId)
      ensures clock == old(clock) && exit == old(exit) && ttl == old(ttl)
    {
      if failAt == Some(0) || failAt == Some(1) {
        return Some(StorageFailure);
      }
      var buffered: seq<Payload> := [];
      for i := 0 to |messages|
        invariant |buffered| == i
        invariant forall k :: 0 <= k < i ==> buffered[k] == messages[k].payload
        invariant !(failAt.Some? && failAt.value < i + 2)
      {
        if failAt == Some(i + 2) {
          return Some(StorageFailure);
        }
        buffered := buffered + [messages[i].payload];
      }
      assert buffered == Payloads(messages);
      if failAt == Some(|messages| + 2) {
        return Some(StorageFailure);
      }
      if failAt == Some(|messages| + 3) {
        return None;
      }
      CopyIn(buffered);
      err := None;
    }

    /** The store's side of a committed COPY: the payloads become new rows,
        numbered by the id sequence and stamped with the current time. */
    method CopyIn(payloads: seq<Payload>)
      requires Valid()
      modifies this
      ensures Valid()
      ensures rows == old(rows) + NewRows(old(nextId), clock, payloads) && nextId == old(nextId) + |payloads|
      ensures clock == old(clock) && exit == old(exit) && ttl == old(ttl)
    {
      ChainedInsert(rows, nextId, clock, payloads);
      rows := rows + NewRows(nextId, clock, payloads);
      nextId := nextId + |payloads|;
    }

    /** Commit: delete the rows of the successful receipts. Calls: Prepare (0),
        Exec (1). */
    method Commit(receipts: seq<Receipt>, failAt: Option<nat>) returns (err: Option<Error>)
      requires Valid()
      modifies this
      ensures Valid()
      ensures err.Some? <==> failAt == Some(0) || failAt == Some(1)
      ensures rows == if err.None? then DeleteWhere(old(rows), SuccessIdSet(receipts)) else old(rows)
      ensures nextId == old(nextId) && clock == old(clock) && exit == old(exit) && ttl == old(ttl)
    {
      DeleteQueryPrepares(prefix);
      if failAt == Some(0) {
        return Some(StorageFailure);
      }
      var deleteIds := CollectSuccessIds(receipts);
      if failAt == Some(1) {
        return Some(StorageFailure);
      }
      ChainedDelete(rows, SuccessIdSet(receipts), nextId, clock);
      rows := DeleteWhere(rows, set x | x in deleteIds);
      err := None;
    }

    /** ConsumeBatch: claim up to `size` unclaimed rows, oldest first, and
        return them. Calls: Begin (0), Prepare (1), Query (2). */
    method ConsumeBatch(size: int, failAt: Option<nat>) returns (ms: seq<ConsumerMessage>, err: Option<Error>)
      requires Valid()
      modifies this
      ensures Valid()
      ensures err.None? <==> ttl <= 0 && 0 <= size && (failAt.None? || failAt.value > 2)
      ensures err.Some? ==> ms == [] && rows == old(rows)
      ensures ttl > 0 && failAt != Some(0) ==> err.Some? && err.value.BadStatement?
      ensures err.None? ==> ms == ToMessages(Pick(old(rows), size)) && rows == Claim(old(rows), size, clock)
      ensures nextId == old(nextId) && clock == old(clock) && exit == old(exit) && ttl == old(ttl)
    {
      ms := [];
      err := PrepareClaim(failAt);
      if err.Some? {
        return;
      }
      if failAt == Some(2) {
        return ms, Some(StorageFailure);
      }
      if size < 0 {
        return ms, Some(NegativeLimit);
      }
      var claimed := Pick(rows, size);
      ClaimRows(size);
      ms := ScanMessages(claimed);
    }

    /** ConsumeBatch's Begin (call 0) and its Prepare of the claim query
        (call 1): the ttl query is refused by the engine. */
    method PrepareClaim(failAt: Option<nat>) returns (err: Option<Error>)
      ensures err.None? <==> ttl <= 0 && failAt != Some(0) && failAt != Some(1)
      ensures ttl > 0 && failAt != Some(0) ==> err == Some(BadStatement(ClaimQuery(prefix, ttl)))
    {
      var q := ClaimQuery(prefix, ttl);
      if failAt == Some(0) {
        return Some(StorageFailure);
      }
      ClaimQueryPrepares(prefix, ttl);
      if !Engine.PgPrepares(q, prefix) {
        return Some(BadStatement(q));
      }
      if failAt == Some(1) {
        return Some(StorageFailure);
      }
      return None;
    }

    /** The store's side of the claim statement: the picked rows get the
        current time as their checkout. */
    method ClaimRows(limit: nat)
      requires Valid()
      modifies this
      ensures Valid() && rows == Claim(old(rows), limit, clock)
      ensures nextId == old(nextId) && clock == old(clock) && exit == old(exit) && ttl == old(ttl)
    {
      ChainedClaim(rows, limit, clock, nextId, clock);
      rows := Claim(rows, limit, clock);
    }

    /** Stream: poll until the exit flag is seen, sending each non-empty batch
        and pausing after an empty or failed poll. `faults` gives the storage
        fault of each poll and bounds the number of polls; another goroutine's
        StopConsumer lands just before exit check number `stopAt`. The run ends
        with the channel closed once exit is seen, or open when the polls run
        out. */
    method Stream(size: int, pause: int, faults: seq<Option<nat>>, stopAt: nat)
      returns (trace: seq<Event>, closed: bool)
      requires Valid()
      modifies this
      ensures Valid()
      ensures StreamTrace(trace, closed)
      ensures closed == (old(exit) || stopAt <= |faults|) && exit == closed
      ensures Polls(trace) == if old(exit) then 0 else Min(stopAt, |faults|)
      ensures Stamped(old(rows), rows) && Handed(old(rows), rows, Delivered(trace))
      ensures nextId == old(nextId) && ttl == old(ttl)
    {
      trace := [];
      var polls := 0;
      StampedRefl(rows);
      while true
        invariant Valid() && nextId == old(nextId) && ttl == old(ttl)
        invariant exit == old(exit) && (exit ==> polls == 0)
        invariant polls <= |faults| && polls <= stopAt
        invariant Rounds(trace) && Polls(trace) == polls
        invariant Stamped(old(rows), rows) && Handed(old(rows), rows, Delivered(trace))
        decreases |faults| - polls
      {
        var ended;
        trace, polls, ended, closed := Cycle(size, pause, faults, stopAt, polls, trace, old(rows));
        if ended {
          return;
        }
      }
    }

    /** One pass of Stream's outer loop: the inner loop, then the pause when
        the inner loop stopped at an empty or failed poll. */
    method Cycle(size: int, pause: int, faults: seq<Option<nat>>, stopAt: nat, polls0: nat, trace0: seq<Event>,
                 ghost start: seq<Row>)
      returns (trace: seq<Event>, polls: nat, ended: bool, closed: bool)
      requires Valid()
      requires (exit ==> polls0 == 0) && polls0 <= |faults| && polls0 <= stopAt
      requires Rounds(trace0) && Polls(trace0) == polls0
      requires Stamped(start, rows) && Handed(start, rows, Delivered(trace0))
      modifies this
      ensures Valid() && nextId == old(nextId) && ttl == old(ttl)
      ensures polls0 <= polls <= |faults| && polls <= stopAt && Polls(trace) == polls
      ensures Stamped(start, rows) && Handed(start, rows, Delivered(trace))
      ensures old(exit) ==> ended && closed && polls == polls0
      ensures ended && closed ==> StreamTrace(trace, true) && exit && (old(exit) || polls == stopAt)
      ensures ended && !closed ==> Rounds(trace) && polls == |faults| && polls < stopAt && exit == old(exit)
      ensures !ended ==> !closed && exit == old(exit) && polls0 < polls && Rounds(trace)
    {
      ghost var done, poll;
      trace, polls, ended, closed, done, poll := Burst(size, faults, stopAt, polls0, trace0, start);
      if ended {
        return;
      }
      Pause(done, poll);
      trace := trace + [Paused];
      Sleep(pause);
    }

    /** time.Sleep: the store's clock moves on by the pause (a negative pause
        returns at once). */
    method Sleep(pause: int)
      requires Valid()
      modifies this
      ensures Valid() && clock == old(clock) + (if pause > 0 then pause else 0)
      ensures rows == old(rows) && nextId == old(nextId) && ttl == old(ttl) && exit == old(exit)
    {
      clock := clock + if pause > 0 then pause else 0;
    }

    /** Stream's inner loop: poll and send until a poll comes back empty or
        failed (the last event is then that poll), until exit is seen (the
        channel is then closed), or until the polls run out. */
    method Burst(size: int, faults: seq<Option<nat>>, stopAt: nat, polls0: nat, trace0: seq<Event>,
                 ghost start: seq<Row>)
      returns (trace: seq<Event>, polls: nat, ended: bool, closed: bool, ghost done: seq<Event>, ghost poll: Event)
      requires Valid()
      requires (exit ==> polls0 == 0) && polls0 <= |faults| && polls0 <= stopAt
      requires Rounds(trace0) && Polls(trace0) == polls0
      requires Stamped(start, rows) && Handed(start, rows, Delivered(trace0))
      modifies this
      ensures Valid() && nextId == old(nextId) && ttl == old(ttl) && clock == old(clock)
      ensures polls0 <= polls <= |faults| && polls <= stopAt
      ensures Stamped(start, rows) && Handed(start, rows, Delivered(trace))
      ensures old(exit) ==> ended && closed && polls == polls0
      ensures ended && closed ==> StreamTrace(trace, true) && exit && (old(exit) || polls == stopAt)
                                  && Polls(trace) == polls
      ensures ended && !closed ==> Rounds(trace) && Polls(trace) == polls && polls == |faults| && polls < stopAt
                                   && exit == old(exit)
      ensures !ended ==> !closed && exit == old(exit) && polls0 < polls
                         && Rounds(done) && poll.Polled? && !Delivers(poll) && trace == done + [poll]
                         && Polls(trace) == polls
    {
      trace, polls, closed := trace0, polls0, false;
      done, poll := [], Paused;
      while true
        invariant Valid() && nextId == old(nextId) && ttl == old(ttl) && clock == old(clock)
        invariant exit == old(exit) && (exit ==> polls == 0)
        invariant polls0 <= polls <= |faults| && polls <= stopAt
        invariant Rounds(trace) && Polls(trace) == polls
        invariant Stamped(start, rows) && Handed(start, rows, Delivered(trace))
        decreases |faults| - polls
      {
        if polls == stopAt {
          StopConsumer();
        }
        if Exit() {
          Closing(trace);
          trace := trace + [Closed];
          return trace, polls, true, true, done, poll;
        }
        if polls == |faults| {
          return trace, polls, true, false, done, poll;
        }
        var delivered;
        done := trace;
        trace, delivered, poll := PollAndSend(size, faults[polls], trace, start);
        polls := polls + 1;
        if !delivered {
          return trace, polls, false, false, done, poll;
        }
      }
    }

    /** One ConsumeBatch call of the inner loop and, when it returns a
        non-empty batch without error, the send of that batch. The rows handed
        out so far stay claimed, and the batch consists of rows that were
        unclaimed at the start and are claimed now. */
    method PollAndSend(size: int, fault: Option<nat>, trace0: seq<Event>, ghost start: seq<Row>)
      returns (trace: seq<Event>, delivered: bool, ghost poll: Event)
      requires Valid() && Rounds(trace0)
      requires Stamped(start, rows) && Handed(start, rows, Delivered(trace0))
      modifies this
      ensures Valid() && nextId == old(nextId) && ttl == old(ttl) && clock == old(clock) && exit == old(exit)
      ensures Stamped(start, rows) && Handed(start, rows, Delivered(trace))
      ensures Polls(trace) == Polls(trace0) + 1
      ensures delivered ==> Rounds(trace)
      ensures !delivered ==> poll.Polled? && !Delivers(poll) && trace == trace0 + [poll]
    {
      ghost var before := rows;
      ghost var sent := Delivered(trace0);
      var ms, err := ConsumeBatch(size, fault);
      if err.None? {
        ClaimKeeps(start, before, sent, size, clock, nextId, clock);
      }
      var e := Polled(ms, err);
      poll := e;
      Step(trace0, e);
      if |ms| == 0 || err.Some? {
        return trace0 + [e], false, e;
      }
      trace := trace0 + [e];
      Step(trace, Sent(ms));
      Round(trace0, e);
      trace := trace + [Sent(ms)];
      assert Delivered(trace) == sent + ms;
      delivered := true;
    }
  }
}
