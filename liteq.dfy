/** The SQLite queue, liteq/liteq.go: the schema as a `%s` format, a
    two-step ConsumeBatch (select, then an update bound to the id list as one
    text parameter), a delete statement the engine refuses, and a handle whose
    operations work on an in-memory copy of the queue table. */
module Liteq {
  import opened Gq
  import opened Text
  import opened Table
  import Engine

  // ---------------------------------------------------------------------------
  // Schema

  /** `createSchema`, between its three `%s` verbs; each piece after the first
      is written as the name suffix the verb completes followed by the rest. */
  const CreateFormat: Format := [
    "\nCREATE TABLE IF NOT EXISTS ",
    "q" + " (\n\tid INTEGER PRIMARY KEY AUTOINCREMENT,\n\ttimestamp TIMESTAMP NOT NULL DEFAULT CURRENT_TIMESTAMP,\n\tcheckout TIMESTAMP,\n\tpayload BLOB\n);\nCREATE INDEX IF NOT EXISTS ",
    "q_timestamp_idx" + " ON ",
    "q" + " (checkout ASC, timestamp ASC);\n"]

  /** `dropScrema`, around its one verb. */
  const DropFormat: Format := ["\nDROP TABLE IF EXISTS ", "q" + ";\n"]

  /** The script Create executes: the table and its index over checkout then
      timestamp, named after the prefix. */
  function CreateText(prefix: string): (s: string)
    ensures s == Engine.LiteSchemaScript(Engine.TableName(prefix), Engine.IndexName(prefix))
  {
    SprintfFillsEveryVerb(CreateFormat, prefix);
    Regroup4(CreateFormat, prefix,
      "q", " (\n\tid INTEGER PRIMARY KEY AUTOINCREMENT,\n\ttimestamp TIMESTAMP NOT NULL DEFAULT CURRENT_TIMESTAMP,\n\tcheckout TIMESTAMP,\n\tpayload BLOB\n);\nCREATE INDEX IF NOT EXISTS ",
      "q_timestamp_idx", " ON ",
      "q", " (checkout ASC, timestamp ASC);\n");
    Sprintf(CreateFormat, Repeat(prefix, 3))
  }

  /** The script Destroy executes: drop the table. */
  function DestroyText(prefix: string): (s: string)
    ensures s == Engine.LiteDropScript(Engine.TableName(prefix))
  {
    SprintfFillsEveryVerb(DropFormat, prefix);
    Regroup2(DropFormat, prefix, "q", ";\n");
    Sprintf(DropFormat, Repeat(prefix, 1))
  }

  // ---------------------------------------------------------------------------
  // Statements

  const SelectHead: Format := ["SELECT id, payload FROM ", "q WHERE checkout " + "IS null"]
  const TtlClause: Format := ["OR checkout + $2 > DATETIME('now')"]
  const SelectOrder: Format := ["", " ORDER BY checkout ASC, " + "timestamp ASC LIMIT $1;"]

  /** The select ConsumeBatch prepares. With a positive ttl the `OR checkout`
      fragment replaces the text built so far instead of extending it. */
  function SelectQuery(prefix: string, ttl: int): string
  {
    var head := Sprintf(SelectHead, [prefix]);
    var q := if ttl > 0 then Sprintf(TtlClause, []) else head;
    Sprintf(SelectOrder, [q])
  }

  /** The ttl-0 select is the statement the engine knows; the ttl select is
      the bare fragment with the order and limit attached. */
  lemma SelectQueryText(prefix: string, ttl: int)
    ensures ttl <= 0 ==> SelectQuery(prefix, ttl) == Engine.SelectStatement(prefix)
    ensures ttl > 0 ==> SelectQuery(prefix, ttl) == TtlClause[0] + SelectOrder[1]
  {
    Sprintf2(SelectHead, prefix);
    Sprintf1(TtlClause);
    var q := if ttl > 0 then Sprintf(TtlClause, []) else Sprintf(SelectHead, [prefix]);
    Sprintf2(SelectOrder, q);
    assert SelectOrder[0] + q == q;
  }

  /** Only the ttl-0 select prepares. */
  lemma SelectQueryPrepares(prefix: string, ttl: int)
    ensures Engine.LitePrepares(SelectQuery(prefix, ttl), prefix) <==> ttl <= 0
  {
    SelectQueryText(prefix, ttl);
    if ttl > 0 {
      assert SelectQuery(prefix, ttl)[0] == 'O';
      Engine.NoVerb(SelectQuery(prefix, ttl), prefix);
    }
  }

  /** The update that stamps the selected rows. */
  function UpdateQuery(prefix: string): string
  {
    Sprintf(["UPDATE ", "q SET checkout = DATETIME('now') " + "WHERE id IN (?);"], [prefix])
  }

  lemma UpdateQueryPrepares(prefix: string)
    ensures UpdateQuery(prefix) == Engine.UpdateStatement(prefix)
    ensures Engine.LitePrepares(UpdateQuery(prefix), prefix)
  {
    Sprintf2(["UPDATE ", "q SET checkout = DATETIME('now') " + "WHERE id IN (?);"], prefix);
  }

  /** Publish's insert. */
  function InsertQuery(prefix: string): string
  {
    Sprintf(["INSERT INTO ", "q (payload) VALUES(?);"], [prefix])
  }

  lemma InsertQueryPrepares(prefix: string)
    ensures InsertQuery(prefix) == Engine.InsertStatement(prefix)
    ensures Engine.LitePrepares(InsertQuery(prefix), prefix)
  {
    Sprintf2(["INSERT INTO ", "q (payload) VALUES(?);"], prefix);
  }

  /** Commit's delete, with `= IN(?)` where `IN (?)` or `= ?` was meant. */
  function DeleteQuery(prefix: string): string
  {
    Sprintf(["DELETE FROM ", "q WHERE id = IN(?)"], [prefix])
  }

  /** The delete never prepares: it is one character longer than the only
      delete statement SQLite knows. */
  lemma DeleteQueryNeverPrepares(prefix: string)
    ensures !Engine.LitePrepares(DeleteQuery(prefix), prefix)
  {
    var q := DeleteQuery(prefix);
    Sprintf2(["DELETE FROM ", "q WHERE id = IN(?)"], prefix);
    assert |q| == |prefix| + 30 && q[0] == 'D';
    Engine.LiteDeleteStatementLength(prefix);
    Engine.LiteDeleteVerb(q, prefix);
  }

  // ---------------------------------------------------------------------------
  // The select and the update

  /** SQLite reads a negative `LIMIT` as no limit at all; the table size is
      then a bound no select can exceed. */
  function SelectLimit(size: int, rows: seq<Row>): nat
  {
    if size < 0 then |rows| else size
  }

  /** The rows the update's one text parameter matches: a row matches when
      the parameter is its id in decimal. This is the rule the model assumes
      for binding an id list to `id IN (?)`. */
  function Matching(rows: seq<Row>, param: string): set<int>
  {
    set r | r in rows && Decimal(r.id) == param :: r.id
  }

  /** A negative size selects every unclaimed row. */
  lemma SelectLimitTakesAll(rows: seq<Row>, size: int, nextId: int, clock: int)
    requires Wellformed(rows, nextId, clock) && size < 0
    ensures Pick(rows, SelectLimit(size, rows)) == AvailableRows(rows)
  {
    AvailableRowsFacts(rows, nextId, clock);
    PickIsPrefix(rows, SelectLimit(size, rows));
    assert AvailableRows(rows)[..|AvailableRows(rows)|] == AvailableRows(rows);
  }

  /** The update's effect on the table: a select that returned exactly one row
      stamps that row, which is the claim of PostgreSQL; a select that returned
      no row or several leaves the table as it was, since no row id reads as
      a comma-joined list. */
  lemma UpdateEffect(rows: seq<Row>, limit: nat, now: int)
    ensures StampWhere(rows, Matching(rows, IdList(IdsOf(Pick(rows, limit)))), now)
         == if |Pick(rows, limit)| == 1 then Claim(rows, limit, now) else rows
  {
    MatchingPick(rows, limit);
    if |Pick(rows, limit)| != 1 {
      assert StampWhere(rows, {}, now) == rows;
    }
  }

  /** The id list of a select matches the one selected row when there is
      exactly one, and no row otherwise. */
  lemma MatchingPick(rows: seq<Row>, limit: nat)
    ensures Matching(rows, IdList(IdsOf(Pick(rows, limit))))
         == if |Pick(rows, limit)| == 1 then IdSet(Pick(rows, limit)) else {}
  {
    var p := Pick(rows, limit);
    var ids := IdsOf(p);
    var m := Matching(rows, IdList(ids));
    PickMembers(rows, limit);
    forall x ensures x in m <==> |ids| == 1 && ids[0] == x && x in IdSet(rows) {
      IdListMatches(ids, x);
    }
    if |p| == 1 {
      assert p[0] in p;
      assert IdSet(p) == {p[0].id};
    }
  }

  /** The `rows.Next()` loop of ConsumeBatch: the ids to stamp and the
      messages to return, both in result order. */
  method ScanRows(picked: seq<Row>) returns (ids: seq<int>, ms: seq<ConsumerMessage>)
    ensures ids == IdsOf(picked) && ms == ToMessages(picked)
  {
    ids, ms := [], [];
    for i := 0 to |picked|
      invariant |ids| == i && |ms| == i
      invariant forall k :: 0 <= k < i ==> ids[k] == picked[k].id
      invariant forall k :: 0 <= k < i ==> ms[k] == ConsumerMessage(Message(picked[k].payload), picked[k].id)
    {
      ids := ids + [picked[i].id];
      ms := ms + [ConsumerMessage(Message(picked[i].payload), picked[i].id)];
    }
  }

  /** The part of Commit that never runs, since its Prepare always fails: the
      successful receipt ids, serialised as the update serialises its ids. */
  method DeleteClause(receipts: seq<Receipt>) returns (clause: string)
    ensures clause == Join(Decimals(SuccessIds(receipts)), ",")
  {
    var deleteIds := CollectSuccessIds(receipts);
    IdListIsCommaJoin(deleteIds);
    clause := IdList(deleteIds);
  }

  /** How many inserts of a Publish of `n` messages succeed when storage
      call `failAt` fails. The calls are numbered in the order Publish makes
      them: Begin (0), Prepare (1), one Exec per message (2 .. n+1) and the
      deferred transaction Commit (n+2). */
  function Inserted(failAt: Option<nat>, n: nat): nat
  {
    if failAt.None? || failAt.value >= n + 2 then n
    else if failAt.value < 2 then 0
    else failAt.value - 2
  }

  // ---------------------------------------------------------------------------
  // The queue handle

  class Liteq {
    const prefix: string
    /** Claim lease in nanoseconds (`Ttl`); positive means a lease is asked for. */
    var ttl: int
    var exit: bool
    /** The queue table, the next autoincrement id, and the current time. */
    var rows: seq<Row>
    var nextId: int
    var clock: int

    predicate Valid()
      reads this
    {
      Chained(rows, nextId, clock)
    }

    /** NewLiteq: a handle on a store that already holds the given table. */
    constructor (prefix: string, rows: seq<Row>, nextId: int, clock: int)
      requires Wellformed(rows, nextId, clock)
      ensures Valid()
      ensures this.prefix == prefix && ttl == 0 && !exit
      ensures this.rows == rows && this.nextId == nextId && this.clock == clock
    {
      this.prefix := prefix;
      ttl := 0;
      exit := false;
      this.rows := rows;
      this.nextId := nextId;
      this.clock := clock;
      ChainedIff(rows, nextId, clock);
    }

    /** StopConsumer: raises the exit flag; nothing ever lowers it. */
    method StopConsumer()
      modifies this
      ensures exit
      ensures rows == old(rows) && nextId == old(nextId) && clock == old(clock) && ttl == old(ttl)
    {
      exit := true;
    }

    /** Exit: the exit flag as read under the lock. Only StopConsumer sets
        it; every other method keeps it. */
    function Exit(): (stopped: bool)
      reads this
      ensures stopped <==> exit
    {
      exit
    }

    /** Publish: one insert per message inside a transaction. A failing insert
        ends Publish with its error, and the deferred Commit keeps the rows
        inserted before it; a failing Commit loses them all, unreported. */
    method Publish(messages: seq<Message>, failAt: Option<nat>) returns (err: Option<Error>)
      requires Valid()
      modifies this
      ensures Valid()
      ensures err.Some? <==> failAt.Some? && failAt.value < |messages| + 2
      ensures failAt != Some(|messages| + 2) ==>
        var k := Inserted(failAt, |messages|);
        rows == old(rows) + NewRows(old(nextId), clock, Payloads(messages[..k])) && nextId == old(nextId) + k
      ensures failAt == Some(|messages| + 2) ==> rows == old(rows) && nextId == old(nextId)
      ensures clock == old(clock) && exit == old(exit) && ttl == old(ttl)
    {
      if failAt == Some(0) {
        return Some(StorageFailure);
      }
      InsertQueryPrepares(prefix);
      err := None;
      var inserted: seq<Payload> := [];
      if failAt == Some(1) {
        err := Some(StorageFailure);
      } else {
        var i := 0;
        while i < |messages|
          invariant 0 <= i <= |messages| && |inserted| == i
          invariant forall k :: 0 <= k < i ==> inserted[k] == messages[k].payload
          invariant !(failAt.Some? && 2 <= failAt.value < i + 2)
          invariant err.None?
        {
          if failAt == Some(i + 2) {
            err := Some(StorageFailure);
            break;
          }
          inserted := inserted + [messages[i].payload];
          i := i + 1;
        }
      }
      assert inserted == Payloads(messages[..Inserted(failAt, |messages|)]);
      // The deferred transaction Commit.
      if failAt != Some(|messages| + 2) {
        Insert(inserted);
      }
    }

    /** The store's side of a committed transaction of inserts: the payloads
        become new rows, numbered by the autoincrement id and stamped with the
        current time. */
    method Insert(payloads: seq<Payload>)
      requires Valid()
      modifies this
      ensures Valid()
      ensures rows == old(rows) + NewRows(old(nextId), clock, payloads) && nextId == old(nextId) + |payloads|
      ensures clock == old(clock) && exit == old(exit) && ttl == old(ttl)
    {
      ChainedInsert(rows, nextId, clock, payloads);
      rows := rows + NewRows(nextId, clock, payloads);
      nextId := nextId + |payloads|;
    }

    /** Commit: the Prepare of the delete fails, so Commit returns that error
        and deletes nothing; the receipt filter after it never runs. */
    method Commit(receipts: seq<Receipt>) returns (err: Option<Error>)
      ensures err == Some(BadStatement(DeleteQuery(prefix)))
    {
      var deleteQuery := DeleteQuery(prefix);
      DeleteQueryNeverPrepares(prefix);
      if !Engine.LitePrepares(deleteQuery, prefix) {
        return Some(BadStatement(deleteQuery));
      }
      assert false;
    }

    /** ConsumeBatch: select up to `size` unclaimed rows, oldest first (all of
        them for a negative size), then stamp them with one update bound to
        their id list. Calls: Begin (0), Prepare of the select (1), Query (2),
        Prepare of the update (3), Exec of the update (4). A failing Prepare of
        the update still returns the selected messages along with its error. */
    method ConsumeBatch(size: int, failAt: Option<nat>) returns (ms: seq<ConsumerMessage>, err: Option<Error>)
      requires Valid()
      modifies this
      ensures Valid()
      ensures err.None? <==> ttl <= 0 && (failAt.None? || failAt.value > 4)
      ensures ttl > 0 && failAt != Some(0) ==> err.Some? && err.value.BadStatement?
      ensures err.Some? ==> rows == old(rows)
      ensures err.Some? && failAt != Some(3) ==> ms == []
      ensures (err.None? || (ttl <= 0 && failAt == Some(3))) ==>
        ms == ToMessages(Pick(old(rows), SelectLimit(size, old(rows))))
      ensures err.None? ==>
        rows == if |ms| == 1 then Claim(old(rows), SelectLimit(size, old(rows)), clock) else old(rows)
      ensures nextId == old(nextId) && clock == old(clock) && exit == old(exit) && ttl == old(ttl)
    {
      ms := [];
      err := PrepareSelect(failAt);
      if err.Some? {
        return;
      }
      if failAt == Some(2) {
        return ms, Some(StorageFailure);
      }
      ms, err := SelectAndStamp(SelectLimit(size, rows), failAt);
    }

    /** The part of ConsumeBatch after the select has run: read the rows,
        prepare the update (call 3) and execute it on their id list (call 4). */
    method SelectAndStamp(limit: nat, failAt: Option<nat>) returns (ms: seq<ConsumerMessage>, err: Option<Error>)
      requires Valid()
      modifies this
      ensures Valid()
      ensures err.None? <==> failAt != Some(3) && failAt != Some(4)
      ensures err.Some? ==> rows == old(rows) && err == Some(StorageFailure)
      ensures failAt == Some(4) ==> ms == []
      ensures failAt != Some(4) ==> ms == ToMessages(Pick(old(rows), limit))
      ensures err.None? ==> rows == if |ms| == 1 then Claim(old(rows), limit, clock) else old(rows)
      ensures nextId == old(nextId) && clock == old(clock) && exit == old(exit) && ttl == old(ttl)
    {
      var picked := Pick(rows, limit);
      var checkoutIds;
      checkoutIds, ms := ScanRows(picked);
      err := PrepareUpdate(failAt);
      if err.Some? {
        return;
      }
      var checkoutClause := IdList(checkoutIds);
      if failAt == Some(4) {
        return [], Some(StorageFailure);
      }
      UpdateEffect(rows, limit, clock);
      StampMatching(checkoutClause);
    }

    /** ConsumeBatch's Begin (call 0) and its Prepare of the select (call 1):
        the ttl select is refused by the engine. */
    method PrepareSelect(failAt: Option<nat>) returns (err: Option<Error>)
      ensures err.None? <==> ttl <= 0 && failAt != Some(0) && failAt != Some(1)
      ensures ttl > 0 && failAt != Some(0) ==> err == Some(BadStatement(SelectQuery(prefix, ttl)))
    {
      var q := SelectQuery(prefix, ttl);
      if failAt == Some(0) {
        return Some(StorageFailure);
      }
      SelectQueryPrepares(prefix, ttl);
      if !Engine.LitePrepares(q, prefix) {
        return Some(BadStatement(q));
      }
      if failAt == Some(1) {
        return Some(StorageFailure);
      }
      return None;
    }

    /** ConsumeBatch's Prepare of the update (call 3): the engine knows the
        statement, so only a storage fault stops it. */
    method PrepareUpdate(failAt: Option<nat>) returns (err: Option<Error>)
      ensures err.None? <==> failAt != Some(3)
      ensures err.Some? ==> err == Some(StorageFailure)
    {
      var uq := UpdateQuery(prefix);
      UpdateQueryPrepares(prefix);
      if !Engine.LitePrepares(uq, prefix) {
        return Some(BadStatement(uq));
      }
      if failAt == Some(3) {
        return Some(StorageFailure);
      }
      return None;
    }

    /** The store's side of the update: the rows the parameter matches get the
        current time as their checkout. */
    method StampMatching(param: string)
      requires Valid()
      modifies this
      ensures Valid() && rows == StampWhere(old(rows), Matching(old(rows), param), clock)
      ensures nextId == old(nextId) && clock == old(clock) && exit == old(exit) && ttl == old(ttl)
    {
      ChainedStamp(rows, Matching(rows, param), clock, nextId, clock);
      rows := StampWhere(rows, Matching(rows, param), clock);
    }

    /** Stream: poll until the exit flag is seen, sending each non-empty batch
        and pausing after an empty or failed poll. `faults` gives the storage
        fault of each poll and bounds the number of polls; another goroutine's
        StopConsumer lands just before exit check number `stopAt`. Every
        message sent is a row that was unclaimed when Stream started; a batch
        of several rows is not stamped and may be sent again. */
    method Stream(size: int, pause: int, faults: seq<Option<nat>>, stopAt: nat)
      returns (trace: seq<Event>, closed: bool)
      requires Valid()
      modifies this
      ensures Valid()
      ensures StreamTrace(trace, closed)
      ensures closed == (old(exit) || stopAt <= |faults|) && exit == closed
      ensures Polls(trace) == if old(exit) then 0 else Min(stopAt, |faults|)
      ensures Stamped(old(rows), rows) && Offered(old(rows), Delivered(trace))
      ensures nextId == old(nextId) && ttl == old(ttl)
    {
      trace := [];
      var polls := 0;
      StampedRefl(rows);
      while true
        invariant Valid() && nextId == old(nextId) && ttl == old(ttl)
        invariant exit == old(exit) && (exit ==> polls == 0)
        invariant polls <= |faults| && polls <= stopAt
        invariant Rounds(trace) && Polls(trace) == polls
        invariant Stamped(old(rows), rows) && Offered(old(rows), Delivered(trace))
        decreases |faults| - polls
      {
        var ended;
        trace, polls, ended, closed := Cycle(size, pause, faults, stopAt, polls, trace, old(rows));
        if ended {
          return;
        }
      }
    }

    /** One pass of Stream's outer loop: the inner loop, then the pause when
        the inner loop stopped at an empty or failed poll. */
    method Cycle(size: int, pause: int, faults: seq<Option<nat>>, stopAt: nat, polls0: nat, trace0: seq<Event>,
                 ghost start: seq<Row>)
      returns (trace: seq<Event>, polls: nat, ended: bool, closed: bool)
      requires Valid()
      requires (exit ==> polls0 == 0) && polls0 <= |faults| && polls0 <= stopAt
      requires Rounds(trace0) && Polls(trace0) == polls0
      requires Stamped(start, rows) && Offered(start, Delivered(trace0))
      modifies this
      ensures Valid() && nextId == old(nextId) && ttl == old(ttl)
      ensures polls0 <= polls <= |faults| && polls <= stopAt && Polls(trace) == polls
      ensures Stamped(start, rows) && Offered(start, Delivered(trace))
      ensures old(exit) ==> ended && closed && polls == polls0
      ensures ended && closed ==> StreamTrace(trace, true) && exit && (old(exit) || polls == stopAt)
      ensures ended && !closed ==> Rounds(trace) && polls == |faults| && polls < stopAt && exit == old(exit)
      ensures !ended ==> !closed && exit == old(exit) && polls0 < polls && Rounds(trace)
    {
      ghost var done, poll;
      trace, polls, ended, closed, done, poll := Burst(size, faults, stopAt, polls0, trace0, start);
      if ended {
        return;
      }
      Pause(done, poll);
      trace := trace + [Paused];
      Sleep(pause);
    }

    /** time.Sleep: the store's clock moves on by the pause (a negative pause
        returns at once). */
    method Sleep(pause: int)
      requires Valid()
      modifies this
      ensures Valid() && clock == old(clock) + (if pause > 0 then pause else 0)
      ensures rows == old(rows) && nextId == old(nextId) && ttl == old(ttl) && exit == old(exit)
    {
      clock := clock + if pause > 0 then pause else 0;
    }

    /** Stream's inner loop: poll and send until a poll comes back empty or
        failed (the last event is then that poll), until exit is seen (the
        channel is then closed), or until the polls run out. */
    method Burst(size: int, faults: seq<Option<nat>>, stopAt: nat, polls0: nat, trace0: seq<Event>,
                 ghost start: seq<Row>)
      returns (trace: seq<Event>, polls: nat, ended: bool, closed: bool, ghost done: seq<Event>, ghost poll: Event)
      requires Valid()
      requires (exit ==> polls0 == 0) && polls0 <= |faults| && polls0 <= stopAt
      requires Rounds(trace0) && Polls(trace0) == polls0
      requires Stamped(start, rows) && Offered(start, Delivered(trace0))
      modifies this
      ensures Valid() && nextId == old(nextId) && ttl == old(ttl) && clock == old(clock)
      ensures polls0 <= polls <= |faults| && polls <= stopAt
      ensures Stamped(start, rows) && Offered(start, Delivered(trace))
      ensures old(exit) ==> ended && closed && polls == polls0
      ensures ended && closed ==> StreamTrace(trace, true) && exit && (old(exit) || polls == stopAt)
                                  && Polls(trace) == polls
      ensures ended && !closed ==> Rounds(trace) && Polls(trace) == polls && polls == |faults| && polls < stopAt
                                   && exit == old(exit)
      ensures !ended ==> !closed && exit == old(exit) && polls0 < polls
                         && Rounds(done) && poll.Polled? && !Delivers(poll) && trace == done + [poll]
                         && Polls(trace) == polls
    {
      trace, polls, closed := trace0, polls0, false;
      done, poll := [], Paused;
      while true
        invariant Valid() && nextId == old(nextId) && ttl == old(ttl) && clock == old(clock)
        invariant exit == old(exit) && (exit ==> polls == 0)
        invariant polls0 <= polls <= |faults| && polls <= stopAt
        invariant Rounds(trace) && Polls(trace) == polls
        invariant Stamped(start, rows) && Offered(start, Delivered(trace))
        decreases |faults| - polls
      {
        if polls == stopAt {
          StopConsumer();
        }
        if Exit() {
          Closing(trace);
          trace := trace + [Closed];
          return trace, polls, true, true, done, poll;
        }
        if polls == |faults| {
          return trace, polls, true, false, done, poll;
        }
        var delivered;
        done := trace;
        trace, delivered, poll := PollAndSend(size, faults[polls], trace, start);
        polls := polls + 1;
        if !delivered {
          return trace, polls, false, false, done, poll;
        }
      }
    }

    /** One ConsumeBatch call of the inner loop and, when it returns a
        non-empty batch without error, the send of that batch, which consists
        of rows unclaimed at the start. */
    method PollAndSend(size: int, fault: Option<nat>, trace0: seq<Event>, ghost start: seq<Row>)
      returns (trace: seq<Event>, delivered: bool, ghost poll: Event)
      requires Valid() && Rounds(trace0)
      requires Stamped(start, rows) && Offered(start, Delivered(trace0))
      modifies this
      ensures Valid() && nextId == old(nextId) && ttl == old(ttl) && clock == old(clock) && exit == old(exit)
      ensures Stamped(start, rows) && Offered(start, Delivered(trace))
      ensures Polls(trace) == Polls(trace0) + 1
      ensures delivered ==> Rounds(trace)
      ensures !delivered ==> poll.Polled? && !Delivers(poll) && trace == trace0 + [poll]
    {
      ghost var sent := Delivered(trace0);
      var ms, err := Poll(size, fault, start, sent);
      var e := Polled(ms, err);
      poll := e;
      Step(trace0, e);
      if |ms| == 0 || err.Some? {
        return trace0 + [e], false, e;
      }
      trace := trace0 + [e];
      Step(trace, Sent(ms));
      Round(trace0, e);
      trace := trace + [Sent(ms)];
      assert Delivered(trace) == sent + ms;
      delivered := true;
    }

    /** ConsumeBatch as Stream sees it: a batch returned without error
        consists of rows unclaimed in `start`, and the table keeps every row
        and checkout of `start`. */
    method Poll(size: int, fault: Option<nat>, ghost start: seq<Row>, ghost sent: seq<ConsumerMessage>)
      returns (ms: seq<ConsumerMessage>, err: Option<Error>)
      requires Valid() && Stamped(start, rows) && Offered(start, sent)
      modifies this
      ensures Valid() && nextId == old(nextId) && ttl == old(ttl) && clock == old(clock) && exit == old(exit)
      ensures Stamped(start, rows)
      ensures err.None? ==> Offered(start, sent + ms)
    {
      ghost var before := rows;
      ms, err := ConsumeBatch(size, fault);
      if err.None? {
        SelectKeeps(start, before, sent, SelectLimit(size, before), clock, nextId, clock);
      }
    }
  }

  /** One select, stamped or not, keeps the rows of `start` and adds only
      rows unclaimed in `start` to what was sent. */
  lemma SelectKeeps(start: seq<Row>, rows: seq<Row>, sent: seq<ConsumerMessage>, limit: nat, now: int,
                    nextId: int, clock: int)
    requires Chained(rows, nextId, clock)
    requires Stamped(start, rows) && Offered(start, sent)
    ensures Stamped(start, if |Pick(rows, limit)| == 1 then Claim(rows, limit, now) else rows)
    ensures Offered(start, sent + ToMessages(Pick(rows, limit)))
  {
    ChainedIff(rows, nextId, clock);
    ClaimStamps(start, rows, limit, now, nextId, clock);
    PickOffered(start, rows, sent, limit);
  }

  /** The publish-and-consume round trip of the liteq tests, on a queue with
      nothing waiting: one published message comes back from a batch of size
      one under its new id, Commit reports its refused delete, and a second
      batch comes back empty because the first one stamped the row. */
  method PublishConsumeScenario(l: Liteq, payload: Payload)
    returns (first: seq<ConsumerMessage>, second: seq<ConsumerMessage>, commitErr: Option<Error>)
    requires l.Valid() && l.ttl <= 0 && AvailableRows(l.rows) == []
    modifies l
    ensures first == [ConsumerMessage(Message(payload), old(l.nextId))]
    ensures commitErr.Some? && second == []
  {
    ghost var rows0, id := l.rows, l.nextId;
    var publishErr := l.Publish([Message(payload)], None);
    assert Payloads([Message(payload)][..1]) == [payload];
    ghost var published := l.rows;
    assert published == rows0 + NewRows(id, l.clock, [payload]);
    ChainedIff(published, l.nextId, l.clock);
    OneRoundTrip(rows0, id, l.clock, payload, l.nextId);
    var err;
    first, err := l.ConsumeBatch(1, None);
    commitErr := l.Commit([Receipt(first[0].id, true)]);
    second, err := l.ConsumeBatch(1, None);
  }

  /** The table side of the round trip: one new row is the one row a pick of
      one returns, and once it is claimed a pick of one returns nothing. */
  lemma OneRoundTrip(rows: seq<Row>, id: int, now: int, payload: Payload, nextId: int)
    requires AvailableRows(rows) == []
    requires Wellformed(rows + NewRows(id, now, [payload]), nextId, now)
    ensures var p := rows + NewRows(id, now, [payload]);
      && ToMessages(Pick(p, 1)) == [ConsumerMessage(Message(payload), id)]
      && Pick(Claim(p, 1, now), 1) == []
  {
    var p := rows + NewRows(id, now, [payload]);
    PublishThenClaim(rows, id, now, [payload], 1);
    AvailableAfterInsert(rows, id, now, [payload]);
    ClaimAll(p, 1, now, nextId, now);
    PickIsPrefix(Claim(p, 1, now), 1);
  }
}
