/** The topic queue, mq/q.go: rows carry a topic and no checkout, Consumer
    selects the oldest rows of one topic without marking them, and the rows
    named by successful receipts are deleted once the receipt channel is
    drained. */
module Mq {
  import opened Gq
  import opened Text
  import Table
  import Engine

  // ---------------------------------------------------------------------------
  // Values

  /** `Message`: a payload published under a topic. */
  datatype TopicMessage = TopicMessage(topic: string, payload: Payload)

  /** `ConsumerMessage`: a message with the id of the row it came from. */
  datatype TopicConsumerMessage = TopicConsumerMessage(message: TopicMessage, id: int)

  /** A row of the topic table: sequence id, insertion time, topic, payload. */
  datatype TopicRow = TopicRow(id: int, timestamp: int, topic: string, payload: Payload)

  // ---------------------------------------------------------------------------
  // Schema

  /** `createSchema`, between its five `%s` verbs. */
  const CreateFormat: Format := [
    "\nCREATE SEQUENCE IF NOT EXISTS ",
    "q_id_seq" + ";\nCREATE TABLE IF NOT EXISTS ",
    "q" + " (\n\tid INT8 NOT NULL DEFAULT nextval('",
    "q_id_seq" + "') PRIMARY KEY,\n\ttimestamp TIMESTAMP NOT NULL DEFAULt now(),\n\ttopic TEXT,\n\tpayload BYTEA\n);\nCREATE INDEX IF NOT EXISTS ",
    "q_timestamp_idx" + " ON ",
    "q" + " (topic, timestamp ASC);\n"]

  /** `dropScrema`, between its two verbs. */
  const DropFormat: Format := ["\nDROP TABLE IF EXISTS ", "q" + ";\nDROP SEQUENCE IF EXISTS ", "q_id_seq" + ";\n"]

  /** The script CreateSchema executes: the sequence, the table with a topic
      column and no checkout, and the index over topic then timestamp. */
  function CreateText(prefix: string): (s: string)
    ensures s == Engine.TopicSchemaScript(Engine.SequenceName(prefix), Engine.TableName(prefix), Engine.IndexName(prefix))
  {
    SprintfFillsEveryVerb(CreateFormat, prefix);
    Regroup6(CreateFormat, prefix,
      "q_id_seq", ";\nCREATE TABLE IF NOT EXISTS ",
      "q", " (\n\tid INT8 NOT NULL DEFAULT nextval('",
      "q_id_seq", "') PRIMARY KEY,\n\ttimestamp TIMESTAMP NOT NULL DEFAULt now(),\n\ttopic TEXT,\n\tpayload BYTEA\n);\nCREATE INDEX IF NOT EXISTS ",
      "q_timestamp_idx", " ON ",
      "q", " (topic, timestamp ASC);\n");
    Sprintf(CreateFormat, Repeat(prefix, 5))
  }

  /** The script DropSchema executes: drop the table, then its sequence. */
  function DestroyText(prefix: string): (s: string)
    ensures s == Engine.DropScript(Engine.TableName(prefix), Engine.SequenceName(prefix))
  {
    SprintfFillsEveryVerb(DropFormat, prefix);
    Regroup3(DropFormat, prefix, "q", ";\nDROP SEQUENCE IF EXISTS ", "q_id_seq", ";\n");
    Sprintf(DropFormat, Repeat(prefix, 2))
  }

  // ---------------------------------------------------------------------------
  // Statements

  const SelectFormat: Format :=
    ["SELECT id, topic, payload FROM ", "q WHERE topic = $1 " + "ORDER BY timestamp ASC " + "FOR UPDATE SKIP LOCKED " + "LIMIT $2;"]

  /** Consumer's select. */
  function SelectQuery(prefix: string): string
  {
    Sprintf(SelectFormat, [prefix])
  }

  lemma SelectQueryPrepares(prefix: string)
    ensures SelectQuery(prefix) == Engine.TopicSelectStatement(prefix)
    ensures Engine.PgPrepares(SelectQuery(prefix), prefix)
  {
    Sprintf2(SelectFormat, prefix);
  }

  /** Consumer's delete, bound to the id array. */
  function DeleteQuery(prefix: string): string
  {
    Sprintf(["DELETE FROM ", "q WHERE id = ANY($1)"], [prefix])
  }

  lemma DeleteQueryPrepares(prefix: string)
    ensures DeleteQuery(prefix) == Engine.DeleteAnyStatement(prefix)
    ensures Engine.PgPrepares(DeleteQuery(prefix), prefix)
  {
    Sprintf2(["DELETE FROM ", "q WHERE id = ANY($1)"], prefix);
  }

  // ---------------------------------------------------------------------------
  // The topic table

  /** Ids increase along the table and timestamps do not decrease; every id is
      below the next sequence value and every timestamp at most the clock. */
  predicate TopicWellformed(rows: seq<TopicRow>, nextId: int, clock: int)
  {
    && (forall i, j :: 0 <= i < j < |rows| ==> rows[i].id < rows[j].id && rows[i].timestamp <= rows[j].timestamp)
    && (forall i :: 0 <= i < |rows| ==> rows[i].id < nextId && rows[i].timestamp <= clock)
  }

  /** The rows of one topic, in table order. */
  function OnTopic(rows: seq<TopicRow>, topic: string): seq<TopicRow>
  {
    if rows == [] then []
    else (if rows[0].topic == topic then [rows[0]] else []) + OnTopic(rows[1..], topic)
  }

  /** `WHERE topic = $1 ORDER BY timestamp ASC LIMIT $2`: the first `limit`
      rows of the topic. */
  function Select(rows: seq<TopicRow>, topic: string, limit: nat): seq<TopicRow>
  {
    var t := OnTopic(rows, topic);
    t[..Table.Min(limit, |t|)]
  }

  /** `DELETE … WHERE id = ANY($1)`: drop the rows whose id is listed. */
  function DeleteIds(rows: seq<TopicRow>, ids: set<int>): seq<TopicRow>
  {
    if rows == [] then []
    else (if rows[0].id in ids then [] else [rows[0]]) + DeleteIds(rows[1..], ids)
  }

  /** The rows a COPY of `messages` adds: consecutive ids from the sequence,
      the current time, and each message's topic and payload. */
  function NewTopicRows(nextId: int, now: int, messages: seq<TopicMessage>): (rs: seq<TopicRow>)
  {
    seq(|messages|, i requires 0 <= i < |messages| => TopicRow(nextId + i, now, messages[i].topic, messages[i].payload))
  }

  /** The messages a select returns, one per row. */
  function ToTopicMessages(rows: seq<TopicRow>): seq<TopicConsumerMessage>
  {
    seq(|rows|, i requires 0 <= i < |rows| => TopicConsumerMessage(TopicMessage(rows[i].topic, rows[i].payload), rows[i].id))
  }

  // ---------------------------------------------------------------------------
  // Lemmas

  /** The topic filter keeps exactly the rows of the topic. */
  lemma {:induction false} OnTopicMembers(rows: seq<TopicRow>, topic: string)
    ensures forall r :: r in OnTopic(rows, topic) <==> r in rows && r.topic == topic
  {
    if rows != [] {
      OnTopicMembers(rows[1..], topic);
      assert rows == [rows[0]] + rows[1..];
    }
  }

  /** The topic filter keeps table order, so a well-formed table gives a
      well-formed list of topic rows. */
  lemma {:induction false} OnTopicWellformed(rows: seq<TopicRow>, topic: string, nextId: int, clock: int)
    requires TopicWellformed(rows, nextId, clock)
    ensures TopicWellformed(OnTopic(rows, topic), nextId, clock)
  {
    if rows != [] {
      var tail := rows[1..];
      TopicUncons(rows, nextId, clock);
      OnTopicWellformed(tail, topic, nextId, clock);
      OnTopicMembers(tail, topic);
      var t := OnTopic(tail, topic);
      if rows[0].topic == topic {
        TopicCons(rows[0], t, nextId, clock);
      } else {
        assert OnTopic(rows, topic) == [] + t;
      }
    }
  }

  /** A well-formed table is a first row older than, and below, all the rest,
      followed by a well-formed table. */
  lemma TopicUncons(rows: seq<TopicRow>, nextId: int, clock: int)
    requires rows != [] && TopicWellformed(rows, nextId, clock)
    ensures TopicWellformed(rows[1..], nextId, clock)
    ensures rows[0].id < nextId && rows[0].timestamp <= clock
    ensures forall r :: r in rows[1..] ==> rows[0].id < r.id && rows[0].timestamp <= r.timestamp
  {
    var tail := rows[1..];
    forall i, j | 0 <= i < j < |tail| ensures tail[i].id < tail[j].id && tail[i].timestamp <= tail[j].timestamp {
      assert tail[i] == rows[i + 1] && tail[j] == rows[j + 1];
    }
    forall r | r in tail ensures rows[0].id < r.id && rows[0].timestamp <= r.timestamp {
      var j :| 0 <= j < |tail| && tail[j] == r;
      assert rows[j + 1] == r;
    }
  }

  lemma TopicCons(h: TopicRow, t: seq<TopicRow>, nextId: int, clock: int)
    requires TopicWellformed(t, nextId, clock)
    requires h.id < nextId && h.timestamp <= clock
    requires forall r :: r in t ==> h.id < r.id && h.timestamp <= r.timestamp
    ensures TopicWellformed([h] + t, nextId, clock)
  {
    var rows := [h] + t;
    forall i, j | 0 <= i < j < |rows| ensures rows[i].id < rows[j].id && rows[i].timestamp <= rows[j].timestamp {
      assert rows[j] == t[j - 1];
      if i > 0 {
        assert rows[i] == t[i - 1];
      }
    }
  }

  /** The select rule of Consumer: at most `limit` rows, all of the requested
      topic and taken from the table; in timestamp order; every row of the
      topic when there are no more than `limit`; and no row of the topic left
      out is strictly older than one selected. */
  lemma SelectRule(rows: seq<TopicRow>, topic: string, limit: nat, nextId: int, clock: int)
    requires TopicWellformed(rows, nextId, clock)
    ensures |Select(rows, topic, limit)| <= limit
    ensures forall r :: r in Select(rows, topic, limit) ==> r in rows && r.topic == topic
    ensures var s := Select(rows, topic, limit);
      forall i, j :: 0 <= i < j < |s| ==> s[i].timestamp <= s[j].timestamp
    ensures |OnTopic(rows, topic)| <= limit ==>
      forall r :: r in rows && r.topic == topic ==> r in Select(rows, topic, limit)
    ensures forall r, p ::
      r in rows && r.topic == topic && r !in Select(rows, topic, limit) && p in Select(rows, topic, limit) ==>
      p.timestamp <= r.timestamp
  {
    var t := OnTopic(rows, topic);
    OnTopicMembers(rows, topic);
    OnTopicWellformed(rows, topic, nextId, clock);
    PrefixRule(t, Table.Min(limit, |t|));
    assert t[..|t|] == t;
  }

  /** A prefix of a list in timestamp order keeps that order, takes its rows
      from the list, and leaves behind no row strictly older than one it
      holds. */
  lemma PrefixRule(t: seq<TopicRow>, m: nat)
    requires m <= |t|
    requires forall i, j :: 0 <= i < j < |t| ==> t[i].timestamp <= t[j].timestamp
    ensures forall i, j :: 0 <= i < j < m ==> t[..m][i].timestamp <= t[..m][j].timestamp
    ensures forall r :: r in t[..m] ==> r in t
    ensures forall r, p :: r in t && r !in t[..m] && p in t[..m] ==> p.timestamp <= r.timestamp
  {
    var s := t[..m];
    forall r | r in s ensures r in t {
      var k :| 0 <= k < |s| && s[k] == r;
      assert t[k] == r;
    }
    forall r, p | r in t && r !in s && p in s ensures p.timestamp <= r.timestamp {
      var j :| 0 <= j < |t| && t[j] == r;
      var i :| 0 <= i < |s| && s[i] == p;
      assert t[i] == p;
    }
  }

  /** Deleting keeps exactly the rows whose id is not listed, in table order. */
  lemma {:induction false} DeleteIdsMembers(rows: seq<TopicRow>, ids: set<int>)
    ensures forall r :: r in DeleteIds(rows, ids) <==> r in rows && r.id !in ids
    ensures |DeleteIds(rows, ids)| <= |rows|
  {
    if rows != [] {
      DeleteIdsMembers(rows[1..], ids);
      assert rows == [rows[0]] + rows[1..];
    }
  }

  /** Ids that name no row leave the table unchanged. */
  lemma {:induction false} DeleteIdsUnknown(rows: seq<TopicRow>, ids: set<int>)
    requires forall r :: r in rows ==> r.id !in ids
    ensures DeleteIds(rows, ids) == rows
  {
    if rows != [] {
      assert rows[0] in rows;
      assert forall r :: r in rows[1..] ==> r in rows;
      DeleteIdsUnknown(rows[1..], ids);
      assert rows == [rows[0]] + rows[1..];
    }
  }

  /** Deleting keeps the table well formed. */
  lemma {:induction false} DeleteIdsWellformed(rows: seq<TopicRow>, ids: set<int>, nextId: int, clock: int)
    requires TopicWellformed(rows, nextId, clock)
    ensures TopicWellformed(DeleteIds(rows, ids), nextId, clock)
  {
    if rows != [] {
      var tail := rows[1..];
      TopicUncons(rows, nextId, clock);
      DeleteIdsWellformed(tail, ids, nextId, clock);
      DeleteIdsMembers(tail, ids);
      var d := DeleteIds(tail, ids);
      if rows[0].id !in ids {
        TopicCons(rows[0], d, nextId, clock);
      } else {
        assert DeleteIds(rows, ids) == [] + d;
      }
    }
  }

  /** The receipt-driven delete removes exactly the rows named by successful
      receipts; failed receipts change nothing. */
  lemma ReceiptDelete(rows: seq<TopicRow>, a: seq<Receipt>, failed: seq<Receipt>, b: seq<Receipt>)
    requires forall r :: r in failed ==> !r.success
    ensures forall r :: r in DeleteIds(rows, SuccessIdSet(a + failed + b)) <==>
      r in rows && r.id !in SuccessIds(a) && r.id !in SuccessIds(b)
  {
    FailedReceiptsIgnored(a, failed, b);
    SuccessIdsAppend(a, b);
    DeleteIdsMembers(rows, SuccessIdSet(a + failed + b));
  }

  /** Appending new rows keeps the table well formed; the new rows carry the
      published messages in order. */
  lemma AppendTopicRows(rows: seq<TopicRow>, nextId: int, clock: int, messages: seq<TopicMessage>)
    requires TopicWellformed(rows, nextId, clock)
    ensures TopicWellformed(rows + NewTopicRows(nextId, clock, messages), nextId + |messages|, clock)
    ensures ToTopicMessages(NewTopicRows(nextId, clock, messages)) ==
      seq(|messages|, i requires 0 <= i < |messages| => TopicConsumerMessage(messages[i], nextId + i))
  {
    var n := NewTopicRows(nextId, clock, messages);
    var s := rows + n;
    forall i, j | 0 <= i < j < |s| ensures s[i].id < s[j].id && s[i].timestamp <= s[j].timestamp {
      if j >= |rows| && i < |rows| {
        assert s[i] == rows[i] && s[j] == n[j - |rows|];
      }
    }
  }

  // ---------------------------------------------------------------------------
  // The queue handle

  /** Whether a COPY of `n` rows reaches the table when storage call `failAt`
      fails. The calls are numbered in the order Publish makes them: Begin (0),
      Prepare (1), one Exec per message (2 .. n+1), the flushing Exec (n+2) and
      the deferred transaction Commit (n+3). */
  predicate Copied(failAt: Option<nat>, n: nat)
  {
    failAt.None? || failAt.value > n + 3
  }

  class Pgmq {
    const prefix: string
    /** The topic table, the next value of its id sequence, and the current time. */
    var rows: seq<TopicRow>
    var nextId: int
    var clock: int

    predicate Valid()
      reads this
    {
      TopicWellformed(rows, nextId, clock)
    }

    /** NewPgmq: a handle on a store that already holds the given table. */
    constructor (prefix: string, rows: seq<TopicRow>, nextId: int, clock: int)
      requires TopicWellformed(rows, nextId, clock)
      ensures Valid() && this.prefix == prefix
      ensures this.rows == rows && this.nextId == nextId && this.clock == clock
    {
      this.prefix := prefix;
      this.rows := rows;
      this.nextId := nextId;
      this.clock := clock;
    }

    /** Publish: COPY the (topic, payload) pairs in; the batch lands whole or
        not at all, and a failing deferred Commit loses it unreported. */
    method Publish(messages: seq<TopicMessage>, failAt: Option<nat>) returns (err: Option<Error>)
      requires Valid()
      modifies this
      ensures Valid()
      ensures err.Some? <==> failAt.Some? && failAt.value <= |messages| + 2
      ensures Copied(failAt, |messages|) ==>
        rows == old(rows) + NewTopicRows(old(nextId), clock, messages) && nextId == old(nextId) + |messages|
      ensures !Copied(failAt, |messages|) ==> rows == old(rows) && nextId == old(nextId)
      ensures clock == old(clock)
    {
      if failAt == Some(0) || failAt == Some(1) {
        return Some(StorageFailure);
      }
      var buffered: seq<TopicMessage> := [];
      for i := 0 to |messages|
        invariant buffered == messages[..i]
        invariant !(failAt.Some? && failAt.value < i + 2)
      {
        if failAt == Some(i + 2) {
          return Some(StorageFailure);
        }
        buffered := buffered + [TopicMessage(messages[i].topic, messages[i].payload)];
        assert messages[..i + 1] == messages[..i] + [messages[i]];
      }
      assert buffered == messages;
      if failAt == Some(|messages| + 2) {
        return Some(StorageFailure);
      }
      if failAt == Some(|messages| + 3) {
        return None;
      }
      CopyIn(buffered);
      err := None;
    }

    /** The store's side of a committed COPY. */
    method CopyIn(messages: seq<TopicMessage>)
      requires Valid()
      modifies this
      ensures Valid()
      ensures rows == old(rows) + NewTopicRows(old(nextId), clock, messages) && nextId == old(nextId) + |messages|
      ensures clock == old(clock)
    {
      AppendTopicRows(rows, nextId, clock, messages);
      rows := rows + NewTopicRows(nextId, clock, messages);
      nextId := nextId + |messages|;
    }

    /** Consumer: select up to `size` rows of `topic`, oldest first, and
        return them; nothing marks them. Calls: Begin (0), Prepare of the
        select (1), Prepare of the delete (2), Query (3); a negative size is
        refused by PostgreSQL. Once the query has run, the receipt goroutine
        deletes the rows of the successful receipts, unless the deferred Close
        of the delete statement comes first (`deleteRuns` false) or its Exec
        (call 4) fails; either way its error goes unreported. */
    method Consumer(topic: string, size: int, receipts: seq<Receipt>, deleteRuns: bool, failAt: Option<nat>)
      returns (ms: seq<TopicConsumerMessage>, err: Option<Error>)
      requires Valid()
      modifies this
      ensures Valid()
      ensures err.None? <==> 0 <= size && (failAt.None? || failAt.value > 3)
      ensures err.Some? ==> ms == [] && rows == old(rows)
      ensures err.None? ==> ms == ToTopicMessages(Select(old(rows), topic, size))
      ensures err.None? && deleteRuns && failAt != Some(4) ==> rows == DeleteIds(old(rows), SuccessIdSet(receipts))
      ensures !(err.None? && deleteRuns && failAt != Some(4)) ==> rows == old(rows)
      ensures nextId == old(nextId) && clock == old(clock)
    {
      ms := [];
      err := Prepare(failAt);
      if err.Some? {
        return;
      }
      if size < 0 {
        return ms, Some(NegativeLimit);
      }
      var selected := Select(rows, topic, size);
      if deleteRuns && failAt != Some(4) {
        DeleteReceipts(receipts);
      }
      ms := ScanTopicRows(selected);
      err := None;
    }

    /** Consumer's Begin (call 0), its two Prepares (calls 1 and 2) and its
        Query (call 3); the engine knows both statements, so only a storage
        fault stops them. */
    method Prepare(failAt: Option<nat>) returns (err: Option<Error>)
      ensures err.None? <==> failAt.None? || failAt.value > 3
      ensures err.Some? ==> err == Some(StorageFailure)
    {
      if failAt == Some(0) {
        return Some(StorageFailure);
      }
      SelectQueryPrepares(prefix);
      if failAt == Some(1) {
        return Some(StorageFailure);
      }
      DeleteQueryPrepares(prefix);
      if failAt == Some(2) || failAt == Some(3) {
        return Some(StorageFailure);
      }
      return None;
    }

    /** The receipt goroutine: collect the ids of the successful receipts
        and delete their rows. */
    method DeleteReceipts(receipts: seq<Receipt>)
      requires Valid()
      modifies this
      ensures Valid() && rows == DeleteIds(old(rows), SuccessIdSet(receipts))
      ensures nextId == old(nextId) && clock == old(clock)
    {
      var deleteIds := CollectSuccessIds(receipts);
      DeleteRows(set x | x in deleteIds);
    }

    /** The store's side of the delete. */
    method DeleteRows(ids: set<int>)
      requires Valid()
      modifies this
      ensures Valid() && rows == DeleteIds(old(rows), ids)
      ensures nextId == old(nextId) && clock == old(clock)
    {
      DeleteIdsWellformed(rows, ids, nextId, clock);
      rows := DeleteIds(rows, ids);
    }
  }

  /** The `rows.Next()` loop of Consumer. */
  method ScanTopicRows(rows: seq<TopicRow>) returns (ms: seq<TopicConsumerMessage>)
    ensures |ms| == |rows|
    ensures forall k :: 0 <= k < |rows| ==>
      ms[k].id == rows[k].id && ms[k].message == TopicMessage(rows[k].topic, rows[k].payload)
    ensures ms == ToTopicMessages(rows)
  {
    ms := [];
    for i := 0 to |rows|
      invariant |ms| == i
      invariant forall k :: 0 <= k < i ==> ms[k] == TopicConsumerMessage(TopicMessage(rows[k].topic, rows[k].payload), rows[k].id)
    {
      ms := ms + [TopicConsumerMessage(TopicMessage(rows[i].topic, rows[i].payload), rows[i].id)];
    }
  }

  /** Two Consumer calls with no delete in between return the same messages:
      a select marks nothing. */
  method ConsumeTwice(q: Pgmq, topic: string, size: nat)
    returns (first: seq<TopicConsumerMessage>, second: seq<TopicConsumerMessage>)
    requires q.Valid()
    modifies q
    ensures first == second
    ensures |first| <= size && forall k :: 0 <= k < |first| ==> first[k].message.topic == topic
  {
    ghost var rows := q.rows;
    SelectRule(rows, topic, size, q.nextId, q.clock);
    var err;
    first, err := q.Consumer(topic, size, [], false, None);
    second, err := q.Consumer(topic, size, [], false, None);
    forall k | 0 <= k < |first| ensures first[k].message.topic == topic {
      assert Select(rows, topic, size)[k] in Select(rows, topic, size);
    }
  }
}
