/** The queue table the backends keep (`id`, `timestamp`, `checkout`,
    `payload`), and what the statements they issue do to it: pick the
    available rows, stamp a checkout time, delete by id, append new rows. */
module Table {
  import opened Gq

  /** One row of `<prefix>q`. Times are integers (nanoseconds) on the store's
      clock; `checkout` is NULL until a consumer claims the row. */
  datatype Row = Row(id: int, timestamp: int, checkout: Option<int>, payload: Payload)

  /** `checkout IS null`. */
  predicate Available(r: Row)
  {
    r.checkout.None?
  }

  /** What the id sequence, the `now()` default and the write order keep true
      of a table: ids strictly increase along the table (the primary key, in
      insertion order), timestamps never decrease, every id is below the next
      value of the sequence and no row is stamped later than the clock. */
  predicate Wellformed(rows: seq<Row>, nextId: int, clock: int)
  {
    && (forall i, j :: 0 <= i < j < |rows| ==> rows[i].id < rows[j].id)
    && (forall i, j :: 0 <= i < j < |rows| ==> rows[i].timestamp <= rows[j].timestamp)
    && (forall i :: 0 <= i < |rows| ==> rows[i].id < nextId && rows[i].timestamp <= clock)
  }

  /** Wellformed, stated from the last row back: the last row's id is below
      the next sequence value and its timestamp at most the clock, and the
      rows before it are chained below the last row's id and timestamp. */
  predicate Chained(rows: seq<Row>, nextId: int, clock: int)
    decreases |rows|
  {
    rows == [] ||
    (&& rows[|rows| - 1].id < nextId && rows[|rows| - 1].timestamp <= clock
     && Chained(rows[..|rows| - 1], rows[|rows| - 1].id, rows[|rows| - 1].timestamp))
  }

  lemma {:induction false} ChainedIff(rows: seq<Row>, nextId: int, clock: int)
    ensures Chained(rows, nextId, clock) <==> Wellformed(rows, nextId, clock)
    decreases |rows|
  {
    if rows != [] {
      var n := |rows|;
      var last := rows[n - 1];
      var init := rows[..n - 1];
      ChainedIff(init, last.id, last.timestamp);
      assert forall i :: 0 <= i < n - 1 ==> init[i] == rows[i];
      if Chained(rows, nextId, clock) {
        forall i, j | 0 <= i < j < n
          ensures rows[i].id < rows[j].id && rows[i].timestamp <= rows[j].timestamp
        {
          if j < n - 1 {
            assert init[i] == rows[i] && init[j] == rows[j];
          } else {
            assert init[i] == rows[i];
          }
        }
        forall i | 0 <= i < n ensures rows[i].id < nextId && rows[i].timestamp <= clock {
          if i < n - 1 {
            assert init[i] == rows[i];
          }
        }
      }
    }
  }

  function IdSet(rows: seq<Row>): set<int>
  {
    set r | r in rows :: r.id
  }

  function IdsOf(rows: seq<Row>): (ids: seq<int>)
    ensures |ids| == |rows|
    ensures forall i :: 0 <= i < |rows| ==> ids[i] == rows[i].id
  {
    seq(|rows|, i requires 0 <= i < |rows| => rows[i].id)
  }

  /** The available rows, in table order. */
  function AvailableRows(rows: seq<Row>): seq<Row>
  {
    if rows == [] then []
    else (if Available(rows[0]) then [rows[0]] else []) + AvailableRows(rows[1..])
  }

  /** The rows `... WHERE checkout IS null ORDER BY timestamp LIMIT limit`
      yields: the first `limit` available rows in table order. Rows with equal
      timestamps may come back in any order from a real engine; the model takes
      table order and states the rule it keeps in `PickRule`. */
  function Pick(rows: seq<Row>, limit: nat): seq<Row>
  {
    if rows == [] || limit == 0 then []
    else if Available(rows[0]) then [rows[0]] + Pick(rows[1..], limit - 1)
    else Pick(rows[1..], limit)
  }

  /** `UPDATE ... SET checkout = now WHERE id IN ids`. */
  function StampWhere(rows: seq<Row>, ids: set<int>, now: int): (result: seq<Row>)
    ensures |result| == |rows|
    ensures forall i :: 0 <= i < |rows| ==>
      result[i] == if rows[i].id in ids then rows[i].(checkout := Some(now)) else rows[i]
  {
    seq(|rows|, i requires 0 <= i < |rows| =>
      if rows[i].id in ids then rows[i].(checkout := Some(now)) else rows[i])
  }

  /** The claim statement's effect: the picked rows get checkout `now`. */
  function Claim(rows: seq<Row>, limit: nat, now: int): seq<Row>
  {
    StampWhere(rows, IdSet(Pick(rows, limit)), now)
  }

  /** `DELETE ... WHERE id = ANY(ids)`. */
  function DeleteWhere(rows: seq<Row>, ids: set<int>): seq<Row>
  {
    if rows == [] then []
    else (if rows[0].id in ids then [] else [rows[0]]) + DeleteWhere(rows[1..], ids)
  }

  /** The rows an insert of `payloads` creates: consecutive ids from the
      sequence, the current time, no checkout. */
  function NewRows(nextId: int, now: int, payloads: seq<Payload>): (rs: seq<Row>)
    ensures |rs| == |payloads|
  {
    seq(|payloads|, i requires 0 <= i < |payloads| => Row(nextId + i, now, None, payloads[i]))
  }

  function Payloads(messages: seq<Message>): (ps: seq<Payload>)
    ensures |ps| == |messages|
  {
    seq(|messages|, i requires 0 <= i < |messages| => messages[i].payload)
  }

  /** The consumer messages a `RETURNING id, payload` (or `SELECT id,
      payload`) result becomes, row by row. */
  function ToMessages(rows: seq<Row>): (ms: seq<ConsumerMessage>)
    ensures |ms| == |rows|
  {
    seq(|rows|, i requires 0 <= i < |rows| => ConsumerMessage(Message(rows[i].payload), rows[i].id))
  }

  /** The `rows.Next()` loop every consumer runs: scan each returned row into
      a consumer message, in result order. */
  method ScanMessages(rows: seq<Row>) returns (ms: seq<ConsumerMessage>)
    ensures ms == ToMessages(rows)
  {
    ms := [];
    for i := 0 to |rows|
      invariant |ms| == i
      invariant forall k :: 0 <= k < i ==> ms[k] == ConsumerMessage(Message(rows[k].payload), rows[k].id)
    {
      ms := ms + [ConsumerMessage(Message(rows[i].payload), rows[i].id)];
    }
  }

  function Min(a: int, b: int): int
  {
    if a <= b then a else b
  }

  // ---------------------------------------------------------------------------
  // Available rows

  /** A row is in the available list exactly when it is an available row of
      the table; the list keeps table order, so ids increase and timestamps do
      not decrease along it. */
  lemma AvailableRowsFacts(rows: seq<Row>, nextId: int, clock: int)
    requires Wellformed(rows, nextId, clock)
    ensures forall r :: r in AvailableRows(rows) <==> r in rows && Available(r)
    ensures Wellformed(AvailableRows(rows), nextId, clock)
    ensures |AvailableRows(rows)| <= |rows|
  {
    AvailableRowsMembers(rows);
    AvailableRowsWellformed(rows, nextId, clock);
  }

  lemma {:induction false} AvailableRowsMembers(rows: seq<Row>)
    ensures forall r :: r in AvailableRows(rows) <==> r in rows && Available(r)
    ensures |AvailableRows(rows)| <= |rows|
  {
    if rows != [] {
      AvailableRowsMembers(rows[1..]);
      assert rows == [rows[0]] + rows[1..];
    }
  }

  lemma {:induction false} AvailableRowsWellformed(rows: seq<Row>, nextId: int, clock: int)
    requires Wellformed(rows, nextId, clock)
    ensures Wellformed(AvailableRows(rows), nextId, clock)
  {
    if rows != [] {
      var tail := rows[1..];
      Uncons(rows, nextId, clock);
      AvailableRowsWellformed(tail, nextId, clock);
      AvailableRowsMembers(tail);
      var at := AvailableRows(tail);
      if Available(rows[0]) {
        Cons(rows[0], at, nextId, clock);
      } else {
        assert AvailableRows(rows) == [] + at;
      }
    }
  }

  /** A well-formed table is a first row older than, and below, all the rest,
      followed by a well-formed table. */
  lemma Uncons(rows: seq<Row>, nextId: int, clock: int)
    requires rows != [] && Wellformed(rows, nextId, clock)
    ensures Wellformed(rows[1..], nextId, clock)
    ensures forall r :: r in rows[1..] ==> rows[0].id < r.id && rows[0].timestamp <= r.timestamp
    ensures forall r :: r in rows <==> r == rows[0] || r in rows[1..]
  {
    var tail := rows[1..];
    forall i, j | 0 <= i < j < |tail| ensures tail[i].id < tail[j].id && tail[i].timestamp <= tail[j].timestamp {
      assert tail[i] == rows[i + 1] && tail[j] == rows[j + 1];
    }
    forall r | r in tail ensures rows[0].id < r.id && rows[0].timestamp <= r.timestamp {
      var j :| 0 <= j < |tail| && tail[j] == r;
      assert rows[j + 1] == r;
    }
    assert rows == [rows[0]] + tail;
  }

  lemma Cons(h: Row, t: seq<Row>, nextId: int, clock: int)
    requires Wellformed(t, nextId, clock)
    requires h.id < nextId && h.timestamp <= clock
    requires forall r :: r in t ==> h.id < r.id && h.timestamp <= r.timestamp
    ensures Wellformed([h] + t, nextId, clock)
  {
    var rows := [h] + t;
    forall i, j | 0 <= i < j < |rows| ensures rows[i].id < rows[j].id && rows[i].timestamp <= rows[j].timestamp {
      assert rows[j] == t[j - 1];
      if i > 0 {
        assert rows[i] == t[i - 1];
      }
    }
  }

  /** Picking `limit` rows is taking the first `limit` available rows. */
  lemma {:induction false} PickIsPrefix(rows: seq<Row>, limit: nat)
    ensures Pick(rows, limit) == AvailableRows(rows)[..Min(limit, |AvailableRows(rows)|)]
  {
    if rows != [] && limit != 0 {
      PickIsPrefix(rows[1..], if Available(rows[0]) then limit - 1 else limit);
    }
  }

  /** The claim rule: at most `limit` rows are picked, all of them available;
      when there are no more than `limit` available rows all are picked; the
      picked rows keep table order (ids increase); and no available row left
      behind is strictly older than a picked one. Ties on timestamp may go
      either way, which is all `ORDER BY timestamp` promises. */
  lemma PickRule(rows: seq<Row>, limit: nat, nextId: int, clock: int)
    requires Wellformed(rows, nextId, clock)
    ensures |Pick(rows, limit)| == Min(limit, |AvailableRows(rows)|)
    ensures forall r :: r in Pick(rows, limit) ==> r in rows && Available(r)
    ensures |AvailableRows(rows)| <= limit ==> forall r :: r in rows && Available(r) ==> r in Pick(rows, limit)
    ensures Wellformed(Pick(rows, limit), nextId, clock)
    ensures forall r, p :: r in rows && Available(r) && r !in Pick(rows, limit) && p in Pick(rows, limit) ==>
      p.timestamp <= r.timestamp
  {
    var a := AvailableRows(rows);
    AvailableRowsFacts(rows, nextId, clock);
    PickIsPrefix(rows, limit);
    var k := Min(limit, |a|);
    assert Pick(rows, limit) == a[..k];
    PrefixFacts(a, k, nextId, clock);
    if |a| <= limit {
      assert a[..k] == a;
    }
  }

  /** A prefix of a well-formed table is well formed, and none of its rows is
      younger than a row after it. */
  lemma PrefixFacts(a: seq<Row>, k: nat, nextId: int, clock: int)
    requires Wellformed(a, nextId, clock) && k <= |a|
    ensures Wellformed(a[..k], nextId, clock)
    ensures forall r, p :: r in a && r !in a[..k] && p in a[..k] ==> p.timestamp <= r.timestamp
  {
    forall r, p | r in a && r !in a[..k] && p in a[..k]
      ensures p.timestamp <= r.timestamp
    {
      var j :| 0 <= j < |a| && a[j] == r;
      var i :| 0 <= i < k && a[..k][i] == p;
      assert j >= k;
      assert a[i] == p;
    }
    assert Wellformed(a[..k], nextId, clock) by {
      forall i, j | 0 <= i < j < k ensures a[..k][i].id < a[..k][j].id && a[..k][i].timestamp <= a[..k][j].timestamp {
        assert a[..k][i] == a[i] && a[..k][j] == a[j];
      }
    }
  }

  /** Every picked id belongs to a picked row and picked ids are distinct. */
  lemma PickedIds(rows: seq<Row>, limit: nat, nextId: int, clock: int)
    requires Wellformed(rows, nextId, clock)
    ensures forall x :: x in IdSet(Pick(rows, limit)) <==> x in IdsOf(Pick(rows, limit))
    ensures forall i, j :: 0 <= i < j < |Pick(rows, limit)| ==> IdsOf(Pick(rows, limit))[i] < IdsOf(Pick(rows, limit))[j]
  {
    PickRule(rows, limit, nextId, clock);
    var p := Pick(rows, limit);
    forall x | x in IdsOf(p) ensures x in IdSet(p) {
      var i :| 0 <= i < |p| && IdsOf(p)[i] == x;
      assert p[i] in p;
    }
  }

  // ---------------------------------------------------------------------------
  // Claim

  /** A claim touches nothing but the checkout of the picked rows: ids,
      payloads, timestamps and every other row stay as they were, and each
      picked row now carries checkout `now`. */
  lemma ClaimEffect(rows: seq<Row>, limit: nat, now: int, nextId: int, clock: int)
    requires Wellformed(rows, nextId, clock)
    ensures |Claim(rows, limit, now)| == |rows|
    ensures forall i :: 0 <= i < |rows| ==>
      && Claim(rows, limit, now)[i].id == rows[i].id
      && Claim(rows, limit, now)[i].payload == rows[i].payload
      && Claim(rows, limit, now)[i].timestamp == rows[i].timestamp
      && Claim(rows, limit, now)[i].checkout == if rows[i] in Pick(rows, limit) then Some(now) else rows[i].checkout
  {
    var p := Pick(rows, limit);
    forall i | 0 <= i < |rows| ensures rows[i].id in IdSet(p) <==> rows[i] in p {
      if rows[i].id in IdSet(p) {
        var r :| r in p && r.id == rows[i].id;
        PickRule(rows, limit, nextId, clock);
        var j :| 0 <= j < |rows| && rows[j] == r;
      }
    }
  }

  /** A row claimed once is never picked again: the next pick, whatever its
      limit, shares no id with the previous one. */
  lemma NoRedelivery(rows: seq<Row>, limit: nat, now: int, limit2: nat)
    ensures IdSet(Pick(Claim(rows, limit, now), limit2)) !! IdSet(Pick(rows, limit))
  {
    var ids := IdSet(Pick(rows, limit));
    var c := Claim(rows, limit, now);
    PickMembers(c, limit2);
    forall x | x in IdSet(Pick(c, limit2)) ensures x !in ids {
      var r :| r in Pick(c, limit2) && r.id == x;
      var i :| 0 <= i < |c| && c[i] == r;
    }
  }

  /** Picked rows are available rows of the table (no well-formedness needed). */
  lemma {:induction false} PickMembers(rows: seq<Row>, limit: nat)
    ensures forall r :: r in Pick(rows, limit) ==> r in rows && Available(r)
    ensures |Pick(rows, limit)| <= limit
  {
    if rows != [] && limit != 0 {
      PickMembers(rows[1..], if Available(rows[0]) then limit - 1 else limit);
    }
  }

  /** Stamping changes checkouts only, so the table stays well formed. */
  lemma StampWellformed(rows: seq<Row>, ids: set<int>, now: int, nextId: int, clock: int)
    requires Wellformed(rows, nextId, clock)
    ensures Wellformed(StampWhere(rows, ids, now), nextId, clock)
  {
  }

  // ---------------------------------------------------------------------------
  // Delete

  /** A row survives a delete exactly when its id is not in the list; the
      survivors keep their order, and ids nobody has are ignored. */
  lemma {:induction false} DeleteFacts(rows: seq<Row>, ids: set<int>, nextId: int, clock: int)
    requires Wellformed(rows, nextId, clock)
    ensures forall r :: r in DeleteWhere(rows, ids) <==> r in rows && r.id !in ids
    ensures Wellformed(DeleteWhere(rows, ids), nextId, clock)
  {
    if rows != [] {
      var tail := rows[1..];
      Uncons(rows, nextId, clock);
      DeleteFacts(tail, ids, nextId, clock);
      var dt := DeleteWhere(tail, ids);
      if rows[0].id !in ids {
        assert DeleteWhere(rows, ids) == [rows[0]] + dt;
        Cons(rows[0], dt, nextId, clock);
      } else {
        assert DeleteWhere(rows, ids) == [] + dt;
      }
    }
  }

  /** Ids that name no row delete nothing. */
  lemma {:induction false} DeleteUnknown(rows: seq<Row>, ids: set<int>)
    requires forall i :: 0 <= i < |rows| ==> rows[i].id !in ids
    ensures DeleteWhere(rows, ids) == rows
  {
    if rows != [] {
      DeleteUnknown(rows[1..], ids);
      assert rows == [rows[0]] + rows[1..];
    }
  }

  /** Two Commits in a row delete what one Commit of both receipt lists
      deletes: deleting in two steps is deleting the union. */
  lemma {:induction false} DeleteUnion(rows: seq<Row>, a: set<int>, b: set<int>)
    ensures DeleteWhere(DeleteWhere(rows, a), b) == DeleteWhere(rows, a + b)
  {
    if rows != [] {
      DeleteUnion(rows[1..], a, b);
      var t := DeleteWhere(rows[1..], a);
      if rows[0].id !in a {
        assert DeleteWhere(rows, a) == [rows[0]] + t;
        assert ([rows[0]] + t)[1..] == t;
      } else {
        assert DeleteWhere(rows, a) == [] + t;
        assert [] + t == t;
      }
    }
  }

  // ---------------------------------------------------------------------------
  // Insert

  /** New rows get fresh ids above every existing one, the current time and no
      checkout; appended to a well-formed table they keep it well formed. */
  lemma AppendNewRows(rows: seq<Row>, nextId: int, clock: int, payloads: seq<Payload>)
    requires Wellformed(rows, nextId, clock)
    ensures Wellformed(rows + NewRows(nextId, clock, payloads), nextId + |payloads|, clock)
    ensures forall i :: 0 <= i < |payloads| ==> Available(NewRows(nextId, clock, payloads)[i])
    ensures forall r, s :: r in rows && s in NewRows(nextId, clock, payloads) ==> r.id < s.id
  {
  }

  /** A table with no available rows, after an insert, offers exactly the new
      rows: a pick large enough returns all of them in insertion order. */
  lemma {:induction false} AvailableAfterInsert(rows: seq<Row>, nextId: int, now: int, payloads: seq<Payload>)
    ensures AvailableRows(rows + NewRows(nextId, now, payloads)) == AvailableRows(rows) + NewRows(nextId, now, payloads)
    decreases |rows|
  {
    var n := NewRows(nextId, now, payloads);
    if rows == [] {
      assert rows + n == n;
      AllAvailable(n);
    } else {
      var h := if Available(rows[0]) then [rows[0]] else [];
      var a := AvailableRows(rows[1..]);
      assert (rows + n)[0] == rows[0];
      assert (rows + n)[1..] == rows[1..] + n;
      AvailableAfterInsert(rows[1..], nextId, now, payloads);
      assert AvailableRows(rows + n) == h + (a + n);
      assert AvailableRows(rows) == h + a;
      Assoc(h, a, n);
    }
  }

  lemma {:induction false} AllAvailable(rows: seq<Row>)
    requires forall i :: 0 <= i < |rows| ==> Available(rows[i])
    ensures AvailableRows(rows) == rows
  {
    if rows != [] {
      AllAvailable(rows[1..]);
      assert rows == [rows[0]] + rows[1..];
    }
  }

  /** Publishing into a table with nothing available and then claiming at
      least as many rows as were published returns exactly the published
      payloads, in order, under the new ids. */
  lemma PublishThenClaim(rows: seq<Row>, nextId: int, now: int, payloads: seq<Payload>, limit: nat)
    requires AvailableRows(rows) == []
    requires |payloads| <= limit
    ensures Pick(rows + NewRows(nextId, now, payloads), limit) == NewRows(nextId, now, payloads)
    ensures ToMessages(Pick(rows + NewRows(nextId, now, payloads), limit)) ==
      seq(|payloads|, i requires 0 <= i < |payloads| => ConsumerMessage(Message(payloads[i]), nextId + i))
  {
    var n := NewRows(nextId, now, payloads);
    AvailableAfterInsert(rows, nextId, now, payloads);
    PickIsPrefix(rows + n, limit);
    assert AvailableRows(rows + n) == n;
    assert n[..|n|] == n;
    NewMessages(nextId, now, payloads);
  }

  /** The messages new rows become: each payload with its sequence id. */
  lemma NewMessages(nextId: int, now: int, payloads: seq<Payload>)
    ensures ToMessages(NewRows(nextId, now, payloads)) ==
      seq(|payloads|, i requires 0 <= i < |payloads| => ConsumerMessage(Message(payloads[i]), nextId + i))
  {
    var ms := ToMessages(NewRows(nextId, now, payloads));
    var e := seq(|payloads|, i requires 0 <= i < |payloads| => ConsumerMessage(Message(payloads[i]), nextId + i));
    forall i | 0 <= i < |e| ensures ms[i] == e[i] {
    }
  }

  /** The receipts of a consumer that handled every message of a batch: one
      successful receipt per message, in batch order. */
  function AllSucceeded(ms: seq<ConsumerMessage>): (rs: seq<Receipt>)
    ensures |rs| == |ms|
    ensures forall i :: 0 <= i < |ms| ==> rs[i].id == ms[i].id && rs[i].success
  {
    seq(|ms|, i requires 0 <= i < |ms| => Receipt(ms[i].id, true))
  }

  /** A claim whose limit covers every unclaimed row, then a Commit with a
      successful receipt for every message it returned: the table keeps
      exactly the rows that were claimed before the claim, so the queue is
      drained and no other row is lost. */
  lemma ClaimAllThenCommit(rows: seq<Row>, limit: nat, now: int, nextId: int, clock: int)
    requires Wellformed(rows, nextId, clock)
    requires |AvailableRows(rows)| <= limit
    ensures var after := DeleteWhere(Claim(rows, limit, now), SuccessIdSet(AllSucceeded(ToMessages(Pick(rows, limit)))));
      && (forall r :: r in after <==> r in rows && !Available(r))
      && AvailableRows(after) == []
  {
    var p := Pick(rows, limit);
    AllSucceededIds(p);
    ClaimedSurvive(rows, limit, now, nextId, clock);
    var after := DeleteWhere(Claim(rows, limit, now), IdSet(p));
    forall k | 0 <= k < |after| ensures !Available(after[k]) {
      assert after[k] in after;
    }
    NoneAvailable(after);
  }

  /** Successful receipts for every message of a batch name exactly the
      batch's rows. */
  lemma AllSucceededIds(p: seq<Row>)
    ensures SuccessIdSet(AllSucceeded(ToMessages(p))) == IdSet(p)
  {
    var receipts := AllSucceeded(ToMessages(p));
    SuccessIdsMembers(receipts);
    forall x | x in SuccessIdSet(receipts) ensures x in IdSet(p) {
      var i :| 0 <= i < |receipts| && receipts[i].success && receipts[i].id == x;
      assert p[i] in p;
    }
    forall x | x in IdSet(p) ensures x in SuccessIdSet(receipts) {
      var r :| r in p && r.id == x;
      var i :| 0 <= i < |p| && p[i] == r;
      assert receipts[i].success && receipts[i].id == x;
    }
  }

  /** After claiming every unclaimed row, deleting the claimed ids leaves the
      rows that were claimed before, unchanged. */
  lemma ClaimedSurvive(rows: seq<Row>, limit: nat, now: int, nextId: int, clock: int)
    requires Wellformed(rows, nextId, clock)
    requires |AvailableRows(rows)| <= limit
    ensures forall r :: r in DeleteWhere(Claim(rows, limit, now), IdSet(Pick(rows, limit))) <==>
      r in rows && !Available(r)
  {
    var p := Pick(rows, limit);
    var c := Claim(rows, limit, now);
    StampWellformed(rows, IdSet(p), now, nextId, clock);
    DeleteFacts(c, IdSet(p), nextId, clock);
    PickMembers(rows, limit);
    PickRule(rows, limit, nextId, clock);
    forall r | r in c && r.id !in IdSet(p) ensures r in rows && !Available(r) {
      var k :| 0 <= k < |c| && c[k] == r;
      assert rows[k].id == r.id;
      assert rows[k] !in p;
      assert rows[k] in rows;
    }
    forall r | r in rows && !Available(r) ensures r in c && r.id !in IdSet(p) {
      var k :| 0 <= k < |rows| && rows[k] == r;
      assert c[k] == r;
    }
  }

  lemma {:induction false} NoneAvailable(rows: seq<Row>)
    requires forall k :: 0 <= k < |rows| ==> !Available(rows[k])
    ensures AvailableRows(rows) == []
  {
    if rows != [] {
      NoneAvailable(rows[1..]);
    }
  }

  // ---------------------------------------------------------------------------
  // Repeated claims

  /** Row `a` is row `b`, with the checkout kept if `b` had one. */
  predicate KeepsStamp(b: Row, a: Row)
  {
    && a.id == b.id && a.payload == b.payload && a.timestamp == b.timestamp
    && (b.checkout.Some? ==> a.checkout == b.checkout)
  }

  /** `after` is `before` with some unclaimed rows claimed: same rows in the
      same order, and every checkout already set is kept (stated from the last
      row back; `StampedIff` gives the row-by-row form). */
  predicate Stamped(before: seq<Row>, after: seq<Row>)
    decreases |before|
  {
    && |after| == |before|
    && (before == [] ||
        (KeepsStamp(before[|before| - 1], after[|after| - 1])
         && Stamped(before[..|before| - 1], after[..|after| - 1])))
  }

  lemma StampedRefl(rows: seq<Row>)
    ensures Stamped(rows, rows)
  {
    StampedIff(rows, rows);
  }

  lemma {:induction false} StampedIff(before: seq<Row>, after: seq<Row>)
    ensures Stamped(before, after) <==>
      |after| == |before| && forall i :: 0 <= i < |before| ==> KeepsStamp(before[i], after[i])
    decreases |before|
  {
    if before != [] && |after| == |before| {
      var n := |before|;
      StampedIff(before[..n - 1], after[..n - 1]);
      assert forall i :: 0 <= i < n - 1 ==> before[..n - 1][i] == before[i] && after[..n - 1][i] == after[i];
    }
  }

  /** Row `i` was unclaimed in `before`, is claimed in `after`, and is the
      row message `m` carries. */
  predicate HandedOut(m: ConsumerMessage, before: seq<Row>, after: seq<Row>, i: int)
  {
    && 0 <= i < |before| && i < |after|
    && before[i].id == m.id
    && Available(before[i])
    && before[i].payload == m.message.payload
    && !Available(after[i])
  }

  /** Every message in `ms` is a row that was unclaimed in `before`, with its
      payload, and is claimed in `after`. */
  predicate DeliveredFrom(ms: seq<ConsumerMessage>, before: seq<Row>, after: seq<Row>)
  {
    forall k :: 0 <= k < |ms| ==> IsHandedOut(ms[k], before, after)
  }

  predicate IsHandedOut(m: ConsumerMessage, before: seq<Row>, after: seq<Row>)
  {
    exists i :: 0 <= i < |before| && HandedOut(m, before, after, i)
  }

  /** No id is handed out twice. */
  predicate DistinctIds(ms: seq<ConsumerMessage>)
  {
    forall k, l :: 0 <= k < l < |ms| ==> ms[k].id != ms[l].id
  }

  /** A claim keeps every row and every checkout already set. */
  lemma ClaimStamps(start: seq<Row>, rows: seq<Row>, limit: nat, now: int, nextId: int, clock: int)
    requires Wellformed(rows, nextId, clock)
    requires Stamped(start, rows)
    ensures Stamped(start, Claim(rows, limit, now))
  {
    StampedIff(start, rows);
    StampedIff(start, Claim(rows, limit, now));
    ClaimEffect(rows, limit, now, nextId, clock);
    PickMembers(rows, limit);
  }

  /** What was handed out stays claimed, and the new batch consists of rows
      unclaimed at the start that are claimed now. */
  lemma ClaimDelivers(start: seq<Row>, rows: seq<Row>, sent: seq<ConsumerMessage>, limit: nat, now: int,
                      nextId: int, clock: int)
    requires Wellformed(rows, nextId, clock)
    requires Stamped(start, rows)
    requires DeliveredFrom(sent, start, rows)
    ensures DeliveredFrom(sent + ToMessages(Pick(rows, limit)), start, Claim(rows, limit, now))
  {
    StampedIff(start, rows);
    var c := Claim(rows, limit, now);
    var p := Pick(rows, limit);
    var batch := ToMessages(p);
    var all := sent + batch;
    ClaimEffect(rows, limit, now, nextId, clock);
    PickMembers(rows, limit);
    forall k | 0 <= k < |all| ensures IsHandedOut(all[k], start, c) {
      if k < |sent| {
        assert all[k] == sent[k];
        var i :| 0 <= i < |start| && HandedOut(sent[k], start, rows, i);
        assert HandedOut(all[k], start, c, i);
      } else {
        var j := k - |sent|;
        assert all[k] == batch[j];
        assert p[j] in p;
        var i :| 0 <= i < |rows| && rows[i] == p[j];
        assert rows[i] in p;
        assert HandedOut(all[k], start, c, i);
      }
    }
  }

  /** The new batch repeats no id, neither within itself nor from earlier
      batches, since those rows are claimed and the new ones were not. */
  lemma ClaimDistinct(start: seq<Row>, rows: seq<Row>, sent: seq<ConsumerMessage>, limit: nat,
                      nextId: int, clock: int)
    requires Wellformed(rows, nextId, clock)
    requires Stamped(start, rows)
    requires DeliveredFrom(sent, start, rows) && DistinctIds(sent)
    ensures DistinctIds(sent + ToMessages(Pick(rows, limit)))
  {
    StampedIff(start, rows);
    var p := Pick(rows, limit);
    var batch := ToMessages(p);
    var all := sent + batch;
    PickMembers(rows, limit);
    PickedIds(rows, limit, nextId, clock);
    forall k, l | 0 <= k < l < |all| ensures all[k].id != all[l].id {
      if l < |sent| {
        assert all[k] == sent[k] && all[l] == sent[l];
      } else if k >= |sent| {
        assert all[k] == batch[k - |sent|] && all[l] == batch[l - |sent|];
        assert IdsOf(p)[k - |sent|] < IdsOf(p)[l - |sent|];
      } else {
        assert all[k] == sent[k] && all[l] == batch[l - |sent|];
        var i :| 0 <= i < |start| && HandedOut(sent[k], start, rows, i);
        assert p[l - |sent|] in p;
        var i2 :| 0 <= i2 < |rows| && rows[i2] == p[l - |sent|];
        if i < i2 {
          assert rows[i].id < rows[i2].id;
        } else if i2 < i {
          assert rows[i2].id < rows[i].id;
        }
      }
    }
  }

  /** What a consumer loop keeps since `start`, message by message: every
      message sent was handed out by a claim, and repeats the id of no message
      sent before it. (Recursive, so that a loop carrying it as an invariant
      does not unfold it at every step; `HandedIff` gives its meaning.) */
  predicate Handed(start: seq<Row>, rows: seq<Row>, sent: seq<ConsumerMessage>)
    decreases |sent|
  {
    if sent == [] then true
    else
      && IsHandedOut(sent[|sent| - 1], start, rows)
      && (forall k :: 0 <= k < |sent| - 1 ==> sent[k].id != sent[|sent| - 1].id)
      && Handed(start, rows, sent[..|sent| - 1])
  }

  lemma {:induction false} HandedIff(start: seq<Row>, rows: seq<Row>, sent: seq<ConsumerMessage>)
    ensures Handed(start, rows, sent) <==> DeliveredFrom(sent, start, rows) && DistinctIds(sent)
    decreases |sent|
  {
    if sent != [] {
      var front := sent[..|sent| - 1];
      HandedIff(start, rows, front);
      assert forall k :: 0 <= k < |front| ==> front[k] == sent[k];
    }
  }

  /** One successful claim keeps that progress, with or without its batch
      counted as sent. */
  lemma ClaimKeeps(start: seq<Row>, rows: seq<Row>, sent: seq<ConsumerMessage>, limit: nat, now: int,
                   nextId: int, clock: int)
    requires Chained(rows, nextId, clock)
    requires Stamped(start, rows) && Handed(start, rows, sent)
    ensures Stamped(start, Claim(rows, limit, now))
    ensures Handed(start, Claim(rows, limit, now), sent + ToMessages(Pick(rows, limit)))
    ensures Handed(start, Claim(rows, limit, now), sent)
  {
    var c := Claim(rows, limit, now);
    var all := sent + ToMessages(Pick(rows, limit));
    ChainedIff(rows, nextId, clock);
    HandedIff(start, rows, sent);
    ClaimStamps(start, rows, limit, now, nextId, clock);
    ClaimDelivers(start, rows, sent, limit, now, nextId, clock);
    ClaimDistinct(start, rows, sent, limit, nextId, clock);
    forall k | 0 <= k < |sent| ensures IsHandedOut(sent[k], start, c) {
      assert all[k] == sent[k];
    }
    HandedIff(start, c, all);
    HandedIff(start, c, sent);
  }

  // ---------------------------------------------------------------------------
  // Commit

  /** The delete a Commit issues removes exactly the rows some successful
      receipt names; a receipt that failed removes nothing unless a successful
      one names the same id. */
  lemma CommitEffect(rows: seq<Row>, receipts: seq<Receipt>, nextId: int, clock: int)
    requires Wellformed(rows, nextId, clock)
    ensures forall r :: r in DeleteWhere(rows, SuccessIdSet(receipts)) <==>
      r in rows && !exists i :: 0 <= i < |receipts| && receipts[i].success && receipts[i].id == r.id
    ensures Wellformed(DeleteWhere(rows, SuccessIdSet(receipts)), nextId, clock)
  {
    SuccessIdsMembers(receipts);
    DeleteFacts(rows, SuccessIdSet(receipts), nextId, clock);
  }

  // ---------------------------------------------------------------------------
  // The table invariant across the statements

  /** A claim keeps the table well formed. */
  lemma ChainedClaim(rows: seq<Row>, limit: nat, now: int, nextId: int, clock: int)
    requires Chained(rows, nextId, clock)
    ensures Chained(Claim(rows, limit, now), nextId, clock)
  {
    ChainedIff(rows, nextId, clock);
    StampWellformed(rows, IdSet(Pick(rows, limit)), now, nextId, clock);
    ChainedIff(Claim(rows, limit, now), nextId, clock);
  }

  /** An insert at the current time, with ids from the sequence, keeps the
      table well formed and advances the sequence past the new ids. */
  lemma ChainedInsert(rows: seq<Row>, nextId: int, clock: int, payloads: seq<Payload>)
    requires Chained(rows, nextId, clock)
    ensures Chained(rows + NewRows(nextId, clock, payloads), nextId + |payloads|, clock)
  {
    ChainedIff(rows, nextId, clock);
    AppendNewRows(rows, nextId, clock, payloads);
    ChainedIff(rows + NewRows(nextId, clock, payloads), nextId + |payloads|, clock);
  }

  /** A delete keeps the table well formed. */
  lemma ChainedDelete(rows: seq<Row>, ids: set<int>, nextId: int, clock: int)
    requires Chained(rows, nextId, clock)
    ensures Chained(DeleteWhere(rows, ids), nextId, clock)
  {
    ChainedIff(rows, nextId, clock);
    DeleteFacts(rows, ids, nextId, clock);
    ChainedIff(DeleteWhere(rows, ids), nextId, clock);
  }

  /** Stamping any ids keeps the table well formed. */
  lemma ChainedStamp(rows: seq<Row>, ids: set<int>, now: int, nextId: int, clock: int)
    requires Chained(rows, nextId, clock)
    ensures Chained(StampWhere(rows, ids, now), nextId, clock)
  {
    ChainedIff(rows, nextId, clock);
    StampWellformed(rows, ids, now, nextId, clock);
    ChainedIff(StampWhere(rows, ids, now), nextId, clock);
  }

  // ---------------------------------------------------------------------------
  // Rows offered by a select that may not stamp them

  /** Message `m` is row `i` of `start`, which was unclaimed there. */
  predicate OfferedAt(m: ConsumerMessage, start: seq<Row>, i: int)
  {
    && 0 <= i < |start|
    && start[i].id == m.id && start[i].payload == m.message.payload
    && Available(start[i])
  }

  predicate IsOffered(m: ConsumerMessage, start: seq<Row>)
  {
    exists i :: 0 <= i < |start| && OfferedAt(m, start, i)
  }

  /** Every message sent is a row that was unclaimed in `start`, with its id
      and payload. (Recursive for the same reason as `Handed`.) */
  predicate Offered(start: seq<Row>, sent: seq<ConsumerMessage>)
    decreases |sent|
  {
    sent == [] || (IsOffered(sent[|sent| - 1], start) && Offered(start, sent[..|sent| - 1]))
  }

  lemma {:induction false} OfferedIff(start: seq<Row>, sent: seq<ConsumerMessage>)
    ensures Offered(start, sent) <==> forall k :: 0 <= k < |sent| ==> IsOffered(sent[k], start)
    decreases |sent|
  {
    if sent != [] {
      var front := sent[..|sent| - 1];
      OfferedIff(start, front);
      assert forall k :: 0 <= k < |front| ==> front[k] == sent[k];
    }
  }

  /** A select over a table that keeps the rows of `start` returns rows that
      were unclaimed in `start`. */
  lemma PickOffered(start: seq<Row>, rows: seq<Row>, sent: seq<ConsumerMessage>, limit: nat)
    requires Stamped(start, rows) && Offered(start, sent)
    ensures Offered(start, sent + ToMessages(Pick(rows, limit)))
  {
    StampedIff(start, rows);
    OfferedIff(start, sent);
    PickMembers(rows, limit);
    var p := Pick(rows, limit);
    var all := sent + ToMessages(p);
    forall k | 0 <= k < |all| ensures IsOffered(all[k], start) {
      if k < |sent| {
        assert all[k] == sent[k];
      } else {
        var j := k - |sent|;
        assert p[j] in p;
        var i :| 0 <= i < |rows| && rows[i] == p[j];
        assert OfferedAt(all[k], start, i);
      }
    }
    OfferedIff(start, all);
  }

  /** Claiming every available row leaves none available. */
  lemma ClaimAll(rows: seq<Row>, limit: nat, now: int, nextId: int, clock: int)
    requires Wellformed(rows, nextId, clock)
    requires |AvailableRows(rows)| <= limit
    ensures AvailableRows(Claim(rows, limit, now)) == []
  {
    var c := Claim(rows, limit, now);
    ClaimEffect(rows, limit, now, nextId, clock);
    PickRule(rows, limit, nextId, clock);
    forall k | 0 <= k < |c| ensures !Available(c[k]) {
      assert rows[k] in rows;
    }
    NoneAvailable(c);
  }
}
