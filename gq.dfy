/** The value types shared by every backend (type.go), the receipt filter that
    every Commit runs, and the shape of the event trace a Stream loop produces. */
module Gq {

  datatype Option<+T> = None | Some(value: T)

  newtype byte = b: int | 0 <= b < 256

  /** A message body; the queue never looks inside it. */
  type Payload = seq<byte>

  /** Producer-side message: a payload, no identity yet. */
  datatype Message = Message(payload: Payload)

  /** Consumer-side message: the payload and the id storage assigned to it. */
  datatype ConsumerMessage = ConsumerMessage(message: Message, id: int)

  /** The consumer's verdict on one claimed message. */
  datatype Receipt = Receipt(id: int, success: bool)

  /** What a failed storage call reports. */
  datatype Error =
    | StorageFailure            // the engine or the connection failed (an input of the model)
    | BadStatement(text: string) // the engine cannot prepare this statement text
    | NegativeLimit             // PostgreSQL refuses `LIMIT` with a negative value

  /** Concatenation regrouped to the left; texts and lists rebuilt piece by
      piece are compared one regrouping at a time. */
  lemma Assoc<T>(a: seq<T>, b: seq<T>, c: seq<T>)
    ensures a + (b + c) == a + b + c
  {
  }

  // ---------------------------------------------------------------------------
  // Receipts

  /** The ids of the successful receipts, in receipt order. */
  function SuccessIds(receipts: seq<Receipt>): seq<int>
  {
    if receipts == [] then []
    else (if receipts[0].success then [receipts[0].id] else []) + SuccessIds(receipts[1..])
  }

  /** The ids a `DELETE ... WHERE id = ANY(ids)` names, as a set. */
  function SuccessIdSet(receipts: seq<Receipt>): set<int>
  {
    set x | x in SuccessIds(receipts)
  }

  /** The append loop every Commit runs over its receipts. */
  method CollectSuccessIds(receipts: seq<Receipt>) returns (ids: seq<int>)
    ensures ids == SuccessIds(receipts)
  {
    ids := [];
    var i := 0;
    while i < |receipts|
      invariant 0 <= i <= |receipts|
      invariant ids + SuccessIds(receipts[i..]) == SuccessIds(receipts)
    {
      assert receipts[i..][1..] == receipts[i + 1..];
      if receipts[i].success {
        ids := ids + [receipts[i].id];
      }
      i := i + 1;
    }
    assert receipts[i..] == [];
  }

  /** An id is collected exactly when some successful receipt carries it; the list
      is never longer than the receipts. */
  lemma {:induction false} SuccessIdsMembers(receipts: seq<Receipt>)
    ensures |SuccessIds(receipts)| <= |receipts|
    ensures forall x :: x in SuccessIds(receipts) <==>
      exists i :: 0 <= i < |receipts| && receipts[i].success && receipts[i].id == x
  {
    if receipts != [] {
      SuccessIdsMembers(receipts[1..]);
      forall x | x in SuccessIds(receipts)
        ensures exists i :: 0 <= i < |receipts| && receipts[i].success && receipts[i].id == x
      {
        if !(receipts[0].success && receipts[0].id == x) {
          var j :| 0 <= j < |receipts[1..]| && receipts[1..][j].success && receipts[1..][j].id == x;
          assert receipts[j + 1].success && receipts[j + 1].id == x;
        }
      }
      forall x | exists i :: 0 <= i < |receipts| && receipts[i].success && receipts[i].id == x
        ensures x in SuccessIds(receipts)
      {
        var i :| 0 <= i < |receipts| && receipts[i].success && receipts[i].id == x;
        if i > 0 {
          assert receipts[1..][i - 1] == receipts[i];
        }
      }
    }
  }

  /** Receipts are filtered one by one: the filter of a concatenation is the
      concatenation of the filters, so receipt order is kept. */
  lemma {:induction false} SuccessIdsAppend(a: seq<Receipt>, b: seq<Receipt>)
    ensures SuccessIds(a + b) == SuccessIds(a) + SuccessIds(b)
  {
    if a == [] {
      assert a + b == b;
    } else {
      var h := if a[0].success then [a[0].id] else [];
      var x := SuccessIds(a[1..]);
      assert (a + b)[0] == a[0];
      assert (a + b)[1..] == a[1..] + b;
      SuccessIdsAppend(a[1..], b);
      assert SuccessIds(a + b) == h + (x + SuccessIds(b));
      assert SuccessIds(a) == h + x;
      Assoc(h, x, SuccessIds(b));
    }
  }

  /** Failed receipts contribute nothing. */
  lemma {:induction false} FailedReceiptsIgnored(a: seq<Receipt>, failed: seq<Receipt>, b: seq<Receipt>)
    requires forall i :: 0 <= i < |failed| ==> !failed[i].success
    ensures SuccessIds(a + failed + b) == SuccessIds(a + b)
  {
    SuccessIdsAppend(a + failed, b);
    SuccessIdsAppend(a, failed);
    SuccessIdsAppend(a, b);
    AllFailed(failed);
  }

  lemma {:induction false} AllFailed(failed: seq<Receipt>)
    requires forall i :: 0 <= i < |failed| ==> !failed[i].success
    ensures SuccessIds(failed) == []
  {
    if failed != [] {
      AllFailed(failed[1..]);
    }
  }

  // ---------------------------------------------------------------------------
  // Stream

  /** One observable step of a Stream loop: a ConsumeBatch call and its result,
      a batch sent on the output channel, a pause, or the channel being closed. */
  datatype Event =
    | Polled(batch: seq<ConsumerMessage>, err: Option<Error>)
    | Sent(sent: seq<ConsumerMessage>)
    | Paused
    | Closed

  /** A poll whose batch is passed on: no error and at least one message. */
  predicate Delivers(e: Event)
  {
    e.Polled? && |e.batch| > 0 && e.err.None?
  }

  /** Complete rounds: each poll is followed by sending its batch when it
      delivers, and by a pause otherwise. */
  predicate Rounds(t: seq<Event>)
    decreases |t|
  {
    if t == [] then true
    else
      && |t| >= 2
      && t[|t| - 2].Polled?
      && t[|t| - 1] == (if Delivers(t[|t| - 2]) then Sent(t[|t| - 2].batch) else Paused)
      && Rounds(t[..|t| - 2])
  }

  /** A Stream trace: complete rounds, then `Closed` when the loop returned. */
  predicate StreamTrace(t: seq<Event>, closed: bool)
  {
    if closed then |t| >= 1 && t[|t| - 1] == Closed && Rounds(t[..|t| - 1])
    else Rounds(t)
  }

  /** The number of ConsumeBatch calls in a trace. */
  function Polls(t: seq<Event>): nat
  {
    if t == [] then 0 else Polls(t[..|t| - 1]) + (if t[|t| - 1].Polled? then 1 else 0)
  }

  /** Everything sent on the output channel, batch after batch. */
  function Delivered(t: seq<Event>): seq<ConsumerMessage>
  {
    if t == [] then []
    else Delivered(t[..|t| - 1]) + (if t[|t| - 1].Sent? then t[|t| - 1].sent else [])
  }

  /** What a Stream trace promises, position by position: every send is the
      non-empty, error-free batch of the poll just before it; every pause comes
      right after an empty or failed poll; every poll is followed by a send or a
      pause; `Closed` appears only as the last event of a closed stream. */
  lemma {:induction false} StreamTraceFacts(t: seq<Event>, closed: bool)
    requires StreamTrace(t, closed)
    ensures forall i :: 0 <= i < |t| && t[i].Sent? ==>
      i > 0 && Delivers(t[i - 1]) && t[i].sent == t[i - 1].batch && |t[i].sent| > 0
    ensures forall i :: 0 <= i < |t| && t[i].Paused? ==> i > 0 && t[i - 1].Polled? && !Delivers(t[i - 1])
    ensures forall i :: 0 <= i < |t| && t[i].Polled? ==> i + 1 < |t| && (t[i + 1].Sent? || t[i + 1].Paused?)
    ensures forall i :: 0 <= i < |t| && t[i].Closed? ==> closed && i == |t| - 1
  {
    SendsFollowPolls(t, closed);
    PausesFollowPolls(t, closed);
    PollsAreAnswered(t, closed);
    ClosedIsLast(t, closed);
  }

  lemma SendsFollowPolls(t: seq<Event>, closed: bool)
    requires StreamTrace(t, closed)
    ensures forall i :: 0 <= i < |t| && t[i].Sent? ==>
      i > 0 && Delivers(t[i - 1]) && t[i].sent == t[i - 1].batch && |t[i].sent| > 0
  {
    var u := if closed then t[..|t| - 1] else t;
    RoundsFacts(u);
    forall i | 0 <= i < |t| && t[i].Sent?
      ensures i > 0 && Delivers(t[i - 1]) && t[i].sent == t[i - 1].batch && |t[i].sent| > 0
    {
      assert i < |u| && t[i] == u[i] && t[i - 1] == u[i - 1];
    }
  }

  lemma PausesFollowPolls(t: seq<Event>, closed: bool)
    requires StreamTrace(t, closed)
    ensures forall i :: 0 <= i < |t| && t[i].Paused? ==> i > 0 && t[i - 1].Polled? && !Delivers(t[i - 1])
  {
    var u := if closed then t[..|t| - 1] else t;
    RoundsFacts(u);
    forall i | 0 <= i < |t| && t[i].Paused?
      ensures i > 0 && t[i - 1].Polled? && !Delivers(t[i - 1])
    {
      assert i < |u| && t[i] == u[i] && t[i - 1] == u[i - 1];
    }
  }

  lemma PollsAreAnswered(t: seq<Event>, closed: bool)
    requires StreamTrace(t, closed)
    ensures forall i :: 0 <= i < |t| && t[i].Polled? ==> i + 1 < |t| && (t[i + 1].Sent? || t[i + 1].Paused?)
  {
    var u := if closed then t[..|t| - 1] else t;
    RoundsFacts(u);
    forall i | 0 <= i < |t| && t[i].Polled?
      ensures i + 1 < |t| && (t[i + 1].Sent? || t[i + 1].Paused?)
    {
      assert i < |u| && t[i] == u[i] && t[i + 1] == u[i + 1];
    }
  }

  lemma ClosedIsLast(t: seq<Event>, closed: bool)
    requires StreamTrace(t, closed)
    ensures forall i :: 0 <= i < |t| && t[i].Closed? ==> closed && i == |t| - 1
  {
    var u := if closed then t[..|t| - 1] else t;
    RoundsFacts(u);
    forall i | 0 <= i < |u|
      ensures !t[i].Closed?
    {
      assert t[i] == u[i];
    }
  }

  lemma {:induction false} RoundsFacts(t: seq<Event>)
    requires Rounds(t)
    ensures |t| % 2 == 0
    ensures forall i :: 0 <= i < |t| ==> (t[i].Polled? <==> i % 2 == 0)
    ensures forall i :: 0 <= i < |t| ==> !t[i].Closed?
    ensures forall i :: 0 <= i < |t| && i % 2 == 1 ==>
      t[i] == (if Delivers(t[i - 1]) then Sent(t[i - 1].batch) else Paused)
  {
    if t != [] {
      var u := t[..|t| - 2];
      RoundsFacts(u);
      assert forall i :: 0 <= i < |u| ==> t[i] == u[i];
    }
  }

  /** Every batch on the channel came from some poll, so the channel carries
      no message that a ConsumeBatch call did not return. */
  lemma {:induction false} DeliveredFromPolls(t: seq<Event>)
    requires Rounds(t)
    ensures forall m :: m in Delivered(t) ==>
      exists i :: 0 <= i < |t| && Delivers(t[i]) && m in t[i].batch
  {
    if t != [] {
      var u := t[..|t| - 2];
      var v := t[..|t| - 1];
      assert v[..|v| - 1] == u;
      assert Delivered(v) == Delivered(u);
      DeliveredFromPolls(u);
      forall m | m in Delivered(t)
        ensures exists i :: 0 <= i < |t| && Delivers(t[i]) && m in t[i].batch
      {
        if m in Delivered(u) {
          var i :| 0 <= i < |u| && Delivers(u[i]) && m in u[i].batch;
          assert t[i] == u[i];
        } else {
          assert Delivers(t[|t| - 2]) && m in t[|t| - 2].batch;
        }
      }
    }
  }

  /** Appending one event: the counts grow by what the event adds. */
  lemma Step(t: seq<Event>, e: Event)
    ensures (t + [e])[..|t|] == t
    ensures Polls(t + [e]) == Polls(t) + (if e.Polled? then 1 else 0)
    ensures e.Sent? ==> Delivered(t + [e]) == Delivered(t) + e.sent
    ensures !e.Sent? ==> Delivered(t + [e]) == Delivered(t)
  {
    assert (t + [e])[..|t|] == t;
    assert Delivered(t) + [] == Delivered(t);
  }

  /** A poll followed by its send or pause completes a round. */
  lemma Round(t: seq<Event>, p: Event)
    requires Rounds(t) && p.Polled?
    ensures Rounds(t + [p] + [if Delivers(p) then Sent(p.batch) else Paused])
  {
    var u := t + [p] + [if Delivers(p) then Sent(p.batch) else Paused];
    assert u[..|u| - 2] == t;
  }

  /** A pause after a poll that passed nothing on completes its round and
      neither polls nor sends. */
  lemma Pause(done: seq<Event>, poll: Event)
    requires Rounds(done) && poll.Polled? && !Delivers(poll)
    ensures Rounds(done + [poll] + [Paused])
    ensures Polls(done + [poll] + [Paused]) == Polls(done + [poll])
    ensures Delivered(done + [poll] + [Paused]) == Delivered(done + [poll])
  {
    Step(done + [poll], Paused);
    Round(done, poll);
  }

  /** Closing the channel after complete rounds ends a closed stream trace. */
  lemma Closing(t: seq<Event>)
    requires Rounds(t)
    ensures StreamTrace(t + [Closed], true)
    ensures Polls(t + [Closed]) == Polls(t) && Delivered(t + [Closed]) == Delivered(t)
  {
    Step(t, Closed);
  }
}
