/** Consuming order events: one message, one session, and partitions restarted at will. */
module Consumption {
  import opened Entities
  import opened Tables
  import opened Dispatch

  /** A message that does not parse, or an event. The status it carries is never acted on. */
  datatype Message = BadMessage | Event(orderId: string, status: string)

  /** The order service's answer to a status request. */
  datatype Answer = Reply(order: Order) | NoReply(error: Error)

  datatype Verdict = Unreadable | Processed | Failed(error: Error) | Interrupted

  /** An error from a cancelled or timed-out context stops the claim; any other is logged and skipped. */
  function VerdictOf(e: Option<Error>): Verdict {
    if e.None? then Processed else if IsContextError(e.value) then Interrupted else Failed(e.value)
  }

  /** The handlers of the factory. */
  datatype Handler = AssignHandler | UnassignHandler | FreeHandler

  function GetHandler(status: OrderStatus): Option<Handler> {
    match status
    case Created => Some(AssignHandler)
    case Cancelled => Some(UnassignHandler)
    case Completed => Some(FreeHandler)
    case OtherOrderStatus(_) => None
  }

  /** The operation a handler runs. */
  function HandlerStep(handler: Handler, orderId: string, clock: AssignClock, fault: Fault): Step {
    match handler
    case AssignHandler => AssignOrder(orderId, clock, fault)
    case UnassignHandler => UnassignOrder(orderId, clock.now, fault)
    case FreeHandler => CompleteOrder(orderId, clock.now, fault)
  }

  /** Runs the handler for the status the order service gave; other statuses are skipped without error. */
  function RunHandler(db: Db, order: Order, clock: AssignClock, fault: Fault): (Db, Option<Error>) {
    var handler := GetHandler(order.status);
    if handler.None? then (db, None) else Apply(db, HandlerStep(handler.value, order.id, clock, fault))
  }

  // ----- one partition -----

  datatype Record = Record(offset: nat, verdict: Verdict)

  /** A session is between messages, or holds an answer whose handler has not run yet. */
  datatype Session = Closed | Idle(pos: nat) | Holding(pos: nat, order: Order)

  /** `mark` is one past the highest marked offset; `history` has the records of each session. */
  datatype Part = Part(log: seq<Message>, mark: nat, session: Session, history: seq<seq<Record>>)

  const NEW_PART: Part := Part([], 0, Closed, [])

  function Max(a: nat, b: nat): nat {
    if a >= b then a else b
  }

  /** A message has its verdict: mark it and go on, or stop without marking. */
  function Finish(part: Part, pos: nat, verdict: Verdict): Part {
    var n := |part.history|;
    var history := if n == 0 then [[Record(pos, verdict)]]
                   else part.history[n - 1 := part.history[n - 1] + [Record(pos, verdict)]];
    if verdict == Interrupted then part.(session := Closed, history := history)
    else part.(mark := Max(part.mark, pos + 1), session := Idle(pos + 1), history := history)
  }

  /** Takes the next message and asks for its order's status. */
  function Read(part: Part, answer: Answer): Part {
    if !part.session.Idle? || part.session.pos >= |part.log| then part
    else
      var pos := part.session.pos;
      if part.log[pos].BadMessage? then Finish(part, pos, Unreadable)
      else if answer.NoReply? then Finish(part, pos, VerdictOf(Some(answer.error)))
      else if GetHandler(answer.order.status).None? then Finish(part, pos, Processed)
      else part.(session := Holding(pos, answer.order))
  }

  /** Runs the handler for the answer held. */
  function Execute(db: Db, part: Part, clock: AssignClock, fault: Fault): (Db, Part) {
    if !part.session.Holding? then (db, part)
    else
      var (db', e) := RunHandler(db, part.session.order, clock, fault);
      (db', Finish(part, part.session.pos, VerdictOf(e)))
  }

  function OpenAt(part: Part, offset: nat): Part {
    if part.session.Closed? && offset <= part.mark
    then part.(session := Idle(offset), history := part.history + [[]]) else part
  }

  function CloseIdle(part: Part): Part {
    if part.session.Idle? then part.(session := Closed) else part
  }

  // ----- at least once -----

  /** A session's records have consecutive offsets, and nothing follows an interruption. */
  ghost predicate SessionOrderly(rs: seq<Record>) {
    && (forall k :: 0 < k < |rs| ==> rs[k].offset == rs[k - 1].offset + 1)
    && (forall k :: 0 <= k < |rs| - 1 ==> rs[k].verdict != Interrupted)
  }

  /** Some session gave this offset a verdict other than a cancellation or timeout. */
  ghost predicate Settled(history: seq<seq<Record>>, offset: nat) {
    exists i, k :: 0 <= i < |history| && 0 <= k < |history[i]| &&
      history[i][k].offset == offset && history[i][k].verdict != Interrupted
  }

  /** The current session's records end just before its position. */
  ghost predicate Current(part: Part) {
    !part.session.Closed? ==>
      && |part.history| > 0 && part.session.pos <= part.mark
      && (part.session.Holding? ==> part.session.pos < |part.log|)
      && var rs := part.history[|part.history| - 1];
         |rs| > 0 ==> rs[|rs| - 1].verdict != Interrupted && rs[|rs| - 1].offset + 1 == part.session.pos
  }

  /** Marked messages are a prefix of the log; a message is marked exactly when it was settled;
      and every session is orderly. */
  ghost predicate AtLeastOnce(part: Part) {
    && part.mark <= |part.log|
    && (forall offset: nat :: Settled(part.history, offset) <==> offset < part.mark)
    && (forall i :: 0 <= i < |part.history| ==> SessionOrderly(part.history[i]))
    && Current(part)
  }

  lemma FinishSettles(part: Part, pos: nat, verdict: Verdict, offset: nat)
    requires |part.history| > 0
    ensures Settled(Finish(part, pos, verdict).history, offset) <==>
      Settled(part.history, offset) || (offset == pos && verdict != Interrupted)
  {
    var h, h' := part.history, Finish(part, pos, verdict).history;
    var n := |h| - 1;
    if Settled(h, offset) {
      var i, k :| 0 <= i < |h| && 0 <= k < |h[i]| && h[i][k].offset == offset && h[i][k].verdict != Interrupted;
      assert h'[i][k] == h[i][k];
    }
    if offset == pos && verdict != Interrupted {
      assert h'[n][|h[n]|] == Record(pos, verdict);
    }
    if Settled(h', offset) {
      var i, k :| 0 <= i < |h'| && 0 <= k < |h'[i]| && h'[i][k].offset == offset && h'[i][k].verdict != Interrupted;
      if i == n && k == |h[n]| {
      } else {
        assert h[i][k] == h'[i][k];
      }
    }
  }

  lemma FinishKeeps(part: Part, pos: nat, verdict: Verdict)
    requires AtLeastOnce(part) && !part.session.Closed? && pos == part.session.pos < |part.log|
    ensures AtLeastOnce(Finish(part, pos, verdict))
  {
    hide Settled;
    var part' := Finish(part, pos, verdict);
    forall offset: nat ensures Settled(part'.history, offset) <==> offset < part'.mark {
      FinishSettles(part, pos, verdict, offset);
    }
    var n := |part.history| - 1;
    assert part'.history[n] == part.history[n] + [Record(pos, verdict)];
  }

  lemma ReadKeeps(part: Part, answer: Answer)
    requires AtLeastOnce(part)
    ensures AtLeastOnce(Read(part, answer))
  {
    if part.session.Idle? && part.session.pos < |part.log| {
      var pos := part.session.pos;
      if part.log[pos].BadMessage? {
        FinishKeeps(part, pos, Unreadable);
      } else if answer.NoReply? {
        FinishKeeps(part, pos, VerdictOf(Some(answer.error)));
      } else if GetHandler(answer.order.status).None? {
        FinishKeeps(part, pos, Processed);
      }
    }
  }

  lemma OpenKeeps(part: Part, offset: nat)
    requires AtLeastOnce(part)
    ensures AtLeastOnce(OpenAt(part, offset))
  {
    var part' := OpenAt(part, offset);
    if part'.history != part.history {
      assert part'.history == part.history + [[]];
      forall o: nat ensures Settled(part'.history, o) <==> Settled(part.history, o) {
        if Settled(part.history, o) {
          var i, k :| 0 <= i < |part.history| && 0 <= k < |part.history[i]| &&
            part.history[i][k].offset == o && part.history[i][k].verdict != Interrupted;
          assert part'.history[i][k].offset == o;
        }
      }
    }
  }
}
