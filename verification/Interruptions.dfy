/** Which failures leave a message to be read again. */
module Interruptions {
  import opened Entities
  import opened Validators
  import opened Tables
  import opened Dispatch
  import opened Outcomes
  import opened Consumption

  /** The transaction that an answer starts gets as far as its statement `k` (the last is the commit). */
  predicate Reaches(db: Db, order: Order, now: Time, k: nat) {
    IsValidOrderId(order.id) &&
    match order.status
    case Created => k == 0 || (k == 1 && AnyAvailable(db.couriers)) || (2 <= k <= 3 && CanAssign(db, order.id, NoFault))
    case Cancelled =>
      || k == 0
      || (1 <= k <= 2 && HasOrder(db.deliveries, order.id)
          && Load(WithoutOrder(db.deliveries, order.id), OrderRow(db.deliveries, order.id).courierId, now) == 0)
      || (k == 3 && CanUnassign(db, order.id, now, NoFault))
    case Completed =>
      k == 0 || (k == 1 && HasOrder(db.deliveries, order.id)) || (k == 2 && CanComplete(db, order.id, NoFault))
    case OtherOrderStatus(_) => false
  }

  /** A cancelled or timed-out context met the request to the order service, or a statement of the
      transaction it started. */
  predicate CancelledOnTheWay(db: Db, answer: Answer, now: Time, fault: Fault) {
    || answer == NoReply(Infrastructure(true))
    || (answer.Reply? && fault.FaultAt? && fault.cancelled && Reaches(db, answer.order, now, fault.statement))
  }

  lemma AssignFailsAsInjected(db: Db, orderId: string, clock: AssignClock, fault: Fault)
    ensures var (db', r) := Assign(db, orderId, clock, fault);
      && (r == Err(Infrastructure(true)) <==>
          fault.FaultAt? && fault.cancelled && Reaches(db, Order(orderId, Created), clock.now, fault.statement))
      && (r.Err? ==> SameTables(db, db'))
  {
    AssignOutcome(db, orderId, clock, fault);
  }

  lemma UnassignFailsAsInjected(db: Db, orderId: string, now: Time, fault: Fault)
    ensures var (db', r) := Unassign(db, orderId, now, fault);
      && (r == Err(Infrastructure(true)) <==>
          fault.FaultAt? && fault.cancelled && Reaches(db, Order(orderId, Cancelled), now, fault.statement))
      && (r.Err? ==> SameTables(db, db'))
  {
    UnassignOutcome(db, orderId, now, fault);
  }

  lemma CompleteFailsAsInjected(db: Db, orderId: string, now: Time, fault: Fault)
    ensures var (db', r) := Complete(db, orderId, now, fault);
      && (r == Err(Infrastructure(true)) <==>
          fault.FaultAt? && fault.cancelled && Reaches(db, Order(orderId, Completed), now, fault.statement))
      && (r.Err? ==> SameTables(db, db'))
  {
    CompleteOutcome(db, orderId, now, fault);
  }

  lemma HandlerFailsAsInjected(db: Db, order: Order, clock: AssignClock, fault: Fault)
    ensures var (db', e) := RunHandler(db, order, clock, fault);
      && (e == Some(Infrastructure(true)) <==>
          fault.FaultAt? && fault.cancelled && Reaches(db, order, clock.now, fault.statement))
      && (e.Some? ==> SameTables(db, db') && !order.status.OtherOrderStatus?)
  {
    hide Assign, Unassign, Complete, CanAssign, CanUnassign, CanComplete, SameTables;
    assert order == Order(order.id, order.status);
    match order.status
    case Created => AssignFailsAsInjected(db, order.id, clock, fault);
    case Cancelled => UnassignFailsAsInjected(db, order.id, clock.now, fault);
    case Completed => CompleteFailsAsInjected(db, order.id, clock.now, fault);
    case OtherOrderStatus(_) =>
  }

  /** The two moves of a message: exactly when a cancelled or timed-out context was met on its way, the
      session stops, the message stays unmarked and can be read again, and the tables are as they were.
      Every other failure, and every success, marks it and goes on. */
  lemma InterruptedIff(db: Db, part: Part, answer: Answer, clock: AssignClock, fault: Fault)
    requires part.session.Idle? && part.session.pos < |part.log|
    ensures var pos := part.session.pos;
      var (db', part') := Execute(db, Read(part, answer), clock, fault);
      && part'.log == part.log
      && if part.log[pos].Event? && CancelledOnTheWay(db, answer, clock.now, fault)
         then part'.session == Closed && part'.mark == part.mark && SameTables(db, db')
              && (pos <= part.mark ==> OpenAt(part', pos).session == Idle(pos))
         else part'.session == Idle(pos + 1)
              && part'.mark == if part.mark > pos + 1 then part.mark else pos + 1
  {
    hide RunHandler, Reaches;
    if answer.Reply? {
      HandlerFailsAsInjected(db, answer.order, clock, fault);
    } else {
      assert answer.error == Infrastructure(true) <==> IsContextError(answer.error);
    }
  }
}
