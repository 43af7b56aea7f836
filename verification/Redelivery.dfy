/** What handling the same message again does to the tables. */
module Redelivery {
  import opened Entities
  import opened Validators
  import opened Tables
  import opened Dispatch
  import opened Outcomes
  import opened StoreInvariant
  import opened Accounting
  import opened Consumption

  /** Both tables are as they were, apart from updated_at. */
  ghost predicate TablesKept(before: Db, after: Db) {
    after.deliveries == before.deliveries && SameButUpdatedAt(after.couriers, before.couriers)
  }

  /** The courier who has the order's row is available. */
  predicate CourierIsFree(db: Db, orderId: string) {
    exists i :: 0 <= i < |db.couriers| && HasOrder(db.deliveries, orderId) &&
      db.couriers[i].id == OrderRow(db.deliveries, orderId).courierId && db.couriers[i].status == Available
  }

  /** Setting a courier available changes nothing exactly when it is. */
  lemma FreeingKeepsIff(db: Db, orderId: string, now: Time)
    requires Valid(db) && HasOrder(db.deliveries, orderId)
    requires HasCourier(db.couriers, OrderRow(db.deliveries, orderId).courierId)
    ensures TablesKept(db, Finished(db, orderId, now)) <==> CourierIsFree(db, orderId)
  {
    hide OrderRow, WithStatus, HasOrder, CouriersValid, ReferencesHold, PhonesUnique;
    FreedRowsKeepIff(db.couriers, OrderRow(db.deliveries, orderId).courierId, now);
  }

  lemma FreedRowsKeepIff(cs: seq<Courier>, id: int, now: Time)
    requires CourierIdsUnique(cs) && HasCourier(cs, id)
    ensures SameButUpdatedAt(WithStatus(cs, id, Available, now), cs) <==>
      exists i :: 0 <= i < |cs| && cs[i].id == id && cs[i].status == Available
  {
    hide WithStatus;
    var k :| 0 <= k < |cs| && cs[k].id == id;
    var cs' := WithStatus(cs, id, Available, now);
    assert forall i :: 0 <= i < |cs| && i != k ==> cs'[i] == cs[i];
    assert cs'[k].(updatedAt := 0) == cs[k].(updatedAt := 0) <==> cs[k].status == Available;
  }

  lemma AssigningKeepsIff(db: Db, orderId: string, clock: AssignClock, fault: Fault)
    ensures TablesKept(db, Assign(db, orderId, clock, fault).0) <==> !CanAssign(db, orderId, fault)
  {
    hide Assign;
    AssignOutcome(db, orderId, clock, fault);
  }

  lemma UnassigningKeepsIff(db: Db, orderId: string, now: Time, fault: Fault)
    ensures TablesKept(db, Unassign(db, orderId, now, fault).0) <==> !CanUnassign(db, orderId, now, fault)
  {
    hide Unassign, WithoutOrder;
    UnassignOutcome(db, orderId, now, fault);
    WithoutMembers(db.deliveries, orderId);
  }

  lemma CompletingKeepsIff(db: Db, orderId: string, now: Time, fault: Fault)
    requires Valid(db)
    ensures TablesKept(db, Complete(db, orderId, now, fault).0) <==>
      (CanComplete(db, orderId, fault) ==> CourierIsFree(db, orderId))
  {
    hide Complete, CourierIsFree, Finished, Valid;
    CompleteOutcome(db, orderId, now, fault);
    if CanComplete(db, orderId, fault) { FreeingKeepsIff(db, orderId, now); }
  }

  /** In any state, handling a message (again) keeps the tables exactly when: for "created", the order
      cannot be assigned; for "cancelled", it cannot be unassigned; for "completed", it cannot be
      completed or its courier is available already. */
  lemma HandlingKeepsIff(db: Db, order: Order, clock: AssignClock, fault: Fault)
    requires Valid(db)
    ensures TablesKept(db, RunHandler(db, order, clock, fault).0) <==>
      match order.status
      case Created => !CanAssign(db, order.id, fault)
      case Cancelled => !CanUnassign(db, order.id, clock.now, fault)
      case Completed => CanComplete(db, order.id, fault) ==> CourierIsFree(db, order.id)
      case OtherOrderStatus(_) => true
  {
    hide Assign, Unassign, Complete, CanAssign, CanUnassign, CanComplete, CourierIsFree, Valid;
    match order.status
    case Created => AssigningKeepsIff(db, order.id, clock, fault);
    case Cancelled => UnassigningKeepsIff(db, order.id, clock.now, fault);
    case Completed => CompletingKeepsIff(db, order.id, clock.now, fault);
    case OtherOrderStatus(_) =>
  }

  // ----- after other operations -----

  /** Some step of the run assigns or unassigns this order. */
  predicate Moved(db: Db, steps: seq<Step>, orderId: string)
    decreases |steps|
  {
    steps != [] &&
    ((Succeeds(db, steps[0]) && (steps[0].AssignOrder? || steps[0].UnassignOrder?) && steps[0].orderId == orderId)
     || Moved(Apply(db, steps[0]).0, steps[1..], orderId))
  }

  lemma StepKeepsRow(db: Db, s: Step, orderId: string)
    requires !(Succeeds(db, s) && (s.AssignOrder? || s.UnassignOrder?) && s.orderId == orderId)
    ensures HasOrder(Apply(db, s).0.deliveries, orderId) == HasOrder(db.deliveries, orderId)
  {
    match s
    case PostCourier(m, at, f) =>
    case PutCourier(m, at, f) =>
    case AssignOrder(o, clock, f) =>
      AssignOutcome(db, o, clock, f);
      if CanAssign(db, o, f) { HasOrderAppend(db.deliveries, GrantedRow(db, o, clock), orderId); }
    case UnassignOrder(o, at, f) =>
      UnassignOutcome(db, o, at, f);
      if CanUnassign(db, o, at, f) { DeleteKeepsOthers(db.deliveries, o, orderId); }
    case CompleteOrder(o, at, f) => CompleteOutcome(db, o, at, f);
    case CleanupTick(at, f) =>
  }

  lemma DeleteKeepsOthers(ds: seq<Delivery>, deleted: string, orderId: string)
    requires deleted != orderId
    ensures HasOrder(WithoutOrder(ds, deleted), orderId) == HasOrder(ds, orderId)
  {
    WithoutMembers(ds, deleted);
    if HasOrder(ds, orderId) {
      var j :| 0 <= j < |ds| && ds[j].orderId == orderId;
      assert ds[j] in WithoutOrder(ds, deleted);
    }
  }

  lemma {:induction false} RowStays(db: Db, steps: seq<Step>, orderId: string)
    requires !Moved(db, steps, orderId)
    ensures HasOrder(Run(db, steps).deliveries, orderId) == HasOrder(db.deliveries, orderId)
    decreases |steps|
  {
    hide Apply, HasOrder, Succeeds;
    if steps == [] {
    } else {
      StepKeepsRow(db, steps[0], orderId);
      RowStays(Apply(db, steps[0]).0, steps[1..], orderId);
    }
  }

  /** What a handled message leaves: a row if the order was created or completed, none if cancelled. */
  lemma HandledLeaves(db: Db, order: Order, clock: AssignClock, fault: Fault)
    requires Valid(db) && RunHandler(db, order, clock, fault).1.None? && GetHandler(order.status).Some?
    ensures var db' := RunHandler(db, order, clock, fault).0;
      Valid(db') && IsValidOrderId(order.id) && HasOrder(db'.deliveries, order.id) == !order.status.Cancelled?
  {
    hide Assign, Unassign, Complete, Valid;
    match order.status
    case Created =>
      AssignOutcome(db, order.id, clock, fault);
      AssignKeepsValid(db, order.id, clock, fault);
      UndoDelivery(db.deliveries, GrantedRow(db, order.id, clock));
    case Cancelled =>
      UnassignOutcome(db, order.id, clock.now, fault);
      UnassignKeepsValid(db, order.id, clock.now, fault);
      WithoutMembers(db.deliveries, order.id);
    case Completed =>
      CompleteOutcome(db, order.id, clock.now, fault);
      CompleteKeepsValid(db, order.id, clock.now, fault);
  }

  /** Redelivery: a message was handled, any operations ran that did not assign or unassign its order,
      and it is handled again with the same answer. The tables stay as they were, apart from
      updated_at, exactly when it is not a completion whose courier is no longer available. */
  lemma RedeliveryKeepsIff(db: Db, order: Order, clock: AssignClock, fault: Fault, between: seq<Step>,
                           clock': AssignClock, fault': Fault)
    requires Valid(db) && RunHandler(db, order, clock, fault).1.None?
    requires !Moved(RunHandler(db, order, clock, fault).0, between, order.id)
    ensures var later := Run(RunHandler(db, order, clock, fault).0, between);
      TablesKept(later, RunHandler(later, order, clock', fault').0) <==>
        (order.status.Completed? && Harmless(fault', 2) ==> CourierIsFree(later, order.id))
  {
    hide RunHandler, Run, Moved, TablesKept, CourierIsFree;
    if GetHandler(order.status).Some? {
      HandledLeaves(db, order, clock, fault);
      var db1 := RunHandler(db, order, clock, fault).0;
      RunKeepsValid(db1, between);
      RowStays(db1, between, order.id);
      var later := Run(db1, between);
      HandlingKeepsIff(later, order, clock', fault');
      if HasOrder(later.deliveries, order.id) {
        RowHasCourier(later, order.id);
      }
    } else {
      SkippedKeeps(db, order, clock, fault, between, clock', fault');
    }
  }

  lemma SkippedKeeps(db: Db, order: Order, clock: AssignClock, fault: Fault, between: seq<Step>,
                     clock': AssignClock, fault': Fault)
    requires GetHandler(order.status).None?
    ensures var later := Run(RunHandler(db, order, clock, fault).0, between);
      TablesKept(later, RunHandler(later, order, clock', fault').0)
  {
    hide Run;
  }
}
