/** When each transaction succeeds, the state it then leaves, and that it otherwise leaves the tables alone. */
module Outcomes {
  import opened Entities
  import opened Validators
  import opened Tables
  import opened Dispatch

  /** No statement up to `last` (the commit) fails for outside reasons. */
  predicate Harmless(fault: Fault, last: nat) {
    fault.FaultAt? ==> fault.statement > last
  }

  /** `after` has the tables of `before`; only delivery ids may have been drawn. */
  predicate RolledBack(before: Db, after: Db) {
    SameTables(before, after) && after.courierSeq == before.courierSeq && after.deliverySeq >= before.deliverySeq
  }

  predicate CanAssign(db: Db, orderId: string, fault: Fault) {
    && IsValidOrderId(orderId) && |orderId| <= ORDER_ID_LIMIT
    && AnyAvailable(db.couriers) && !HasOrder(db.deliveries, orderId)
    && Harmless(fault, 3)
  }

  function Picked(db: Db, now: Time): (c: Courier)
    requires AnyAvailable(db.couriers)
    ensures IsLeastLoaded(db.couriers, db.deliveries, now, c)
  {
    Pick(db.couriers, db.deliveries, now).value
  }

  function GrantedRow(db: Db, orderId: string, clock: AssignClock): Delivery
    requires AnyAvailable(db.couriers)
  {
    var c := Picked(db, clock.now);
    Delivery(db.deliverySeq + 1, c.id, orderId, clock.createdAt, clock.assignedAt,
             Deadline(c.transport, clock.deadlineBase))
  }

  function WithStatus(cs: seq<Courier>, id: int, status: Status, now: Time): (r: seq<Courier>)
    ensures |r| == |cs|
    ensures forall i :: 0 <= i < |cs| ==>
      r[i] == if cs[i].id == id then cs[i].(status := status, updatedAt := now) else cs[i]
  {
    UpdateRows(cs, id, StatusOnly(id, status), now)
  }

  /** The state after a successful assignment. */
  function Granted(db: Db, orderId: string, clock: AssignClock): Db
    requires AnyAvailable(db.couriers)
  {
    Db(WithStatus(db.couriers, Picked(db, clock.now).id, Busy, clock.now),
       db.deliveries + [GrantedRow(db, orderId, clock)], db.courierSeq, db.deliverySeq + 1)
  }

  /** An assignment succeeds exactly when the order id is valid, fits and has no row, some courier
      is available and nothing outside fails; a failed one is a no-op whatever step failed. */
  lemma AssignOutcome(db: Db, orderId: string, clock: AssignClock, fault: Fault)
    ensures var (db', r) := Assign(db, orderId, clock, fault);
      && (r.Ok? <==> CanAssign(db, orderId, fault))
      && (r.Err? ==> RolledBack(db, db'))
      && (r.Ok? ==>
          var row := GrantedRow(db, orderId, clock);
          && db' == Granted(db, orderId, clock)
          && HasCourier(db.couriers, row.courierId)
          && r.value == Assignment(row.courierId, orderId, row.assignedAt, row.deadline,
                                   CourierRow(db.couriers, row.courierId).transport))
  {
    if AnyAvailable(db.couriers) {
      var c := Picked(db, clock.now);
      assert HasCourier(db.couriers, c.id);
      var db1 := InsertDelivery(db, fault.At(1), c.id, orderId,
        clock.createdAt, clock.assignedAt, Deadline(c.transport, clock.deadlineBase)).0;
      assert db1.couriers == db.couriers;
      assert ModifyError(StatusOnly(c.id, Busy)).None?;
    }
  }

  /** Why an assignment is refused: a blank order id first, then that no courier is available, an order
      id of more than 255 characters, and last an order that has a row already. */
  lemma AssignRefusals(db: Db, orderId: string, clock: AssignClock)
    ensures var r := Assign(db, orderId, clock, NoFault).1;
      var blank := forall i :: 0 <= i < |orderId| ==> IsSpace(orderId[i]);
      var anyone := exists i :: 0 <= i < |db.couriers| && db.couriers[i].status == Available;
      var known := exists j :: 0 <= j < |db.deliveries| && db.deliveries[j].orderId == orderId;
      && (r == Err(InvalidOrderId) <==> blank)
      && (r == Err(NoAvailableCouriers) <==> !blank && !anyone)
      && (r == Err(ValueTooLong) <==> !blank && anyone && |orderId| > 255)
      && (r == Err(OrderAlreadyAssigned) <==> !blank && anyone && |orderId| <= 255 && known)
      && (r.Ok? <==> !blank && anyone && |orderId| <= 255 && !known)
  {
    hide TrimSpace, IsSpace;
    BlankIffAllSpaces(orderId);
    AssignOutcome(db, orderId, clock, NoFault);
  }

  predicate CanUnassign(db: Db, orderId: string, now: Time, fault: Fault) {
    && IsValidOrderId(orderId) && HasOrder(db.deliveries, orderId)
    && (var id := OrderRow(db.deliveries, orderId).courierId;
        HasCourier(db.couriers, id) && Load(WithoutOrder(db.deliveries, orderId), id, now) == 0)
    && Harmless(fault, 3)
  }

  /** The state after a successful unassignment. */
  function Revoked(db: Db, orderId: string, now: Time): Db
    requires HasOrder(db.deliveries, orderId)
  {
    db.(couriers := WithStatus(db.couriers, OrderRow(db.deliveries, orderId).courierId, Available, now),
        deliveries := WithoutOrder(db.deliveries, orderId))
  }

  lemma UnassignOutcome(db: Db, orderId: string, now: Time, fault: Fault)
    ensures var (db', r) := Unassign(db, orderId, now, fault);
      && (r.Ok? <==> CanUnassign(db, orderId, now, fault))
      && (r.Err? ==> RolledBack(db, db'))
      && (r.Ok? ==> db' == Revoked(db, orderId, now)
                    && r.value == Unassignment(OrderRow(db.deliveries, orderId).courierId, orderId, Available))
  {
    hide UpdateRows;
    if HasOrder(db.deliveries, orderId) {
      assert ModifyError(StatusOnly(OrderRow(db.deliveries, orderId).courierId, Available)).None?;
    }
  }

  /** Why an unassignment is refused. */
  lemma UnassignRefusals(db: Db, orderId: string, now: Time)
    requires HasOrder(db.deliveries, orderId) ==> HasCourier(db.couriers, OrderRow(db.deliveries, orderId).courierId)
    ensures var r := Unassign(db, orderId, now, NoFault).1;
      var blank := forall i :: 0 <= i < |orderId| ==> IsSpace(orderId[i]);
      && (r == Err(InvalidOrderId) <==> blank)
      && (r == Err(DeliveryNotFound) <==>
            !blank && forall j :: 0 <= j < |db.deliveries| ==> db.deliveries[j].orderId != orderId)
      && (!blank && HasOrder(db.deliveries, orderId) ==>
          var others := Load(WithoutOrder(db.deliveries, orderId), OrderRow(db.deliveries, orderId).courierId, now);
          if others > 0 then r == Err(CourierHasActiveDeliveries) else r.Ok?)
  {
    hide TrimSpace, IsSpace;
    BlankIffAllSpaces(orderId);
  }

  predicate CanComplete(db: Db, orderId: string, fault: Fault) {
    && IsValidOrderId(orderId) && HasOrder(db.deliveries, orderId)
    && HasCourier(db.couriers, OrderRow(db.deliveries, orderId).courierId)
    && Harmless(fault, 2)
  }

  /** The state after a successful completion: the row stays. */
  function Finished(db: Db, orderId: string, now: Time): Db
    requires HasOrder(db.deliveries, orderId)
  {
    db.(couriers := WithStatus(db.couriers, OrderRow(db.deliveries, orderId).courierId, Available, now))
  }

  lemma CompleteOutcome(db: Db, orderId: string, now: Time, fault: Fault)
    ensures var (db', r) := Complete(db, orderId, now, fault);
      && (r.Ok? <==> CanComplete(db, orderId, fault))
      && (r.Err? ==> RolledBack(db, db'))
      && (r.Ok? ==> db' == Finished(db, orderId, now))
  {
  }
}
