/** The service operations as functions on the tables, and runs of them. */
module Dispatch {
  import opened Entities
  import opened Validators
  import opened Tables

  // ----- courier service -----

  function CreateCourier(db: Db, m: CourierModify, now: Time, fails: Option<Error>): (Db, Result<int>) {
    if m.name.None? || m.phone.None? || m.status.None? || m.transport.None? then (db, Err(MissingRequiredFields))
    else if !IsValidName(m.name.value) then (db, Err(InvalidName))
    else if !IsValidPhone(m.phone.value) then (db, Err(InvalidPhone))
    else if !IsValidStatus(m.status.value) then (db, Err(InvalidStatus))
    else if !IsValidTransport(m.transport.value) then (db, Err(InvalidTransport))
    else InsertCourier(db, fails, m.name.value, m.phone.value, m.status.value, m.transport.value, now)
  }

  function ModifyError(m: CourierModify): Option<Error> {
    if m.name.None? && m.phone.None? && m.status.None? && m.transport.None? then Some(MissingRequiredFields)
    else if m.name.Some? && !IsValidName(m.name.value) then Some(InvalidName)
    else if m.phone.Some? && !IsValidPhone(m.phone.value) then Some(InvalidPhone)
    else if m.status.Some? && !IsValidStatus(m.status.value) then Some(InvalidStatus)
    else if m.transport.Some? && !IsValidTransport(m.transport.value) then Some(InvalidTransport)
    else None
  }

  function UpdateCourier(db: Db, m: CourierModify, now: Time, fails: Option<Error>): (Db, Result<Courier>) {
    if ModifyError(m).Some? then (db, Err(ModifyError(m).value)) else UpdateCourierRow(db, fails, m, now)
  }

  // ----- delivery service -----

  function StatusOnly(id: int, status: Status): CourierModify {
    CourierModify(Some(id), None, None, Some(status), None)
  }

  function Deadline(transport: Transport, base: Time): (r: Time)
    ensures base + 5 * MINUTE <= r <= base + 15 * MINUTE
  {
    match transport
    case OnFoot => base + 15 * MINUTE
    case Scooter => base + 10 * MINUTE
    case Car => base + 5 * MINUTE
    case OtherTransport(_) => base + 15 * MINUTE
  }

  /** What the transaction manager makes of a body's outcome: the tables are kept on success
      and restored otherwise. Values drawn from the id sequences are never given back. */
  function Do<T>(before: Db, outcome: (Db, Result<T>)): (Db, Result<T>) {
    if outcome.1.Ok? then outcome
    else (before.(courierSeq := outcome.0.courierSeq, deliverySeq := outcome.0.deliverySeq), outcome.1)
  }

  function Commit<T>(outcome: (Db, Result<T>), fails: Option<Error>): (Db, Result<T>) {
    if outcome.1.Ok? && fails.Some? then (outcome.0, Err(fails.value)) else outcome
  }

  function AssignBody(db: Db, orderId: string, clock: AssignClock, fault: Fault): (Db, Result<Assignment>) {
    if fault.At(0).Some? then (db, Err(fault.At(0).value))
    else
      var picked := Pick(db.couriers, db.deliveries, clock.now);
      if picked.None? then (db, Err(NoAvailableCouriers))
      else
        var c := picked.value;
        var (db1, inserted) := InsertDelivery(db, fault.At(1), c.id, orderId,
          clock.createdAt, clock.assignedAt, Deadline(c.transport, clock.deadlineBase));
        if inserted.Err? then (db1, Err(inserted.error))
        else
          var (db2, updated) := UpdateCourier(db1, StatusOnly(c.id, Busy), clock.now, fault.At(2));
          if updated.Err? then (db2, Err(updated.error))
          else (db2, Ok(Assignment(updated.value.id, inserted.value.orderId, inserted.value.assignedAt,
                                   inserted.value.deadline, updated.value.transport)))
  }

  function Assign(db: Db, orderId: string, clock: AssignClock, fault: Fault): (Db, Result<Assignment>) {
    if !IsValidOrderId(orderId) then (db, Err(InvalidOrderId))
    else Do(db, Commit(AssignBody(db, orderId, clock, fault), fault.At(3)))
  }

  /** The self-join's answer for one order: its courier, and that courier's other active deliveries. */
  function OthersOf(ds: seq<Delivery>, orderId: string, now: Time): Result<(int, nat)> {
    if !HasOrder(ds, orderId) then Err(DeliveryNotFound)
    else
      var id := OrderRow(ds, orderId).courierId;
      Ok((id, Load(WithoutOrder(ds, orderId), id, now)))
  }

  function UnassignBody(db: Db, orderId: string, now: Time, fault: Fault): (Db, Result<Unassignment>) {
    if fault.At(0).Some? then (db, Err(fault.At(0).value))
    else
      var found := OthersOf(db.deliveries, orderId, now);
      if found.Err? then (db, Err(found.error))
      else
        var (id, others) := found.value;
        if others > 0 then (db, Err(CourierHasActiveDeliveries))
        else
          var (db1, deleted) := DeleteDelivery(db, fault.At(1), orderId);
          if deleted.Err? then (db1, Err(deleted.error))
          else
            var (db2, updated) := UpdateCourier(db1, StatusOnly(id, Available), now, fault.At(2));
            if updated.Err? then (db2, Err(updated.error))
            else (db2, Ok(Unassignment(updated.value.id, orderId, updated.value.status)))
  }

  function Unassign(db: Db, orderId: string, now: Time, fault: Fault): (Db, Result<Unassignment>) {
    if !IsValidOrderId(orderId) then (db, Err(InvalidOrderId))
    else Do(db, Commit(UnassignBody(db, orderId, now, fault), fault.At(3)))
  }

  function CompleteBody(db: Db, orderId: string, now: Time, fault: Fault): (Db, Result<()>) {
    if fault.At(0).Some? then (db, Err(fault.At(0).value))
    else if !HasOrder(db.deliveries, orderId) then (db, Err(DeliveryNotFound))
    else
      var id := OrderRow(db.deliveries, orderId).courierId;
      var (db1, updated) := UpdateCourier(db, StatusOnly(id, Available), now, fault.At(1));
      if updated.Err? then (db1, Err(updated.error))
      else if updated.value.status != Available then (db1, Err(StatusNotInstalled))
      else (db1, Ok(()))
  }

  function Complete(db: Db, orderId: string, now: Time, fault: Fault): (Db, Result<()>) {
    if !IsValidOrderId(orderId) then (db, Err(InvalidOrderId))
    else Do(db, Commit(CompleteBody(db, orderId, now, fault), fault.At(2)))
  }

  function Cleanup(db: Db, now: Time, fault: Fault): (Db, Result<nat>) {
    ReleaseExpired(db, fault.At(0), now)
  }

  // ----- runs -----

  datatype Step =
    | PostCourier(change: CourierModify, at: Time, fault: Fault)
    | PutCourier(change: CourierModify, at: Time, fault: Fault)
    | AssignOrder(orderId: string, clock: AssignClock, fault: Fault)
    | UnassignOrder(orderId: string, at: Time, fault: Fault)
    | CompleteOrder(orderId: string, at: Time, fault: Fault)
    | CleanupTick(at: Time, fault: Fault)

  function ErrorOf<T>(r: Result<T>): Option<Error> {
    if r.Ok? then None else Some(r.error)
  }

  function Apply(db: Db, s: Step): (Db, Option<Error>) {
    match s
    case PostCourier(m, at, f) => var (d, r) := CreateCourier(db, m, at, f.At(0)); (d, ErrorOf(r))
    case PutCourier(m, at, f) => var (d, r) := UpdateCourier(db, m, at, f.At(0)); (d, ErrorOf(r))
    case AssignOrder(o, clock, f) => var (d, r) := Assign(db, o, clock, f); (d, ErrorOf(r))
    case UnassignOrder(o, at, f) => var (d, r) := Unassign(db, o, at, f); (d, ErrorOf(r))
    case CompleteOrder(o, at, f) => var (d, r) := Complete(db, o, at, f); (d, ErrorOf(r))
    case CleanupTick(at, f) => var (d, r) := Cleanup(db, at, f); (d, ErrorOf(r))
  }

  function Succeeds(db: Db, s: Step): bool {
    Apply(db, s).1.None?
  }

  function Run(db: Db, steps: seq<Step>): Db
    decreases |steps|
  {
    if steps == [] then db else Run(Apply(db, steps[0]).0, steps[1..])
  }
}
