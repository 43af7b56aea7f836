/** Entities, results and errors shared by every module. */
module Entities {

  datatype Option<+T> = None | Some(value: T)

  /** A value, or the error the source returns. */
  datatype Result<+T> = Ok(value: T) | Err(error: Error)

  datatype Error =
    | MissingRequiredFields
    | InvalidName
    | InvalidPhone
    | InvalidStatus
    | InvalidTransport
    | CourierNotFound
    | Conflict
    | InvalidOrderId
    | NoAvailableCouriers
    | DeliveryNotFound
    | OrderAlreadyAssigned
    | CourierHasActiveDeliveries
    | ValueTooLong          // the database refuses an order id longer than its column
    | ForeignKeyViolation
    | StatusNotInstalled    // completion read back another status than the one it wrote
    | OrderServiceFailure
    | Infrastructure(cancelled: bool)  // a statement failed; `cancelled`: with a context error

  /** Is this an error that `errors.Is` matches with context.Canceled or context.DeadlineExceeded? */
  predicate IsContextError(e: Error) {
    e.Infrastructure? && e.cancelled
  }

  /** Microseconds, the resolution of a timestamp column. */
  type Time = int

  const MINUTE: int := 60_000_000

  /** The Go type is a string: one constructor per named constant, `Other` for every other string. */
  datatype Status = Available | Busy | Paused | OtherStatus(text: string)

  datatype Transport = OnFoot | Scooter | Car | OtherTransport(text: string)

  datatype OrderStatus = Created | Cancelled | Completed | OtherOrderStatus(text: string)

  datatype Courier = Courier(
    id: int,
    name: string,
    phone: string,
    status: Status,
    transport: Transport,
    createdAt: Time,
    updatedAt: Time)

  datatype CourierModify = CourierModify(
    id: Option<int>,
    name: Option<string>,
    phone: Option<string>,
    status: Option<Status>,
    transport: Option<Transport>)

  datatype Delivery = Delivery(
    id: int,
    courierId: int,
    orderId: string,
    createdAt: Time,
    assignedAt: Time,
    deadline: Time)

  datatype Assignment = Assignment(
    courierId: int,
    orderId: string,
    assignedAt: Time,
    deadline: Time,
    transport: Transport)

  datatype Unassignment = Unassignment(courierId: int, orderId: string, status: Status)

  datatype Order = Order(id: string, status: OrderStatus)

  /** At most one statement of a transaction fails for reasons outside the tables, since the
      first failure ends it. Statements are counted from 0 and the commit is the last one. */
  datatype Fault = NoFault | FaultAt(statement: nat, cancelled: bool) {
    function At(k: nat): Option<Error> {
      if FaultAt? && statement == k then Some(Infrastructure(cancelled)) else None
    }
  }

  /** The clock readings of one assignment: when the request arrived, the transaction's NOW(),
      the base of the deadline, and the assignment time. */
  datatype AssignClock = AssignClock(createdAt: Time, now: Time, deadlineBase: Time, assignedAt: Time) {
    predicate Ordered() {
      createdAt <= now <= deadlineBase <= assignedAt
    }
  }
}
