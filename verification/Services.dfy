/** The courier and delivery services over the tables in place. */
module Services {
  import opened Entities
  import opened Validators
  import opened StoreInvariant
  import opened Accounting
  import opened Repository
  import D = Dispatch

  class CourierService {
    const db: Database

    constructor (db: Database)
      ensures this.db == db
    {
      this.db := db;
    }

    method CreateCourier(m: CourierModify, now: Time, fails: Option<Error>) returns (r: Result<int>)
      modifies db
      ensures (db.State(), r) == D.CreateCourier(old(db.State()), m, now, fails)
    {
      if m.name.None? || m.phone.None? || m.status.None? || m.transport.None? {
        return Err(MissingRequiredFields);
      }
      if !IsValidName(m.name.value) {
        return Err(InvalidName);
      }
      if !IsValidPhone(m.phone.value) {
        return Err(InvalidPhone);
      }
      if !IsValidStatus(m.status.value) {
        return Err(InvalidStatus);
      }
      if !IsValidTransport(m.transport.value) {
        return Err(InvalidTransport);
      }
      r := db.Create(fails, m.name.value, m.phone.value, m.status.value, m.transport.value, now);
    }

    method UpdateCourier(m: CourierModify, now: Time, fails: Option<Error>) returns (r: Result<Courier>)
      requires CourierIdsUnique(db.couriers)
      modifies db
      ensures (db.State(), r) == D.UpdateCourier(old(db.State()), m, now, fails)
    {
      if m.name.None? && m.phone.None? && m.status.None? && m.transport.None? {
        return Err(MissingRequiredFields);
      }
      if m.name.Some? && !IsValidName(m.name.value) {
        return Err(InvalidName);
      }
      if m.phone.Some? && !IsValidPhone(m.phone.value) {
        return Err(InvalidPhone);
      }
      if m.status.Some? && !IsValidStatus(m.status.value) {
        return Err(InvalidStatus);
      }
      if m.transport.Some? && !IsValidTransport(m.transport.value) {
        return Err(InvalidTransport);
      }
      r := db.Update(fails, m, now);
    }
  }

  /** Each operation runs on the tables in place inside a transaction: an error restores both tables. */
  class DeliveryService {
    const db: Database
    const couriers: CourierService

    constructor (db: Database, couriers: CourierService)
      requires couriers.db == db
      ensures this.db == db && this.couriers == couriers
    {
      this.db := db;
      this.couriers := couriers;
    }

    /** Rolls back, as the transaction manager does on an error. */
    method Restore(savedCouriers: seq<Courier>, savedDeliveries: seq<Delivery>)
      modifies db
      ensures db.State() == old(db.State()).(couriers := savedCouriers, deliveries := savedDeliveries)
    {
      db.couriers := savedCouriers;
      db.deliveries := savedDeliveries;
    }

    method DeliveryAssign(orderId: string, clock: AssignClock, fault: Fault) returns (r: Result<Assignment>)
      requires couriers.db == db && Valid(db.State())
      modifies db
      ensures (db.State(), r) == D.Assign(old(db.State()), orderId, clock, fault)
      ensures Valid(db.State())
      ensures r.Ok? ==> AssignedAsPromised(old(db.State()), db.State(), orderId, clock, r.value)
      ensures r.Err? ==> db.couriers == old(db.couriers) && db.deliveries == old(db.deliveries)
    {
      AssignKeepsValid(db.State(), orderId, clock, fault);
      if D.Assign(db.State(), orderId, clock, fault).1.Ok? { GrantDeadline(db.State(), orderId, clock, fault); }
      if !IsValidOrderId(orderId) {
        return Err(InvalidOrderId);
      }
      var savedCouriers, savedDeliveries := db.couriers, db.deliveries;
      r := AssignInTransaction(orderId, clock, fault);
      if r.Ok? && fault.At(3).Some? {
        r := Err(fault.At(3).value);
      }
      if r.Err? {
        Restore(savedCouriers, savedDeliveries);
      }
    }

    method AssignInTransaction(orderId: string, clock: AssignClock, fault: Fault) returns (r: Result<Assignment>)
      requires couriers.db == db && Valid(db.State())
      modifies db
      ensures (db.State(), r) == D.AssignBody(old(db.State()), orderId, clock, fault)
    {
      hide D.Deadline, PhonesUnique, OrdersUnique, OrdersFit, CouriersValid, ReferencesHold, TakesFewestActive;
      var found := db.GetCourierForAssignment(clock.now, fault.At(0));
      if found.Err? {
        return Err(found.error);
      }
      var courier := found.value;
      var deadline := D.Deadline(courier.transport, clock.deadlineBase);
      var delivery := db.CreateDelivery(fault.At(1), courier.id, orderId, clock.createdAt, clock.assignedAt, deadline);
      if delivery.Err? {
        return Err(delivery.error);
      }
      var updated := couriers.UpdateCourier(D.StatusOnly(courier.id, Busy), clock.now, fault.At(2));
      if updated.Err? {
        return Err(updated.error);
      }
      return Ok(Assignment(updated.value.id, delivery.value.orderId, delivery.value.assignedAt,
                           delivery.value.deadline, updated.value.transport));
    }

    method DeliveryUnassign(orderId: string, now: Time, fault: Fault) returns (r: Result<Unassignment>)
      requires couriers.db == db && Valid(db.State())
      modifies db
      ensures (db.State(), r) == D.Unassign(old(db.State()), orderId, now, fault)
      ensures Valid(db.State())
      ensures r.Err? ==> db.couriers == old(db.couriers) && db.deliveries == old(db.deliveries)
    {
      UnassignKeepsValid(db.State(), orderId, now, fault);
      if !IsValidOrderId(orderId) {
        return Err(InvalidOrderId);
      }
      var savedCouriers, savedDeliveries := db.couriers, db.deliveries;
      r := UnassignInTransaction(orderId, now, fault);
      if r.Ok? && fault.At(3).Some? {
        r := Err(fault.At(3).value);
      }
      if r.Err? {
        Restore(savedCouriers, savedDeliveries);
      }
    }

    method UnassignInTransaction(orderId: string, now: Time, fault: Fault) returns (r: Result<Unassignment>)
      requires couriers.db == db && Valid(db.State())
      modifies db
      ensures (db.State(), r) == D.UnassignBody(old(db.State()), orderId, now, fault)
    {
      var found := db.GetCourierIDAndDeliveryCount(orderId, now, fault.At(0));
      if found.Err? {
        return Err(found.error);
      }
      var (courierId, activeDeliveries) := found.value;
      if activeDeliveries > 0 {
        return Err(CourierHasActiveDeliveries);
      }
      var deleted := db.Delete(fault.At(1), orderId);
      if deleted.Err? {
        return Err(deleted.error);
      }
      var updated := couriers.UpdateCourier(D.StatusOnly(courierId, Available), now, fault.At(2));
      if updated.Err? {
        return Err(updated.error);
      }
      return Ok(Unassignment(updated.value.id, orderId, updated.value.status));
    }

    method FreeCourierByOrderID(orderId: string, now: Time, fault: Fault) returns (r: Result<()>)
      requires couriers.db == db && Valid(db.State())
      modifies db
      ensures (db.State(), r) == D.Complete(old(db.State()), orderId, now, fault)
      ensures Valid(db.State())
      ensures r.Err? ==> db.couriers == old(db.couriers) && db.deliveries == old(db.deliveries)
    {
      CompleteKeepsValid(db.State(), orderId, now, fault);
      if !IsValidOrderId(orderId) {
        return Err(InvalidOrderId);
      }
      var savedCouriers, savedDeliveries := db.couriers, db.deliveries;
      r := FreeInTransaction(orderId, now, fault);
      if r.Ok? && fault.At(2).Some? {
        r := Err(fault.At(2).value);
      }
      if r.Err? {
        Restore(savedCouriers, savedDeliveries);
      }
    }

    method FreeInTransaction(orderId: string, now: Time, fault: Fault) returns (r: Result<()>)
      requires couriers.db == db && Valid(db.State())
      modifies db
      ensures (db.State(), r) == D.CompleteBody(old(db.State()), orderId, now, fault)
    {
      var found := db.GetCourierIDByOrderID(orderId, fault.At(0));
      if found.Err? {
        return Err(found.error);
      }
      var updated := couriers.UpdateCourier(D.StatusOnly(found.value, Available), now, fault.At(1));
      if updated.Err? {
        return Err(updated.error);
      }
      if updated.value.status != Available {
        return Err(StatusNotInstalled);
      }
      return Ok(());
    }

    method CleanupExpiredDeliveries(now: Time, fault: Fault) returns (r: Result<nat>)
      modifies db
      ensures (db.State(), r) == D.Cleanup(old(db.State()), now, fault)
    {
      r := db.UpdateCouriersAvailableWhereDeadlineExpired(now, fault.At(0));
    }
  }
}
