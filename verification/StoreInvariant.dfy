/** What every step keeps true of the two tables. */
module StoreInvariant {
  import opened Entities
  import opened Validators
  import opened Tables
  import opened Dispatch
  import opened Outcomes

  ghost predicate CourierIdsUnique(cs: seq<Courier>) {
    forall i, j :: 0 <= i < j < |cs| ==> cs[i].id != cs[j].id
  }

  ghost predicate PhonesUnique(cs: seq<Courier>) {
    forall i, j :: 0 <= i < j < |cs| ==> cs[i].phone != cs[j].phone
  }

  ghost predicate OrdersUnique(ds: seq<Delivery>) {
    forall i, j :: 0 <= i < j < |ds| ==> ds[i].orderId != ds[j].orderId
  }

  ghost predicate CouriersValid(cs: seq<Courier>, drawn: nat) {
    forall i :: 0 <= i < |cs| ==> IsValidCourier(cs[i]) && 0 < cs[i].id <= drawn
  }

  ghost predicate ReferencesHold(cs: seq<Courier>, ds: seq<Delivery>) {
    forall j :: 0 <= j < |ds| ==> HasCourier(cs, ds[j].courierId)
  }

  ghost predicate OrdersFit(ds: seq<Delivery>) {
    forall j :: 0 <= j < |ds| ==> |ds[j].orderId| <= ORDER_ID_LIMIT
  }

  ghost predicate Valid(db: Db) {
    && CourierIdsUnique(db.couriers)
    && PhonesUnique(db.couriers)
    && OrdersUnique(db.deliveries) && OrdersFit(db.deliveries)
    && CouriersValid(db.couriers, db.courierSeq)
    && ReferencesHold(db.couriers, db.deliveries)
  }

  // ----- lookups under the keys -----

  lemma RowIsUnique(cs: seq<Courier>, a: Courier, b: Courier)
    requires CourierIdsUnique(cs) && a in cs && b in cs && a.id == b.id
    ensures a == b
  {
    var i :| 0 <= i < |cs| && cs[i] == a;
    var j :| 0 <= j < |cs| && cs[j] == b;
    assert i == j;
  }

  /** The courier of an order's row exists. */
  lemma RowHasCourier(db: Db, orderId: string)
    requires Valid(db) && HasOrder(db.deliveries, orderId)
    ensures HasCourier(db.couriers, OrderRow(db.deliveries, orderId).courierId)
  {
    var j :| 0 <= j < |db.deliveries| && db.deliveries[j] == OrderRow(db.deliveries, orderId);
    assert HasCourier(db.couriers, db.deliveries[j].courierId);
  }

  lemma OrderRowIsUnique(ds: seq<Delivery>, a: Delivery, b: Delivery)
    requires OrdersUnique(ds) && a in ds && b in ds && a.orderId == b.orderId
    ensures a == b
  {
    var i :| 0 <= i < |ds| && ds[i] == a;
    var j :| 0 <= j < |ds| && ds[j] == b;
    assert i == j;
  }

  lemma HasOrderAppend(ds: seq<Delivery>, d: Delivery, orderId: string)
    ensures HasOrder(ds + [d], orderId) <==> HasOrder(ds, orderId) || d.orderId == orderId
  {
    assert (ds + [d])[|ds|] == d;
    if HasOrder(ds, orderId) {
      var j :| 0 <= j < |ds| && ds[j].orderId == orderId;
      assert (ds + [d])[j].orderId == orderId;
    }
  }

  lemma OrdersUniqueAppend(ds: seq<Delivery>, d: Delivery)
    ensures OrdersUnique(ds + [d]) <==> OrdersUnique(ds) && !HasOrder(ds, d.orderId)
  {
    assert forall j :: 0 <= j < |ds| ==> (ds + [d])[j] == ds[j];
    assert (ds + [d])[|ds|] == d;
  }

  lemma DeletedStaysAbsent(ds: seq<Delivery>, deleted: string, orderId: string)
    requires !HasOrder(ds, orderId)
    ensures !HasOrder(WithoutOrder(ds, deleted), orderId)
  {
    WithoutMembers(ds, deleted);
  }

  /** Deleting by order id takes away exactly one row. */
  lemma {:induction false} RemoveOne(ds: seq<Delivery>, orderId: string)
    requires OrdersUnique(ds)
    ensures OrdersUnique(WithoutOrder(ds, orderId))
    ensures |WithoutOrder(ds, orderId)| == if HasOrder(ds, orderId) then |ds| - 1 else |ds|
    ensures !HasOrder(ds, orderId) ==> WithoutOrder(ds, orderId) == ds
  {
    if ds == [] {
    } else {
      hide WithoutOrder, HasOrder, OrdersUnique;
      var init, last := ds[..|ds| - 1], ds[|ds| - 1];
      assert ds == init + [last];
      OrdersUniqueAppend(init, last);
      HasOrderAppend(init, last, orderId);
      RemoveOne(init, orderId);
      WithoutAppend(init, last, orderId);
      if last.orderId != orderId {
        DeletedStaysAbsent(init, orderId, last.orderId);
        OrdersUniqueAppend(WithoutOrder(init, orderId), last);
      }
    }
  }

  /** ... and exactly that row's share of its courier's load. */
  lemma {:induction false} RemoveLoad(ds: seq<Delivery>, orderId: string, id: int, now: Time)
    requires OrdersUnique(ds) && HasOrder(ds, orderId)
    ensures Load(WithoutOrder(ds, orderId), id, now) == Load(ds, id, now) - Counts(OrderRow(ds, orderId), id, now)
  {
    var init, last := ds[..|ds| - 1], ds[|ds| - 1];
    if last.orderId == orderId {
      assert !HasOrder(init, orderId);
      RemoveOne(init, orderId);
      assert WithoutOrder(ds, orderId) == init;
    } else {
      assert HasOrder(init, orderId);
      RemoveLoad(init, orderId, id, now);
      LoadAppend(WithoutOrder(init, orderId), last, id, now);
    }
  }

  // ----- the invariant, statement by statement -----

  /** Changing rows without touching ids keeps every reference. */
  lemma SameIdsKeepReferences(cs: seq<Courier>, cs': seq<Courier>, ds: seq<Delivery>)
    requires |cs| <= |cs'| && forall i :: 0 <= i < |cs| ==> cs'[i].id == cs[i].id
    requires ReferencesHold(cs, ds)
    ensures ReferencesHold(cs', ds)
  {
    forall j | 0 <= j < |ds| ensures HasCourier(cs', ds[j].courierId) {
      var i :| 0 <= i < |cs| && cs[i].id == ds[j].courierId;
      assert cs'[i].id == ds[j].courierId;
    }
  }

  lemma UpdateCourierKeepsValid(db: Db, m: CourierModify, now: Time, fails: Option<Error>)
    requires Valid(db)
    ensures Valid(UpdateCourier(db, m, now, fails).0)
  {
    hide IsValidName, IsValidPhone, OrdersUnique, OrdersFit;
    SameIdsKeepReferences(db.couriers, UpdateCourier(db, m, now, fails).0.couriers, db.deliveries);
  }

  lemma CreateCourierKeepsValid(db: Db, m: CourierModify, now: Time, fails: Option<Error>)
    requires Valid(db)
    ensures Valid(CreateCourier(db, m, now, fails).0)
  {
    hide IsValidName, IsValidPhone, OrdersUnique, OrdersFit;
    SameIdsKeepReferences(db.couriers, CreateCourier(db, m, now, fails).0.couriers, db.deliveries);
  }

  /** A courier is created exactly when all its fields are present and valid and its phone is free;
      it then gets an id no row had, and the fields it was given. */
  lemma CreateOutcome(db: Db, m: CourierModify, now: Time)
    requires Valid(db)
    ensures var (db', r) := CreateCourier(db, m, now, None);
      && (r.Ok? <==>
          && m.name.Some? && m.phone.Some? && m.status.Some? && m.transport.Some?
          && ModifyError(m).None? && !exists i :: 0 <= i < |db.couriers| && db.couriers[i].phone == m.phone.value)
      && (r.Err? ==> SameTables(db, db'))
      && (r.Ok? ==>
          && !HasCourier(db.couriers, r.value)
          && db'.deliveries == db.deliveries && |db'.couriers| == |db.couriers| + 1
          && (forall i :: 0 <= i < |db.couriers| ==> db'.couriers[i] == db.couriers[i])
          && db'.couriers[|db.couriers|] ==
             Courier(r.value, m.name.value, m.phone.value, m.status.value, m.transport.value, now, now))
  {
    hide IsValidName, IsValidPhone;
  }

  lemma WithStatusKeepsValid(db: Db, id: int, status: Status, now: Time)
    requires Valid(db) && IsValidStatus(status)
    ensures Valid(db.(couriers := WithStatus(db.couriers, id, status, now)))
  {
    SameIdsKeepReferences(db.couriers, WithStatus(db.couriers, id, status, now), db.deliveries);
  }

  lemma GrantedIsValid(db: Db, orderId: string, clock: AssignClock)
    requires Valid(db) && AnyAvailable(db.couriers)
    requires !HasOrder(db.deliveries, orderId) && |orderId| <= ORDER_ID_LIMIT
    ensures Valid(Granted(db, orderId, clock))
  {
    var c := Picked(db, clock.now);
    assert HasCourier(db.couriers, c.id);
    var row := GrantedRow(db, orderId, clock);
    var db1 := db.(deliveries := db.deliveries + [row], deliverySeq := db.deliverySeq + 1);
    assert Valid(db1);
    WithStatusKeepsValid(db1, c.id, Busy, clock.now);
  }

  lemma RevokedIsValid(db: Db, orderId: string, now: Time)
    requires Valid(db) && HasOrder(db.deliveries, orderId)
    ensures Valid(Revoked(db, orderId, now))
  {
    RemoveOne(db.deliveries, orderId);
    WithoutMembers(db.deliveries, orderId);
    var db1 := db.(deliveries := WithoutOrder(db.deliveries, orderId));
    forall j | 0 <= j < |db1.deliveries|
      ensures HasCourier(db.couriers, db1.deliveries[j].courierId) && |db1.deliveries[j].orderId| <= ORDER_ID_LIMIT
    {
      assert db1.deliveries[j] in db.deliveries;
    }
    WithStatusKeepsValid(db1, OrderRow(db.deliveries, orderId).courierId, Available, now);
  }

  lemma AssignKeepsValid(db: Db, orderId: string, clock: AssignClock, fault: Fault)
    requires Valid(db)
    ensures Valid(Assign(db, orderId, clock, fault).0)
  {
    AssignOutcome(db, orderId, clock, fault);
    if CanAssign(db, orderId, fault) { GrantedIsValid(db, orderId, clock); }
  }

  lemma UnassignKeepsValid(db: Db, orderId: string, now: Time, fault: Fault)
    requires Valid(db)
    ensures Valid(Unassign(db, orderId, now, fault).0)
  {
    UnassignOutcome(db, orderId, now, fault);
    if CanUnassign(db, orderId, now, fault) { RevokedIsValid(db, orderId, now); }
  }

  lemma CompleteKeepsValid(db: Db, orderId: string, now: Time, fault: Fault)
    requires Valid(db)
    ensures Valid(Complete(db, orderId, now, fault).0)
  {
    CompleteOutcome(db, orderId, now, fault);
    if CanComplete(db, orderId, fault) {
      WithStatusKeepsValid(db, OrderRow(db.deliveries, orderId).courierId, Available, now);
    }
  }

  lemma StepKeepsValid(db: Db, s: Step)
    requires Valid(db)
    ensures Valid(Apply(db, s).0)
  {
    hide Assign, Unassign, Complete, CreateCourier, UpdateCourier;
    match s
    case PostCourier(m, at, f) => CreateCourierKeepsValid(db, m, at, f.At(0));
    case PutCourier(m, at, f) => UpdateCourierKeepsValid(db, m, at, f.At(0));
    case AssignOrder(o, clock, f) => AssignKeepsValid(db, o, clock, f);
    case UnassignOrder(o, at, f) => UnassignKeepsValid(db, o, at, f);
    case CompleteOrder(o, at, f) => CompleteKeepsValid(db, o, at, f);
    case CleanupTick(at, f) =>
      SameIdsKeepReferences(db.couriers, Cleanup(db, at, f).0.couriers, db.deliveries);
  }

  /** Keys, references and validators hold after any mix of operations, failing or not. */
  lemma {:induction false} RunKeepsValid(db: Db, steps: seq<Step>)
    requires Valid(db)
    ensures Valid(Run(db, steps))
    decreases |steps|
  {
    if steps == [] {
    } else {
      StepKeepsValid(db, steps[0]);
      RunKeepsValid(Apply(db, steps[0]).0, steps[1..]);
    }
  }
}
