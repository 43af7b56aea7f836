/** Who stays busy, for how long, and how many. */
module BusyCouriers {
  import opened Entities
  import opened Tables
  import opened Dispatch
  import opened Outcomes
  import opened StoreInvariant

  // ----- row timing -----

  predicate RowTimed(d: Delivery) {
    && d.createdAt <= d.assignedAt
    && d.deadline >= d.createdAt + 5 * MINUTE
    && d.deadline <= d.assignedAt + 15 * MINUTE
  }

  ghost predicate RowsTimed(ds: seq<Delivery>) {
    forall j :: 0 <= j < |ds| ==> RowTimed(ds[j])
  }

  /** The readings of one clock that never goes back. */
  predicate WellTimed(s: Step) {
    s.AssignOrder? ==> s.clock.Ordered()
  }

  lemma StepKeepsTiming(db: Db, s: Step)
    requires RowsTimed(db.deliveries) && WellTimed(s)
    ensures RowsTimed(Apply(db, s).0.deliveries)
  {
    match s
    case PostCourier(m, at, f) =>
    case PutCourier(m, at, f) =>
    case AssignOrder(o, clock, f) => AssignOutcome(db, o, clock, f);
    case UnassignOrder(o, at, f) =>
      UnassignOutcome(db, o, at, f);
      WithoutMembers(db.deliveries, o);
      var rest := Apply(db, s).0.deliveries;
      forall j | 0 <= j < |rest| ensures RowTimed(rest[j]) {
        assert rest[j] in db.deliveries;
      }
    case CompleteOrder(o, at, f) => CompleteOutcome(db, o, at, f);
    case CleanupTick(at, f) =>
  }

  // ----- busy implies owning a row -----

  ghost predicate BusyOwnRows(db: Db) {
    forall i :: 0 <= i < |db.couriers| && db.couriers[i].status == Busy ==> HasRow(db.deliveries, db.couriers[i].id)
  }

  /** Neither POST nor PUT writes the status "busy". */
  predicate WritesNoBusy(s: Step) {
    (s.PostCourier? || s.PutCourier?) ==> s.change.status != Some(Busy)
  }

  lemma RowSurvivesAppend(ds: seq<Delivery>, row: Delivery, id: int)
    requires HasRow(ds, id) || row.courierId == id
    ensures HasRow(ds + [row], id)
  {
    if HasRow(ds, id) {
      var j :| 0 <= j < |ds| && ds[j].courierId == id;
      assert (ds + [row])[j].courierId == id;
    } else {
      assert (ds + [row])[|ds|].courierId == id;
    }
  }

  lemma RowSurvivesDelete(ds: seq<Delivery>, orderId: string, id: int)
    requires OrdersUnique(ds) && HasOrder(ds, orderId)
    requires HasRow(ds, id) && id != OrderRow(ds, orderId).courierId
    ensures HasRow(WithoutOrder(ds, orderId), id)
  {
    var j :| 0 <= j < |ds| && ds[j].courierId == id;
    var k :| 0 <= k < |ds| && ds[k] == OrderRow(ds, orderId);
    assert j != k;
    WithoutMembers(ds, orderId);
    assert ds[j] in WithoutOrder(ds, orderId);
  }

  lemma GrantKeepsBusyOwnRows(db: Db, orderId: string, clock: AssignClock)
    requires BusyOwnRows(db) && AnyAvailable(db.couriers)
    ensures BusyOwnRows(Granted(db, orderId, clock))
  {
    var db' := Granted(db, orderId, clock);
    forall i | 0 <= i < |db'.couriers| && db'.couriers[i].status == Busy
      ensures HasRow(db'.deliveries, db'.couriers[i].id)
    {
      RowSurvivesAppend(db.deliveries, GrantedRow(db, orderId, clock), db.couriers[i].id);
    }
  }

  lemma RevokeKeepsBusyOwnRows(db: Db, orderId: string, now: Time)
    requires BusyOwnRows(db) && OrdersUnique(db.deliveries) && HasOrder(db.deliveries, orderId)
    ensures BusyOwnRows(Revoked(db, orderId, now))
  {
    var db' := Revoked(db, orderId, now);
    forall i | 0 <= i < |db'.couriers| && db'.couriers[i].status == Busy
      ensures HasRow(db'.deliveries, db'.couriers[i].id)
    {
      RowSurvivesDelete(db.deliveries, orderId, db.couriers[i].id);
    }
  }

  lemma StepKeepsBusyOwnRows(db: Db, s: Step)
    requires BusyOwnRows(db) && OrdersUnique(db.deliveries) && WritesNoBusy(s)
    ensures BusyOwnRows(Apply(db, s).0)
  {
    match s
    case PostCourier(m, at, f) =>
    case PutCourier(m, at, f) =>
    case AssignOrder(o, clock, f) =>
      AssignOutcome(db, o, clock, f);
      if CanAssign(db, o, f) { GrantKeepsBusyOwnRows(db, o, clock); }
    case UnassignOrder(o, at, f) =>
      UnassignOutcome(db, o, at, f);
      if CanUnassign(db, o, at, f) { RevokeKeepsBusyOwnRows(db, o, at); }
    case CompleteOrder(o, at, f) => CompleteOutcome(db, o, at, f);
    case CleanupTick(at, f) =>
  }

  // ----- runs -----

  ghost predicate Orderly(steps: seq<Step>) {
    forall k :: 0 <= k < |steps| ==> WellTimed(steps[k]) && WritesNoBusy(steps[k])
  }

  /** Every stored delivery keeps its timing over every run with an ordered clock, whatever happens to its courier. */
  lemma {:induction false} RunKeepsTiming(db: Db, steps: seq<Step>)
    requires RowsTimed(db.deliveries) && forall k :: 0 <= k < |steps| ==> WellTimed(steps[k])
    ensures RowsTimed(Run(db, steps).deliveries)
    decreases |steps|
  {
    if steps == [] {
    } else {
      StepKeepsTiming(db, steps[0]);
      RunKeepsTiming(Apply(db, steps[0]).0, steps[1..]);
    }
  }

  lemma {:induction false} RunKeepsBusyOwnRows(db: Db, steps: seq<Step>)
    requires Valid(db) && BusyOwnRows(db) && forall k :: 0 <= k < |steps| ==> WritesNoBusy(steps[k])
    ensures Valid(Run(db, steps)) && BusyOwnRows(Run(db, steps))
    decreases |steps|
  {
    if steps == [] {
    } else {
      StepKeepsValid(db, steps[0]);
      StepKeepsBusyOwnRows(db, steps[0]);
      RunKeepsBusyOwnRows(Apply(db, steps[0]).0, steps[1..]);
    }
  }

  /** Owns a delivery assigned at most 15 minutes ago. */
  ghost predicate RecentlyAssigned(ds: seq<Delivery>, id: int, now: Time) {
    exists j :: 0 <= j < |ds| && ds[j].courierId == id && ds[j].assignedAt >= now - 15 * MINUTE
  }

  /** None of the courier's deadlines has passed. */
  ghost predicate NoneOverdue(ds: seq<Delivery>, id: int, now: Time) {
    forall j :: 0 <= j < |ds| && ds[j].courierId == id ==> ds[j].deadline >= now
  }

  ghost predicate BusyIsBounded(db: Db, now: Time) {
    var db' := Cleanup(db, now, NoFault).0;
    forall i :: 0 <= i < |db'.couriers| && db'.couriers[i].status == Busy ==>
      NoneOverdue(db'.deliveries, db'.couriers[i].id, now) && RecentlyAssigned(db'.deliveries, db'.couriers[i].id, now)
  }

  /** A cleanup bounds every courier's busy time, whenever it runs, exactly in the states where
      every busy courier owns a row. */
  lemma BoundedIffBusyOwnRows(db: Db)
    requires RowsTimed(db.deliveries)
    ensures (forall now: Time :: BusyIsBounded(db, now)) <==> BusyOwnRows(db)
  {
    if BusyOwnRows(db) {
      forall now: Time ensures BusyIsBounded(db, now) {
        var db' := Cleanup(db, now, NoFault).0;
        forall i | 0 <= i < |db'.couriers| && db'.couriers[i].status == Busy
          ensures NoneOverdue(db'.deliveries, db'.couriers[i].id, now)
          ensures RecentlyAssigned(db'.deliveries, db'.couriers[i].id, now)
        {
          var id := db.couriers[i].id;
          var j :| 0 <= j < |db.deliveries| && db.deliveries[j].courierId == id;
          assert !HasExpired(db.deliveries, id, now);
          assert RowTimed(db.deliveries[j]);
        }
      }
    } else {
      var i :| 0 <= i < |db.couriers| && db.couriers[i].status == Busy && !HasRow(db.deliveries, db.couriers[i].id);
      assert Cleanup(db, 0, NoFault).0.couriers[i] == db.couriers[i];
      assert !BusyIsBounded(db, 0);
    }
  }

  /** In every run from empty tables where POST and PUT never write "busy", a courier still busy
      after a cleanup at `now` has no expired delivery and one assigned within the last 15 minutes. */
  lemma BoundedBusyTime(steps: seq<Step>, now: Time)
    requires Orderly(steps)
    ensures BusyIsBounded(Run(EMPTY, steps), now)
  {
    RunKeepsTiming(EMPTY, steps);
    RunKeepsBusyOwnRows(EMPTY, steps);
    BoundedIffBusyOwnRows(Run(EMPTY, steps));
  }

  /** Without that condition the bound fails: a courier posted as busy is never released. */
  lemma PostedBusyIsStuck(at: Time, now: Time)
    ensures var m := CourierModify(None, Some("a"), Some("+"), Some(Busy), Some(Car));
      var db := Run(EMPTY, [PostCourier(m, at, NoFault)]);
      && |db.couriers| == 1 && db.couriers[0].status == Busy
      && Cleanup(db, now, NoFault).0 == db
      && !BusyIsBounded(db, now)
  {
  }

  // ----- pigeonhole -----

  function StatusCount(cs: seq<Courier>, status: Status): nat {
    if cs == [] then 0
    else StatusCount(cs[..|cs| - 1], status) + if cs[|cs| - 1].status == status then 1 else 0
  }

  ghost function BusyIds(cs: seq<Courier>): set<int> {
    set i | 0 <= i < |cs| && cs[i].status == Busy :: cs[i].id
  }

  ghost function RowOwners(ds: seq<Delivery>): set<int> {
    set j | 0 <= j < |ds| :: ds[j].courierId
  }

  lemma {:induction false} BusyIdsCounted(cs: seq<Courier>)
    requires CourierIdsUnique(cs)
    ensures |BusyIds(cs)| == StatusCount(cs, Busy)
  {
    if cs == [] {
    } else {
      hide BusyIds;
      var init, last := cs[..|cs| - 1], cs[|cs| - 1];
      assert cs == init + [last];
      BusyIdsCounted(init);
      BusyIdsAppend(init, last);
    }
  }

  lemma BusyIdsAppend(cs: seq<Courier>, c: Courier)
    requires CourierIdsUnique(cs + [c])
    ensures |BusyIds(cs + [c])| == |BusyIds(cs)| + if c.status == Busy then 1 else 0
  {
    var before, after := BusyIds(cs), BusyIds(cs + [c]);
    assert (cs + [c])[|cs|] == c;
    assert forall i :: 0 <= i < |cs| ==> (cs + [c])[i] == cs[i] && cs[i].id != c.id;
    assert forall id :: id in before ==> id in after;
    assert after == if c.status == Busy then before + {c.id} else before;
  }

  lemma {:induction false} OwnersAtMostRows(ds: seq<Delivery>)
    ensures |RowOwners(ds)| <= |ds|
  {
    if ds == [] {
    } else {
      OwnersAtMostRows(ds[..|ds| - 1]);
      assert RowOwners(ds) == RowOwners(ds[..|ds| - 1]) + {ds[|ds| - 1].courierId};
    }
  }

  /** In runs where POST and PUT never write "busy", busy couriers never outnumber delivery rows. */
  lemma BusyAtMostRows(steps: seq<Step>)
    requires forall k :: 0 <= k < |steps| ==> WritesNoBusy(steps[k])
    ensures StatusCount(Run(EMPTY, steps).couriers, Busy) <= |Run(EMPTY, steps).deliveries|
  {
    var db := Run(EMPTY, steps);
    RunKeepsBusyOwnRows(EMPTY, steps);
    BusyIdsCounted(db.couriers);
    OwnersAtMostRows(db.deliveries);
    assert RowOwners(db.deliveries) == BusyIds(db.couriers) + (RowOwners(db.deliveries) - BusyIds(db.couriers));
  }
}
