/** Loads, the undo law, and the ledger of delivery rows. */
module Accounting {
  import opened Entities
  import opened Validators
  import opened Tables
  import opened Dispatch
  import opened Outcomes
  import opened StoreInvariant

  // ----- loads -----

  ghost function ActiveRows(ds: seq<Delivery>, id: int, now: Time): set<int> {
    set j | 0 <= j < |ds| && ds[j].courierId == id && ds[j].deadline >= now
  }

  /** The filtered count is the number of rows it should count. */
  lemma {:induction false} LoadIsCardinality(ds: seq<Delivery>, id: int, now: Time)
    ensures Load(ds, id, now) == |ActiveRows(ds, id, now)|
  {
    if ds == [] {
    } else {
      var n := |ds| - 1;
      LoadIsCardinality(ds[..n], id, now);
      assert ActiveRows(ds, id, now) - {n} == ActiveRows(ds[..n], id, now);
    }
  }

  ghost function OtherActiveRows(ds: seq<Delivery>, orderId: string, id: int, now: Time): set<int> {
    set j | 0 <= j < |ds| && ds[j].courierId == id && ds[j].orderId != orderId && ds[j].deadline >= now
  }

  /** A new last row that counts is one more index; one that does not is none. */
  lemma OtherRowsAppend(ds: seq<Delivery>, d: Delivery, orderId: string, id: int, now: Time)
    ensures |OtherActiveRows(ds + [d], orderId, id, now)| ==
      |OtherActiveRows(ds, orderId, id, now)| + if d.orderId == orderId then 0 else Counts(d, id, now)
  {
    var before, after := OtherActiveRows(ds, orderId, id, now), OtherActiveRows(ds + [d], orderId, id, now);
    assert forall j :: j in before ==> j in after;
    assert forall j :: j in after && j != |ds| ==> j in before;
    assert after == if |ds| in after then before + {|ds|} else before;
  }

  /** The self-join's count is the number of the courier's active deliveries of other orders. */
  lemma {:induction false} OthersIsCardinality(ds: seq<Delivery>, orderId: string, id: int, now: Time)
    ensures Load(WithoutOrder(ds, orderId), id, now) == |OtherActiveRows(ds, orderId, id, now)|
  {
    if ds == [] {
    } else {
      hide WithoutOrder, Load, OtherActiveRows;
      var init, last := ds[..|ds| - 1], ds[|ds| - 1];
      assert ds == init + [last];
      OthersIsCardinality(init, orderId, id, now);
      WithoutAppend(init, last, orderId);
      LoadAppend(WithoutOrder(init, orderId), last, id, now);
      OtherRowsAppend(init, last, orderId, id, now);
    }
  }

  /** The courier is available, and of the available ones it has the fewest deliveries whose deadline has
      not passed; among those it has the least id. */
  ghost predicate TakesFewestActive(cs: seq<Courier>, ds: seq<Delivery>, now: Time, id: int) {
    && (exists i :: 0 <= i < |cs| && cs[i].id == id && cs[i].status == Available)
    && forall i :: 0 <= i < |cs| && cs[i].status == Available && cs[i].id != id ==>
         var fewest, rows := |ActiveRows(ds, id, now)|, |ActiveRows(ds, cs[i].id, now)|;
         fewest < rows || (fewest == rows && id < cs[i].id)
  }

  lemma LeastTakesFewest(cs: seq<Courier>, ds: seq<Delivery>, now: Time, c: Courier)
    requires IsLeastLoaded(cs, ds, now, c)
    ensures TakesFewestActive(cs, ds, now, c.id)
  {
    hide ActiveRows, Load;
    LoadIsCardinality(ds, c.id, now);
    forall i | 0 <= i < |cs| && cs[i].status == Available && cs[i].id != c.id
      ensures Precedes(ds, now, c.id, cs[i].id)
      ensures Load(ds, cs[i].id, now) == |ActiveRows(ds, cs[i].id, now)|
    {
      LoadIsCardinality(ds, cs[i].id, now);
    }
  }

  /** An assignment goes to that courier. */
  lemma AssignTakesFewestActive(db: Db, orderId: string, clock: AssignClock, fault: Fault)
    requires Assign(db, orderId, clock, fault).1.Ok?
    ensures TakesFewestActive(db.couriers, db.deliveries, clock.now,
                              Assign(db, orderId, clock, fault).1.value.courierId)
  {
    hide Assign, TakesFewestActive;
    AssignOutcome(db, orderId, clock, fault);
    LeastTakesFewest(db.couriers, db.deliveries, clock.now, Picked(db, clock.now));
  }

  /** No other order counts exactly when the deadlines of all the courier's other orders have passed. */
  lemma NoOthersIff(ds: seq<Delivery>, orderId: string, id: int, now: Time)
    ensures Load(WithoutOrder(ds, orderId), id, now) == 0 <==>
      forall j :: 0 <= j < |ds| && ds[j].courierId == id && ds[j].orderId != orderId ==> ds[j].deadline < now
  {
    hide Load, WithoutOrder;
    OthersIsCardinality(ds, orderId, id, now);
    var others := OtherActiveRows(ds, orderId, id, now);
    if j :| 0 <= j < |ds| && ds[j].courierId == id && ds[j].orderId != orderId && ds[j].deadline >= now {
      assert j in others;
    } else {
      assert others == {};
    }
  }

  /** An order with a row can be unassigned exactly when the deadlines of its courier's other orders
      have all passed; otherwise the courier is reported to have active deliveries. */
  lemma UnassignIffOthersExpired(db: Db, orderId: string, now: Time)
    requires Valid(db) && IsValidOrderId(orderId) && HasOrder(db.deliveries, orderId)
    ensures var ds, id := db.deliveries, OrderRow(db.deliveries, orderId).courierId;
      var r := Unassign(db, orderId, now, NoFault).1;
      && (r.Ok? <==>
            forall j :: 0 <= j < |ds| && ds[j].courierId == id && ds[j].orderId != orderId ==> ds[j].deadline < now)
      && (r.Err? ==> r.error == CourierHasActiveDeliveries)
  {
    hide Unassign, WithoutOrder, Load, OrderRow, Valid, IsSpace, TrimSpace, HasOrder, HasCourier;
    RowHasCourier(db, orderId);
    BlankIffAllSpaces(orderId);
    UnassignRefusals(db, orderId, now);
    NoOthersIff(db.deliveries, orderId, OrderRow(db.deliveries, orderId).courierId, now);
  }

  /** A successful assignment adds its row to one courier's load: by one at every instant up to
      five minutes past the deadline's base, and never to any other courier's. */
  lemma GrantRaisesOneLoad(db: Db, orderId: string, clock: AssignClock, id: int, now: Time)
    requires CanAssign(db, orderId, NoFault)
    ensures var db' := Assign(db, orderId, clock, NoFault).0;
      && Load(db'.deliveries, id, now) ==
         Load(db.deliveries, id, now) + Counts(GrantedRow(db, orderId, clock), id, now)
      && (clock.Ordered() && now <= clock.deadlineBase + 5 * MINUTE ==>
          Load(db'.deliveries, id, now) ==
          Load(db.deliveries, id, now) + if id == Picked(db, clock.now).id then 1 else 0)
  {
  }

  /** The rows of this courier have this status, written now; the other rows are as before. */
  predicate StatusWritten(before: seq<Courier>, after: seq<Courier>, id: int, status: Status, now: Time) {
    |after| == |before| && forall i :: 0 <= i < |before| ==>
      (after[i] == if before[i].id == id then before[i].(status := status, updatedAt := now) else before[i])
  }

  /** What an assignment did: its courier is busy, and one row was appended, with the request's times and
      due 15 minutes after the base of the deadline for a courier on foot or of unknown transport, 10 for
      a scooter and 5 for a car (in microseconds). */
  predicate AssignedAsPromised(db: Db, db': Db, orderId: string, clock: AssignClock, a: Assignment) {
    var n := |db.deliveries|;
    && StatusWritten(db.couriers, db'.couriers, a.courierId, Busy, clock.now)
    && |db'.deliveries| == n + 1 && db'.deliveries[..n] == db.deliveries
    && db'.deliveries[n].courierId == a.courierId && db'.deliveries[n].orderId == a.orderId == orderId
    && db'.deliveries[n].createdAt == clock.createdAt
    && db'.deliveries[n].assignedAt == a.assignedAt == clock.assignedAt
    && db'.deliveries[n].deadline == a.deadline
    && forall i :: 0 <= i < |db.couriers| && db.couriers[i].id == a.courierId ==>
         && a.transport == db.couriers[i].transport
         && a.deadline - clock.deadlineBase ==
              match db.couriers[i].transport
              case OnFoot => 900_000_000
              case Scooter => 600_000_000
              case Car => 300_000_000
              case OtherTransport(_) => 900_000_000
  }

  /** A successful assignment does that and nothing else. */
  lemma GrantDeadline(db: Db, orderId: string, clock: AssignClock, fault: Fault)
    requires Valid(db) && Assign(db, orderId, clock, fault).1.Ok?
    ensures var (db', r) := Assign(db, orderId, clock, fault);
      AssignedAsPromised(db, db', orderId, clock, r.value)
  {
    hide Assign, WithStatus, StatusWritten;
    AssignOutcome(db, orderId, clock, fault);
    assert Granted(db, orderId, clock).deliveries[..|db.deliveries|] == db.deliveries;
    RowsOfPicked(db.couriers, Picked(db, clock.now));
    WithStatusWrites(db.couriers, Picked(db, clock.now).id, Busy, clock.now);
  }

  lemma WithStatusWrites(cs: seq<Courier>, id: int, status: Status, now: Time)
    ensures StatusWritten(cs, WithStatus(cs, id, status, now), id, status, now)
  {
  }

  lemma RowsOfPicked(cs: seq<Courier>, c: Courier)
    requires CourierIdsUnique(cs) && c in cs
    ensures forall i :: 0 <= i < |cs| && cs[i].id == c.id ==> cs[i] == c
    ensures CourierRow(cs, c.id) == c
  {
    RowIsUnique(cs, CourierRow(cs, c.id), c);
  }

  /** ... and counts towards its courier's load, and no other's, at exactly the instants up to it. */
  lemma GrantCountsUntilDeadline(db: Db, orderId: string, clock: AssignClock, fault: Fault, id: int, now: Time)
    requires Assign(db, orderId, clock, fault).1.Ok?
    ensures var (db', r) := Assign(db, orderId, clock, fault);
      Load(db'.deliveries, id, now) ==
      Load(db.deliveries, id, now) + if id == r.value.courierId && now <= r.value.deadline then 1 else 0
  {
    hide Assign, Load;
    AssignOutcome(db, orderId, clock, fault);
    LoadAppend(db.deliveries, GrantedRow(db, orderId, clock), id, now);
  }

  /** The self-join counts the courier's other active deliveries; after a successful unassignment
      the courier is available with none, and exactly the order's row is gone. */
  lemma UnassignLeavesIdle(db: Db, orderId: string, now: Time, fault: Fault)
    requires Valid(db) && Unassign(db, orderId, now, fault).1.Ok?
    ensures HasOrder(db.deliveries, orderId)
    ensures var id := OrderRow(db.deliveries, orderId).courierId;
      var db' := Unassign(db, orderId, now, fault).0;
      && (forall d :: d in db'.deliveries <==> d in db.deliveries && d.orderId != orderId)
      && |db'.deliveries| == |db.deliveries| - 1
      && !HasOrder(db'.deliveries, orderId)
      && Load(db'.deliveries, id, now) == 0
      && Load(db.deliveries, id, now) == Counts(OrderRow(db.deliveries, orderId), id, now)
      && StatusWritten(db.couriers, db'.couriers, id, Available, now)
  {
    hide Unassign, Load, WithoutOrder, WithStatus;
    UnassignOutcome(db, orderId, now, fault);
    var id := OrderRow(db.deliveries, orderId).courierId;
    RemoveLoad(db.deliveries, orderId, id, now);
    RemoveOne(db.deliveries, orderId);
    WithoutMembers(db.deliveries, orderId);
    WithStatusWrites(db.couriers, id, Available, now);
  }

  /** A successful completion makes the courier of the order's row available, whatever its status was,
      and changes nothing else. */
  lemma CompletionFreesCourier(db: Db, orderId: string, now: Time, fault: Fault, j: nat)
    requires Valid(db) && Complete(db, orderId, now, fault).1.Ok?
    requires j < |db.deliveries| && db.deliveries[j].orderId == orderId
    ensures var db' := Complete(db, orderId, now, fault).0;
      db'.deliveries == db.deliveries &&
      StatusWritten(db.couriers, db'.couriers, db.deliveries[j].courierId, Available, now)
  {
    hide Complete, WithStatus, StatusWritten;
    CompleteOutcome(db, orderId, now, fault);
    OrderRowIsUnique(db.deliveries, OrderRow(db.deliveries, orderId), db.deliveries[j]);
    WithStatusWrites(db.couriers, db.deliveries[j].courierId, Available, now);
  }

  // ----- undo -----

  ghost predicate SameButUpdatedAt(a: seq<Courier>, b: seq<Courier>) {
    |a| == |b| && forall i :: 0 <= i < |a| ==> a[i].(updatedAt := 0) == b[i].(updatedAt := 0)
  }

  /** Making one available courier busy and available again changes only updated_at. */
  lemma BusyAndBack(cs: seq<Courier>, c: Courier, t1: Time, t2: Time)
    requires CourierIdsUnique(cs) && c in cs && c.status == Available
    ensures SameButUpdatedAt(WithStatus(WithStatus(cs, c.id, Busy, t1), c.id, Available, t2), cs)
  {
  }

  /** Some available courier has no active delivery. */
  predicate AnyIdle(db: Db, now: Time) {
    exists i :: 0 <= i < |db.couriers| && db.couriers[i].status == Available &&
      Load(db.deliveries, db.couriers[i].id, now) == 0
  }

  lemma UndoDelivery(ds: seq<Delivery>, row: Delivery)
    requires !HasOrder(ds, row.orderId)
    ensures WithoutOrder(ds + [row], row.orderId) == ds
    ensures HasOrder(ds + [row], row.orderId) && OrderRow(ds + [row], row.orderId) == row
  {
    assert (ds + [row])[..|ds|] == ds;
    assert (ds + [row])[|ds|] == row;
    NothingToRemove(ds, row.orderId);
  }

  lemma {:induction false} NothingToRemove(ds: seq<Delivery>, orderId: string)
    requires !HasOrder(ds, orderId)
    ensures WithoutOrder(ds, orderId) == ds
  {
    if ds == [] {
    } else {
      assert ds == ds[..|ds| - 1] + [ds[|ds| - 1]];
      NothingToRemove(ds[..|ds| - 1], orderId);
    }
  }

  /** At any time `t`, unassigning right after an assignment succeeds exactly when the chosen
      courier had no active delivery before it, and then it is an exact undo. */
  lemma UndoLater(db: Db, orderId: string, clock: AssignClock, t: Time)
    requires Valid(db) && CanAssign(db, orderId, NoFault)
    ensures var db1 := Assign(db, orderId, clock, NoFault).0;
      var (db2, r) := Unassign(db1, orderId, t, NoFault);
      && (r.Ok? <==> Load(db.deliveries, Picked(db, clock.now).id, t) == 0)
      && (r.Ok? ==> db2.deliveries == db.deliveries && SameButUpdatedAt(db2.couriers, db.couriers))
      && (r.Err? ==> r.error == CourierHasActiveDeliveries && RolledBack(db1, db2))
  {
    var c := Picked(db, clock.now);
    var row := GrantedRow(db, orderId, clock);
    AssignOutcome(db, orderId, clock, NoFault);
    var db1 := Assign(db, orderId, clock, NoFault).0;
    UndoDelivery(db.deliveries, row);
    UnassignOutcome(db1, orderId, t, NoFault);
    var k :| 0 <= k < |db.couriers| && db.couriers[k] == c;
    assert db1.couriers[k].id == c.id;
    assert OthersOf(db1.deliveries, orderId, t) == Ok((c.id, Load(db.deliveries, c.id, t)));
    BusyAndBack(db.couriers, c, clock.now, t);
  }

  /** At the same instant: exactly when some available courier was idle. */
  lemma UndoAtOnce(db: Db, orderId: string, clock: AssignClock)
    requires Valid(db) && CanAssign(db, orderId, NoFault)
    ensures var db1 := Assign(db, orderId, clock, NoFault).0;
      var (db2, r) := Unassign(db1, orderId, clock.now, NoFault);
      && (r.Ok? <==> AnyIdle(db, clock.now))
      && (r.Ok? ==> db2.deliveries == db.deliveries && SameButUpdatedAt(db2.couriers, db.couriers))
      && (r.Err? ==> RolledBack(db1, db2))
  {
    UndoLater(db, orderId, clock, clock.now);
    var c := Picked(db, clock.now);
    var k :| 0 <= k < |db.couriers| && db.couriers[k] == c;
  }

  // ----- the ledger -----

  /** Successful assignments of a run. */
  function Grants(db: Db, steps: seq<Step>): nat
    decreases |steps|
  {
    if steps == [] then 0
    else
      var one := if steps[0].AssignOrder? && Succeeds(db, steps[0]) then 1 else 0;
      one + Grants(Apply(db, steps[0]).0, steps[1..])
  }

  /** Successful unassignments of a run. */
  function Revocations(db: Db, steps: seq<Step>): nat
    decreases |steps|
  {
    if steps == [] then 0
    else
      var one := if steps[0].UnassignOrder? && Succeeds(db, steps[0]) then 1 else 0;
      one + Revocations(Apply(db, steps[0]).0, steps[1..])
  }

  lemma StepLedger(db: Db, s: Step)
    requires Valid(db)
    ensures |Apply(db, s).0.deliveries| == |db.deliveries|
      + (if s.AssignOrder? && Succeeds(db, s) then 1 else 0) - (if s.UnassignOrder? && Succeeds(db, s) then 1 else 0)
  {
    hide Assign, Unassign;
    match s
    case PostCourier(m, at, f) =>
    case PutCourier(m, at, f) =>
    case AssignOrder(o, clock, f) => GrantAddsRow(db, o, clock, f);
    case UnassignOrder(o, at, f) => RevocationDropsRow(db, o, at, f);
    case CompleteOrder(o, at, f) => CompleteOutcome(db, o, at, f);
    case CleanupTick(at, f) =>
  }

  lemma GrantAddsRow(db: Db, orderId: string, clock: AssignClock, fault: Fault)
    ensures var (db', r) := Assign(db, orderId, clock, fault);
      |db'.deliveries| == |db.deliveries| + if r.Ok? then 1 else 0
  {
    AssignOutcome(db, orderId, clock, fault);
  }

  lemma RevocationDropsRow(db: Db, orderId: string, now: Time, fault: Fault)
    requires Valid(db)
    ensures var (db', r) := Unassign(db, orderId, now, fault);
      |db'.deliveries| == |db.deliveries| - if r.Ok? then 1 else 0
  {
    hide WithoutOrder;
    UnassignOutcome(db, orderId, now, fault);
    RemoveOne(db.deliveries, orderId);
  }

  /** Rows are conserved: what a run adds is what it granted less what it revoked. */
  lemma {:induction false} RunLedger(db: Db, steps: seq<Step>)
    requires Valid(db)
    ensures |Run(db, steps).deliveries| == |db.deliveries| + Grants(db, steps) - Revocations(db, steps)
    decreases |steps|
  {
    if steps == [] {
    } else {
      StepLedger(db, steps[0]);
      StepKeepsValid(db, steps[0]);
      RunLedger(Apply(db, steps[0]).0, steps[1..]);
    }
  }
}
