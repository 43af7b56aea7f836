/** Two cleanups are one. */
module CleanupAlgebra {
  import opened Entities
  import opened Tables
  import opened Dispatch
  import opened Outcomes
  import opened StoreInvariant
  import opened Accounting
  import opened BusyCouriers

  lemma {:induction false} CountsAdd(cs: seq<Courier>, ds: seq<Delivery>, t1: Time, t2: Time)
    requires t1 <= t2
    ensures StaleCount(cs, ds, t1) + StaleCount(Released(cs, ds, t1), ds, t2) == StaleCount(cs, ds, t2)
  {
    if cs == [] {
    } else {
      var init, last := cs[..|cs| - 1], cs[|cs| - 1];
      CountsAdd(init, ds, t1, t2);
      assert Released(cs, ds, t1)[..|cs| - 1] == Released(init, ds, t1);
      ExpiryIsMonotonic(ds, last.id, t1, t2);
    }
  }

  lemma ExpiryIsMonotonic(ds: seq<Delivery>, id: int, t1: Time, t2: Time)
    requires t1 <= t2
    ensures HasExpired(ds, id, t1) ==> HasExpired(ds, id, t2)
  {
  }

  /** Cleanup at `t1` and then at `t2` leaves what cleanup at `t2` alone leaves (but for updated_at),
      and the two row counts add up to its row count. */
  lemma CleanupsCompose(db: Db, t1: Time, t2: Time)
    requires t1 <= t2
    ensures var (db1, n1) := Cleanup(db, t1, NoFault);
      var (db2, n2) := Cleanup(db1, t2, NoFault);
      var (once, n) := Cleanup(db, t2, NoFault);
      && n1.value + n2.value == n.value
      && SameButUpdatedAt(db2.couriers, once.couriers)
      && db2.deliveries == once.deliveries == db.deliveries
  {
    CountsAdd(db.couriers, db.deliveries, t1, t2);
    forall i | 0 <= i < |db.couriers|
      ensures HasExpired(db.deliveries, db.couriers[i].id, t1) ==> HasExpired(db.deliveries, db.couriers[i].id, t2)
    {
      ExpiryIsMonotonic(db.deliveries, db.couriers[i].id, t1, t2);
    }
  }

  /** Repeating a cleanup at the same instant changes nothing and reports no row. */
  lemma CleanupIsIdempotent(db: Db, t: Time)
    ensures var db1 := Cleanup(db, t, NoFault).0;
      Cleanup(db1, t, NoFault) == (db1, Ok(0))
  {
    var db1 := Cleanup(db, t, NoFault).0;
    CountsAdd(db.couriers, db.deliveries, t, t);
    assert Released(db1.couriers, db1.deliveries, t) == db1.couriers;
  }

  lemma {:induction false} ReleaseMovesCounts(cs: seq<Courier>, ds: seq<Delivery>, t: Time)
    ensures var r := Released(cs, ds, t);
      && StatusCount(r, Busy) + StaleCount(cs, ds, t) == StatusCount(cs, Busy)
      && StatusCount(r, Available) == StatusCount(cs, Available) + StaleCount(cs, ds, t)
      && StatusCount(r, Paused) == StatusCount(cs, Paused)
  {
    if cs == [] {
    } else {
      ReleaseMovesCounts(cs[..|cs| - 1], ds, t);
      assert Released(cs, ds, t)[..|cs| - 1] == Released(cs[..|cs| - 1], ds, t);
    }
  }

  /** The returned count is what busy loses and available gains; nobody else is touched. */
  lemma CleanupMovesCount(db: Db, t: Time, fault: Fault)
    ensures var (db', r) := Cleanup(db, t, fault);
      && (r.Err? ==> db' == db)
      && (r.Ok? ==>
          && StatusCount(db'.couriers, Busy) == StatusCount(db.couriers, Busy) - r.value
          && StatusCount(db'.couriers, Available) == StatusCount(db.couriers, Available) + r.value
          && StatusCount(db'.couriers, Paused) == StatusCount(db.couriers, Paused))
      && forall i :: 0 <= i < |db.couriers| && db.couriers[i].status != Busy ==> db'.couriers[i] == db.couriers[i]
  {
    ReleaseMovesCounts(db.couriers, db.deliveries, t);
  }

  // ----- whom cleanups release -----

  /** The busy couriers with a delivery whose deadline has passed. */
  ghost function Overdue(db: Db, now: Time): set<int> {
    set i | 0 <= i < |db.couriers| && db.couriers[i].status == Busy &&
      exists j :: 0 <= j < |db.deliveries| &&
        db.deliveries[j].courierId == db.couriers[i].id && db.deliveries[j].deadline < now
  }

  lemma {:induction false} StaleIsCardinality(db: Db, now: Time)
    ensures StaleCount(db.couriers, db.deliveries, now) == |Overdue(db, now)|
    decreases |db.couriers|
  {
    if db.couriers == [] {
    } else {
      var n := |db.couriers| - 1;
      var init := db.(couriers := db.couriers[..n]);
      StaleIsCardinality(init, now);
      assert Overdue(init, now) == Overdue(db, now) - {n};
      assert IsStale(db.couriers[n], db.deliveries, now) <==> n in Overdue(db, now);
    }
  }

  /** The overdue couriers are available, as of now; every other row is as before. */
  ghost predicate OverdueReleased(db: Db, db': Db, now: Time) {
    && |db'.couriers| == |db.couriers| && db'.deliveries == db.deliveries
    && forall i :: 0 <= i < |db.couriers| ==>
         (db'.couriers[i] == if i in Overdue(db, now) then db.couriers[i].(status := Available, updatedAt := now)
                             else db.couriers[i])
  }

  /** A cleanup fails only if its statement does. Otherwise it makes the busy couriers with an overdue
      delivery available, leaves every other row alone, and returns how many those were. */
  lemma CleanupReleasesOverdue(db: Db, now: Time, fault: Fault)
    ensures var (db', r) := Cleanup(db, now, fault);
      && (r.Err? <==> fault.FaultAt? && fault.statement == 0)
      && (r.Err? ==> db' == db)
      && (r.Ok? ==> OverdueReleased(db, db', now) && r.value == |Overdue(db, now)|)
  {
    StaleIsCardinality(db, now);
    hide StaleCount, Released;
  }

  ghost predicate AllCleanups(steps: seq<Step>) {
    forall k :: 0 <= k < |steps| ==> steps[k].CleanupTick?
  }

  /** The cleanup's statement succeeds, after a deadline of one of this courier's deliveries. */
  ghost predicate Late(ds: seq<Delivery>, courierId: int, s: Step) {
    && s.CleanupTick? && !(s.fault.FaultAt? && s.fault.statement == 0)
    && exists j :: 0 <= j < |ds| && ds[j].courierId == courierId && ds[j].deadline < s.at
  }

  ghost predicate NoneLate(ds: seq<Delivery>, courierId: int, steps: seq<Step>) {
    forall k :: 0 <= k < |steps| ==> !Late(ds, courierId, steps[k])
  }

  lemma {:induction false} OnlyBusyAreReleased(db: Db, steps: seq<Step>, i: nat)
    requires i < |db.couriers| && db.couriers[i].status != Busy && AllCleanups(steps)
    ensures |Run(db, steps).couriers| == |db.couriers| && Run(db, steps).couriers[i] == db.couriers[i]
    decreases |steps|
  {
    if steps == [] {
    } else {
      OnlyBusyAreReleased(Apply(db, steps[0]).0, steps[1..], i);
    }
  }

  /** Over any run of cleanups a busy courier keeps its row exactly when none came after one of the
      deadlines of its deliveries, new or old; otherwise it becomes available. */
  lemma {:induction false} CleanupsSpareIff(db: Db, steps: seq<Step>, i: nat)
    requires i < |db.couriers| && db.couriers[i].status == Busy && AllCleanups(steps)
    ensures var db' := Run(db, steps);
      && |db'.couriers| == |db.couriers|
      && db'.couriers[i].id == db.couriers[i].id
      && (if NoneLate(db.deliveries, db.couriers[i].id, steps) then db'.couriers[i] == db.couriers[i]
          else db'.couriers[i].status == Available)
    decreases |steps|
  {
    if steps == [] {
    } else {
      hide Cleanup, Late;
      var db1 := Apply(db, steps[0]).0;
      OneCleanupSparesIff(db, steps[0], i);
      assert forall k :: 0 < k < |steps| ==> steps[k] == steps[1..][k - 1];
      if db1.couriers[i].status == Busy {
        CleanupsSpareIff(db1, steps[1..], i);
      } else {
        OnlyBusyAreReleased(db1, steps[1..], i);
      }
    }
  }

  lemma OneCleanupSparesIff(db: Db, s: Step, i: nat)
    requires i < |db.couriers| && db.couriers[i].status == Busy && s.CleanupTick?
    ensures var db' := Apply(db, s).0;
      && db'.deliveries == db.deliveries && |db'.couriers| == |db.couriers| && db'.couriers[i].id == db.couriers[i].id
      && (if Late(db.deliveries, db.couriers[i].id, s) then db'.couriers[i].status == Available
          else db'.couriers[i] == db.couriers[i])
  {
    CleanupReleasesOverdue(db, s.at, s.fault);
  }

  lemma LateOnAppend(ds: seq<Delivery>, row: Delivery, courierId: int, s: Step)
    requires s.CleanupTick? && row.courierId == courierId && s.at <= row.deadline
    ensures Late(ds + [row], courierId, s) <==> Late(ds, courierId, s)
  {
    assert (ds + [row])[|ds|] == row;
    assert forall j :: 0 <= j < |ds| ==> (ds + [row])[j] == ds[j];
  }

  /** After a successful assignment, cleanups up to the new deadline leave the courier busy exactly when
      none of them comes after the deadline of an older row of that courier. */
  lemma GrantSurvivesCleanupsIff(db: Db, orderId: string, clock: AssignClock, fault: Fault, steps: seq<Step>, i: nat)
    requires Valid(db) && Assign(db, orderId, clock, fault).1.Ok? && AllCleanups(steps)
    requires i < |db.couriers| && db.couriers[i].id == Assign(db, orderId, clock, fault).1.value.courierId
    requires forall k :: 0 <= k < |steps| ==> steps[k].at <= Assign(db, orderId, clock, fault).1.value.deadline
    ensures var later := Run(Assign(db, orderId, clock, fault).0, steps);
      && |later.couriers| == |db.couriers| && later.couriers[i].id == db.couriers[i].id
      && (later.couriers[i].status == Busy <==> NoneLate(db.deliveries, db.couriers[i].id, steps))
  {
    hide Assign, Valid, Late, Run;
    AssignOutcome(db, orderId, clock, fault);
    var db1, row := Granted(db, orderId, clock), GrantedRow(db, orderId, clock);
    assert Assign(db, orderId, clock, fault).0 == db1 && db1.couriers[i].status == Busy;
    forall k | 0 <= k < |steps|
      ensures Late(db1.deliveries, row.courierId, steps[k]) <==> Late(db.deliveries, row.courierId, steps[k])
    {
      LateOnAppend(db.deliveries, row, row.courierId, steps[k]);
    }
    CleanupsSpareIff(db1, steps, i);
  }
}
