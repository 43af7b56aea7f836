/** A run of assignments uses up the available couriers, least loaded first. */
module Exhaustion {
  import opened Entities
  import opened Validators
  import opened Tables
  import opened Dispatch
  import opened Outcomes
  import opened StoreInvariant

  datatype Request = Request(orderId: string, clock: AssignClock)

  /** The answers to a run of assignments. */
  function Answers(db: Db, requests: seq<Request>): (rs: seq<Result<Assignment>>)
    ensures |rs| == |requests|
    decreases |requests|
  {
    if requests == [] then []
    else
      var (db', r) := Assign(db, requests[0].orderId, requests[0].clock, NoFault);
      [r] + Answers(db', requests[1..])
  }

  function After(db: Db, requests: seq<Request>): Db
    decreases |requests|
  {
    if requests == [] then db
    else After(Assign(db, requests[0].orderId, requests[0].clock, NoFault).0, requests[1..])
  }

  function OrderIds(requests: seq<Request>): (ids: seq<string>)
    ensures |ids| == |requests| && forall k :: 0 <= k < |requests| ==> ids[k] == requests[k].orderId
  {
    seq(|requests|, k requires 0 <= k < |requests| => requests[k].orderId)
  }

  /** Valid order ids that fit, none of which has a row, and no two alike. */
  ghost predicate FreshIds(ds: seq<Delivery>, ids: seq<string>) {
    && (forall k :: 0 <= k < |ids| ==>
          IsValidOrderId(ids[k]) && |ids[k]| <= ORDER_ID_LIMIT && !HasOrder(ds, ids[k]))
    && (forall i, k :: 0 <= i < k < |ids| ==> ids[i] != ids[k])
  }

  ghost predicate Fresh(ds: seq<Delivery>, requests: seq<Request>) {
    FreshIds(ds, OrderIds(requests))
  }

  ghost function AvailableIds(cs: seq<Courier>): set<int> {
    set i | 0 <= i < |cs| && cs[i].status == Available :: cs[i].id
  }

  function Min(a: nat, b: nat): nat {
    if a <= b then a else b
  }

  // ----- one assignment -----

  lemma BusyIsNotAvailable(cs: seq<Courier>, id: int, now: Time)
    ensures AvailableIds(WithStatus(cs, id, Busy, now)) == AvailableIds(cs) - {id}
  {
    hide UpdateRows;
    var cs' := WithStatus(cs, id, Busy, now);
    forall other | other in AvailableIds(cs) && other != id ensures other in AvailableIds(cs') {
      var i :| 0 <= i < |cs| && cs[i].status == Available && cs[i].id == other;
      assert cs'[i] == cs[i];
    }
  }

  lemma GrantTakesOne(db: Db, request: Request)
    requires Valid(db) && AnyAvailable(db.couriers)
    ensures var c := Picked(db, request.clock.now);
      && c.id in AvailableIds(db.couriers)
      && AvailableIds(Granted(db, request.orderId, request.clock).couriers) == AvailableIds(db.couriers) - {c.id}
  {
    hide WithStatus, Valid;
    BusyIsNotAvailable(db.couriers, Picked(db, request.clock.now).id, request.clock.now);
  }

  lemma FreshAfter(db: Db, requests: seq<Request>, row: Delivery)
    requires requests != [] && Fresh(db.deliveries, requests) && row.orderId == requests[0].orderId
    ensures Fresh(db.deliveries, requests[1..]) && Fresh(db.deliveries + [row], requests[1..])
  {
  }

  // ----- the run -----

  /** One of the first `n` answers took courier `id`. */
  predicate Took(rs: seq<Result<Assignment>>, n: nat, id: int) {
    exists k :: 0 <= k < n && k < |rs| && rs[k].Ok? && rs[k].value.courierId == id
  }

  /** The first |ids| answers succeed, on pairwise distinct couriers of `ids`, and on all of `ids`
      once there are enough of them; every later answer is "no available couriers". */
  ghost predicate Exhausts(rs: seq<Result<Assignment>>, ids: set<int>) {
    && (forall k :: 0 <= k < Min(|ids|, |rs|) ==> rs[k].Ok? && rs[k].value.courierId in ids)
    && (forall i, k :: 0 <= i < k < Min(|ids|, |rs|) ==> rs[i].value.courierId != rs[k].value.courierId)
    && (forall k :: |ids| <= k < |rs| ==> rs[k] == Err(NoAvailableCouriers))
    && (|ids| <= |rs| ==> forall id :: id in ids ==> Took(rs, |ids|, id))
  }

  lemma ExhaustFront(r: Result<Assignment>, rs: seq<Result<Assignment>>, ids: set<int>)
    requires r.Ok? && r.value.courierId in ids && Exhausts(rs, ids - {r.value.courierId})
    ensures Exhausts([r] + rs, ids)
  {
    var rest, all := ids - {r.value.courierId}, [r] + rs;
    assert |rest| == |ids| - 1;
    assert forall k :: 0 < k < |all| ==> all[k] == rs[k - 1];
    if |ids| <= |all| {
      forall id | id in ids ensures Took(all, |ids|, id) {
        if id == r.value.courierId {
          assert all[0].value.courierId == id;
        } else {
          assert Took(rs, |rest|, id);
          var k :| 0 <= k < |rest| && k < |rs| && rs[k].Ok? && rs[k].value.courierId == id;
          assert all[k + 1].value.courierId == id;
        }
      }
    }
  }

  lemma AvailableIffAny(cs: seq<Courier>)
    ensures AvailableIds(cs) != {} <==> AnyAvailable(cs)
  {
    if AnyAvailable(cs) {
      var i :| 0 <= i < |cs| && cs[i].status == Available;
      assert cs[i].id in AvailableIds(cs);
    }
  }

  /** What one request of a run does. */
  lemma OneRequest(db: Db, requests: seq<Request>)
    requires Valid(db) && requests != [] && Fresh(db.deliveries, requests)
    ensures var head := requests[0];
      var (db1, r) := Assign(db, head.orderId, head.clock, NoFault);
      && Valid(db1) && Fresh(db1.deliveries, requests[1..])
      && (if AnyAvailable(db.couriers)
          then
            && r.Ok? && r.value.courierId == Picked(db, head.clock.now).id
            && db1 == Granted(db, head.orderId, head.clock)
            && r.value.courierId in AvailableIds(db.couriers)
            && AvailableIds(db1.couriers) == AvailableIds(db.couriers) - {r.value.courierId}
          else r == Err(NoAvailableCouriers) && SameTables(db, db1))
  {
    hide Assign, Valid, IsSpace, TrimSpace;
    var head := requests[0];
    AssignOutcome(db, head.orderId, head.clock, NoFault);
    AssignRefusals(db, head.orderId, head.clock);
    BlankIffAllSpaces(head.orderId);
    AssignKeepsValid(db, head.orderId, head.clock, NoFault);
    FreshAfter(db, requests, Delivery(0, 0, head.orderId, 0, 0, 0));
    if AnyAvailable(db.couriers) {
      FreshAfter(db, requests, GrantedRow(db, head.orderId, head.clock));
      GrantTakesOne(db, head);
    }
  }

  /** From `n` available couriers, fresh assignments succeed exactly `n` times, on pairwise distinct
      couriers that are exactly the available ones; from none they fail without changing the tables. */
  lemma {:induction false} AssignmentsExhaust(db: Db, requests: seq<Request>)
    requires Valid(db) && Fresh(db.deliveries, requests)
    ensures Exhausts(Answers(db, requests), AvailableIds(db.couriers))
    ensures AvailableIds(db.couriers) == {} ==> SameTables(db, After(db, requests))
    decreases |requests|
  {
    AvailableIffAny(db.couriers);
    if requests == [] {
    } else {
      OneRequest(db, requests);
      var (db1, r) := Assign(db, requests[0].orderId, requests[0].clock, NoFault);
      AssignmentsExhaust(db1, requests[1..]);
      if AnyAvailable(db.couriers) {
        ExhaustFront(r, Answers(db1, requests[1..]), AvailableIds(db.couriers));
      }
    }
  }

  /** The first request, and the others from there. */
  lemma AfterFront(db: Db, requests: seq<Request>, db1: Db)
    requires requests != [] && db1 == Assign(db, requests[0].orderId, requests[0].clock, NoFault).0
    ensures After(db, requests) == After(db1, requests[1..])
  {
    hide Assign;
  }

  /** Once the available couriers are used up, the rest of the run leaves the tables alone. */
  lemma {:induction false} ExhaustedIsStable(db: Db, requests: seq<Request>, n: nat)
    requires Valid(db) && Fresh(db.deliveries, requests) && n == |AvailableIds(db.couriers)| <= |requests|
    ensures SameTables(After(db, requests[..n]), After(db, requests))
    decreases |requests|
  {
    hide Assign, Valid, Exhausts;
    AvailableIffAny(db.couriers);
    if n > 0 {
      OneRequest(db, requests);
      var (db1, r) := Assign(db, requests[0].orderId, requests[0].clock, NoFault);
      AfterFront(db, requests, db1);
      AfterFront(db, requests[..n], db1);
      assert |AvailableIds(db1.couriers)| == n - 1;
      ExhaustedIsStable(db1, requests[1..], n - 1);
      assert requests[..n][1..] == requests[1..][..n - 1];
    } else {
      AssignmentsExhaust(db, requests);
    }
  }

  // ----- the order -----

  /** No row of `ds` becomes inactive, or already was, between `t` and any request. */
  ghost predicate NoDeadlinePasses(ds: seq<Delivery>, requests: seq<Request>, t: Time) {
    forall j, k :: 0 <= j < |ds| && 0 <= k < |requests| ==>
      (IsActive(ds[j], requests[k].clock.now) <==> IsActive(ds[j], t))
  }

  lemma {:induction false} SameActivitySameLoad(ds: seq<Delivery>, id: int, t: Time, now: Time)
    requires forall j :: 0 <= j < |ds| ==> (IsActive(ds[j], now) <==> IsActive(ds[j], t))
    ensures Load(ds, id, now) == Load(ds, id, t)
  {
    if ds == [] {
    } else {
      SameActivitySameLoad(ds[..|ds| - 1], id, t, now);
    }
  }

  /** The loads that matter are still those of `ds` at `t`. */
  ghost predicate LoadsAsAt(db: Db, requests: seq<Request>, ds: seq<Delivery>, t: Time) {
    forall id, k :: id in AvailableIds(db.couriers) && 0 <= k < |requests| ==>
      Load(db.deliveries, id, requests[k].clock.now) == Load(ds, id, t)
  }

  /** The successful answers come first, and their couriers in order. */
  ghost predicate InOrder(rs: seq<Result<Assignment>>, ds: seq<Delivery>, t: Time) {
    forall i, k :: 0 <= i < k < |rs| && rs[k].Ok? ==>
      rs[i].Ok? && Precedes(ds, t, rs[i].value.courierId, rs[k].value.courierId)
  }

  lemma LoadsStayAsAt(db: Db, requests: seq<Request>, ds: seq<Delivery>, t: Time)
    requires Valid(db) && requests != [] && AnyAvailable(db.couriers) && LoadsAsAt(db, requests, ds, t)
    ensures LoadsAsAt(Granted(db, requests[0].orderId, requests[0].clock), requests[1..], ds, t)
  {
  }

  /** The picked courier precedes every available one, by the loads of `ds` at `t`. */
  lemma PickedPrecedes(db: Db, requests: seq<Request>, ds: seq<Delivery>, t: Time, id: int)
    requires requests != [] && AnyAvailable(db.couriers) && LoadsAsAt(db, requests, ds, t)
    requires id in AvailableIds(db.couriers)
    ensures Precedes(ds, t, Picked(db, requests[0].clock.now).id, id)
  {
  }

  lemma InOrderFront(r: Result<Assignment>, rs: seq<Result<Assignment>>, ds: seq<Delivery>, t: Time)
    requires InOrder(rs, ds, t)
    requires forall k :: 0 <= k < |rs| && rs[k].Ok? ==>
      r.Ok? && Precedes(ds, t, r.value.courierId, rs[k].value.courierId)
    ensures InOrder([r] + rs, ds, t)
  {
  }

  lemma {:induction false} SortedFrom(db: Db, requests: seq<Request>, ds: seq<Delivery>, t: Time)
    requires Valid(db) && Fresh(db.deliveries, requests) && LoadsAsAt(db, requests, ds, t)
    ensures InOrder(Answers(db, requests), ds, t)
    decreases |requests|
  {
    if requests == [] {
    } else {
      OneRequest(db, requests);
      var (db1, r) := Assign(db, requests[0].orderId, requests[0].clock, NoFault);
      var tail := Answers(db1, requests[1..]);
      AssignmentsExhaust(db1, requests[1..]);
      AvailableIffAny(db.couriers);
      if AnyAvailable(db.couriers) {
        assert InOrder(tail, ds, t) by {
          LoadsStayAsAt(db, requests, ds, t);
          SortedFrom(db1, requests[1..], ds, t);
        }
        forall k | 0 <= k < |tail| && tail[k].Ok?
          ensures Precedes(ds, t, r.value.courierId, tail[k].value.courierId)
        {
          assert tail[k].value.courierId in AvailableIds(db1.couriers);
          PickedPrecedes(db, requests, ds, t, tail[k].value.courierId);
        }
      }
      InOrderFront(r, tail, ds, t);
    }
  }

  /** If no deadline passes meanwhile, couriers are taken in the order of (load, id). */
  lemma TakenInOrder(db: Db, requests: seq<Request>, t: Time)
    requires Valid(db) && Fresh(db.deliveries, requests) && NoDeadlinePasses(db.deliveries, requests, t)
    ensures InOrder(Answers(db, requests), db.deliveries, t)
  {
    forall id, k | id in AvailableIds(db.couriers) && 0 <= k < |requests|
      ensures Load(db.deliveries, id, requests[k].clock.now) == Load(db.deliveries, id, t)
    {
      SameActivitySameLoad(db.deliveries, id, t, requests[k].clock.now);
    }
    SortedFrom(db, requests, db.deliveries, t);
  }
}
