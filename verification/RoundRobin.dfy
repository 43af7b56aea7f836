/** Assigning and completing one order after another serves the couriers in turn. */
module RoundRobin {
  import opened Entities
  import opened Tables
  import opened Dispatch
  import opened Outcomes
  import opened StoreInvariant
  import opened Accounting
  import opened Exhaustion

  /** One order, assigned and then completed. */
  datatype Round = Round(orderId: string, clock: AssignClock, completedAt: Time)

  function Assigned(db: Db, r: Round): (Db, Result<Assignment>) {
    Assign(db, r.orderId, r.clock, NoFault)
  }

  function PlayRound(db: Db, r: Round): Db {
    Complete(Assigned(db, r).0, r.orderId, r.completedAt, NoFault).0
  }

  /** The state after the first rounds. */
  function Play(db: Db, rounds: seq<Round>): Db {
    if rounds == [] then db else PlayRound(Play(db, rounds[..|rounds| - 1]), rounds[|rounds| - 1])
  }

  // ----- the available couriers by rank -----

  ghost predicate Ascending(ids: seq<int>) {
    forall i, k :: 0 <= i < k < |ids| ==> ids[i] < ids[k]
  }

  /** `ids` lists the available couriers in ascending order of id. */
  ghost predicate Ranks(ids: seq<int>, cs: seq<Courier>) {
    Ascending(ids) && forall id :: id in ids <==> id in AvailableIds(cs)
  }

  function Insert(ids: seq<int>, x: int): (r: seq<int>)
    requires Ascending(ids) && x !in ids
    ensures Ascending(r) && forall y :: y in r <==> y == x || y in ids
  {
    if ids == [] then [x]
    else if x < ids[0] then [x] + ids
    else
      assert forall y :: y in ids[1..] ==> y in ids;
      var rest := Insert(ids[1..], x);
      assert forall k :: 0 <= k < |rest| ==> rest[k] in rest;
      [ids[0]] + rest
  }

  /** Every table has such a listing. */
  lemma {:induction false} RanksExist(cs: seq<Courier>) returns (ids: seq<int>)
    requires CourierIdsUnique(cs)
    ensures Ranks(ids, cs)
  {
    if cs == [] {
      ids := [];
    } else {
      var init, last := cs[..|cs| - 1], cs[|cs| - 1];
      ids := RanksExist(init);
      if last.status == Available {
        assert last.id !in AvailableIds(init);
        ids := Insert(ids, last.id);
        assert AvailableIds(cs) == AvailableIds(init) + {last.id};
      } else {
        assert AvailableIds(cs) == AvailableIds(init);
      }
    }
  }

  // ----- the closed form -----

  /** How often rank `i` of `n` has been served after `k` rounds. */
  function Served(k: nat, n: nat, i: nat): nat
    requires i < n
  {
    (k + n - 1 - i) / n
  }

  lemma {:induction false} Multiples(x: nat, y: nat, n: nat)
    ensures x <= y ==> x * n <= y * n
  {
    if x >= y {
    } else {
      Multiples(x, y - 1, n);
    }
  }

  lemma DivisionIsUnique(n: nat, q: nat, rem: nat, d: nat, e: nat)
    requires q * n + rem == d * n + e && rem < n && e < n
    ensures q == d && rem == e
  {
    Multiples(q + 1, d, n);
    Multiples(d + 1, q, n);
    assert (q + 1) * n == q * n + n && (d + 1) * n == d * n + n;
  }

  lemma DivMod(q: nat, rem: nat, n: nat)
    requires rem < n
    ensures (q * n + rem) / n == q && (q * n + rem) % n == rem
  {
    var a := q * n + rem;
    assert a == a / n * n + a % n;
    DivisionIsUnique(n, q, rem, a / n, a % n);
  }

  /** Full cycles, and one more for the ranks already passed in the current one. */
  lemma ServedByCycle(k: nat, n: nat, i: nat)
    requires i < n
    ensures Served(k, n, i) == k / n + if i < k % n then 1 else 0
  {
    var q, r := k / n, k % n;
    assert k == q * n + r;
    if i < r {
      DivMod(q + 1, r - 1 - i, n);
      assert (q + 1) * n == q * n + n;
    } else {
      DivMod(q, r + n - 1 - i, n);
    }
  }

  lemma NextDivMod(k: nat, n: nat)
    requires n > 0
    ensures k % n + 1 < n ==> (k + 1) / n == k / n && (k + 1) % n == k % n + 1
    ensures k % n + 1 == n ==> (k + 1) / n == k / n + 1 && (k + 1) % n == 0
  {
    var q, r := k / n, k % n;
    assert k == q * n + r;
    if r + 1 < n {
      DivMod(q, r + 1, n);
    } else {
      DivMod(q + 1, 0, n);
      assert (q + 1) * n == q * n + n;
    }
  }

  /** Serving rank k % n turns the counts after k rounds into those after k + 1. */
  lemma ServeNext(k: nat, n: nat, i: nat)
    requires i < n
    ensures Served(k + 1, n, i) == Served(k, n, i) + if i == k % n then 1 else 0
  {
    hide Served;
    ServedByCycle(k, n, i);
    ServedByCycle(k + 1, n, i);
    NextDivMod(k, n);
  }

  // ----- the invariant of the run -----

  /** Statuses as at the start, and rank i has been served as often as it should. */
  ghost predicate InTurn(start: Db, db: Db, ids: seq<int>, k: nat, t0: Time, tEnd: Time) {
    && Valid(db) && SameButUpdatedAt(db.couriers, start.couriers)
    && forall i: nat, now: Time :: i < |ids| && t0 <= now <= tEnd ==>
         Load(db.deliveries, ids[i], now) == Served(k, |ids|, i)
  }

  lemma SameAvailable(a: seq<Courier>, b: seq<Courier>)
    requires SameButUpdatedAt(a, b)
    ensures AvailableIds(a) == AvailableIds(b)
  {
    forall i | 0 <= i < |a| ensures a[i].id == b[i].id && a[i].status == b[i].status {
      assert a[i].(updatedAt := 0) == b[i].(updatedAt := 0);
    }
  }

  /** The least-loaded courier is the one whose turn it is. */
  lemma PickedInTurn(start: Db, db: Db, ids: seq<int>, k: nat, t0: Time, now: Time, tEnd: Time)
    requires InTurn(start, db, ids, k, t0, tEnd) && Ranks(ids, start.couriers) && ids != [] && t0 <= now <= tEnd
    ensures AnyAvailable(db.couriers) && Picked(db, now).id == ids[k % |ids|]
  {
    hide Served, Load, Valid;
    var n, r := |ids|, k % |ids|;
    SameAvailable(db.couriers, start.couriers);
    assert ids[r] in ids;
    AvailableIffAny(db.couriers);
    var c := Picked(db, now);
    assert c.id in AvailableIds(db.couriers);
    var p: nat :| p < n && ids[p] == c.id;
    var j :| 0 <= j < |db.couriers| && db.couriers[j].status == Available && db.couriers[j].id == ids[r];
    assert Precedes(db.deliveries, now, c.id, ids[r]);
    ServedByCycle(k, n, p);
    ServedByCycle(k, n, r);
  }

  function RoundIds(rounds: seq<Round>): (ids: seq<string>)
    ensures |ids| == |rounds| && forall k :: 0 <= k < |rounds| ==> ids[k] == rounds[k].orderId
  {
    seq(|rounds|, k requires 0 <= k < |rounds| => rounds[k].orderId)
  }

  /** Completing a fresh assignment gives every courier its old status back. */
  lemma CompletionRestores(db: Db, orderId: string, clock: AssignClock, at: Time)
    requires Valid(db) && CanAssign(db, orderId, NoFault)
    ensures var db1 := Granted(db, orderId, clock);
      && CanComplete(db1, orderId, NoFault)
      && SameButUpdatedAt(Finished(db1, orderId, at).couriers, db.couriers)
  {
    var c, db1 := Picked(db, clock.now), Granted(db, orderId, clock);
    UndoDelivery(db.deliveries, GrantedRow(db, orderId, clock));
    var k :| 0 <= k < |db.couriers| && db.couriers[k] == c;
    assert db1.couriers[k].id == c.id;
    BusyAndBack(db.couriers, c, clock.now, at);
  }

  /** What an assignment followed by its completion leaves. */
  lemma RoundOutcome(db: Db, r: Round)
    requires Valid(db) && CanAssign(db, r.orderId, NoFault)
    ensures Assigned(db, r).1.Ok? && Assigned(db, r).1.value.courierId == Picked(db, r.clock.now).id
    ensures var db' := PlayRound(db, r);
      && Valid(db') && SameButUpdatedAt(db'.couriers, db.couriers)
      && db'.deliveries == db.deliveries + [GrantedRow(db, r.orderId, r.clock)]
  {
    AssignOutcome(db, r.orderId, r.clock, NoFault);
    GrantedIsValid(db, r.orderId, r.clock);
    var db1 := Granted(db, r.orderId, r.clock);
    CompletionRestores(db, r.orderId, r.clock, r.completedAt);
    CompleteOutcome(db1, r.orderId, r.completedAt, NoFault);
    WithStatusKeepsValid(db1, OrderRow(db1.deliveries, r.orderId).courierId, Available, r.completedAt);
  }

  ghost predicate InWindow(rounds: seq<Round>, t0: Time, tEnd: Time) {
    forall k :: 0 <= k < |rounds| ==> t0 <= rounds[k].clock.now <= tEnd
  }

  /** None of the rows added to `start` expires before `tEnd`. */
  ghost predicate NewRowsLast(start: Db, db: Db, tEnd: Time) {
    forall j :: |start.deliveries| <= j < |db.deliveries| ==> IsActive(db.deliveries[j], tEnd)
  }

  /** Behind the rows of `start` stand the orders of the rounds. */
  ghost predicate AddedOrders(start: Db, db: Db, rounds: seq<Round>) {
    && |db.deliveries| == |start.deliveries| + |rounds|
    && (forall j :: 0 <= j < |start.deliveries| ==> db.deliveries[j] == start.deliveries[j])
    && forall j :: |start.deliveries| <= j < |db.deliveries| ==>
         db.deliveries[j].orderId == rounds[j - |start.deliveries|].orderId
  }

  lemma NextIsFresh(start: Db, db: Db, rounds: seq<Round>)
    requires rounds != [] && FreshIds(start.deliveries, RoundIds(rounds))
    requires AddedOrders(start, db, rounds[..|rounds| - 1])
    ensures !HasOrder(db.deliveries, rounds[|rounds| - 1].orderId)
  {
    forall j | 0 <= j < |db.deliveries| ensures db.deliveries[j].orderId != rounds[|rounds| - 1].orderId {
      if j < |start.deliveries| {
        assert start.deliveries[j].orderId == db.deliveries[j].orderId;
      }
    }
  }

  /** One more round: it serves the courier whose turn it is. */
  lemma NextInTurn(start: Db, db: Db, ids: seq<int>, k: nat, t0: Time, tEnd: Time, r: Round)
    requires InTurn(start, db, ids, k, t0, tEnd) && Ranks(ids, start.couriers) && ids != []
    requires t0 <= r.clock.now <= tEnd && CanAssign(db, r.orderId, NoFault)
    requires IsActive(GrantedRow(db, r.orderId, r.clock), tEnd)
    ensures InTurn(start, PlayRound(db, r), ids, k + 1, t0, tEnd)
    ensures Assigned(db, r).1.Ok? && Assigned(db, r).1.value.courierId == ids[k % |ids|]
  {
    PickedInTurn(start, db, ids, k, t0, r.clock.now, tEnd);
    RoundOutcome(db, r);
    var row, db' := GrantedRow(db, r.orderId, r.clock), PlayRound(db, r);
    forall i: nat, now: Time | i < |ids| && t0 <= now <= tEnd
      ensures Load(db'.deliveries, ids[i], now) == Served(k + 1, |ids|, i)
    {
      LoadAppend(db.deliveries, row, ids[i], now);
      ServeNext(k, |ids|, i);
    }
    forall i | 0 <= i < |db.couriers| ensures db'.couriers[i].(updatedAt := 0) == start.couriers[i].(updatedAt := 0) {
      assert db.couriers[i].(updatedAt := 0) == start.couriers[i].(updatedAt := 0);
    }
  }

  /** What the run needs of its start. */
  ghost predicate Ready(start: Db, rounds: seq<Round>, ids: seq<int>, t0: Time, tEnd: Time) {
    && Valid(start) && Ranks(ids, start.couriers) && ids != []
    && FreshIds(start.deliveries, RoundIds(rounds)) && InWindow(rounds, t0, tEnd)
    && forall i :: 0 <= i < |ids| ==> Load(start.deliveries, ids[i], t0) == 0
  }

  lemma {:induction false} IdleStaysIdle(ds: seq<Delivery>, id: int, t0: Time, now: Time)
    requires Load(ds, id, t0) == 0 && t0 <= now
    ensures Load(ds, id, now) == 0
  {
    if ds == [] {
    } else {
      IdleStaysIdle(ds[..|ds| - 1], id, t0, now);
    }
  }

  lemma StartInTurn(start: Db, ids: seq<int>, t0: Time, tEnd: Time)
    requires Ready(start, [], ids, t0, tEnd)
    ensures InTurn(start, start, ids, 0, t0, tEnd)
  {
    forall i: nat, now: Time | i < |ids| && t0 <= now <= tEnd
      ensures Load(start.deliveries, ids[i], now) == Served(0, |ids|, i)
    {
      IdleStaysIdle(start.deliveries, ids[i], t0, now);
      ServedByCycle(0, |ids|, i);
    }
  }

  /** A round only ever appends rows. */
  lemma RoundExtends(db: Db, r: Round)
    ensures db.deliveries <= PlayRound(db, r).deliveries
  {
    AssignOutcome(db, r.orderId, r.clock, NoFault);
    CompleteOutcome(Assigned(db, r).0, r.orderId, r.completedAt, NoFault);
  }

  lemma OrderAdded(start: Db, db: Db, db': Db, rounds: seq<Round>, row: Delivery)
    requires rounds != [] && AddedOrders(start, db, rounds[..|rounds| - 1])
    requires db'.deliveries == db.deliveries + [row] && row.orderId == rounds[|rounds| - 1].orderId
    ensures AddedOrders(start, db', rounds)
  {
  }

  lemma PlayNext(start: Db, db: Db, rounds: seq<Round>, ids: seq<int>, t0: Time, tEnd: Time)
    requires rounds != [] && Ready(start, rounds, ids, t0, tEnd)
    requires InTurn(start, db, ids, |rounds| - 1, t0, tEnd) && AddedOrders(start, db, rounds[..|rounds| - 1])
    requires NewRowsLast(start, PlayRound(db, rounds[|rounds| - 1]), tEnd)
    ensures var db' := PlayRound(db, rounds[|rounds| - 1]);
      InTurn(start, db', ids, |rounds|, t0, tEnd) && AddedOrders(start, db', rounds)
    ensures var (_, r) := Assigned(db, rounds[|rounds| - 1]);
      r.Ok? && r.value.courierId == ids[(|rounds| - 1) % |ids|]
  {
    hide Assign, Complete, PlayRound, Assigned, Valid;
    var k := |rounds| - 1;
    var r := rounds[k];
    NextIsFresh(start, db, rounds);
    PickedInTurn(start, db, ids, k, t0, r.clock.now, tEnd);
    assert Valid(db);
    RoundOutcome(db, r);
    var row, db' := GrantedRow(db, r.orderId, r.clock), PlayRound(db, r);
    OrderAdded(start, db, db', rounds, row);
    assert db'.deliveries[|db.deliveries|] == row;
    NextInTurn(start, db, ids, k, t0, tEnd, r);
  }

  lemma {:induction false} EarlierRowsLast(start: Db, rounds: seq<Round>, k: nat, tEnd: Time)
    requires k <= |rounds| && NewRowsLast(start, Play(start, rounds), tEnd)
    ensures NewRowsLast(start, Play(start, rounds[..k]), tEnd)
    decreases |rounds|
  {
    if k < |rounds| {
      RoundExtends(Play(start, rounds[..|rounds| - 1]), rounds[|rounds| - 1]);
      EarlierRowsLast(start, rounds[..|rounds| - 1], k, tEnd);
      assert rounds[..|rounds| - 1][..k] == rounds[..k];
    } else {
      assert rounds[..k] == rounds;
    }
  }

  lemma ReadyPrefix(start: Db, rounds: seq<Round>, ids: seq<int>, t0: Time, tEnd: Time, k: nat)
    requires Ready(start, rounds, ids, t0, tEnd) && k <= |rounds|
    ensures Ready(start, rounds[..k], ids, t0, tEnd)
  {
  }

  lemma {:induction false} PlayInTurn(start: Db, rounds: seq<Round>, ids: seq<int>, t0: Time, tEnd: Time)
    requires Ready(start, rounds, ids, t0, tEnd) && NewRowsLast(start, Play(start, rounds), tEnd)
    ensures InTurn(start, Play(start, rounds), ids, |rounds|, t0, tEnd)
    ensures AddedOrders(start, Play(start, rounds), rounds)
    decreases |rounds|
  {
    hide PlayRound, InTurn, Ready, NewRowsLast;
    if rounds == [] {
      StartInTurn(start, ids, t0, tEnd);
    } else {
      hide AddedOrders;
      var init := rounds[..|rounds| - 1];
      ReadyPrefix(start, rounds, ids, t0, tEnd, |rounds| - 1);
      EarlierRowsLast(start, rounds, |rounds| - 1, tEnd);
      PlayInTurn(start, init, ids, t0, tEnd);
      PlayNext(start, Play(start, init), rounds, ids, t0, tEnd);
    }
  }

  lemma KthServed(start: Db, rounds: seq<Round>, ids: seq<int>, t0: Time, tEnd: Time, k: nat)
    requires k < |rounds|
    requires Ready(start, rounds, ids, t0, tEnd) && NewRowsLast(start, Play(start, rounds), tEnd)
    ensures var (_, r) := Assigned(Play(start, rounds[..k]), rounds[k]);
      r.Ok? && r.value.courierId == ids[k % |ids|]
  {
    hide PlayRound, Assigned, InTurn, AddedOrders, Ready, NewRowsLast;
    var some := rounds[..k + 1];
    assert some[..k] == rounds[..k];
    ReadyPrefix(start, rounds, ids, t0, tEnd, k + 1);
    ReadyPrefix(start, rounds, ids, t0, tEnd, k);
    EarlierRowsLast(start, rounds, k + 1, tEnd);
    EarlierRowsLast(start, rounds, k, tEnd);
    PlayInTurn(start, some[..k], ids, t0, tEnd);
    PlayNext(start, Play(start, some[..k]), some, ids, t0, tEnd);
  }

  /** Round robin: from couriers without active deliveries, in any run of (assign a fresh order,
      complete it) during which no new deadline passes, the k-th assignment goes to rank k mod n,
      and after m of them rank i holds exactly (m + n - 1 - i) / n active deliveries. */
  lemma ServedInTurn(start: Db, rounds: seq<Round>, ids: seq<int>, t0: Time, tEnd: Time)
    requires t0 <= tEnd
    requires Ready(start, rounds, ids, t0, tEnd) && NewRowsLast(start, Play(start, rounds), tEnd)
    ensures forall k :: 0 <= k < |rounds| ==>
      var (_, r) := Assigned(Play(start, rounds[..k]), rounds[k]);
      r.Ok? && r.value.courierId == ids[k % |ids|]
    ensures var m, n, db := |rounds|, |ids|, Play(start, rounds);
      && (forall i :: 0 <= i < n ==> Load(db.deliveries, ids[i], tEnd) == (m + n - 1 - i) / n)
      && (forall i, k :: 0 <= i < n && 0 <= k < n ==>
            Load(db.deliveries, ids[i], tEnd) <= Load(db.deliveries, ids[k], tEnd) + 1)
  {
    hide Assign, Complete, PlayRound, Assigned, Valid, Play;
    forall k | 0 <= k < |rounds|
      ensures var (_, r) := Assigned(Play(start, rounds[..k]), rounds[k]);
        r.Ok? && r.value.courierId == ids[k % |ids|]
    {
      KthServed(start, rounds, ids, t0, tEnd, k);
    }
    PlayInTurn(start, rounds, ids, t0, tEnd);
    forall i | 0 <= i < |ids|
      ensures Load(Play(start, rounds).deliveries, ids[i], tEnd) == Served(|rounds|, |ids|, i)
      ensures |rounds| / |ids| <= Served(|rounds|, |ids|, i) <= |rounds| / |ids| + 1
    {
      ServedByCycle(|rounds|, |ids|, i);
    }
  }

  /** No new deadline passes in a run that ends within five minutes. */
  lemma {:induction false} ShortRunsLast(start: Db, rounds: seq<Round>, t0: Time, tEnd: Time)
    requires InWindow(rounds, t0, tEnd) && tEnd <= t0 + 5 * MINUTE
    requires forall k :: 0 <= k < |rounds| ==> rounds[k].clock.Ordered()
    ensures NewRowsLast(start, Play(start, rounds), tEnd)
    ensures start.deliveries <= Play(start, rounds).deliveries
  {
    hide Granted;
    if rounds == [] {
    } else {
      var db, r := Play(start, rounds[..|rounds| - 1]), rounds[|rounds| - 1];
      ShortRunsLast(start, rounds[..|rounds| - 1], t0, tEnd);
      RoundRows(db, r);
    }
  }

  /** The only row a round can add is its grant. */
  lemma RoundRows(db: Db, r: Round)
    ensures PlayRound(db, r).deliveries == db.deliveries ||
      (AnyAvailable(db.couriers) && PlayRound(db, r).deliveries == db.deliveries + [GrantedRow(db, r.orderId, r.clock)])
  {
    AssignOutcome(db, r.orderId, r.clock, NoFault);
    CompleteOutcome(Assigned(db, r).0, r.orderId, r.completedAt, NoFault);
  }
}
