/** Runs from the empty system that show the failing cases can occur. */
module Witnesses {
  import opened Entities
  import opened Validators
  import opened Tables
  import opened Dispatch
  import opened Outcomes
  import opened StoreInvariant
  import opened Accounting
  import opened CleanupAlgebra
  import opened TrimmedPhones
  import opened Consumption
  import opened Worker

  function At(t: Time): AssignClock {
    AssignClock(t, t, t, t)
  }

  lemma LetterIsAnOrderId(o: string)
    requires o in {"a", "b", "o"}
    ensures IsValidOrderId(o) && |o| == 1
  {
    BlankIffAllSpaces(o);
    assert !IsSpace(o[0]);
  }

  function Newcomer(t: Time): Courier {
    Courier(1, "a", "+", Available, Car, t, t)
  }

  /** One courier posted. */
  lemma PostOne(t: Time)
    ensures Apply(EMPTY, PostCourier(Posted("+"), t, NoFault)).0 == Db([Newcomer(t)], [], 1, 0)
    ensures Valid(Db([Newcomer(t)], [], 1, 0))
  {
    hide TrimSpace, IsValidName, IsValidPhone;
    PlusIsAPhone();
    StepKeepsValid(EMPTY, PostCourier(Posted("+"), t, NoFault));
  }

  /** The only courier is chosen whenever it is available. */
  lemma AssignToOnly(db: Db, orderId: string, t: Time)
    requires |db.couriers| == 1 && db.couriers[0].status == Available && db.couriers[0].transport == Car
    requires IsValidOrderId(orderId) && |orderId| == 1 && !HasOrder(db.deliveries, orderId)
    ensures CanAssign(db, orderId, NoFault)
    ensures Assign(db, orderId, At(t), NoFault).1.Ok?
    ensures var db' := Assign(db, orderId, At(t), NoFault).0;
      && db'.couriers == [db.couriers[0].(status := Busy, updatedAt := t)]
      && db'.deliveries == db.deliveries +
           [Delivery(db.deliverySeq + 1, db.couriers[0].id, orderId, t, t, t + 5 * MINUTE)]
      && db'.courierSeq == db.courierSeq && db'.deliverySeq == db.deliverySeq + 1
  {
    AssignOutcome(db, orderId, At(t), NoFault);
    assert Picked(db, t) == db.couriers[0];
  }

  // ----- an assignment that cannot be undone, and a completion that frees a busy courier -----

  function Row(id: int, orderId: string, t: Time): Delivery {
    Delivery(id, 1, orderId, t, t, t + 5 * MINUTE)
  }

  /** The only courier has served order "a", whose row is still active. */
  function ServedOne(t: Time): Db {
    Db([Newcomer(t)], [Row(1, "a", t)], 1, 1)
  }

  /** ... and then got order "b". */
  function ServesAgain(t: Time): Db {
    Db([Newcomer(t).(status := Busy)], [Row(1, "a", t), Row(2, "b", t)], 1, 2)
  }

  function ServeOnce(t: Time): seq<Step> {
    [PostCourier(Posted("+"), t, NoFault), AssignOrder("a", At(t), NoFault), CompleteOrder("a", t, NoFault)]
  }

  lemma CompleteOnly(db: Db, orderId: string, t: Time)
    requires IsValidOrderId(orderId) && HasOrder(db.deliveries, orderId) && |db.couriers| == 1
    requires OrderRow(db.deliveries, orderId).courierId == db.couriers[0].id
    ensures Complete(db, orderId, t, NoFault).1.Ok?
    ensures Complete(db, orderId, t, NoFault).0 ==
      db.(couriers := [db.couriers[0].(status := Available, updatedAt := t)])
  {
    hide Complete, IsValidOrderId;
    CompleteOutcome(db, orderId, t, NoFault);
    assert WithStatus(db.couriers, db.couriers[0].id, Available, t) ==
      [db.couriers[0].(status := Available, updatedAt := t)];
  }

  lemma FirstIsServed(t: Time)
    ensures var db := Db([Newcomer(t)], [], 1, 0);
      && Assign(db, "a", At(t), NoFault).1.Ok? && Complete(Assign(db, "a", At(t), NoFault).0, "a", t, NoFault).1.Ok?
      && Complete(Assign(db, "a", At(t), NoFault).0, "a", t, NoFault).0 == ServedOne(t)
  {
    hide Assign, Complete, IsValidOrderId;
    var db1 := Db([Newcomer(t)], [], 1, 0);
    var db2 := Db([Newcomer(t).(status := Busy)], [Row(1, "a", t)], 1, 1);
    LetterIsAnOrderId("a");
    AssignToOnly(db1, "a", t);
    assert Assign(db1, "a", At(t), NoFault).0 == db2;
    assert db2.deliveries[0].orderId == "a";
    CompleteOnly(db2, "a", t);
  }

  lemma ServeOnceLeaves(t: Time)
    ensures Run(EMPTY, ServeOnce(t)) == ServedOne(t) && Valid(ServedOne(t))
  {
    hide Valid, Assign, Complete, CreateCourier;
    PostOne(t);
    FirstIsServed(t);
    var steps := ServeOnce(t);
    var db1 := Db([Newcomer(t)], [], 1, 0);
    var db2 := Assign(db1, "a", At(t), NoFault).0;
    assert steps[1..][1..] == steps[2..] && steps[2..][1..] == [];
    assert Run(EMPTY, steps) == Run(db1, steps[1..]);
    assert Run(db1, steps[1..]) == Run(db2, steps[2..]);
    assert Run(db2, steps[2..]) == Run(ServedOne(t), []);
    RunKeepsValid(EMPTY, steps);
  }

  /** After these three operations the fourth can be done but not undone at once. */
  lemma UndoCanBeRefused(t: Time)
    ensures var db := Run(EMPTY, ServeOnce(t));
      && CanAssign(db, "b", NoFault) && Assign(db, "b", At(t), NoFault).0 == ServesAgain(t)
      && Unassign(ServesAgain(t), "b", t, NoFault).1 == Err(CourierHasActiveDeliveries)
  {
    hide Valid, Assign, Unassign, IsValidOrderId, Run;
    ServeOnceLeaves(t);
    LetterIsAnOrderId("b");
    AssignToOnly(ServedOne(t), "b", t);
    assert ServesAgain(t).deliveries == ServedOne(t).deliveries + [Row(2, "b", t)];
    assert Assign(ServedOne(t), "b", At(t), NoFault).0 == ServesAgain(t);
    UndoLater(ServedOne(t), "b", At(t), t);
    LoadOfRow(t);
  }

  lemma LoadOfRow(t: Time)
    ensures Load([Row(1, "a", t)], 1, t) == 1
  {
  }

  /** The completion of "a" is delivered again: it frees the courier while "b" is under way. */
  lemma ReplayFreesBusyCourier(t: Time)
    ensures var (db, e) := RunHandler(ServesAgain(t), Order("a", Completed), At(t), NoFault);
      && e.None? && db.deliveries == ServesAgain(t).deliveries
      && ServesAgain(t).couriers[0].status == Busy && db.couriers[0].status == Available
      && OrderRow(db.deliveries, "b").courierId == db.couriers[0].id
      && IsActive(OrderRow(db.deliveries, "b"), t)
  {
    hide Complete, IsValidOrderId;
    LetterIsAnOrderId("a");
    assert ServesAgain(t).deliveries[0].orderId == "a";
    assert ServesAgain(t).deliveries[1].orderId == "b";
    CompleteOnly(ServesAgain(t), "a", t);
  }

  // ----- a courier freed while serving -----

  /** Six minutes after serving "a", its row still there, the courier gets order "b". */
  function ServesLater(t: Time): Db {
    var now := t + 6 * MINUTE;
    Db([Newcomer(t).(status := Busy, updatedAt := now)],
       [Row(1, "a", t), Delivery(2, 1, "b", now, now, now + 5 * MINUTE)], 1, 2)
  }

  /** The next cleanup frees the courier because of the old row, five minutes before the new deadline. */
  lemma CleanupFreesServingCourier(t: Time)
    ensures var now := t + 6 * MINUTE;
      var db := Run(EMPTY, ServeOnce(t));
      var served := Assign(db, "b", At(now), NoFault).0;
      var later := Cleanup(served, now, NoFault).0;
      && served == ServesLater(t) && served.couriers[0].status == Busy
      && later.deliveries == served.deliveries && later.couriers[0].status == Available
      && later.deliveries[1].courierId == later.couriers[0].id && later.deliveries[1].deadline == now + 5 * MINUTE
  {
    hide Valid, Assign, Cleanup, IsValidOrderId, Run;
    var now := t + 6 * MINUTE;
    ServeOnceLeaves(t);
    LetterIsAnOrderId("b");
    AssignToOnly(ServedOne(t), "b", now);
    assert ServesLater(t).deliveries ==
      ServedOne(t).deliveries + [Delivery(2, 1, "b", now, now, now + 5 * MINUTE)];
    assert Assign(ServedOne(t), "b", At(now), NoFault).0 == ServesLater(t);
    CleanupReleasesOverdue(ServesLater(t), now, NoFault);
    assert ServesLater(t).deliveries[0].deadline < now;
    assert 0 in Overdue(ServesLater(t), now);
  }

  // ----- a cancelled order that comes back -----

  /** A run given world by world. */
  lemma {:induction false} Path(worlds: seq<World>, moves: seq<Move>)
    requires |worlds| == |moves| + 1
    requires forall k :: 0 <= k < |moves| ==> Next(worlds[k], moves[k]) == worlds[k + 1]
    ensures Moves(worlds[0], moves) == worlds[|moves|]
    decreases |moves|
  {
    hide Next;
    if moves == [] {
    } else {
      var worlds', moves' := worlds[1..], moves[1..];
      assert forall k :: 0 <= k < |moves'| ==> worlds'[k] == worlds[k + 1] && moves'[k] == moves[k + 1];
      assert Next(worlds[0], moves[0]) == worlds[1];
      Path(worlds', moves');
    }
  }

  const EVENT: Message := Event("o", "created")

  const SAYS_CREATED: Answer := Reply(Order("o", Created))
  const SAYS_CANCELLED: Answer := Reply(Order("o", Cancelled))

  function Sent(t: Time): seq<Move> {
    [Other(PostCourier(Posted("+"), t, NoFault)), Produce(0, EVENT), Produce(0, EVENT), Produce(1, EVENT)]
  }

  const ASKED: seq<Move> := [Open(0, 0), Open(1, 0), ReadAt(0, SAYS_CREATED), ReadAt(1, SAYS_CREATED)]

  function Told(t: Time): seq<Move> {
    Sent(t) + ASKED
  }

  /** One courier, two events of the order in partition 0 and one in partition 1. */
  function AllSent(t: Time): World {
    World(Db([Newcomer(t)], [], 1, 0),
          [Part([EVENT, EVENT], 0, Closed, []), Part([EVENT], 0, Closed, [])])
  }

  /** ... and both partitions told that the order is created. */
  function BothTold(t: Time): World {
    World(Db([Newcomer(t)], [], 1, 0),
          [Part([EVENT, EVENT], 0, Holding(0, Order("o", Created)), [[]]),
           Part([EVENT], 0, Holding(0, Order("o", Created)), [[]])])
  }

  lemma AllAreSent(t: Time)
    ensures Moves(Start(2), Sent(t)) == AllSent(t)
  {
    hide Apply, Execute, Read, OpenAt, CloseIdle, Valid;
    PostOne(t);
    var db := AllSent(t).db;
    var one := NEW_PART.(log := [EVENT]);
    assert NEW_PART.log + [EVENT] == one.log && one.log + [EVENT] == [EVENT, EVENT];
    var worlds := [Start(2), World(db, [NEW_PART, NEW_PART]), World(db, [one, NEW_PART]),
                   World(db, [one.(log := [EVENT, EVENT]), NEW_PART]), AllSent(t)];
    assert Start(2).parts == worlds[1].parts;
    assert forall k :: 0 < k < 4 ==> Next(worlds[k], Sent(t)[k]).parts == worlds[k + 1].parts;
    Path(worlds, Sent(t));
  }

  lemma AllAreAsked(t: Time)
    ensures Moves(AllSent(t), ASKED) == BothTold(t)
  {
    hide Apply, Execute, Finish, CloseIdle;
    var sent, told := AllSent(t), BothTold(t);
    var p0 := sent.parts[0].(session := Idle(0), history := [[]]);
    var p1 := sent.parts[1].(session := Idle(0), history := [[]]);
    assert sent.parts[0].history + [[]] == p0.history;
    var worlds := [sent, sent.(parts := [p0, sent.parts[1]]), sent.(parts := [p0, p1]),
                   sent.(parts := [told.parts[0], p1]), told];
    assert forall k :: 0 <= k < 4 ==> Next(worlds[k], ASKED[k]).parts == worlds[k + 1].parts;
    Path(worlds, ASKED);
  }

  lemma BothAreTold(t: Time)
    ensures Moves(Start(2), Told(t)) == BothTold(t)
  {
    hide Moves;
    AllAreSent(t);
    AllAreAsked(t);
    MovesCompose(Start(2), Sent(t), ASKED);
  }

  /** Partition 0 has assigned the order, and was then told that it is cancelled. */
  function ThenCancelled(t: Time): World {
    World(Db([Newcomer(t).(status := Busy)], [Row(1, "o", t)], 1, 1),
          [Part([EVENT, EVENT], 1, Holding(1, Order("o", Cancelled)), [[Record(0, Processed)]]),
           Part([EVENT], 0, Holding(0, Order("o", Created)), [[]])])
  }

  lemma ThenIsCancelled(t: Time)
    ensures Moves(BothTold(t), [ExecuteAt(0, At(t), NoFault), ReadAt(0, SAYS_CANCELLED)]) == ThenCancelled(t)
  {
    hide Assign;
    LetterIsAnOrderId("o");
    AssignToOnly(BothTold(t).db, "o", t);
    var w := ThenCancelled(t);
    var idle := w.(parts := w.parts[0 := w.parts[0].(session := Idle(1))]);
    var next := Next(BothTold(t), ExecuteAt(0, At(t), NoFault));
    assert next.db == idle.db;
    assert [] + [Record(0, Processed)] == [Record(0, Processed)];
    assert next.parts[0].history == idle.parts[0].history;
    assert next.parts == idle.parts;
    assert Next(idle, ReadAt(0, SAYS_CANCELLED)).parts == w.parts;
    Path([BothTold(t), idle, w], [ExecuteAt(0, At(t), NoFault), ReadAt(0, SAYS_CANCELLED)]);
  }

  /** From the empty system two partitions reach the world in which one is about to unassign the order
      and the other holds the answer that it is created; the unassignment then succeeds, and a later
      move gives the order a row again although the order service says "cancelled" from there on. */
  lemma CancelledOrderComesBack(t: Time)
    ensures exists before, after ::
      && JustUnassigned(Moves(Start(2), before), 0, At(t), NoFault, "o") && HeldCreated(Moves(Start(2), before), "o")
      && AllStayCancelled(after, "o")
      && HasOrder(Moves(Next(Moves(Start(2), before), ExecuteAt(0, At(t), NoFault)), after).db.deliveries, "o")
  {
    hide Next, Moves, Unassign, CanAssign;
    var rest := [ExecuteAt(0, At(t), NoFault), ReadAt(0, SAYS_CANCELLED)];
    BothAreTold(t);
    ThenIsCancelled(t);
    MovesCompose(Start(2), Told(t), rest);
    var before := Told(t) + rest;
    var w := Moves(Start(2), before);
    assert w.parts[1].session.order == Order("o", Created);
    CanBeUnassigned(t);
    assert Sound(Start(2));
    MovesKeepSound(Start(2), before);
    AfterUnassign(w, 0, At(t), NoFault, "o");
    ResurrectionHappens(Next(w, ExecuteAt(0, At(t), NoFault)), "o", At(t));
  }

  lemma CanBeUnassigned(t: Time)
    ensures Unassign(ThenCancelled(t).db, "o", t, NoFault).1.Ok?
  {
    hide Unassign, IsValidOrderId;
    var db := ThenCancelled(t).db;
    LetterIsAnOrderId("o");
    assert db.deliveries[0].orderId == "o" && db.couriers[0].id == 1;
    assert WithoutOrder(db.deliveries, "o") == [];
    UnassignOutcome(db, "o", t, NoFault);
  }
}
