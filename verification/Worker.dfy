/** Several partitions and the rest of the system, interleaved: what replays cannot do. */
module Worker {
  import opened Entities
  import opened Tables
  import opened Dispatch
  import opened Outcomes
  import opened StoreInvariant
  import opened Consumption

  datatype World = World(db: Db, parts: seq<Part>)

  /** REST calls and cleanup ticks, a produced message, a session opened at any offset at or below
      the mark, a session closed between messages, and the two halves of handling a message. */
  datatype Move =
    | Other(step: Step)
    | Produce(p: nat, message: Message)
    | Open(p: nat, offset: nat)
    | Close(p: nat)
    | ReadAt(p: nat, answer: Answer)
    | ExecuteAt(p: nat, clock: AssignClock, fault: Fault)

  function Next(w: World, mv: Move): World {
    match mv
    case Other(s) => w.(db := Apply(w.db, s).0)
    case Produce(p, m) =>
      if p >= |w.parts| then w else w.(parts := w.parts[p := w.parts[p].(log := w.parts[p].log + [m])])
    case Open(p, offset) => if p >= |w.parts| then w else w.(parts := w.parts[p := OpenAt(w.parts[p], offset)])
    case Close(p) => if p >= |w.parts| then w else w.(parts := w.parts[p := CloseIdle(w.parts[p])])
    case ReadAt(p, a) => if p >= |w.parts| then w else w.(parts := w.parts[p := Read(w.parts[p], a)])
    case ExecuteAt(p, c, f) =>
      if p >= |w.parts| then w
      else var (db', part) := Execute(w.db, w.parts[p], c, f); World(db', w.parts[p := part])
  }

  function Moves(w: World, moves: seq<Move>): World
    decreases |moves|
  {
    if moves == [] then w else Moves(Next(w, moves[0]), moves[1..])
  }

  lemma {:induction false} MovesCompose(w: World, a: seq<Move>, b: seq<Move>)
    ensures Moves(w, a + b) == Moves(Moves(w, a), b)
    decreases |a|
  {
    if a == [] {
      assert a + b == b;
    } else {
      assert (a + b)[1..] == a[1..] + b;
      MovesCompose(Next(w, a[0]), a[1..], b);
    }
  }

  function Start(n: nat): World {
    World(EMPTY, seq(n, i => NEW_PART))
  }

  // ----- every partition consumes at least once -----

  ghost predicate Sound(w: World) {
    Valid(w.db) && forall p :: 0 <= p < |w.parts| ==> AtLeastOnce(w.parts[p])
  }

  lemma NextKeepsSound(w: World, mv: Move)
    requires Sound(w)
    ensures Sound(Next(w, mv)) && |Next(w, mv).parts| == |w.parts|
  {
    hide Apply, HandlerStep, Valid, AtLeastOnce, Finish, Read, OpenAt;
    match mv
    case Other(s) => StepKeepsValid(w.db, s);
    case Produce(p, m) => if p < |w.parts| { ProduceKeeps(w.parts[p], m); }
    case Open(p, offset) => if p < |w.parts| { OpenKeeps(w.parts[p], offset); }
    case Close(p) => if p < |w.parts| { CloseKeeps(w.parts[p]); }
    case ReadAt(p, a) => if p < |w.parts| { ReadKeeps(w.parts[p], a); }
    case ExecuteAt(p, c, f) =>
      if p < |w.parts| && w.parts[p].session.Holding? {
        var order := w.parts[p].session.order;
        var handler := GetHandler(order.status);
        if handler.Some? { StepKeepsValid(w.db, HandlerStep(handler.value, order.id, c, f)); }
        HoldingInLog(w.parts[p]);
        FinishKeeps(w.parts[p], w.parts[p].session.pos, VerdictOf(RunHandler(w.db, order, c, f).1));
      }
  }

  lemma HoldingInLog(part: Part)
    requires AtLeastOnce(part) && part.session.Holding?
    ensures part.session.pos < |part.log|
  {
  }

  lemma ProduceKeeps(part: Part, m: Message)
    requires AtLeastOnce(part)
    ensures AtLeastOnce(part.(log := part.log + [m]))
  {
  }

  lemma CloseKeeps(part: Part)
    requires AtLeastOnce(part)
    ensures AtLeastOnce(CloseIdle(part))
  {
  }

  lemma {:induction false} MovesKeepSound(w: World, moves: seq<Move>)
    requires Sound(w)
    ensures Sound(Moves(w, moves)) && |Moves(w, moves).parts| == |w.parts|
    decreases |moves|
  {
    hide Next, Sound;
    if moves == [] {
    } else {
      NextKeepsSound(w, moves[0]);
      MovesKeepSound(Next(w, moves[0]), moves[1..]);
    }
  }

  /** In every run, with any number of restarts from any offset at or below the mark: marked
      messages are a prefix of the log, a message is marked exactly when it got a verdict other than
      a cancellation, and within a session nothing after a cancelled message is processed. */
  lemma ConsumedAtLeastOnce(n: nat, moves: seq<Move>, p: nat)
    requires p < n
    ensures |Moves(Start(n), moves).parts| == n && AtLeastOnce(Moves(Start(n), moves).parts[p])
  {
    assert Sound(Start(n));
    MovesKeepSound(Start(n), moves);
  }

  // ----- no resurrection -----

  /** Some partition holds the answer that `orderId` is created, and has yet to act on it. */
  ghost predicate HeldCreated(w: World, orderId: string) {
    exists p :: 0 <= p < |w.parts| && w.parts[p].session.Holding? && w.parts[p].session.order == Order(orderId, Created)
  }

  /** From here on the order service answers "cancelled" for the order, and nobody assigns it by REST. */
  predicate StaysCancelled(mv: Move, orderId: string) {
    && (mv.ReadAt? && mv.answer.Reply? && mv.answer.order.id == orderId ==> mv.answer.order.status == Cancelled)
    && (mv.Other? && mv.step.AssignOrder? ==> mv.step.orderId != orderId)
  }

  ghost predicate AllStayCancelled(moves: seq<Move>, orderId: string) {
    forall k :: 0 <= k < |moves| ==> StaysCancelled(moves[k], orderId)
  }

  ghost predicate Gone(w: World, orderId: string) {
    !HasOrder(w.db.deliveries, orderId) && !HeldCreated(w, orderId)
  }

  /** Only assigning an order gives it a row. */
  lemma OnlyAssignAddsRow(db: Db, s: Step, orderId: string)
    requires !HasOrder(db.deliveries, orderId) && (s.AssignOrder? ==> s.orderId != orderId)
    ensures !HasOrder(Apply(db, s).0.deliveries, orderId)
  {
    match s
    case PostCourier(m, at, f) =>
    case PutCourier(m, at, f) =>
    case AssignOrder(o, clock, f) => AssignOutcome(db, o, clock, f);
    case UnassignOrder(o, at, f) => UnassignOutcome(db, o, at, f); WithoutMembers(db.deliveries, o);
    case CompleteOrder(o, at, f) => CompleteOutcome(db, o, at, f);
    case CleanupTick(at, f) =>
  }

  lemma NextKeepsGone(w: World, mv: Move, orderId: string)
    requires Gone(w, orderId) && StaysCancelled(mv, orderId)
    ensures Gone(Next(w, mv), orderId)
  {
    hide Apply, HasOrder;
    var w' := Next(w, mv);
    if mv.Other? {
      OnlyAssignAddsRow(w.db, mv.step, orderId);
    } else if mv.ExecuteAt? && mv.p < |w.parts| && w.parts[mv.p].session.Holding? {
      var order := w.parts[mv.p].session.order;
      assert order != Order(orderId, Created);
      var handler := GetHandler(order.status);
      if handler.Some? {
        OnlyAssignAddsRow(w.db, HandlerStep(handler.value, order.id, mv.clock, mv.fault), orderId);
      }
    }
  }

  lemma {:induction false} StaysGone(w: World, moves: seq<Move>, orderId: string)
    requires Gone(w, orderId) && AllStayCancelled(moves, orderId)
    ensures Gone(Moves(w, moves), orderId)
    decreases |moves|
  {
    hide Next;
    if moves == [] {
    } else {
      NextKeepsGone(w, moves[0], orderId);
      StaysGone(Next(w, moves[0]), moves[1..], orderId);
    }
  }

  /** A run of handlers that just unassigned the order it holds as cancelled. */
  ghost predicate JustUnassigned(w: World, p: nat, clock: AssignClock, fault: Fault, orderId: string) {
    && p < |w.parts| && w.parts[p].session.Holding? && w.parts[p].session.order == Order(orderId, Cancelled)
    && Unassign(w.db, orderId, clock.now, fault).1.Ok?
  }

  /** The order's courier is available in the tables an unassignment leaves. */
  lemma RevokedHasAvailable(db: Db, orderId: string, now: Time)
    requires Valid(db) && HasOrder(db.deliveries, orderId)
    ensures AnyAvailable(Revoked(db, orderId, now).couriers) && |orderId| <= ORDER_ID_LIMIT
  {
    hide WithoutOrder, UpdateRows, CouriersValid;
    var row := OrderRow(db.deliveries, orderId);
    var j :| 0 <= j < |db.deliveries| && db.deliveries[j] == row;
    assert HasCourier(db.couriers, db.deliveries[j].courierId);
    var i :| 0 <= i < |db.couriers| && db.couriers[i].id == row.courierId;
    assert Revoked(db, orderId, now).couriers[i].status == Available;
  }

  /** The tables are then ready for the order again. */
  lemma UnassignedIsAssignable(db: Db, orderId: string, now: Time, fault: Fault)
    requires Valid(db) && Unassign(db, orderId, now, fault).1.Ok?
    ensures CanAssign(Unassign(db, orderId, now, fault).0, orderId, NoFault)
  {
    hide Unassign, WithoutOrder, Valid;
    UnassignOutcome(db, orderId, now, fault);
    WithoutMembers(db.deliveries, orderId);
    RevokedHasAvailable(db, orderId, now);
    hide WithStatus, AnyAvailable;
  }

  lemma AfterUnassign(w: World, p: nat, clock: AssignClock, fault: Fault, orderId: string)
    requires Sound(w) && JustUnassigned(w, p, clock, fault, orderId)
    ensures var w1 := Next(w, ExecuteAt(p, clock, fault));
      && CanAssign(w1.db, orderId, NoFault)
      && (HeldCreated(w1, orderId) <==> HeldCreated(w, orderId))
  {
    hide Unassign, Valid, AtLeastOnce, CanAssign;
    UnassignedIsAssignable(w.db, orderId, clock.now, fault);
    var w1 := Next(w, ExecuteAt(p, clock, fault));
    assert forall q :: 0 <= q < |w.parts| && q != p ==> w1.parts[q] == w.parts[q];
    if HeldCreated(w, orderId) {
      var q :| 0 <= q < |w.parts| && w.parts[q].session.Holding? && w.parts[q].session.order == Order(orderId, Created);
      assert w1.parts[q].session == w.parts[q].session;
    }
  }

  /** After a successful unassignment of an order that stays cancelled, no run of later moves (stale,
      duplicated or reordered events, replays after restarts) ever gives it a row again, exactly
      when no other partition was holding an answer that it is created. */
  lemma NoResurrectionIff(w: World, p: nat, clock: AssignClock, fault: Fault, orderId: string)
    requires Sound(w) && JustUnassigned(w, p, clock, fault, orderId)
    ensures var w1 := Next(w, ExecuteAt(p, clock, fault));
      (forall moves :: AllStayCancelled(moves, orderId) ==> !HasOrder(Moves(w1, moves).db.deliveries, orderId))
      <==> !HeldCreated(w, orderId)
  {
    hide Next;
    var w1 := Next(w, ExecuteAt(p, clock, fault));
    AfterUnassign(w, p, clock, fault, orderId);
    if HeldCreated(w, orderId) {
      ResurrectionHappens(w1, orderId, clock);
    } else {
      forall moves | AllStayCancelled(moves, orderId) ensures !HasOrder(Moves(w1, moves).db.deliveries, orderId) {
        StaysGone(w1, moves, orderId);
      }
    }
  }

  lemma HeldCreatedAssigns(w: World, q: nat, clock: AssignClock, orderId: string)
    requires q < |w.parts| && w.parts[q].session.Holding? && w.parts[q].session.order == Order(orderId, Created)
    requires CanAssign(w.db, orderId, NoFault)
    ensures HasOrder(Next(w, ExecuteAt(q, clock, NoFault)).db.deliveries, orderId)
  {
    assert AnyAvailable(w.db.couriers) && !HasOrder(w.db.deliveries, orderId);
    AssignOutcome(w.db, orderId, clock, NoFault);
    hide Assign;
    assert Granted(w.db, orderId, clock).deliveries[|w.db.deliveries|].orderId == orderId;
  }

  /** A held answer that the order is created does give it a row, however the order service answers since. */
  lemma ResurrectionHappens(w: World, orderId: string, clock: AssignClock)
    requires HeldCreated(w, orderId) && CanAssign(w.db, orderId, NoFault)
    ensures exists moves :: AllStayCancelled(moves, orderId) && HasOrder(Moves(w, moves).db.deliveries, orderId)
  {
    hide Next, CanAssign;
    var q :| 0 <= q < |w.parts| && w.parts[q].session.Holding? && w.parts[q].session.order == Order(orderId, Created);
    HeldCreatedAssigns(w, q, clock, orderId);
    var moves := [ExecuteAt(q, clock, NoFault)];
    assert Moves(w, moves) == Moves(Next(w, moves[0]), moves[1..]) == Next(w, moves[0]);
    assert AllStayCancelled(moves, orderId);
  }

  // ----- one partition per order -----

  /** The order's events go to partition `home`, and answers are about the order asked for. */
  predicate Keyed(w: World, mv: Move, orderId: string, home: nat) {
    && (mv.Produce? && mv.message.Event? && mv.message.orderId == orderId ==> mv.p == home)
    && (mv.ReadAt? && mv.p < |w.parts| && mv.answer.Reply? && w.parts[mv.p].session.Idle?
        && w.parts[mv.p].session.pos < |w.parts[mv.p].log| && w.parts[mv.p].log[w.parts[mv.p].session.pos].Event?
        ==> mv.answer.order.id == w.parts[mv.p].log[w.parts[mv.p].session.pos].orderId)
  }

  ghost predicate AllKeyed(w: World, moves: seq<Move>, orderId: string, home: nat)
    decreases |moves|
  {
    moves != [] ==> Keyed(w, moves[0], orderId, home) && AllKeyed(Next(w, moves[0]), moves[1..], orderId, home)
  }

  ghost predicate AtHome(w: World, orderId: string, home: nat) {
    forall q :: 0 <= q < |w.parts| && q != home ==>
      && (forall k :: 0 <= k < |w.parts[q].log| && w.parts[q].log[k].Event? ==> w.parts[q].log[k].orderId != orderId)
      && (w.parts[q].session.Holding? ==> w.parts[q].session.order.id != orderId)
  }

  lemma NextKeepsAtHome(w: World, mv: Move, orderId: string, home: nat)
    requires AtHome(w, orderId, home) && Keyed(w, mv, orderId, home)
    ensures AtHome(Next(w, mv), orderId, home)
  {
    hide Apply, RunHandler;
  }

  lemma {:induction false} MovesKeepAtHome(w: World, moves: seq<Move>, orderId: string, home: nat)
    requires AtHome(w, orderId, home) && AllKeyed(w, moves, orderId, home)
    ensures AtHome(Moves(w, moves), orderId, home)
    decreases |moves|
  {
    hide Next, AtHome, Keyed;
    if moves == [] {
    } else {
      NextKeepsAtHome(w, moves[0], orderId, home);
      MovesKeepAtHome(Next(w, moves[0]), moves[1..], orderId, home);
    }
  }

  /** With the events of an order in one partition (so handled one after another), from the very
      start: once unassigned through the worker, an order that stays cancelled never has a row again. */
  lemma NoResurrection(n: nat, before: seq<Move>, home: nat, clock: AssignClock, fault: Fault, orderId: string,
                       after: seq<Move>)
    requires AllKeyed(Start(n), before, orderId, home)
    requires JustUnassigned(Moves(Start(n), before), home, clock, fault, orderId)
    requires AllStayCancelled(after, orderId)
    ensures !HasOrder(Moves(Next(Moves(Start(n), before), ExecuteAt(home, clock, fault)), after).db.deliveries, orderId)
  {
    hide Next;
    var w := Moves(Start(n), before);
    assert Sound(Start(n));
    MovesKeepSound(Start(n), before);
    MovesKeepAtHome(Start(n), before, orderId, home);
    assert !HeldCreated(w, orderId);
    NoResurrectionIff(w, home, clock, fault, orderId);
  }
}
