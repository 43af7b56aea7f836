/** The order service and the claim loop over the tables in place. */
module Handlers {
  import opened Entities
  import opened StoreInvariant
  import opened Services
  import opened Consumption
  import opened Worker
  import opened Interruptions
  import D = Dispatch
  import T = Tables

  /** Everything outside the program that one message meets. */
  datatype Circumstance = Circumstance(answer: Answer, clock: AssignClock, fault: Fault)

  /** The tables and the error after an event about any order: the answer alone decides. */
  function Process(db: T.Db, c: Circumstance): (T.Db, Option<Error>) {
    if c.answer.NoReply? then (db, Some(c.answer.error))
    else RunHandler(db, c.answer.order, c.clock, c.fault)
  }

  class OrderService {
    const deliveries: DeliveryService

    constructor (deliveries: DeliveryService)
      ensures this.deliveries == deliveries
    {
      this.deliveries := deliveries;
    }

    ghost predicate Ready()
      reads deliveries.db
    {
      deliveries.couriers.db == deliveries.db && Valid(deliveries.db.State())
    }

    method ProcessOrderStatusChange(c: Circumstance) returns (r: Result<Order>)
      requires Ready()
      modifies deliveries.db
      ensures Ready()
      ensures (deliveries.db.State(), D.ErrorOf(r)) == Process(old(deliveries.db.State()), c)
      ensures r.Ok? ==> c.answer == Reply(r.value)
    {
      hide D.Assign, D.Unassign, D.Complete, Valid;
      if c.answer.NoReply? {
        return Err(c.answer.error);
      }
      var order := c.answer.order;
      var handler := GetHandler(order.status);
      if handler.None? {
        return Ok(order);
      }
      var error := None;
      match handler.value {
        case AssignHandler =>
          var granted := deliveries.DeliveryAssign(order.id, c.clock, c.fault);
          error := D.ErrorOf(granted);
        case UnassignHandler =>
          var revoked := deliveries.DeliveryUnassign(order.id, c.clock.now, c.fault);
          error := D.ErrorOf(revoked);
        case FreeHandler =>
          var freed := deliveries.FreeCourierByOrderID(order.id, c.clock.now, c.fault);
          error := D.ErrorOf(freed);
      }
      return if error.Some? then Err(error.value) else Ok(order);
    }
  }

  /** The moves of the worker that consume the next messages of partition `p`, one circumstance each. */
  function Consuming(p: nat, cs: seq<Circumstance>): seq<Move> {
    if cs == [] then []
    else Consuming(p, cs[..|cs| - 1]) + HandleMoves(p, cs[|cs| - 1])
  }

  function HandleMoves(p: nat, c: Circumstance): seq<Move> {
    [ReadAt(p, c.answer), ExecuteAt(p, c.clock, c.fault)]
  }

  /** A consumer-group session of one partition: it marks and records what it processed. */
  class ClaimSession {
    var part: Part

    constructor (part: Part)
      ensures this.part == part
    {
      this.part := part;
    }

    /** Marks a message, unless the verdict leaves it to be read again. */
    method Conclude(pos: nat, verdict: Verdict)
      modifies this
      ensures part == Finish(old(part), pos, verdict)
    {
      assert [] + [Record(pos, verdict)] == [Record(pos, verdict)];
      var n := |part.history|;
      var records := if n == 0 then [] else part.history[n - 1];
      var history := if n == 0 then [records + [Record(pos, verdict)]]
                     else part.history[n - 1 := records + [Record(pos, verdict)]];
      if verdict == Interrupted {
        part := part.(session := Closed, history := history);
      } else {
        if part.mark < pos + 1 {
          part := part.(mark := pos + 1);
        }
        part := part.(session := Idle(pos + 1), history := history);
      }
    }
  }

  class ClaimHandler {
    const orders: OrderService

    constructor (orders: OrderService)
      ensures this.orders == orders
    {
      this.orders := orders;
    }

    /** Handles one message; true means the claim must stop, leaving the message unmarked. */
    method MessageProcessing(session: ClaimSession, c: Circumstance) returns (shouldExit: bool)
      requires orders.Ready() && session.part.session.Idle? && session.part.session.pos < |session.part.log|
      modifies session, orders.deliveries.db
      ensures orders.Ready()
      ensures var w := Moves(World(old(orders.deliveries.db.State()), [old(session.part)]), HandleMoves(0, c));
        orders.deliveries.db.State() == w.db && [session.part] == w.parts
      ensures shouldExit <==> session.part.session.Closed?
      ensures shouldExit <==>
        && old(session.part.log[session.part.session.pos]).Event?
        && CancelledOnTheWay(old(orders.deliveries.db.State()), c.answer, c.clock.now, c.fault)
      ensures !shouldExit ==> session.part.session == Idle(old(session.part.session.pos) + 1)
      ensures session.part.mark ==
        if shouldExit then old(session.part.mark) else Max(old(session.part.mark), old(session.part.session.pos) + 1)
      ensures session.part.log == old(session.part.log)
    {
      hide RunHandler, CancelledOnTheWay;
      HandleUnfolds(orders.deliveries.db.State(), session.part, c);
      InterruptedIff(orders.deliveries.db.State(), session.part, c.answer, c.clock, c.fault);
      var pos := session.part.session.pos;
      if session.part.log[pos].BadMessage? {
        session.Conclude(pos, Unreadable);
        return false;
      }
      var r := orders.ProcessOrderStatusChange(c);
      if r.Err? && IsContextError(r.error) {
        session.Conclude(pos, Interrupted);
        return true;
      }
      session.Conclude(pos, if r.Err? then Failed(r.error) else Processed);
      return false;
    }

    /** The claim loop over the messages the channel delivers before it, or the session, closes:
        it amounts to the worker's moves for them, and stops early only at an interruption. */
    method ConsumeClaim(session: ClaimSession, cs: seq<Circumstance>) returns (handled: nat)
      requires orders.Ready() && session.part.session.Idle? && session.part.session.pos + |cs| <= |session.part.log|
      modifies session, orders.deliveries.db
      ensures orders.Ready() && handled <= |cs|
      ensures
        var w := Moves(World(old(orders.deliveries.db.State()), [old(session.part)]), Consuming(0, cs[..handled]));
        orders.deliveries.db.State() == w.db && [session.part] == w.parts
      ensures handled < |cs| ==> session.part.session.Closed?
    {
      ghost var start := World(orders.deliveries.db.State(), [session.part]);
      handled := 0;
      var stopped := false;
      while handled < |cs| && !stopped
        invariant handled <= |cs| && orders.Ready()
        invariant stopped <==> session.part.session.Closed?
        invariant !stopped ==> session.part.session == Idle(old(session.part.session.pos) + handled)
        invariant session.part.log == old(session.part.log)
        invariant World(orders.deliveries.db.State(), [session.part]) == Moves(start, Consuming(0, cs[..handled]))
      {
        assert cs[..handled + 1][..handled] == cs[..handled];
        MovesCompose(start, Consuming(0, cs[..handled]), HandleMoves(0, cs[handled]));
        stopped := MessageProcessing(session, cs[handled]);
        handled := handled + 1;
      }
    }
  }

  /** The two halves of a message, in one. */
  lemma HandleUnfolds(db: T.Db, part: Part, c: Circumstance)
    requires part.session.Idle? && part.session.pos < |part.log|
    ensures var pos := part.session.pos;
      var (db', e) := Process(db, c);
      Moves(World(db, [part]), HandleMoves(0, c)) ==
        if part.log[pos].BadMessage? then World(db, [Finish(part, pos, Unreadable)])
        else World(db', [Finish(part, pos, VerdictOf(e))])
    ensures var (db', part') := Execute(db, Read(part, c.answer), c.clock, c.fault);
      Moves(World(db, [part]), HandleMoves(0, c)) == World(db', [part'])
  {
    hide D.Apply;
    var w, moves := World(db, [part]), HandleMoves(0, c);
    var w1 := Next(w, moves[0]);
    var w2 := Next(w1, moves[1]);
    assert moves[1..] == [moves[1]] && Moves(w, moves) == Moves(w1, [moves[1]]) == Moves(w2, []) == w2;
    assert w1 == World(db, [Read(part, c.answer)]);
    assert w2 == World(Execute(db, w1.parts[0], c.clock, c.fault).0, [Execute(db, w1.parts[0], c.clock, c.fault).1]);
  }
}
