/** The two tables in place, and the repositories' statements on them. */
module Repository {
  import opened Entities
  import opened Tables
  import opened Dispatch
  import opened StoreInvariant
  import opened AssignmentQuery
  import opened Accounting
  import opened CleanupAlgebra

  class Database {
    var couriers: seq<Courier>
    var deliveries: seq<Delivery>
    var courierSeq: nat
    var deliverySeq: nat

    function State(): Db
      reads this
    {
      Db(couriers, deliveries, courierSeq, deliverySeq)
    }

    constructor ()
      ensures State() == EMPTY
    {
      couriers, deliveries, courierSeq, deliverySeq := [], [], 0, 0;
    }

    // ----- delivery repository -----

    /** Every courier with each of its deliveries, or alone: a nested loop. */
    method JoinDeliveries() returns (rows: seq<JoinedRow>)
      ensures rows == LeftJoin(couriers, deliveries)
    {
      rows := [];
      for i := 0 to |couriers|
        invariant rows == LeftJoin(couriers[..i], deliveries)
      {
        var c, matched := couriers[i], [];
        for j := 0 to |deliveries|
          invariant matched == Matches(c, deliveries[..j])
        {
          assert deliveries[..j + 1][..j] == deliveries[..j];
          if deliveries[j].courierId == c.id {
            matched := matched + [JoinedRow(c, Some(deliveries[j]))];
          }
        }
        assert deliveries[..|deliveries|] == deliveries && couriers[..i + 1][..i] == couriers[..i];
        rows := rows + if matched == [] then [JoinedRow(c, None)] else matched;
      }
      assert couriers[..|couriers|] == couriers;
    }

    /** Available couriers only, grouped with their counts in one scan of the joined rows. */
    method GroupAvailable(rows: seq<JoinedRow>, now: Time) returns (groups: seq<Group>)
      ensures groups == GroupById(WhereAvailable(rows), now)
    {
      groups := [];
      for k := 0 to |rows|
        invariant groups == GroupById(WhereAvailable(rows[..k]), now)
      {
        var row := rows[k];
        assert rows[..k + 1][..k] == rows[..k];
        if row.courier.status == Available {
          ghost var kept := WhereAvailable(rows[..k]);
          assert (kept + [row])[..|kept|] == kept;
          groups := CountInGroup(groups, row, now);
        } else {
          assert WhereAvailable(rows[..k + 1]) == WhereAvailable(rows[..k]);
        }
      }
      assert rows[..|rows|] == rows;
    }

    static method CountInGroup(groups: seq<Group>, row: JoinedRow, now: Time) returns (r: seq<Group>)
      ensures r == AddToGroup(groups, row, now)
    {
      r := groups;
      var found := false;
      for g := 0 to |groups|
        invariant |r| == |groups|
        invariant found <==> HasGroup(groups[..g], row.courier.id)
        invariant forall h :: g <= h < |groups| ==> r[h] == groups[h]
        invariant forall h :: 0 <= h < g && groups[h].courier.id == row.courier.id ==>
          r[h] == Counted(groups[h], row, now)
        invariant forall h :: 0 <= h < g && groups[h].courier.id != row.courier.id ==> r[h] == groups[h]
      {
        if groups[g].courier.id == row.courier.id {
          r := r[g := Counted(groups[g], row, now)];
          found := true;
        }
        assert found <==> HasGroup(groups[..g + 1], row.courier.id) by {
          assert groups[..g + 1] == groups[..g] + [groups[g]];
          if HasGroup(groups[..g], row.courier.id) {
            var h :| 0 <= h < g && groups[..g][h].courier.id == row.courier.id;
            assert groups[..g + 1][h].courier.id == row.courier.id;
          }
          if groups[g].courier.id == row.courier.id {
            assert groups[..g + 1][g].courier.id == row.courier.id;
          }
        }
      }
      assert groups[..|groups|] == groups;
      if !found {
        r := r + [Group(row.courier, CountsRow(row, now))];
        assert r == groups + [Group(row.courier, CountsRow(row, now))];
      }
    }

    /** The least-loaded available courier, or the error that there is none. */
    method GetCourierForAssignment(now: Time, fails: Option<Error>) returns (r: Result<Courier>)
      requires CourierIdsUnique(couriers)
      ensures fails.Some? ==> r == Err(fails.value)
      ensures fails.None? && !AnyAvailable(couriers) ==> r == Err(NoAvailableCouriers)
      ensures fails.None? && AnyAvailable(couriers) ==>
        r.Ok? && IsLeastLoaded(couriers, deliveries, now, r.value) && Pick(couriers, deliveries, now) == Some(r.value)
      ensures r.Ok? ==> TakesFewestActive(couriers, deliveries, now, r.value.id)
    {
      if fails.Some? {
        return Err(fails.value);
      }
      var rows := JoinDeliveries();
      var groups := GroupAvailable(rows, now);
      QueryMeaning(couriers, deliveries, now);
      if groups == [] {
        return Err(NoAvailableCouriers);
      }
      var first := FirstInOrder(groups);
      LeastTakesFewest(couriers, deliveries, now, first.courier);
      return Ok(first.courier);
    }

    /** The first group by count, then id. */
    static method FirstInOrder(groups: seq<Group>) returns (first: Group)
      requires groups != []
      ensures IsFirst(groups, first)
    {
      first := groups[0];
      for g := 1 to |groups|
        invariant first in groups
        invariant forall h :: 0 <= h < g ==> Sorts(first, groups[h])
      {
        if !Sorts(first, groups[g]) {
          first := groups[g];
        }
      }
    }

    /** The self-join: an order's courier and the number of that courier's other active deliveries. */
    method GetCourierIDAndDeliveryCount(orderId: string, now: Time, fails: Option<Error>)
      returns (r: Result<(int, nat)>)
      requires OrdersUnique(deliveries)
      ensures fails.Some? ==> r == Err(fails.value)
      ensures fails.None? ==> r == OthersOf(deliveries, orderId, now)
      ensures r.Ok? ==> r.value.1 == |OtherActiveRows(deliveries, orderId, r.value.0, now)|
    {
      if fails.Some? {
        return Err(fails.value);
      }
      for i := 0 to |deliveries|
        invariant forall k :: 0 <= k < i ==> deliveries[k].orderId != orderId
      {
        if deliveries[i].orderId == orderId {
          var id, count := deliveries[i].courierId, 0;
          for j := 0 to |deliveries|
            invariant count == Load(WithoutOrder(deliveries[..j], orderId), id, now)
          {
            assert deliveries[..j + 1][..j] == deliveries[..j];
            LoadAppend(WithoutOrder(deliveries[..j], orderId), deliveries[j], id, now);
            if deliveries[j].courierId == id && deliveries[j].orderId != orderId && IsActive(deliveries[j], now) {
              count := count + 1;
            }
            assert WithoutOrder(deliveries[..j], orderId) + [] == WithoutOrder(deliveries[..j], orderId);
          }
          assert deliveries[..|deliveries|] == deliveries;
          OrderRowIsUnique(deliveries, OrderRow(deliveries, orderId), deliveries[i]);
          OthersIsCardinality(deliveries, orderId, id, now);
          return Ok((id, count));
        }
      }
      return Err(DeliveryNotFound);
    }

    method GetCourierIDByOrderID(orderId: string, fails: Option<Error>) returns (r: Result<int>)
      requires OrdersUnique(deliveries)
      ensures fails.Some? ==> r == Err(fails.value)
      ensures fails.None? ==>
        r == if HasOrder(deliveries, orderId) then Ok(OrderRow(deliveries, orderId).courierId)
             else Err(DeliveryNotFound)
    {
      if fails.Some? {
        return Err(fails.value);
      }
      for i := 0 to |deliveries|
        invariant forall k :: 0 <= k < i ==> deliveries[k].orderId != orderId
      {
        if deliveries[i].orderId == orderId {
          OrderRowIsUnique(deliveries, OrderRow(deliveries, orderId), deliveries[i]);
          return Ok(deliveries[i].courierId);
        }
      }
      return Err(DeliveryNotFound);
    }

    /** Appends a delivery; the unique index and the foreign key are checked row by row. */
    method CreateDelivery(fails: Option<Error>, courierId: int, orderId: string,
                          createdAt: Time, assignedAt: Time, deadline: Time) returns (r: Result<Delivery>)
      modifies this
      ensures (State(), r) == InsertDelivery(old(State()), fails, courierId, orderId, createdAt, assignedAt, deadline)
    {
      if fails.Some? {
        return Err(fails.value);
      }
      deliverySeq := deliverySeq + 1;
      if |orderId| > ORDER_ID_LIMIT {
        return Err(ValueTooLong);
      }
      for j := 0 to |deliveries|
        invariant State() == old(State()).(deliverySeq := old(deliverySeq) + 1)
        invariant forall k :: 0 <= k < j ==> deliveries[k].orderId != orderId
      {
        if deliveries[j].orderId == orderId {
          return Err(OrderAlreadyAssigned);
        }
      }
      var referenced := false;
      for i := 0 to |couriers|
        invariant State() == old(State()).(deliverySeq := old(deliverySeq) + 1)
        invariant referenced <==> exists k :: 0 <= k < i && couriers[k].id == courierId
      {
        if couriers[i].id == courierId {
          referenced := true;
        }
      }
      if !referenced {
        return Err(ForeignKeyViolation);
      }
      var row := Delivery(deliverySeq, courierId, orderId, createdAt, assignedAt, deadline);
      deliveries := deliveries + [row];
      return Ok(row);
    }

    /** Deletes an order's rows; no affected row is "not found". */
    method Delete(fails: Option<Error>, orderId: string) returns (r: Result<()>)
      modifies this
      ensures (State(), r) == DeleteDelivery(old(State()), fails, orderId)
    {
      if fails.Some? {
        return Err(fails.value);
      }
      var kept, affected := RowsWithout(orderId);
      if affected == 0 {
        return Err(DeliveryNotFound);
      }
      deliveries := kept;
      return Ok(());
    }

    /** The rows a deletion keeps, and how many it does not. */
    method RowsWithout(orderId: string) returns (kept: seq<Delivery>, affected: nat)
      ensures kept == WithoutOrder(deliveries, orderId)
      ensures |kept| + affected == |deliveries|
      ensures affected == 0 <==> !HasOrder(deliveries, orderId)
    {
      kept, affected := [], 0;
      assert WithoutOrder(deliveries[..0], orderId) == [];
      hide WithoutOrder;
      for j := 0 to |deliveries|
        invariant kept == WithoutOrder(deliveries[..j], orderId)
        invariant |kept| + affected == j
        invariant affected > 0 ==> HasOrder(deliveries, orderId)
        invariant affected == 0 ==> forall k :: 0 <= k < j ==> deliveries[k].orderId != orderId
      {
        assert deliveries[..j + 1] == deliveries[..j] + [deliveries[j]];
        WithoutAppend(deliveries[..j], deliveries[j], orderId);
        if deliveries[j].orderId == orderId {
          affected := affected + 1;
          assert HasOrder(deliveries, orderId);
        } else {
          kept := kept + [deliveries[j]];
        }
      }
      assert deliveries[..|deliveries|] == deliveries;
    }

    /** Releases every busy courier with an expired delivery; the number of affected rows. */
    method UpdateCouriersAvailableWhereDeadlineExpired(now: Time, fails: Option<Error>) returns (r: Result<nat>)
      modifies this
      ensures (State(), r) == ReleaseExpired(old(State()), fails, now)
      ensures r.Ok? ==> OverdueReleased(old(State()), State(), now) && r.value == |Overdue(old(State()), now)|
    {
      if fails.Some? {
        return Err(fails.value);
      }
      ghost var before := couriers;
      var affected := 0;
      for i := 0 to |couriers|
        invariant |couriers| == |before|
        invariant State() == old(State()).(couriers := couriers)
        invariant forall k :: i <= k < |before| ==> couriers[k] == before[k]
        invariant forall k :: 0 <= k < i ==> couriers[k] == Released(before, deliveries, now)[k]
        invariant affected == StaleCount(before[..i], deliveries, now)
      {
        var expired := HasExpiredRow(couriers[i].id, now);
        assert before[..i + 1][..i] == before[..i];
        assert before[..i + 1][i] == before[i];
        if couriers[i].status == Busy && expired {
          couriers := couriers[i := couriers[i].(status := Available, updatedAt := now)];
          affected := affected + 1;
        }
      }
      assert before[..|before|] == before && couriers == Released(before, deliveries, now);
      CleanupReleasesOverdue(old(State()), now, NoFault);
      return Ok(affected);
    }

    method HasExpiredRow(courierId: int, now: Time) returns (b: bool)
      ensures b == HasExpired(deliveries, courierId, now)
    {
      for j := 0 to |deliveries|
        invariant forall k :: 0 <= k < j ==> !(deliveries[k].courierId == courierId && deliveries[k].deadline < now)
      {
        if deliveries[j].courierId == courierId && deliveries[j].deadline < now {
          return true;
        }
      }
      return false;
    }

    // ----- courier repository -----

    method Create(fails: Option<Error>, name: string, phone: string, status: Status, transport: Transport, now: Time)
      returns (r: Result<int>)
      modifies this
      ensures (State(), r) == InsertCourier(old(State()), fails, name, phone, status, transport, now)
    {
      if fails.Some? {
        return Err(fails.value);
      }
      courierSeq := courierSeq + 1;
      for i := 0 to |couriers|
        invariant State() == old(State()).(courierSeq := old(courierSeq) + 1)
        invariant forall k :: 0 <= k < i ==> couriers[k].phone != phone
      {
        if couriers[i].phone == phone {
          return Err(Conflict);
        }
      }
      couriers := couriers + [Courier(courierSeq, name, phone, status, transport, now, now)];
      return Ok(courierSeq);
    }

    /** The row a partial update writes, one SET clause at a time. */
    static method BuildRow(c: Courier, m: CourierModify, now: Time) returns (row: Courier)
      ensures row == Patched(c, m, now)
    {
      row := c;
      if m.name.Some? {
        row := row.(name := m.name.value);
      }
      if m.phone.Some? {
        row := row.(phone := m.phone.value);
      }
      if m.status.Some? {
        row := row.(status := m.status.value);
      }
      if m.transport.Some? {
        row := row.(transport := m.transport.value);
      }
      row := row.(updatedAt := now);
    }

    method Update(fails: Option<Error>, m: CourierModify, now: Time) returns (r: Result<Courier>)
      requires CourierIdsUnique(couriers)
      modifies this
      ensures (State(), r) == UpdateCourierRow(old(State()), fails, m, now)
    {
      if fails.Some? {
        return Err(fails.value);
      }
      if m.id.None? {
        return Err(CourierNotFound);
      }
      var target: nat := |couriers|;
      var taken := false;
      for i := 0 to |couriers|
        invariant State() == old(State())
        invariant target == |couriers| || (target < i && couriers[target].id == m.id.value)
        invariant target == |couriers| ==> forall k :: 0 <= k < i ==> couriers[k].id != m.id.value
        invariant taken <==> m.phone.Some? && exists k ::
          0 <= k < i && couriers[k].id != m.id.value && couriers[k].phone == m.phone.value
      {
        if couriers[i].id == m.id.value {
          target := i;
        } else if m.phone.Some? && couriers[i].phone == m.phone.value {
          taken := true;
        }
      }
      if target == |couriers| {
        return Err(CourierNotFound);
      }
      if taken {
        return Err(Conflict);
      }
      var row := BuildRow(couriers[target], m, now);
      RowIsUnique(couriers, CourierRow(couriers, m.id.value), couriers[target]);
      assert UpdateRows(couriers, m.id.value, m, now) == couriers[target := row];
      couriers := couriers[target := row];
      return Ok(row);
    }
  }
}
