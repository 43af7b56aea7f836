/** The least-loaded query as the relational pipeline it is written as, and what it means. */
module AssignmentQuery {
  import opened Entities
  import opened Tables
  import opened StoreInvariant

  datatype JoinedRow = JoinedRow(courier: Courier, delivery: Option<Delivery>)

  datatype Group = Group(courier: Courier, active: nat)

  // ----- couriers joined with their deliveries -----

  function Matches(c: Courier, ds: seq<Delivery>): seq<JoinedRow> {
    if ds == [] then []
    else
      var last := ds[|ds| - 1];
      Matches(c, ds[..|ds| - 1]) + if last.courierId == c.id then [JoinedRow(c, Some(last))] else []
  }

  function JoinOne(c: Courier, ds: seq<Delivery>): seq<JoinedRow> {
    if Matches(c, ds) == [] then [JoinedRow(c, None)] else Matches(c, ds)
  }

  function LeftJoin(cs: seq<Courier>, ds: seq<Delivery>): seq<JoinedRow> {
    if cs == [] then [] else LeftJoin(cs[..|cs| - 1], ds) + JoinOne(cs[|cs| - 1], ds)
  }

  // ----- available couriers only -----

  function WhereAvailable(rows: seq<JoinedRow>): seq<JoinedRow> {
    if rows == [] then []
    else
      var last := rows[|rows| - 1];
      WhereAvailable(rows[..|rows| - 1]) + if last.courier.status == Available then [last] else []
  }

  // ----- one group a courier, counting active deliveries -----

  function CountsRow(row: JoinedRow, now: Time): nat {
    if row.delivery.Some? && IsActive(row.delivery.value, now) then 1 else 0
  }

  predicate HasGroup(groups: seq<Group>, id: int) {
    exists g :: 0 <= g < |groups| && groups[g].courier.id == id
  }

  function Counted(group: Group, row: JoinedRow, now: Time): Group {
    group.(active := group.active + CountsRow(row, now))
  }

  function AddToGroup(groups: seq<Group>, row: JoinedRow, now: Time): (r: seq<Group>)
    ensures HasGroup(groups, row.courier.id) ==> |r| == |groups| && forall g :: 0 <= g < |groups| ==>
      r[g] == if groups[g].courier.id == row.courier.id then Counted(groups[g], row, now) else groups[g]
    ensures !HasGroup(groups, row.courier.id) ==> r == groups + [Group(row.courier, CountsRow(row, now))]
  {
    if HasGroup(groups, row.courier.id)
    then seq(|groups|, g requires 0 <= g < |groups| =>
      if groups[g].courier.id == row.courier.id then Counted(groups[g], row, now) else groups[g])
    else groups + [Group(row.courier, CountsRow(row, now))]
  }

  function GroupById(rows: seq<JoinedRow>, now: Time): seq<Group> {
    if rows == [] then [] else AddToGroup(GroupById(rows[..|rows| - 1], now), rows[|rows| - 1], now)
  }

  // ----- the first group -----

  predicate Sorts(a: Group, b: Group) {
    a.active < b.active || (a.active == b.active && a.courier.id <= b.courier.id)
  }

  ghost predicate IsFirst(groups: seq<Group>, first: Group) {
    first in groups && forall g :: 0 <= g < |groups| ==> Sorts(first, groups[g])
  }

  // ----- meaning -----

  function CountRows(rows: seq<JoinedRow>, id: int, now: Time): nat {
    if rows == [] then 0
    else
      var last := rows[|rows| - 1];
      CountRows(rows[..|rows| - 1], id, now) + if last.courier.id == id then CountsRow(last, now) else 0
  }

  predicate HasJoined(rows: seq<JoinedRow>, id: int) {
    exists k :: 0 <= k < |rows| && rows[k].courier.id == id
  }

  /** Every group counts the rows of its id, and every id in the rows has a group. */
  ghost predicate Groups(groups: seq<Group>, rows: seq<JoinedRow>, now: Time) {
    && (forall g :: 0 <= g < |groups| ==>
          (exists k :: 0 <= k < |rows| && rows[k].courier == groups[g].courier)
          && groups[g].active == CountRows(rows, groups[g].courier.id, now))
    && (forall id :: HasJoined(rows, id) ==> HasGroup(groups, id))
  }

  lemma {:induction false} GroupsCount(rows: seq<JoinedRow>, now: Time)
    ensures Groups(GroupById(rows, now), rows, now)
  {
    if rows == [] {
    } else {
      hide AddToGroup, Groups;
      var init, row := rows[..|rows| - 1], rows[|rows| - 1];
      assert rows == init + [row];
      GroupsCount(init, now);
      OneMoreRow(GroupById(init, now), init, row, now);
    }
  }

  /** Adding a row to its group, or as a new group, keeps every group's count. */
  lemma OneMoreRow(before: seq<Group>, init: seq<JoinedRow>, row: JoinedRow, now: Time)
    requires Groups(before, init, now)
    ensures Groups(AddToGroup(before, row, now), init + [row], now)
  {
    var groups, rows := AddToGroup(before, row, now), init + [row];
    assert rows[..|init|] == init && rows[|init|] == row;
    forall g | 0 <= g < |groups|
      ensures exists k :: 0 <= k < |rows| && rows[k].courier == groups[g].courier
      ensures groups[g].active == CountRows(rows, groups[g].courier.id, now)
    {
      if g < |before| {
        var k :| 0 <= k < |init| && init[k].courier == before[g].courier;
        assert rows[k].courier == groups[g].courier;
      } else {
        NothingJoinedCountsZero(init, row.courier.id, now);
      }
    }
    forall id | HasJoined(rows, id) ensures HasGroup(groups, id) {
      if HasJoined(init, id) {
        var g :| 0 <= g < |before| && before[g].courier.id == id;
        assert groups[g].courier.id == id;
      } else {
        assert groups[|before|].courier.id == id;
      }
    }
  }

  lemma {:induction false} NothingJoinedCountsZero(rows: seq<JoinedRow>, id: int, now: Time)
    ensures !HasJoined(rows, id) ==> CountRows(rows, id, now) == 0
  {
    if rows == [] {
    } else {
      NothingJoinedCountsZero(rows[..|rows| - 1], id, now);
      assert HasJoined(rows[..|rows| - 1], id) ==> HasJoined(rows, id);
    }
  }

  lemma {:induction false} CountRowsAdds(a: seq<JoinedRow>, b: seq<JoinedRow>, id: int, now: Time)
    ensures CountRows(a + b, id, now) == CountRows(a, id, now) + CountRows(b, id, now)
  {
    if b == [] {
      assert a + b == a;
    } else {
      assert (a + b)[..|a + b| - 1] == a + b[..|b| - 1];
      CountRowsAdds(a, b[..|b| - 1], id, now);
    }
  }

  lemma CountRowsAppend(rows: seq<JoinedRow>, row: JoinedRow, id: int, now: Time)
    ensures CountRows(rows + [row], id, now) ==
      CountRows(rows, id, now) + if row.courier.id == id then CountsRow(row, now) else 0
  {
  }

  lemma {:induction false} MatchesOfOne(c: Courier, ds: seq<Delivery>)
    ensures forall k :: 0 <= k < |Matches(c, ds)| ==> Matches(c, ds)[k].courier == c
  {
    if ds == [] {
    } else {
      MatchesOfOne(c, ds[..|ds| - 1]);
    }
  }

  lemma {:induction false} MatchesCount(c: Courier, ds: seq<Delivery>, id: int, now: Time)
    ensures CountRows(Matches(c, ds), id, now) == if id == c.id then Load(ds, id, now) else 0
  {
    if ds == [] {
    } else {
      var before, last := Matches(c, ds[..|ds| - 1]), ds[|ds| - 1];
      MatchesCount(c, ds[..|ds| - 1], id, now);
      CountRowsAppend(before, JoinedRow(c, Some(last)), id, now);
      assert Matches(c, ds) == if last.courierId == c.id then before + [JoinedRow(c, Some(last))] else before;
    }
  }

  lemma {:induction false} WhereAdds(a: seq<JoinedRow>, b: seq<JoinedRow>)
    ensures WhereAvailable(a + b) == WhereAvailable(a) + WhereAvailable(b)
  {
    if b == [] {
      assert a + b == a;
    } else {
      assert (a + b)[..|a + b| - 1] == a + b[..|b| - 1];
      WhereAdds(a, b[..|b| - 1]);
    }
  }

  lemma {:induction false} WhereOneCourier(rows: seq<JoinedRow>, c: Courier)
    requires forall k :: 0 <= k < |rows| ==> rows[k].courier == c
    ensures WhereAvailable(rows) == if c.status == Available then rows else []
  {
    if rows == [] {
    } else {
      WhereOneCourier(rows[..|rows| - 1], c);
      assert rows == rows[..|rows| - 1] + [rows[|rows| - 1]];
    }
  }

  /** The filtered join: its rows' couriers are the available rows, each with its load. */
  ghost predicate Joins(rows: seq<JoinedRow>, cs: seq<Courier>, ds: seq<Delivery>, now: Time) {
    && (forall k :: 0 <= k < |rows| ==> rows[k].courier in cs && rows[k].courier.status == Available)
    && (forall i :: 0 <= i < |cs| && cs[i].status == Available ==>
          HasJoined(rows, cs[i].id) && CountRows(rows, cs[i].id, now) == Load(ds, cs[i].id, now))
    && (forall id :: !HasCourier(cs, id) ==> CountRows(rows, id, now) == 0)
  }

  lemma {:induction false} JoinMeaning(cs: seq<Courier>, ds: seq<Delivery>, now: Time)
    requires CourierIdsUnique(cs)
    ensures Joins(WhereAvailable(LeftJoin(cs, ds)), cs, ds, now)
  {
    if cs == [] {
    } else {
      hide Joins;
      var init, c := cs[..|cs| - 1], cs[|cs| - 1];
      JoinMeaning(init, ds, now);
      JoinStep(WhereAvailable(LeftJoin(init, ds)), init, c, ds, now);
      WhereAdds(LeftJoin(init, ds), JoinOne(c, ds));
      assert cs == init + [c];
    }
  }

  lemma JoinOneCounts(c: Courier, ds: seq<Delivery>, id: int, now: Time)
    ensures CountRows(JoinOne(c, ds), id, now) == if id == c.id then Load(ds, id, now) else 0
    ensures JoinOne(c, ds) != [] && forall k :: 0 <= k < |JoinOne(c, ds)| ==> JoinOne(c, ds)[k].courier == c
  {
    MatchesOfOne(c, ds);
    MatchesCount(c, ds, id, now);
    CountRowsAppend([], JoinedRow(c, None), id, now);
    assert [] + [JoinedRow(c, None)] == [JoinedRow(c, None)];
  }

  /** One more courier adds its load to the counts of its own id only. */
  lemma JoinCounts(rows: seq<JoinedRow>, c: Courier, ds: seq<Delivery>, id: int, now: Time)
    ensures var one := WhereAvailable(JoinOne(c, ds));
      && CountRows(rows + one, id, now) ==
         CountRows(rows, id, now) + (if id == c.id && c.status == Available then Load(ds, id, now) else 0)
      && (c.status == Available ==> HasJoined(rows + one, c.id))
      && (forall k :: 0 <= k < |one| ==> one[k].courier == c && c.status == Available)
  {
    hide JoinOne, WhereAvailable;
    JoinOneCounts(c, ds, id, now);
    WhereOneCourier(JoinOne(c, ds), c);
    CountRowsAdds(rows, WhereAvailable(JoinOne(c, ds)), id, now);
    if c.status == Available {
      assert (rows + JoinOne(c, ds))[|rows|].courier.id == c.id;
    }
  }

  lemma JoinStep(rows: seq<JoinedRow>, init: seq<Courier>, c: Courier, ds: seq<Delivery>, now: Time)
    requires Joins(rows, init, ds, now) && CourierIdsUnique(init + [c])
    ensures Joins(rows + WhereAvailable(JoinOne(c, ds)), init + [c], ds, now)
  {
    hide WhereAvailable, JoinOne;
    var cs, all := init + [c], rows + WhereAvailable(JoinOne(c, ds));
    assert cs[|init|] == c;
    assert !HasCourier(init, c.id) by {
      assert forall i :: 0 <= i < |init| ==> cs[i] == init[i];
    }
    JoinCounts(rows, c, ds, c.id, now);
    forall i | 0 <= i < |init| && cs[i].status == Available
      ensures HasJoined(all, cs[i].id) && CountRows(all, cs[i].id, now) == Load(ds, cs[i].id, now)
    {
      assert cs[i] == init[i];
      JoinCounts(rows, c, ds, cs[i].id, now);
      var k :| 0 <= k < |rows| && rows[k].courier.id == init[i].id;
      assert all[k].courier.id == cs[i].id;
    }
    forall id | !HasCourier(cs, id) ensures CountRows(all, id, now) == 0 {
      JoinCounts(rows, c, ds, id, now);
      forall i | 0 <= i < |init| ensures init[i].id != id {
        assert cs[i].id != id;
      }
    }
  }

  /** The query's meaning: no group exactly when no courier is available; otherwise the first group
      in the query's order is the available courier that is least in (active load, id). */
  lemma QueryMeaning(cs: seq<Courier>, ds: seq<Delivery>, now: Time)
    requires CourierIdsUnique(cs)
    ensures var groups := GroupById(WhereAvailable(LeftJoin(cs, ds)), now);
      && (groups == [] <==> !AnyAvailable(cs))
      && forall first :: IsFirst(groups, first) ==>
           IsLeastLoaded(cs, ds, now, first.courier) && Pick(cs, ds, now) == Some(first.courier)
  {
    var rows := WhereAvailable(LeftJoin(cs, ds));
    var groups := GroupById(rows, now);
    JoinMeaning(cs, ds, now);
    GroupsCount(rows, now);
    if AnyAvailable(cs) {
      var i :| 0 <= i < |cs| && cs[i].status == Available;
      assert HasJoined(rows, cs[i].id);
    }
    forall first | IsFirst(groups, first)
      ensures IsLeastLoaded(cs, ds, now, first.courier) && Pick(cs, ds, now) == Some(first.courier)
    {
      FirstIsLeast(cs, ds, now, rows, groups, first);
      LeastIsUnique(cs, ds, now, first.courier, Pick(cs, ds, now).value);
    }
  }

  lemma FirstIsLeast(cs: seq<Courier>, ds: seq<Delivery>, now: Time,
                     rows: seq<JoinedRow>, groups: seq<Group>, first: Group)
    requires Joins(rows, cs, ds, now) && Groups(groups, rows, now) && IsFirst(groups, first)
    ensures IsLeastLoaded(cs, ds, now, first.courier)
  {
  }

  lemma LeastIsUnique(cs: seq<Courier>, ds: seq<Delivery>, now: Time, a: Courier, b: Courier)
    requires CourierIdsUnique(cs) && IsLeastLoaded(cs, ds, now, a) && IsLeastLoaded(cs, ds, now, b)
    ensures a == b
  {
  }
}
