/** The two tables, and what each SQL statement does to them. */
module Tables {
  import opened Entities

  /** Rows in insertion order, and the last value drawn from each id sequence. */
  datatype Db = Db(couriers: seq<Courier>, deliveries: seq<Delivery>, courierSeq: nat, deliverySeq: nat)

  const ORDER_ID_LIMIT: nat := 255

  const EMPTY: Db := Db([], [], 0, 0)

  predicate SameTables(a: Db, b: Db) {
    a.couriers == b.couriers && a.deliveries == b.deliveries
  }

  // ----- rows -----

  predicate IsActive(d: Delivery, now: Time) {
    d.deadline >= now
  }

  predicate HasCourier(cs: seq<Courier>, id: int) {
    exists i :: 0 <= i < |cs| && cs[i].id == id
  }

  predicate HasOrder(ds: seq<Delivery>, orderId: string) {
    exists j :: 0 <= j < |ds| && ds[j].orderId == orderId
  }

  predicate HasRow(ds: seq<Delivery>, courierId: int) {
    exists j :: 0 <= j < |ds| && ds[j].courierId == courierId
  }

  predicate HasExpired(ds: seq<Delivery>, courierId: int, now: Time) {
    exists j :: 0 <= j < |ds| && ds[j].courierId == courierId && ds[j].deadline < now
  }

  predicate PhoneTaken(cs: seq<Courier>, phone: string, exceptId: int) {
    exists i :: 0 <= i < |cs| && cs[i].id != exceptId && cs[i].phone == phone
  }

  function CourierRow(cs: seq<Courier>, id: int): (c: Courier)
    requires HasCourier(cs, id)
    ensures c in cs && c.id == id
  {
    var last := cs[|cs| - 1];
    if last.id == id then last else CourierRow(cs[..|cs| - 1], id)
  }

  function OrderRow(ds: seq<Delivery>, orderId: string): (d: Delivery)
    requires HasOrder(ds, orderId)
    ensures d in ds && d.orderId == orderId
  {
    var last := ds[|ds| - 1];
    if last.orderId == orderId then last else OrderRow(ds[..|ds| - 1], orderId)
  }

  // ----- active load -----

  function Counts(d: Delivery, courierId: int, now: Time): nat {
    if d.courierId == courierId && IsActive(d, now) then 1 else 0
  }

  /** The number of a courier's deliveries whose deadline has not passed. */
  function Load(ds: seq<Delivery>, courierId: int, now: Time): nat {
    if ds == [] then 0 else Load(ds[..|ds| - 1], courierId, now) + Counts(ds[|ds| - 1], courierId, now)
  }

  lemma LoadAppend(ds: seq<Delivery>, d: Delivery, courierId: int, now: Time)
    ensures Load(ds + [d], courierId, now) == Load(ds, courierId, now) + Counts(d, courierId, now)
  {
    assert (ds + [d])[..|ds|] == ds;
  }

  // ----- least-loaded selection -----

  /** The order of the assignment query: (active load, id). */
  predicate Precedes(ds: seq<Delivery>, now: Time, a: int, b: int) {
    Load(ds, a, now) < Load(ds, b, now) || (Load(ds, a, now) == Load(ds, b, now) && a <= b)
  }

  predicate AnyAvailable(cs: seq<Courier>) {
    exists i :: 0 <= i < |cs| && cs[i].status == Available
  }

  /** `c` is an available row that no available row precedes. */
  ghost predicate IsLeastLoaded(cs: seq<Courier>, ds: seq<Delivery>, now: Time, c: Courier) {
    && c in cs && c.status == Available
    && forall i :: 0 <= i < |cs| && cs[i].status == Available ==> Precedes(ds, now, c.id, cs[i].id)
  }

  function Pick(cs: seq<Courier>, ds: seq<Delivery>, now: Time): (r: Option<Courier>)
    ensures r.None? <==> !AnyAvailable(cs)
    ensures r.Some? ==> IsLeastLoaded(cs, ds, now, r.value)
  {
    if cs == [] then None
    else
      var last := cs[|cs| - 1];
      var best := Pick(cs[..|cs| - 1], ds, now);
      if last.status != Available then best
      else if best.None? || Precedes(ds, now, last.id, best.value.id) then Some(last)
      else best
  }

  // ----- statements -----

  function InsertDelivery(db: Db, fails: Option<Error>, courierId: int, orderId: string,
                          createdAt: Time, assignedAt: Time, deadline: Time): (Db, Result<Delivery>)
  {
    if fails.Some? then (db, Err(fails.value))
    else
      var drawn := db.(deliverySeq := db.deliverySeq + 1);
      if |orderId| > ORDER_ID_LIMIT then (drawn, Err(ValueTooLong))
      else if HasOrder(db.deliveries, orderId) then (drawn, Err(OrderAlreadyAssigned))
      else if !HasCourier(db.couriers, courierId) then (drawn, Err(ForeignKeyViolation))
      else
        var row := Delivery(drawn.deliverySeq, courierId, orderId, createdAt, assignedAt, deadline);
        (drawn.(deliveries := db.deliveries + [row]), Ok(row))
  }

  function WithoutOrder(ds: seq<Delivery>, orderId: string): seq<Delivery> {
    if ds == [] then []
    else
      var last := ds[|ds| - 1];
      WithoutOrder(ds[..|ds| - 1], orderId) + if last.orderId == orderId then [] else [last]
  }

  lemma {:induction false} WithoutMembers(ds: seq<Delivery>, orderId: string)
    ensures forall d :: d in WithoutOrder(ds, orderId) <==> d in ds && d.orderId != orderId
  {
    if ds == [] {
    } else {
      WithoutMembers(ds[..|ds| - 1], orderId);
      assert ds == ds[..|ds| - 1] + [ds[|ds| - 1]];
    }
  }

  lemma WithoutAppend(ds: seq<Delivery>, d: Delivery, orderId: string)
    ensures WithoutOrder(ds + [d], orderId) ==
      if d.orderId == orderId then WithoutOrder(ds, orderId) else WithoutOrder(ds, orderId) + [d]
  {
    assert (ds + [d])[..|ds|] == ds;
    assert WithoutOrder(ds, orderId) + [] == WithoutOrder(ds, orderId);
  }

  function DeleteDelivery(db: Db, fails: Option<Error>, orderId: string): (Db, Result<()>) {
    if fails.Some? then (db, Err(fails.value))
    else if !HasOrder(db.deliveries, orderId) then (db, Err(DeliveryNotFound))
    else (db.(deliveries := WithoutOrder(db.deliveries, orderId)), Ok(()))
  }

  function InsertCourier(db: Db, fails: Option<Error>, name: string, phone: string,
                         status: Status, transport: Transport, now: Time): (Db, Result<int>)
  {
    if fails.Some? then (db, Err(fails.value))
    else
      var drawn := db.(courierSeq := db.courierSeq + 1);
      if exists i :: 0 <= i < |db.couriers| && db.couriers[i].phone == phone then (drawn, Err(Conflict))
      else
        var row := Courier(drawn.courierSeq, name, phone, status, transport, now, now);
        (drawn.(couriers := db.couriers + [row]), Ok(row.id))
  }

  function OrElse<T>(o: Option<T>, fallback: T): T {
    if o.Some? then o.value else fallback
  }

  /** The SET list of a partial update: present fields, and always updated_at. */
  function Patched(c: Courier, m: CourierModify, now: Time): Courier {
    c.(name := OrElse(m.name, c.name), phone := OrElse(m.phone, c.phone), status := OrElse(m.status, c.status),
       transport := OrElse(m.transport, c.transport), updatedAt := now)
  }

  function UpdateRows(cs: seq<Courier>, id: int, m: CourierModify, now: Time): (r: seq<Courier>)
    ensures |r| == |cs|
    ensures forall i :: 0 <= i < |cs| ==> r[i] == if cs[i].id == id then Patched(cs[i], m, now) else cs[i]
  {
    seq(|cs|, i requires 0 <= i < |cs| => if cs[i].id == id then Patched(cs[i], m, now) else cs[i])
  }

  function UpdateCourierRow(db: Db, fails: Option<Error>, m: CourierModify, now: Time): (Db, Result<Courier>) {
    if fails.Some? then (db, Err(fails.value))
    else if m.id.None? || !HasCourier(db.couriers, m.id.value) then (db, Err(CourierNotFound))
    else if m.phone.Some? && PhoneTaken(db.couriers, m.phone.value, m.id.value) then (db, Err(Conflict))
    else
      (db.(couriers := UpdateRows(db.couriers, m.id.value, m, now)),
       Ok(Patched(CourierRow(db.couriers, m.id.value), m, now)))
  }

  predicate IsStale(c: Courier, ds: seq<Delivery>, now: Time) {
    c.status == Busy && HasExpired(ds, c.id, now)
  }

  function Released(cs: seq<Courier>, ds: seq<Delivery>, now: Time): (r: seq<Courier>)
    ensures |r| == |cs|
    ensures forall i :: 0 <= i < |cs| ==>
      r[i] == if IsStale(cs[i], ds, now) then cs[i].(status := Available, updatedAt := now) else cs[i]
  {
    seq(|cs|, i requires 0 <= i < |cs| =>
      if IsStale(cs[i], ds, now) then cs[i].(status := Available, updatedAt := now) else cs[i])
  }

  function StaleCount(cs: seq<Courier>, ds: seq<Delivery>, now: Time): nat {
    if cs == [] then 0
    else StaleCount(cs[..|cs| - 1], ds, now) + if IsStale(cs[|cs| - 1], ds, now) then 1 else 0
  }

  function ReleaseExpired(db: Db, fails: Option<Error>, now: Time): (Db, Result<nat>) {
    if fails.Some? then (db, Err(fails.value))
    else (db.(couriers := Released(db.couriers, db.deliveries, now)),
          Ok(StaleCount(db.couriers, db.deliveries, now)))
  }
}
