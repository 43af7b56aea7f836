/** Partial updates of one courier compose and commute. */
module PartialUpdates {
  import opened Entities
  import opened Validators
  import opened Tables
  import opened Dispatch
  import opened StoreInvariant

  function Either<T>(second: Option<T>, first: Option<T>): Option<T> {
    if second.Some? then second else first
  }

  /** The fields of `second` override those of `first`. */
  function Merge(first: CourierModify, second: CourierModify): CourierModify {
    CourierModify(second.id, Either(second.name, first.name), Either(second.phone, first.phone),
                  Either(second.status, first.status), Either(second.transport, first.transport))
  }

  predicate Disjoint(a: CourierModify, b: CourierModify) {
    && (a.name.None? || b.name.None?) && (a.phone.None? || b.phone.None?)
    && (a.status.None? || b.status.None?) && (a.transport.None? || b.transport.None?)
  }

  predicate CanUpdate(cs: seq<Courier>, m: CourierModify) {
    && m.id.Some? && HasCourier(cs, m.id.value)
    && (m.phone.Some? ==> !PhoneTaken(cs, m.phone.value, m.id.value))
  }

  lemma UpdateOutcome(db: Db, m: CourierModify, now: Time)
    ensures var (db', r) := UpdateCourier(db, m, now, None);
      && (r.Ok? <==> ModifyError(m).None? && CanUpdate(db.couriers, m))
      && (r.Ok? ==> db' == db.(couriers := UpdateRows(db.couriers, m.id.value, m, now)))
      && (r.Err? ==> db' == db)
  {
  }

  /** `after` has the fields present in `m`, and otherwise those of `before`, but for updated_at. */
  predicate FieldsSet(before: Courier, after: Courier, m: CourierModify, now: Time) {
    && after.id == before.id && after.createdAt == before.createdAt && after.updatedAt == now
    && (if m.name.Some? then after.name == m.name.value else after.name == before.name)
    && (if m.phone.Some? then after.phone == m.phone.value else after.phone == before.phone)
    && (if m.status.Some? then after.status == m.status.value else after.status == before.status)
    && (if m.transport.Some? then after.transport == m.transport.value else after.transport == before.transport)
  }

  /** An update succeeds exactly when its fields are valid, its row exists and no other courier has
      its phone; it then sets the present fields of that row, returns it, and changes nothing else. */
  lemma UpdateSetsFields(db: Db, m: CourierModify, now: Time)
    requires Valid(db)
    ensures var (db', r) := UpdateCourier(db, m, now, None);
      && (r.Ok? <==> ModifyError(m).None? && CanUpdate(db.couriers, m))
      && (r.Err? ==> db' == db)
      && (r.Ok? ==>
          && db'.deliveries == db.deliveries && |db'.couriers| == |db.couriers|
          && (forall i :: 0 <= i < |db.couriers| && db.couriers[i].id == m.id.value ==>
                FieldsSet(db.couriers[i], db'.couriers[i], m, now) && r.value == db'.couriers[i])
          && (forall i :: 0 <= i < |db.couriers| && db.couriers[i].id != m.id.value ==>
                db'.couriers[i] == db.couriers[i]))
  {
    hide IsValidName, IsValidPhone;
    UpdateOutcome(db, m, now);
    if ModifyError(m).None? && CanUpdate(db.couriers, m) {
      var c := CourierRow(db.couriers, m.id.value);
      forall i | 0 <= i < |db.couriers| && db.couriers[i].id == m.id.value ensures db.couriers[i] == c {
        RowIsUnique(db.couriers, db.couriers[i], c);
      }
    }
  }

  lemma MergeIsValid(first: CourierModify, second: CourierModify)
    requires ModifyError(first).None? && ModifyError(second).None?
    ensures ModifyError(Merge(first, second)).None?
  {
  }

  /** An update of one row leaves the phones of the others as they were. */
  lemma OtherPhonesStay(cs: seq<Courier>, id: int, m: CourierModify, now: Time, phone: string)
    ensures PhoneTaken(UpdateRows(cs, id, m, now), phone, id) == PhoneTaken(cs, phone, id)
    ensures HasCourier(UpdateRows(cs, id, m, now), id) == HasCourier(cs, id)
  {
  }

  /** Two updates in a row that both succeed are one, with the second's fields overriding the first's. */
  lemma UpdatesCompose(db: Db, first: CourierModify, second: CourierModify, t1: Time, t2: Time)
    requires first.id == second.id
    requires UpdateCourier(db, first, t1, None).1.Ok?
    requires UpdateCourier(UpdateCourier(db, first, t1, None).0, second, t2, None).1.Ok?
    ensures var db2 := UpdateCourier(UpdateCourier(db, first, t1, None).0, second, t2, None).0;
      var (once, r) := UpdateCourier(db, Merge(first, second), t2, None);
      r.Ok? && once == db2
  {
    var id, m := first.id.value, Merge(first, second);
    var db1 := UpdateCourier(db, first, t1, None).0;
    UpdateOutcome(db, first, t1);
    UpdateOutcome(db1, second, t2);
    UpdateOutcome(db, m, t2);
    MergeIsValid(first, second);
    if m.phone.Some? {
      OtherPhonesStay(db.couriers, id, first, t1, m.phone.value);
    }
    assert UpdateRows(db.couriers, id, m, t2) == UpdateRows(db1.couriers, id, second, t2);
  }

  /** Updates of disjoint fields commute: if one order succeeds so does the other, with the same table. */
  lemma UpdatesCommute(db: Db, a: CourierModify, b: CourierModify, t1: Time, t2: Time)
    requires a.id == b.id && Disjoint(a, b)
    requires UpdateCourier(db, a, t1, None).1.Ok?
    requires UpdateCourier(UpdateCourier(db, a, t1, None).0, b, t2, None).1.Ok?
    ensures var ab := UpdateCourier(UpdateCourier(db, a, t1, None).0, b, t2, None).0;
      var (dbB, rB) := UpdateCourier(db, b, t1, None);
      var (ba, r) := UpdateCourier(dbB, a, t2, None);
      rB.Ok? && r.Ok? && ba == ab
  {
    var id := a.id.value;
    var dbA, dbB := UpdateCourier(db, a, t1, None).0, UpdateCourier(db, b, t1, None).0;
    UpdateOutcome(db, a, t1);
    UpdateOutcome(dbA, b, t2);
    UpdateOutcome(db, b, t1);
    UpdateOutcome(dbB, a, t2);
    OtherPhonesStay(db.couriers, id, a, t1, OrElse(b.phone, ""));
    OtherPhonesStay(db.couriers, id, b, t1, OrElse(a.phone, ""));
    assert UpdateRows(dbB.couriers, id, a, t2) == UpdateRows(dbA.couriers, id, b, t2);
  }
}
