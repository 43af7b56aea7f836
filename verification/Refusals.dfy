/** Which error each refused operation returns. */
module Refusals {
  import opened Entities
  import opened Validators
  import opened Tables
  import opened Dispatch
  import opened Outcomes
  import opened StoreInvariant

  predicate AllPresent(m: CourierModify) {
    m.name.Some? && m.phone.Some? && m.status.Some? && m.transport.Some?
  }

  predicate NonePresent(m: CourierModify) {
    m.name.None? && m.phone.None? && m.status.None? && m.transport.None?
  }

  /** The first present field that is refused, in the order name, phone, status, transport. */
  ghost predicate FirstRefused(m: CourierModify, e: Error) {
    var badName := m.name.Some? && forall i :: 0 <= i < |m.name.value| ==> IsSpace(m.name.value[i]);
    var badPhone := m.phone.Some? && !SpellsPhone(m.phone.value);
    var badStatus := m.status.Some? && m.status.value !in {Available, Busy, Paused};
    var badTransport := m.transport.Some? && m.transport.value !in {OnFoot, Scooter, Car};
    || (e == InvalidName && badName)
    || (e == InvalidPhone && !badName && badPhone)
    || (e == InvalidStatus && !badName && !badPhone && badStatus)
    || (e == InvalidTransport && !badName && !badPhone && !badStatus && badTransport)
  }

  /** Every present field is acceptable. */
  ghost predicate Acceptable(m: CourierModify) {
    forall e :: !FirstRefused(m, e)
  }

  lemma ModifyErrorMeaning(m: CourierModify)
    ensures NonePresent(m) ==> ModifyError(m) == Some(MissingRequiredFields)
    ensures !NonePresent(m) ==> (ModifyError(m).None? <==> Acceptable(m))
    ensures forall e :: FirstRefused(m, e) ==> ModifyError(m) == Some(e)
  {
    hide SpellsPhone, TrimSpace, IsSpace;
    if m.name.Some? { BlankIffAllSpaces(m.name.value); }
    if m.phone.Some? { PhoneIffSpelled(m.phone.value); }
    if ModifyError(m).Some? && !NonePresent(m) {
      assert FirstRefused(m, ModifyError(m).value);
    }
  }

  /** Creating a courier: a missing field is reported first, then the first refused field, then a failing
      statement, then a stored row with the same phone. */
  lemma CreateRefusals(db: Db, m: CourierModify, now: Time, fails: Option<Error>)
    ensures var (db', r) := CreateCourier(db, m, now, fails);
      && (!AllPresent(m) ==> r == Err(MissingRequiredFields))
      && (AllPresent(m) ==> forall e :: FirstRefused(m, e) ==> r == Err(e))
      && (AllPresent(m) && Acceptable(m) ==>
            if fails.Some? then r == Err(fails.value)
            else if exists i :: 0 <= i < |db.couriers| && db.couriers[i].phone == m.phone.value then r == Err(Conflict)
            else r.Ok?)
      && (r.Err? ==> SameTables(db, db'))
  {
    hide FirstRefused, Acceptable;
    ModifyErrorMeaning(m);
  }

  ghost predicate PhoneOfOther(cs: seq<Courier>, id: int, phone: string) {
    exists i :: 0 <= i < |cs| && cs[i].id != id && cs[i].phone == phone
  }

  /** Updating one: no field at all, the first refused field, a failing statement, no such row, and then
      another row with the new phone. */
  lemma UpdateRefusals(db: Db, m: CourierModify, now: Time, fails: Option<Error>)
    ensures var (db', r) := UpdateCourier(db, m, now, fails);
      && (NonePresent(m) ==> r == Err(MissingRequiredFields))
      && (forall e :: FirstRefused(m, e) ==> r == Err(e))
      && (!NonePresent(m) && Acceptable(m) ==>
            if fails.Some? then r == Err(fails.value)
            else if m.id.None? || forall i :: 0 <= i < |db.couriers| ==> db.couriers[i].id != m.id.value
            then r == Err(CourierNotFound)
            else if m.phone.Some? && PhoneOfOther(db.couriers, m.id.value, m.phone.value) then r == Err(Conflict)
            else r.Ok?)
      && (r.Err? ==> db' == db)
  {
    hide FirstRefused, Acceptable;
    ModifyErrorMeaning(m);
  }

  /** Completing an order: a blank order id, then an order without a row; nothing else is refused. */
  lemma CompleteRefusals(db: Db, orderId: string, now: Time)
    requires Valid(db)
    ensures var r := Complete(db, orderId, now, NoFault).1;
      && (r == Err(InvalidOrderId) <==> forall i :: 0 <= i < |orderId| ==> IsSpace(orderId[i]))
      && (r == Err(DeliveryNotFound) <==>
            && (exists i :: 0 <= i < |orderId| && !IsSpace(orderId[i]))
            && forall j :: 0 <= j < |db.deliveries| ==> db.deliveries[j].orderId != orderId)
      && (r.Err? ==> r.error in {InvalidOrderId, DeliveryNotFound})
  {
    hide TrimSpace;
    BlankIffAllSpaces(orderId);
    CompleteOutcome(db, orderId, now, NoFault);
    if HasOrder(db.deliveries, orderId) { RowHasCourier(db, orderId); }
  }
}
