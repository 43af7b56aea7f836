/** Phones are unique as typed. When they are also unique as trimmed. */
module TrimmedPhones {
  import opened Entities
  import opened Validators
  import opened Tables
  import opened Dispatch
  import opened Outcomes
  import opened StoreInvariant

  ghost predicate TrimmedUnique(cs: seq<Courier>) {
    forall i, j :: 0 <= i < j < |cs| ==> TrimSpace(cs[i].phone) != TrimSpace(cs[j].phone)
  }

  /** Some row other than `exceptId` has this phone, spaces around it aside. */
  predicate TrimmedTaken(cs: seq<Courier>, phone: string, exceptId: Option<int>) {
    exists i :: 0 <= i < |cs| && Some(cs[i].id) != exceptId && TrimSpace(cs[i].phone) == TrimSpace(phone)
  }

  /** Creating a courier keeps trimmed phones distinct exactly when it fails or no stored row has its
      trimmed phone. */
  lemma CreateKeepsTrimmedIff(db: Db, m: CourierModify, now: Time, fails: Option<Error>)
    requires TrimmedUnique(db.couriers)
    ensures var (db', r) := CreateCourier(db, m, now, fails);
      TrimmedUnique(db'.couriers) <==> r.Err? || !TrimmedTaken(db.couriers, m.phone.value, None)
  {
    hide TrimSpace, IsValidName, IsValidPhone;
    var (db', r) := CreateCourier(db, m, now, fails);
    if r.Ok? {
      var n := |db.couriers|;
      assert db'.couriers[n].phone == m.phone.value;
      if TrimmedTaken(db.couriers, m.phone.value, None) {
        var i :| 0 <= i < n && TrimSpace(db.couriers[i].phone) == TrimSpace(m.phone.value);
        assert TrimSpace(db'.couriers[i].phone) == TrimSpace(db'.couriers[n].phone);
      }
    }
  }

  /** Updating a courier keeps trimmed phones distinct exactly when it fails, leaves the phone alone,
      or no other row has the new trimmed phone. */
  lemma UpdateKeepsTrimmedIff(db: Db, m: CourierModify, now: Time, fails: Option<Error>)
    requires CourierIdsUnique(db.couriers) && TrimmedUnique(db.couriers)
    ensures var (db', r) := UpdateCourier(db, m, now, fails);
      TrimmedUnique(db'.couriers) <==>
        r.Err? || m.phone.None? || !TrimmedTaken(db.couriers, m.phone.value, m.id)
  {
    hide TrimSpace, IsValidName, IsValidPhone;
    var (db', r) := UpdateCourier(db, m, now, fails);
    if r.Ok? && m.phone.Some? {
      var k :| 0 <= k < |db.couriers| && db.couriers[k].id == m.id.value;
      assert db'.couriers[k].phone == m.phone.value;
      assert forall i :: 0 <= i < |db.couriers| && i != k ==> db'.couriers[i] == db.couriers[i];
      if TrimmedTaken(db.couriers, m.phone.value, m.id) {
        var i :| 0 <= i < |db.couriers| && Some(db.couriers[i].id) != m.id &&
          TrimSpace(db.couriers[i].phone) == TrimSpace(m.phone.value);
        assert TrimSpace(db'.couriers[i].phone) == TrimSpace(db'.couriers[k].phone);
      } else {
        assert forall i :: 0 <= i < |db.couriers| && i != k ==> Some(db.couriers[i].id) != m.id;
      }
    }
  }

  /** No other operation writes a phone. */
  lemma OthersKeepPhones(db: Db, s: Step)
    requires !s.PostCourier? && !s.PutCourier?
    ensures var cs, cs' := db.couriers, Apply(db, s).0.couriers;
      |cs'| == |cs| && forall i :: 0 <= i < |cs| ==> cs'[i].phone == cs[i].phone
  {
    match s
    case AssignOrder(o, clock, f) => AssignOutcome(db, o, clock, f);
    case UnassignOrder(o, at, f) => UnassignOutcome(db, o, at, f);
    case CompleteOrder(o, at, f) => CompleteOutcome(db, o, at, f);
    case CleanupTick(at, f) =>
  }

  /** The step writes a phone that another row has but for spaces around it. */
  predicate WritesTakenPhone(db: Db, s: Step) {
    (s.PostCourier? || s.PutCourier?) && s.change.phone.Some? &&
    TrimmedTaken(db.couriers, s.change.phone.value, if s.PutCourier? then s.change.id else None)
  }

  /** The steps that break the uniqueness of trimmed phones are exactly the successful writes of a
      phone that another row has but for spaces around it. */
  lemma StepKeepsTrimmedIff(db: Db, s: Step)
    requires Valid(db) && TrimmedUnique(db.couriers)
    ensures TrimmedUnique(Apply(db, s).0.couriers) <==> !(Succeeds(db, s) && WritesTakenPhone(db, s))
  {
    hide TrimSpace, IsValidName, IsValidPhone, Assign, Unassign, Complete, Cleanup, TrimmedTaken;
    if s.PostCourier? {
      CreateKeepsTrimmedIff(db, s.change, s.at, s.fault.At(0));
    } else if s.PutCourier? {
      UpdateKeepsTrimmedIff(db, s.change, s.at, s.fault.At(0));
    } else {
      OthersKeepPhones(db, s);
    }
  }

  // ----- runs -----

  /** A phone written by POST or PUT has no spaces around it. */
  predicate WritesTrimmed(s: Step) {
    (s.PostCourier? || s.PutCourier?) && s.change.phone.Some? ==>
      TrimSpace(s.change.phone.value) == s.change.phone.value
  }

  ghost predicate AllTrimmed(cs: seq<Courier>) {
    forall i :: 0 <= i < |cs| ==> TrimSpace(cs[i].phone) == cs[i].phone
  }

  lemma StepKeepsTrimmed(db: Db, s: Step)
    requires AllTrimmed(db.couriers) && WritesTrimmed(s)
    ensures AllTrimmed(Apply(db, s).0.couriers)
  {
    hide TrimSpace, IsValidName, IsValidPhone, Assign, Unassign, Complete, Cleanup;
    if s.PostCourier? || s.PutCourier? {
    } else {
      OthersKeepPhones(db, s);
    }
  }

  lemma {:induction false} RunKeepsTrimmed(db: Db, steps: seq<Step>)
    requires AllTrimmed(db.couriers) && forall k :: 0 <= k < |steps| ==> WritesTrimmed(steps[k])
    ensures AllTrimmed(Run(db, steps).couriers)
    decreases |steps|
  {
    hide Apply, AllTrimmed, WritesTrimmed;
    if steps == [] {
    } else {
      StepKeepsTrimmed(db, steps[0]);
      RunKeepsTrimmed(Apply(db, steps[0]).0, steps[1..]);
    }
  }

  /** If every phone written by POST or PUT is its own trimmed form, trimmed phones stay unique over
      every run. */
  lemma TrimmedWritesStayUnique(db: Db, steps: seq<Step>)
    requires Valid(db) && AllTrimmed(db.couriers) && forall k :: 0 <= k < |steps| ==> WritesTrimmed(steps[k])
    ensures TrimmedUnique(Run(db, steps).couriers)
  {
    hide TrimSpace, Run, WritesTrimmed;
    RunKeepsTrimmed(db, steps);
    RunKeepsValid(db, steps);
  }

  // ----- a run where they do not -----

  function Posted(phone: string): CourierModify {
    CourierModify(None, Some("a"), Some(phone), Some(Available), Some(Car))
  }

  lemma PlusIsAPhone()
    ensures TrimSpace("+") == "+" && TrimSpace(" +") == "+"
    ensures IsValidName("a") && IsValidPhone("+") && IsValidPhone(" +")
  {
    BlankIffAllSpaces("a");
    assert !IsSpace("a"[0]) && TrimSpace("+") == "+" && " +"[1..] == "+";
  }

  /** The same number with a space in front is accepted as another phone. */
  lemma SpacedPhoneIsAnotherKey(at: Time)
    ensures var db := Run(EMPTY, [PostCourier(Posted("+"), at, NoFault), PostCourier(Posted(" +"), at, NoFault)]);
      |db.couriers| == 2 && Valid(db) && !TrimmedUnique(db.couriers)
  {
    hide TrimSpace, IsValidName, IsValidPhone;
    PlusIsAPhone();
    var steps := [PostCourier(Posted("+"), at, NoFault), PostCourier(Posted(" +"), at, NoFault)];
    var db1 := Apply(EMPTY, steps[0]).0;
    var db2 := Apply(db1, steps[1]).0;
    assert |"+"| != |" +"|;
    assert steps[1..] == [steps[1]] && Run(EMPTY, steps) == Run(db1, [steps[1]]) == Run(db2, []) == db2;
    RunKeepsValid(EMPTY, steps);
    CreateKeepsTrimmedIff(db1, Posted(" +"), at, None);
    assert TrimSpace(db1.couriers[0].phone) == TrimSpace(" +");
  }
}
