/** The token bucket: what it admits over any window, and what its floored refill loses. */
module RateLimiter {

  /** `last` and every clock reading are in seconds. */
  datatype Bucket = Bucket(capacity: nat, tokens: nat, rate: real, last: real) {
    predicate Valid() {
      tokens <= capacity && rate >= 0.0
    }
  }

  function New(capacity: nat, rate: real, now: real): Bucket {
    Bucket(capacity, capacity, rate, now)
  }

  /** Tokens due for the time between two instants, fractions included. */
  function Due(rate: real, from: real, to: real): real {
    (to - from) * rate
  }

  /** Whole tokens earned since the last refill. */
  function Earned(b: Bucket, now: real): nat
    requires b.rate >= 0.0
  {
    if now <= b.last then 0
    else
      DueGrows(b.rate, b.last, b.last, now);
      Due(b.rate, b.last, now).Floor
  }

  lemma DueGrows(rate: real, x: real, y: real, z: real)
    requires rate >= 0.0 && y <= z
    ensures Due(rate, x, y) <= Due(rate, x, z) && Due(rate, y, y) == 0.0 && Due(rate, x, x) == 0.0
  {
  }

  lemma DueAdds(rate: real, x: real, y: real, z: real)
    ensures Due(rate, x, z) == Due(rate, x, y) + Due(rate, y, z)
  {
  }

  /** A refill that earns nothing leaves the timestamp, and so the fraction, alone. */
  function Refill(b: Bucket, now: real): Bucket
    requires b.Valid()
  {
    var k := Earned(b, now);
    if k == 0 then b
    else b.(tokens := if b.tokens + k > b.capacity then b.capacity else b.tokens + k, last := now)
  }

  function Admit(b: Bucket, now: real): (r: (Bucket, bool))
    requires b.Valid()
    ensures r.0.Valid() && r.0.capacity == b.capacity && r.0.rate == b.rate
    ensures b.last <= now ==> b.last <= r.0.last <= now
  {
    var b1 := Refill(b, now);
    if b1.tokens > 0 then (b1.(tokens := b1.tokens - 1), true) else (b1, false)
  }

  class TokenBucket {
    const capacity: nat
    var tokens: nat
    const refillRate: real
    var lastRefill: real

    function State(): Bucket
      reads this
    {
      Bucket(capacity, tokens, refillRate, lastRefill)
    }

    constructor (capacity: nat, refillRate: real, now: real)
      requires refillRate >= 0.0
      ensures State() == New(capacity, refillRate, now) && State().Valid()
    {
      this.capacity := capacity;
      this.tokens := capacity;
      this.refillRate := refillRate;
      this.lastRefill := now;
    }

    method Allow(now: real) returns (ok: bool)
      requires State().Valid()
      modifies this
      ensures (State(), ok) == Admit(old(State()), now)
      ensures State().Valid()
      ensures tokens + One(ok) == Stock(old(State()), now) && (ok <==> Stock(old(State()), now) > 0)
    {
      CallTakesFromStock(State(), now);
      RefillTokens(now);
      if tokens > 0 {
        tokens := tokens - 1;
        return true;
      }
      return false;
    }

    method RefillTokens(now: real)
      requires State().Valid()
      modifies this
      ensures State() == Refill(old(State()), now)
    {
      var elapsed := now - lastRefill;
      if elapsed <= 0.0 {
        return;
      }
      assert elapsed * refillRate == Due(refillRate, lastRefill, now);
      var tokensToAdd := (elapsed * refillRate).Floor;
      if tokensToAdd > 0 {
        tokens := tokens + tokensToAdd;
        if tokens > capacity {
          tokens := capacity;
        }
        lastRefill := now;
      }
    }
  }

  // ----- runs -----

  /** Readings of a clock that never goes back, none before `from`. */
  ghost predicate Clocked(from: real, times: seq<real>) {
    && (forall i :: 0 <= i < |times| ==> from <= times[i])
    && forall i, j :: 0 <= i < j < |times| ==> times[i] <= times[j]
  }

  function One(ok: bool): nat {
    if ok then 1 else 0
  }

  /** How many of the calls at `times` that fall in [s, t] are admitted. */
  function AdmittedIn(b: Bucket, times: seq<real>, s: real, t: real): nat
    requires b.Valid()
    decreases |times|
  {
    if times == [] then 0
    else
      var (b', ok) := Admit(b, times[0]);
      One(ok && s <= times[0] <= t) + AdmittedIn(b', times[1..], s, t)
  }

  function Ceil(x: real): int {
    -((-x).Floor)
  }

  // ----- the window bound -----

  /** What holds inside a window that opened at `s`, `admitted` admissions ago. Until the first
      refill in the window, the fraction that is still due was there only if something was admitted. */
  ghost predicate WithinBudget(b: Bucket, admitted: nat, s: real) {
    if b.last <= s then
      admitted + b.tokens <= b.capacity && (admitted > 0 ==> Due(b.rate, b.last, s) < 1.0)
    else
      (admitted + b.tokens - b.capacity) as real < 1.0 + Due(b.rate, s, b.last)
  }

  lemma CeilBound(n: int, x: real)
    requires n as real < 1.0 + x
    ensures n <= Ceil(x)
  {
  }

  lemma BudgetStep(b: Bucket, admitted: nat, s: real, now: real)
    requires b.Valid() && WithinBudget(b, admitted, s) && s <= now && b.last <= now
    ensures var (b', ok) := Admit(b, now); WithinBudget(b', admitted + One(ok), s)
  {
    hide Due;
    var k := Earned(b, now);
    var (b', ok) := Admit(b, now);
    assert One(ok) + b'.tokens == Refill(b, now).tokens;
    DueAdds(b.rate, s, b.last, now);
    DueAdds(b.rate, b.last, s, now);
    DueGrows(b.rate, b.last, s, now);
    DueGrows(b.rate, s, s, now);
    if now > b.last {
      assert k == Due(b.rate, b.last, now).Floor;
    }
  }

  lemma BudgetBound(b: Bucket, admitted: nat, s: real, t: real)
    requires b.Valid() && WithinBudget(b, admitted, s) && s <= t && (b.last <= t || admitted == 0)
    ensures admitted <= b.capacity + Ceil(Due(b.rate, s, t))
  {
    hide Due, Ceil;
    DueGrows(b.rate, s, s, t);
    if s < b.last <= t {
      DueGrows(b.rate, s, b.last, t);
    }
    CeilBound(admitted - b.capacity, Due(b.rate, s, t));
  }

  lemma {:induction false} NoneAfter(b: Bucket, times: seq<real>, s: real, t: real)
    requires b.Valid() && forall i :: 0 <= i < |times| ==> times[i] > t
    ensures AdmittedIn(b, times, s, t) == 0
    decreases |times|
  {
    if times == [] {
    } else {
      NoneAfter(Admit(b, times[0]).0, times[1..], s, t);
    }
  }

  lemma {:induction false} InsideWindow(b: Bucket, admitted: nat, times: seq<real>, s: real, t: real)
    requires b.Valid() && WithinBudget(b, admitted, s) && s <= t && (b.last <= t || admitted == 0)
    requires Clocked(b.last, times) && forall i :: 0 <= i < |times| ==> s <= times[i]
    ensures admitted + AdmittedIn(b, times, s, t) <= b.capacity + Ceil(Due(b.rate, s, t))
    decreases |times|
  {
    hide Due, Ceil, WithinBudget, Admit;
    if times == [] || times[0] > t {
      NoneAfter(b, times, s, t);
      BudgetBound(b, admitted, s, t);
    } else {
      var (b', ok) := Admit(b, times[0]);
      BudgetStep(b, admitted, s, times[0]);
      InsideWindow(b', admitted + One(ok), times[1..], s, t);
    }
  }

  /** In every run, any window [s, t] admits at most capacity + ceil(rate * (t - s)) requests,
      whatever fraction of a token was due when it opened. */
  lemma {:induction false} WindowBound(b: Bucket, times: seq<real>, s: real, t: real)
    requires b.Valid() && Clocked(b.last, times) && s <= t
    ensures AdmittedIn(b, times, s, t) <= b.capacity + Ceil(Due(b.rate, s, t))
    decreases |times|
  {
    hide Due, Ceil, Admit;
    if times != [] && times[0] < s {
      WindowBound(Admit(b, times[0]).0, times[1..], s, t);
    } else {
      if s < b.last { DueGrows(b.rate, s, s, b.last); }
      InsideWindow(b, 0, times, s, t);
    }
  }

  // ----- the bound is reached -----

  /** `n` readings, `pause` apart. */
  function Paces(from: real, pause: real, n: nat): (times: seq<real>)
    ensures |times| == n
    decreases n
  {
    if n == 0 then [] else [from + pause] + Paces(from + pause, pause, n - 1)
  }

  lemma {:induction false} PaceAt(from: real, pause: real, n: nat, i: nat)
    requires i < n
    ensures Paces(from, pause, n)[i] == from + (i + 1) as real * pause
    decreases n
  {
    if i == 0 {
    } else {
      PaceAt(from + pause, pause, n - 1, i - 1);
      assert (i + 1) as real * pause == i as real * pause + pause;
    }
  }

  function Repeat(s: real, n: nat): (times: seq<real>)
    ensures |times| == n && forall i :: 0 <= i < n ==> times[i] == s
  {
    seq(n, i => s)
  }

  /** Calls at `s` that earn nothing take one token each. */
  lemma {:induction false} DrainAt(b: Bucket, n: nat, rest: seq<real>, s: real, t: real)
    requires b.Valid() && n <= b.tokens && s <= t && Earned(b, s) == 0
    ensures AdmittedIn(b, Repeat(s, n) + rest, s, t) == n + AdmittedIn(b.(tokens := b.tokens - n), rest, s, t)
    decreases n
  {
    if n == 0 {
      assert Repeat(s, 0) + rest == rest;
    } else {
      var times := Repeat(s, n) + rest;
      assert times[0] == s && times[1..] == Repeat(s, n - 1) + rest;
      assert Admit(b, s) == (b.(tokens := b.tokens - 1), true);
      DrainAt(b.(tokens := b.tokens - 1), n - 1, rest, s, t);
    }
  }

  /** From an empty bucket, a call whenever one more token is whole is admitted. */
  lemma {:induction false} TickAt(b: Bucket, pause: real, n: nat, s: real, t: real)
    requires b.Valid() && b.capacity >= 1 && b.tokens == 0 && pause > 0.0 && pause * b.rate == 1.0
    requires n > 0 ==> s <= b.last + pause && b.last + n as real * pause <= t
    ensures AdmittedIn(b, Paces(b.last, pause, n), s, t) == n
    decreases n
  {
    if n == 0 {
    } else {
      var now := b.last + pause;
      assert Due(b.rate, b.last, now) == pause * b.rate;
      assert Earned(b, now) == 1;
      assert Admit(b, now) == (b.(last := now), true);
      assert n as real * pause == pause + (n - 1) as real * pause;
      assert (n - 1) as real * pause >= 0.0;
      TickAt(b.(last := now), pause, n - 1, s, t);
    }
  }

  /** A run that fills the window [s, t]: `capacity` calls at `s`, then one whenever a token is whole. */
  function FillingRun(capacity: nat, from: real, s: real, pause: real, n: nat): seq<real> {
    Repeat(s, capacity) + Paces(from, pause, n)
  }

  lemma {:induction false} PacesAreClocked(from: real, pause: real, n: nat)
    requires pause >= 0.0
    ensures Clocked(from + pause, Paces(from, pause, n))
    decreases n
  {
    if n == 0 {
    } else {
      PacesAreClocked(from + pause, pause, n - 1);
    }
  }

  lemma FillingRunIsClocked(capacity: nat, from: real, s: real, pause: real, n: nat)
    requires from <= s && pause > 0.0 && (n > 0 ==> s <= from + pause)
    ensures Clocked(from, FillingRun(capacity, from, s, pause, n))
  {
    PacesAreClocked(from, pause, n);
  }

  /** Opening a bucket so that a fraction is due at `s` and the last whole token falls on `t`. */
  lemma FillingRunFills(capacity: nat, rate: real, s: real, t: real) returns (from: real, times: seq<real>)
    requires capacity >= 1 && rate > 0.0 && s <= t
    ensures Clocked(from, times)
    ensures AdmittedIn(New(capacity, rate, from), times, s, t) == capacity + Ceil(Due(rate, s, t))
  {
    hide Due, Admit;
    DueGrows(rate, s, s, t);
    var n: nat, pause := Ceil(Due(rate, s, t)), 1.0 / rate;
    assert pause > 0.0 && pause * rate == 1.0;
    hide Ceil;
    from := s - (n as real - Due(rate, s, t)) * pause;
    times := FillingRun(capacity, from, s, pause, n);
    FillingRunTimes(rate, s, t, n, pause, from);
    FillingRunIsClocked(capacity, from, s, pause, n);
    var b := New(capacity, rate, from);
    DrainAt(b, capacity, Paces(from, pause, n), s, t);
    TickAt(b.(tokens := 0), pause, n, s, t);
  }

  lemma FillingRunTimes(rate: real, s: real, t: real, n: nat, pause: real, from: real)
    requires rate > 0.0 && s <= t && n == Ceil(Due(rate, s, t)) && pause > 0.0 && pause * rate == 1.0
    requires from == s - (n as real - Due(rate, s, t)) * pause
    ensures from <= s <= from + pause && from + n as real * pause == t
    ensures 0.0 <= Due(rate, from, s) < 1.0
  {
    var due := Due(rate, s, t);
    var fraction := n as real - due;
    assert 0.0 <= fraction < 1.0;
    assert due * pause == (t - s) * (rate * pause) == t - s;
    assert fraction * pause == n as real * pause - due * pause;
    assert 0.0 <= fraction * pause <= pause;
    assert Due(rate, from, s) == (fraction * pause) * rate == fraction * (pause * rate) == fraction;
  }

  lemma {:induction false} NothingFromEmpty(b: Bucket, times: seq<real>, s: real, t: real)
    requires b.Valid() && b.capacity == 0
    ensures AdmittedIn(b, times, s, t) == 0
    decreases |times|
  {
    if times == [] {
    } else {
      NothingFromEmpty(Admit(b, times[0]).0, times[1..], s, t);
    }
  }

  /** The window bound is tight: for every window some bucket and some run reach it, exactly when the
      capacity is not 0 (or nothing is due in the window). */
  lemma WindowBoundIsTight(capacity: nat, rate: real, s: real, t: real)
    requires rate >= 0.0 && s <= t
    ensures (exists from, times :: Clocked(from, times) &&
               AdmittedIn(New(capacity, rate, from), times, s, t) == capacity + Ceil(Due(rate, s, t)))
      <==> capacity >= 1 || Ceil(Due(rate, s, t)) == 0
  {
    if capacity >= 1 && rate > 0.0 {
      var from, times := FillingRunFills(capacity, rate, s, t);
    } else if capacity >= 1 || Ceil(Due(rate, s, t)) == 0 {
      var b := New(capacity, rate, s);
      assert Due(rate, s, s) == 0.0;
      DrainAt(b, capacity, [], s, t);
      assert Clocked(s, Repeat(s, capacity) + []);
    } else {
      forall from, times ensures AdmittedIn(New(capacity, rate, from), times, s, t) == 0 {
        NothingFromEmpty(New(capacity, rate, from), times, s, t);
      }
    }
  }

  // ----- accounts -----

  /** A bucket and its totals since construction. */
  datatype Account = Account(bucket: Bucket, credited: nat, discarded: nat, admitted: nat) {
    /** Nothing is created or lost but by refill, cap and admission. */
    predicate Balanced() {
      bucket.Valid() && bucket.tokens == bucket.capacity + credited - discarded - admitted
    }

    /** Credits against the time up to the last refill: at most what was due, and at least half of it. */
    predicate Paced(t0: real) {
      && credited as real <= Due(bucket.rate, t0, bucket.last)
      && Due(bucket.rate, t0, bucket.last) <= 2.0 * credited as real
    }
  }

  function Open(capacity: nat, rate: real, now: real): Account {
    Account(New(capacity, rate, now), 0, 0, 0)
  }

  function Serve(a: Account, now: real): (r: Account)
    requires a.bucket.Valid()
    ensures r.bucket.Valid() && r.bucket.capacity == a.bucket.capacity && r.bucket.rate == a.bucket.rate
  {
    var k := Earned(a.bucket, now);
    var (b, ok) := Admit(a.bucket, now);
    var excess := a.bucket.tokens + k - a.bucket.capacity;
    Account(b, a.credited + k, a.discarded + if excess > 0 then excess else 0, a.admitted + One(ok))
  }

  function ServeAll(a: Account, times: seq<real>): Account
    requires a.bucket.Valid()
    decreases |times|
  {
    if times == [] then a else ServeAll(Serve(a, times[0]), times[1..])
  }

  lemma ServeStep(a: Account, t0: real, now: real)
    requires a.Balanced() && a.Paced(t0) && a.bucket.last <= now
    ensures var a' := Serve(a, now);
      a'.Balanced() && a'.Paced(t0) && a'.bucket.last <= now && Due(a.bucket.rate, a'.bucket.last, now) < 1.0
  {
    hide Due;
    var k := Earned(a.bucket, now);
    DueAdds(a.bucket.rate, t0, a.bucket.last, now);
    DueGrows(a.bucket.rate, now, now, now);
    if now > a.bucket.last {
      assert k == Due(a.bucket.rate, a.bucket.last, now).Floor;
    }
  }

  lemma {:induction false} ServeAllKeeps(a: Account, t0: real, times: seq<real>)
    requires a.Balanced() && a.Paced(t0) && Clocked(a.bucket.last, times)
    ensures var a' := ServeAll(a, times);
      && a'.Balanced() && a'.Paced(t0) && a'.bucket.capacity == a.bucket.capacity && a'.bucket.rate == a.bucket.rate
      && (times != [] ==> Due(a.bucket.rate, a'.bucket.last, times[|times| - 1]) < 1.0)
    decreases |times|
  {
    hide Due, Serve;
    if times == [] {
    } else {
      ServeStep(a, t0, times[0]);
      var a1 := Serve(a, times[0]);
      ServeAllKeeps(a1, t0, times[1..]);
      if |times| == 1 {
        assert ServeAll(a1, times[1..]) == a1;
      }
    }
  }

  /** Conservation: what is left is the capacity plus what was credited, less what the cap
      discarded and what was admitted. */
  lemma Conservation(capacity: nat, rate: real, t0: real, times: seq<real>)
    requires rate >= 0.0 && Clocked(t0, times)
    ensures var a := ServeAll(Open(capacity, rate, t0), times);
      a.bucket.tokens == capacity + a.credited - a.discarded - a.admitted
  {
    ServeAllKeeps(Open(capacity, rate, t0), t0, times);
  }

  /** Dropping the fraction at every refill loses less than half: at a call at time t, more than
      (rate * (t - t0) - 1) / 2 tokens have been credited, and never more than rate * (t - t0). */
  lemma LosesLessThanHalf(capacity: nat, rate: real, t0: real, times: seq<real>)
    requires rate >= 0.0 && Clocked(t0, times) && times != []
    ensures var a, t := ServeAll(Open(capacity, rate, t0), times), times[|times| - 1];
      (Due(rate, t0, t) - 1.0) / 2.0 < a.credited as real <= Due(rate, t0, t)
  {
    hide Due, ServeAll;
    var a, t := ServeAll(Open(capacity, rate, t0), times), times[|times| - 1];
    DueGrows(rate, t0, t0, t0);
    ServeAllKeeps(Open(capacity, rate, t0), t0, times);
    LastIsPast(Open(capacity, rate, t0), times);
    DueAdds(rate, t0, a.bucket.last, t);
    DueGrows(rate, t0, a.bucket.last, t);
  }

  lemma {:induction false} LastIsPast(a: Account, times: seq<real>)
    requires a.bucket.Valid() && Clocked(a.bucket.last, times)
    ensures var last := ServeAll(a, times).bucket.last;
      if times == [] then last == a.bucket.last else last <= times[|times| - 1]
    decreases |times|
  {
    if times == [] {
    } else {
      LastIsPast(Serve(a, times[0]), times[1..]);
    }
  }

  lemma {:induction false} ServeLast(a: Account, times: seq<real>)
    requires a.bucket.Valid() && times != []
    ensures var before := ServeAll(a, times[..|times| - 1]);
      before.bucket.Valid() && ServeAll(a, times) == Serve(before, times[|times| - 1])
    decreases |times|
  {
    if |times| == 1 {
      assert ServeAll(a, times) == ServeAll(Serve(a, times[0]), []);
    } else {
      ServeLast(Serve(a, times[0]), times[1..]);
      assert times[..|times| - 1][1..] == times[1..][..|times| - 2];
    }
  }

  /** Throughput: if the last call of a run, at t, is refused and the cap has discarded nothing, more
      than capacity + (rate * (t - t0) - 1) / 2 requests have been admitted. */
  lemma RefusedMeansServed(capacity: nat, rate: real, t0: real, times: seq<real>)
    requires rate >= 0.0 && Clocked(t0, times) && times != []
    requires ServeAll(Open(capacity, rate, t0), times).discarded == 0
    ensures var a0, t := Open(capacity, rate, t0), times[|times| - 1];
      ServeAll(a0, times[..|times| - 1]).bucket.Valid() &&
      (!Admit(ServeAll(a0, times[..|times| - 1]).bucket, t).1 ==>
         ServeAll(a0, times).admitted as real > capacity as real + (Due(rate, t0, t) - 1.0) / 2.0)
  {
    hide Due, ServeAll;
    ServeLast(Open(capacity, rate, t0), times);
    Conservation(capacity, rate, t0, times);
    LosesLessThanHalf(capacity, rate, t0, times);
  }

  lemma {:induction false} AdmissionsAreCounted(a: Account, times: seq<real>, s: real, t: real)
    requires a.bucket.Valid() && forall i :: 0 <= i < |times| ==> s <= times[i] <= t
    ensures ServeAll(a, times).admitted == a.admitted + AdmittedIn(a.bucket, times, s, t)
    decreases |times|
  {
    if times == [] {
    } else {
      AdmissionsAreCounted(Serve(a, times[0]), times[1..], s, t);
    }
  }

  /** From construction at t0, at most capacity + floor(rate * (t - t0)) are admitted up to t. */
  lemma LifetimeBound(capacity: nat, rate: real, t0: real, times: seq<real>, t: real)
    requires rate >= 0.0 && Clocked(t0, times) && t0 <= t && forall i :: 0 <= i < |times| ==> times[i] <= t
    ensures AdmittedIn(New(capacity, rate, t0), times, t0, t) <= capacity + Due(rate, t0, t).Floor
  {
    hide Due, ServeAll;
    var a0 := Open(capacity, rate, t0);
    DueGrows(rate, t0, t0, t0);
    var a := ServeAll(a0, times);
    ServeAllKeeps(a0, t0, times);
    AdmissionsAreCounted(a0, times, t0, t);
    LastIsPast(a0, times);
    DueGrows(rate, t0, a.bucket.last, t);
  }

  /** Whole tokens due between two instants; none when the clock went back. */
  function WholeDue(rate: real, from: real, to: real): nat
    requires rate >= 0.0
  {
    if to <= from then 0
    else
      ProductIsNotNegative(to - from, rate);
      ((to - from) * rate).Floor
  }

  lemma ProductIsNotNegative(x: real, y: real)
    requires x >= 0.0 && y >= 0.0
    ensures x * y >= 0.0
  {
  }

  /** The tokens a request at `now` finds: those left and the whole ones due, up to the capacity. */
  function Stock(b: Bucket, now: real): nat
    requires b.Valid()
  {
    var filled := b.tokens + WholeDue(b.rate, b.last, now);
    if filled >= b.capacity then b.capacity else filled
  }

  lemma EarnedIsWholeDue(b: Bucket, now: real)
    requires b.Valid()
    ensures Earned(b, now) == WholeDue(b.rate, b.last, now)
  {
  }

  /** One call takes one token from what it finds, or is refused if it finds none; the timestamp moves
      exactly when a whole token was due. */
  lemma CallTakesFromStock(b: Bucket, now: real)
    requires b.Valid()
    ensures var (b', ok) := Admit(b, now);
      && b'.tokens + One(ok) == Stock(b, now) && (ok <==> Stock(b, now) > 0)
      && b'.last == if WholeDue(b.rate, b.last, now) > 0 then now else b.last
  {
    hide Earned, WholeDue;
    EarnedIsWholeDue(b, now);
  }

  /** Written out: the whole tokens due since the last refill are added, up to the capacity, and one is
      taken if there is one. */
  lemma CallAddsWhatIsDue(b: Bucket, now: real)
    requires b.Valid()
    ensures var due := if now <= b.last then 0 else ((now - b.last) * b.rate).Floor;
      var (b', ok) := Admit(b, now);
      && b'.tokens + One(ok) == (if b.tokens + due >= b.capacity then b.capacity else b.tokens + due)
      && (ok <==> b.capacity > 0 && b.tokens + due > 0)
      && b'.last == if due > 0 then now else b.last
  {
    var due := if now <= b.last then 0 else ((now - b.last) * b.rate).Floor;
    assert due == WholeDue(b.rate, b.last, now);
    hide Admit, WholeDue;
    CallTakesFromStock(b, now);
  }

  lemma NextFindsTheRest(b: Bucket, now: real)
    requires b.Valid() && b.last <= now
    ensures Stock(Admit(b, now).0, now) == Admit(b, now).0.tokens
  {
    hide Admit, WholeDue;
    CallTakesFromStock(b, now);
    NothingDueAtOnce(b.rate, now);
  }

  lemma NothingDueAtOnce(rate: real, t: real)
    requires rate >= 0.0
    ensures WholeDue(rate, t, t) == 0
  {
  }

  /** Of `n` requests at one instant, as many are admitted as there are tokens with the whole ones due
      since the last refill, up to the capacity. */
  lemma {:induction false} BurstGetsWhatIsDue(b: Bucket, now: real, n: nat)
    requires b.Valid() && b.last <= now
    ensures AdmittedIn(b, Repeat(now, n), now, now) == if n <= Stock(b, now) then n else Stock(b, now)
    decreases n
  {
    hide Admit, Stock;
    if n > 0 {
      CallTakesFromStock(b, now);
      NextFindsTheRest(b, now);
      assert Repeat(now, n)[1..] == Repeat(now, n - 1);
      BurstGetsWhatIsDue(Admit(b, now).0, now, n - 1);
    }
  }

  /** A request is refused exactly when no token is left and less than one is due, or none fits. */
  lemma RefusedIff(b: Bucket, now: real)
    requires b.Valid() && b.last <= now
    ensures !Admit(b, now).1 <==> b.capacity == 0 || (b.tokens == 0 && Due(b.rate, b.last, now) < 1.0)
  {
    hide Due;
    DueGrows(b.rate, b.last, b.last, now);
    if now > b.last {
      assert Earned(b, now) == Due(b.rate, b.last, now).Floor;
    }
  }

  lemma {:induction false} OneForEachPause(a: Account, pause: real, n: nat)
    requires a.bucket.Valid() && a.bucket.rate == 1.0 && 1.0 <= pause < 2.0
    ensures ServeAll(a, Paces(a.bucket.last, pause, n)).credited == a.credited + n
    decreases n
  {
    if n == 0 {
    } else {
      var now := a.bucket.last + pause;
      assert Due(1.0, a.bucket.last, now) == pause && pause.Floor == 1;
      OneForEachPause(Serve(a, now), pause, n - 1);
    }
  }

  /** "Less than half" cannot be improved: called every `pause` < 2 seconds at one token a second,
      the bucket credits one token for every `pause` that are due. */
  lemma HalfIsSharp(a: Account, pause: real, n: nat)
    requires a.bucket.Valid() && a.bucket.rate == 1.0 && 1.0 <= pause < 2.0
    ensures var from, times := a.bucket.last, Paces(a.bucket.last, pause, n);
      && ServeAll(a, times).credited == a.credited + n
      && (n > 0 ==> Due(1.0, from, times[n - 1]) == n as real * pause)
  {
    hide ServeAll, Paces;
    OneForEachPause(a, pause, n);
    if n > 0 {
      PaceAt(a.bucket.last, pause, n, n - 1);
    }
  }
}
