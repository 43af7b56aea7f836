/** The string predicates that guard every write. */
module Validators {
  import opened Entities

  /** Go's unicode.IsSpace. */
  predicate IsSpace(c: char) {
    || c in {'\t', '\n', '\U{0B}', '\U{0C}', '\r', ' ', '\U{85}', '\U{A0}', '\U{1680}'}
    || '\U{2000}' <= c <= '\U{200A}'
    || c in {'\U{2028}', '\U{2029}', '\U{202F}', '\U{205F}', '\U{3000}'}
  }

  function TrimLeft(s: string): string {
    if s != "" && IsSpace(s[0]) then TrimLeft(s[1..]) else s
  }

  function TrimRight(s: string): string {
    if s != "" && IsSpace(s[|s| - 1]) then TrimRight(s[..|s| - 1]) else s
  }

  function TrimSpace(s: string): string {
    TrimRight(TrimLeft(s))
  }

  predicate IsValidName(name: string) {
    TrimSpace(name) != ""
  }

  predicate IsValidOrderId(orderId: string) {
    TrimSpace(orderId) != ""
  }

  predicate AllDigits(s: string) {
    forall i :: 0 <= i < |s| ==> '0' <= s[i] <= '9'
  }

  predicate IsValidPhone(phone: string) {
    var p := TrimSpace(phone);
    |p| > 0 && p[0] == '+' && AllDigits(p[1..])
  }

  predicate IsValidStatus(status: Status) {
    !status.OtherStatus?
  }

  predicate IsValidTransport(transport: Transport) {
    !transport.OtherTransport?
  }

  /** The invariant of a stored courier row. */
  predicate IsValidCourier(c: Courier) {
    IsValidName(c.name) && IsValidPhone(c.phone) && IsValidStatus(c.status) && IsValidTransport(c.transport)
  }

  /** A name or an order id is refused exactly when every character is a space. */
  lemma {:induction false} BlankIffAllSpaces(s: string)
    ensures TrimSpace(s) == "" <==> forall i :: 0 <= i < |s| ==> IsSpace(s[i])
    ensures IsValidName(s) == IsValidOrderId(s) == exists i :: 0 <= i < |s| && !IsSpace(s[i])
  {
    if s == "" {
    } else if IsSpace(s[0]) {
      BlankIffAllSpaces(s[1..]);
      assert s == [s[0]] + s[1..];
    } else {
      TrimRightKeepsFirst(s);
    }
  }

  lemma {:induction false} TrimRightKeepsFirst(s: string)
    requires s != "" && !IsSpace(s[0])
    ensures TrimRight(s) != "" && TrimRight(s)[0] == s[0]
  {
    if !IsSpace(s[|s| - 1]) {
    } else {
      TrimRightKeepsFirst(s[..|s| - 1]);
    }
  }

  /** ... which are these character codes. */
  lemma SpaceCodes(c: char)
    ensures IsSpace(c) <==>
      var n := c as int;
      9 <= n <= 13 || 0x2000 <= n <= 0x200A ||
      n in {0x20, 0x85, 0xA0, 0x1680, 0x2028, 0x2029, 0x202F, 0x205F, 0x3000}
  {
  }

  lemma {:induction false} TrimLeftAt(s: string) returns (a: nat)
    ensures a <= |s| && TrimLeft(s) == s[a..]
    ensures forall i :: 0 <= i < a ==> IsSpace(s[i])
    ensures a < |s| ==> !IsSpace(s[a])
  {
    if s == "" || !IsSpace(s[0]) {
      a := 0;
    } else {
      var b := TrimLeftAt(s[1..]);
      assert forall i :: 0 < i < 1 + b ==> s[i] == s[1..][i - 1];
      a := 1 + b;
    }
  }

  lemma {:induction false} TrimRightAt(s: string) returns (b: nat)
    ensures b <= |s| && TrimRight(s) == s[..b]
    ensures forall i :: b <= i < |s| ==> IsSpace(s[i])
    ensures b > 0 ==> !IsSpace(s[b - 1])
  {
    if s == "" || !IsSpace(s[|s| - 1]) {
      b := |s|;
    } else {
      b := TrimRightAt(s[..|s| - 1]);
    }
  }

  /** Trimming cuts the spaces at both ends and nothing else. */
  lemma TrimAt(s: string) returns (a: nat, b: nat)
    ensures a <= b <= |s| && TrimSpace(s) == s[a..b]
    ensures forall i :: 0 <= i < |s| && !(a <= i < b) ==> IsSpace(s[i])
    ensures a < b ==> !IsSpace(s[a]) && !IsSpace(s[b - 1])
  {
    hide IsSpace;
    a := TrimLeftAt(s);
    var rest := s[a..];
    var n := TrimRightAt(rest);
    b := a + n;
    assert rest[..n] == s[a..b];
    forall i | b <= i < |s| ensures IsSpace(s[i]) {
      assert rest[i - a] == s[i];
    }
  }

  /** '+' at `a`, digits from there to `b`, and spaces around them. */
  ghost predicate PhoneAt(s: string, a: nat, b: nat) {
    && a < b <= |s| && s[a] == '+'
    && (forall i :: a < i < b ==> '0' <= s[i] <= '9')
    && (forall i :: 0 <= i < |s| && !(a <= i < b) ==> IsSpace(s[i]))
  }

  ghost predicate SpellsPhone(s: string) {
    exists a: nat, b: nat :: PhoneAt(s, a, b)
  }

  /** A phone is valid exactly when it is a plus sign and any number of digits, spaces around them aside. */
  lemma PhoneIffSpelled(s: string)
    ensures IsValidPhone(s) <==> SpellsPhone(s)
  {
    var a, b := TrimAt(s);
    var p := s[a..b];
    if IsValidPhone(s) {
      assert forall i :: a < i < b ==> s[i] == p[1..][i - a - 1];
      assert PhoneAt(s, a, b);
    }
    if SpellsPhone(s) {
      var x: nat, y: nat :| PhoneAt(s, x, y);
      PhoneIsTrimmed(s, a, b, x, y);
    }
  }

  lemma PhoneIsTrimmed(s: string, a: nat, b: nat, x: nat, y: nat)
    requires a <= b <= |s| && (a < b ==> !IsSpace(s[a]) && !IsSpace(s[b - 1]))
    requires forall i :: 0 <= i < |s| && !(a <= i < b) ==> IsSpace(s[i])
    requires PhoneAt(s, x, y)
    ensures a == x && b == y
  {
    assert !IsSpace(s[x]) && !IsSpace(s[y - 1]);
  }
}
