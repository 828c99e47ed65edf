/**
 * The extension's settings as stored in local storage, the storage change
 * records, and the text conversions the options pages apply to form input:
 * `parseInt(_, 10)`, the number-to-string conversion of a number input, and
 * the address shape check.
 */
module Config {
  import opened Wrappers
  import opened Strings
  import opened Recipients
  import opened Contacts

  datatype Settings = Settings(
    customContacts: seq<CustomContact>,
    blocklist: seq<string>,
    maxResults: int,
    autoAddRecipient: bool,
    searchAddressBooks: bool,
    searchRecipients: bool,
    searchCustomContacts: bool,
    triggerCharacter: string)

  const Defaults: Settings := Settings([], [], 10, true, true, true, true, "@")

  /** One key of a storage write or change record, with its new value; `Unknown` is a key settings do not have. */
  datatype Change =
    | SetCustomContacts(contacts: seq<CustomContact>)
    | SetBlocklist(entries: seq<string>)
    | SetMaxResults(n: int)
    | SetAutoAddRecipient(on: bool)
    | SetSearchAddressBooks(on: bool)
    | SetSearchRecipients(on: bool)
    | SetSearchCustomContacts(on: bool)
    | SetTriggerCharacter(t: string)
    | Unknown(key: string)

  function Apply(s: Settings, c: Change): Settings {
    match c
    case SetCustomContacts(v) => s.(customContacts := v)
    case SetBlocklist(v) => s.(blocklist := v)
    case SetMaxResults(v) => s.(maxResults := v)
    case SetAutoAddRecipient(v) => s.(autoAddRecipient := v)
    case SetSearchAddressBooks(v) => s.(searchAddressBooks := v)
    case SetSearchRecipients(v) => s.(searchRecipients := v)
    case SetSearchCustomContacts(v) => s.(searchCustomContacts := v)
    case SetTriggerCharacter(v) => s.(triggerCharacter := v)
    case Unknown(_) => s
  }

  /** The changes one after another, in key order. */
  function ApplyAll(s: Settings, cs: seq<Change>): Settings {
    if cs == [] then s else Apply(ApplyAll(s, cs[..|cs| - 1]), cs[|cs| - 1])
  }

  lemma {:induction false} ApplyAllAppend(s: Settings, a: seq<Change>, b: seq<Change>)
    ensures ApplyAll(s, a + b) == ApplyAll(ApplyAll(s, a), b)
    decreases |b|
  {
    if b == [] {
      assert a + b == a;
    } else {
      assert (a + b)[..|a + b| - 1] == a + b[..|b| - 1];
      ApplyAllAppend(s, a, b[..|b| - 1]);
    }
  }

  /** Only the trigger key touches the trigger. */
  predicate TouchesTrigger(c: Change) {
    c.SetTriggerCharacter?
  }

  /** Keys other than the trigger leave it as it was; otherwise the last trigger write wins. */
  lemma TriggerAfterChanges(s: Settings, cs: seq<Change>)
    ensures (forall i :: 0 <= i < |cs| ==> !TouchesTrigger(cs[i])) ==> ApplyAll(s, cs).triggerCharacter == s.triggerCharacter
    ensures forall i :: 0 <= i < |cs| && TouchesTrigger(cs[i]) && (forall j :: i < j < |cs| ==> !TouchesTrigger(cs[j])) ==>
      ApplyAll(s, cs).triggerCharacter == cs[i].t
  {
    if forall i :: 0 <= i < |cs| ==> !TouchesTrigger(cs[i]) {
      TriggerUntouched(s, cs);
    }
    forall i | 0 <= i < |cs| && TouchesTrigger(cs[i]) && (forall j :: i < j < |cs| ==> !TouchesTrigger(cs[j]))
      ensures ApplyAll(s, cs).triggerCharacter == cs[i].t
    {
      LastTriggerWins(s, cs, i);
    }
  }

  lemma {:induction false} TriggerUntouched(s: Settings, cs: seq<Change>)
    requires forall i :: 0 <= i < |cs| ==> !TouchesTrigger(cs[i])
    ensures ApplyAll(s, cs).triggerCharacter == s.triggerCharacter
  {
    if cs != [] {
      var init := cs[..|cs| - 1];
      assert forall i :: 0 <= i < |init| ==> init[i] == cs[i];
      TriggerUntouched(s, init);
    }
  }

  lemma {:induction false} LastTriggerWins(s: Settings, cs: seq<Change>, i: nat)
    requires i < |cs| && TouchesTrigger(cs[i]) && forall j :: i < j < |cs| ==> !TouchesTrigger(cs[j])
    ensures ApplyAll(s, cs).triggerCharacter == cs[i].t
  {
    var init := cs[..|cs| - 1];
    if i < |cs| - 1 {
      assert forall j :: i < j < |init| ==> init[j] == cs[j];
      LastTriggerWins(s, init, i);
    }
  }

  /** A change record of keys settings do not have changes nothing. */
  lemma {:induction false} UnknownKeysIgnored(s: Settings, cs: seq<Change>)
    requires forall i :: 0 <= i < |cs| ==> cs[i].Unknown?
    ensures ApplyAll(s, cs) == s
  {
    if cs != [] {
      UnknownKeysIgnored(s, cs[..|cs| - 1]);
    }
  }

  // ------------------------------------------------------------- numbers

  predicate IsDigit(c: char) {
    '0' <= c <= '9'
  }

  /** The first index at or after `i` that is not a decimal digit. */
  function DigitsEnd(s: string, i: nat): (r: nat)
    requires i <= |s|
    ensures i <= r <= |s|
    ensures r < |s| ==> !IsDigit(s[r])
    ensures forall k :: i <= k < r ==> IsDigit(s[k])
    decreases |s| - i
  {
    if i == |s| || !IsDigit(s[i]) then i else DigitsEnd(s, i + 1)
  }

  function Decimal(ds: string): nat
    requires forall k :: 0 <= k < |ds| ==> IsDigit(ds[k])
  {
    if ds == [] then 0
    else
      assert IsDigit(ds[|ds| - 1]);
      var d := ds[|ds| - 1] as int - '0' as int;
      10 * Decimal(ds[..|ds| - 1]) + d
  }

  /** `parseInt(s, 10)`: leading space skipped, an optional sign, the leading digits; none when there is no digit (NaN). */
  function ParseInt(s: string): Option<int> {
    var i := NonSpaceFrom(s, 0);
    var j := if i < |s| && (s[i] == '-' || s[i] == '+') then i + 1 else i;
    var k := DigitsEnd(s, j);
    var v: int := Decimal(s[j..k]);
    if k == j then None
    else if i < |s| && s[i] == '-' then Some(-v)
    else Some(v)
  }

  function DigitChar(d: nat): char
    requires d < 10
  {
    ('0' as int + d) as char
  }

  function Digits(n: nat): (r: string)
    ensures r != [] && forall k :: 0 <= k < |r| ==> IsDigit(r[k])
  {
    if n < 10 then [DigitChar(n)] else Digits(n / 10) + [DigitChar(n % 10)]
  }

  /** How a number input shows an integer. */
  function IntToDecimal(n: int): string {
    if n < 0 then "-" + Digits(-n) else Digits(n)
  }

  lemma {:induction false} DecimalDigits(n: nat)
    ensures Decimal(Digits(n)) == n
  {
    if n >= 10 {
      DecimalDigits(n / 10);
      var ds := Digits(n);
      assert ds[..|ds| - 1] == Digits(n / 10);
    }
  }

  lemma DigitsEndAll(s: string, i: nat)
    requires i <= |s| && forall k :: i <= k < |s| ==> IsDigit(s[k])
    ensures DigitsEnd(s, i) == |s|
  {
  }

  /** Reading back what the input shows gives the number. */
  lemma ParseIntRoundTrip(n: int)
    ensures ParseInt(IntToDecimal(n)) == Some(n)
  {
    var s := IntToDecimal(n);
    var m: nat := if n < 0 then -n else n;
    var j := if n < 0 then 1 else 0;
    assert !IsSpace(s[0]);
    NonSpaceFromSame(s, 0);
    DigitsEndAll(s, j);
    assert s[j..|s|] == Digits(m);
    DecimalDigits(m);
  }

  /** `parseInt(value, 10) || 10`: NaN and zero fall back to 10. */
  function MaxResultsOf(input: string): (r: int)
    ensures r != 0
    ensures ParseInt(input).Some? && ParseInt(input).value != 0 ==> r == ParseInt(input).value
  {
    match ParseInt(input)
    case Some(n) => if n != 0 then n else 10
    case None => 10
  }

  /** `value || "@"`. */
  function TriggerOf(input: string): (r: string)
    ensures r != ""
    ensures input != "" ==> r == input
  {
    if input != "" then input else "@"
  }

  /** A saved limit shows and reads back as itself, and a zero limit as 10. */
  lemma MaxResultsRoundTrip(n: int)
    ensures MaxResultsOf(IntToDecimal(n)) == if n != 0 then n else 10
  {
    ParseIntRoundTrip(n);
  }

  // ------------------------------------------------------------- addresses

  /** A run of one or more characters, none a space or '@'. */
  predicate Word(t: string) {
    t != "" && forall k :: 0 <= k < |t| ==> !IsSpace(t[k]) && t[k] != '@'
  }

  predicate DomainShape(d: string) {
    exists j | 0 < j < |d| :: d[j] == '.' && Word(d[..j]) && Word(d[j + 1..])
  }

  /** `/^[^\s@]+@[^\s@]+\.[^\s@]+$/`. */
  predicate IsValidEmail(s: string) {
    exists i | 0 < i < |s| :: s[i] == '@' && Word(s[..i]) && DomainShape(s[i + 1..])
  }

  /** The '@' the check finds is the only one, and nothing in the address is a space. */
  lemma ValidEmailParts(s: string, i: nat)
    requires 0 < i < |s| && s[i] == '@' && Word(s[..i]) && DomainShape(s[i + 1..])
    ensures !HasSpace(s) && i < |s| - 1
    ensures forall k :: 0 <= k < |s| && s[k] == '@' ==> k == i
  {
    var d := s[i + 1..];
    var j :| 0 < j < |d| && d[j] == '.' && Word(d[..j]) && Word(d[j + 1..]);
    assert forall k :: 0 <= k < |d| ==> !IsSpace(d[k]) && d[k] != '@' by {
      forall k | 0 <= k < |d|
        ensures !IsSpace(d[k]) && d[k] != '@'
      {
        if k < j {
          assert d[k] == d[..j][k];
        } else if k > j {
          assert d[k] == d[j + 1..][k - j - 1];
        }
      }
    }
    forall k | 0 <= k < |s|
      ensures !IsSpace(s[k]) && (s[k] == '@' ==> k == i)
    {
      if k < i {
        assert s[k] == s[..i][k];
      } else if k > i {
        assert s[k] == d[k - i - 1];
      }
    }
  }

  /**
   * An address that passes the check has no space, one '@' with characters
   * on both sides, and trims to itself; without '<', '>' and '"' the
   * background's "name <address>" entry for it parses back to it.
   */
  lemma ValidEmailShape(s: string, name: string)
    requires IsValidEmail(s)
    ensures !HasSpace(s) && InnerAt(s) && Trim(s) == s
    ensures forall k :: 0 <= k < |s| && s[k] == '@' ==> Word(s[..k])
    ensures Lacks(s, '<') && Lacks(s, '>') && Lacks(name, '"') && Lacks(name, '<') ==> Formattable(name, s)
  {
    var i :| 0 < i < |s| && s[i] == '@' && Word(s[..i]) && DomainShape(s[i + 1..]);
    ValidEmailParts(s, i);
    TrimNoSpace(s);
  }
}
