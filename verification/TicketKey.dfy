/** Ticket keys `TK-<n>`: parsing, formatting, and the round trip that makes numbers and keys
    interchangeable (packages/domain/src/ticket-key.ts). */
module TicketKey {
  import opened Common

  predicate IsDigit(c: char) { '0' <= c <= '9' }

  predicate AllDigits(s: string) { forall i :: 0 <= i < |s| ==> IsDigit(s[i]) }

  function DigitOf(d: nat): char
    requires d < 10
  {
    "0123456789"[d]
  }

  /** Decimal text of a number, without leading zeros. */
  function Digits(n: nat): string {
    if n < 10 then [DigitOf(n)] else Digits(n / 10) + [DigitOf(n % 10)]
  }

  /** Number denoted by a run of decimal digits. */
  function ValueOf(s: string): nat
    requires AllDigits(s)
  {
    if s == "" then 0 else ValueOf(s[..|s| - 1]) * 10 + (s[|s| - 1] as int - '0' as int)
  }

  /** The pattern `^TK-[1-9][0-9]*$`. */
  predicate HasKeyShape(s: string) {
    |s| >= 4 && s[..3] == "TK-" && s[3] != '0' && AllDigits(s[3..])
  }

  /** A number above the safe range is refused; `Number` rounds monotonically, so the test on the
      exact value is the test the program makes. */
  function ParseTicketKey(s: string): Option<nat> {
    if HasKeyShape(s) && ValueOf(s[3..]) <= MAX_SAFE_INTEGER then Some(ValueOf(s[3..])) else None
  }

  function FormatTicketKey(n: int): Option<string> {
    if 1 <= n <= MAX_SAFE_INTEGER then Some("TK-" + Digits(n)) else None
  }

  lemma {:induction false} DigitsDenote(n: nat)
    ensures Digits(n) != "" && AllDigits(Digits(n)) && ValueOf(Digits(n)) == n
    ensures n > 0 ==> Digits(n)[0] != '0'
  {
    if n >= 10 {
      DigitsDenote(n / 10);
      var s := Digits(n);
      assert s[..|s| - 1] == Digits(n / 10);
    } else {
      assert Digits(n)[..0] == "";
    }
  }

  lemma {:induction false} DigitsOfValue(s: string)
    requires s != "" && AllDigits(s) && s[0] != '0'
    ensures ValueOf(s) > 0 && Digits(ValueOf(s)) == s
  {
    var d := s[|s| - 1] as int - '0' as int;
    if |s| == 1 {
      assert s[..0] == "" && s == [DigitOf(d)];
    } else {
      var front := s[..|s| - 1];
      DigitsOfValue(front);
      assert s == front + [DigitOf(d)];
      assert ValueOf(s) / 10 == ValueOf(front) && ValueOf(s) % 10 == d;
    }
  }

  /** Every number with a key is recovered from its key. */
  lemma ParseFormatted(n: int)
    requires FormatTicketKey(n).Some?
    ensures ParseTicketKey(FormatTicketKey(n).value) == Some(n)
  {
    DigitsDenote(n);
    var s := "TK-" + Digits(n);
    assert s[3..] == Digits(n) && s[3] == Digits(n)[0];
  }

  /** A key that parses is the formatted text of its number: no second spelling exists. */
  lemma FormatParsed(s: string)
    requires ParseTicketKey(s).Some?
    ensures FormatTicketKey(ParseTicketKey(s).value) == Some(s)
  {
    assert s[3..][0] == s[3];
    DigitsOfValue(s[3..]);
    assert s == s[..3] + s[3..];
  }

  /** Distinct keys have distinct numbers; ordering by number is therefore a total order on keys. */
  lemma ParseInjective(a: string, b: string)
    requires ParseTicketKey(a).Some? && ParseTicketKey(a) == ParseTicketKey(b)
    ensures a == b
  {
    FormatParsed(a);
    FormatParsed(b);
  }

  /** A parsed key holds only visible characters, so no separator can hide inside it. */
  lemma ParsedHasNo(s: string, c: char)
    requires ParseTicketKey(s).Some? && !IsDigit(c) && c !in "TK-"
    ensures c !in s
  {
  }

  datatype KeyError = InvalidTicketKey(key: string) | DuplicateTicketKey(key: string)

  predicate AllParse(keys: seq<string>) {
    forall i :: 0 <= i < |keys| ==> ParseTicketKey(keys[i]).Some?
  }

  predicate Distinct<T(==)>(s: seq<T>) {
    forall i, j :: 0 <= i < j < |s| ==> s[i] != s[j]
  }

  /** `error` names key `i`, every earlier key is sound, and the kind of error is the right one. */
  predicate IsFirstFault(keys: seq<string>, i: nat, error: KeyError)
    requires i < |keys|
  {
    && AllParse(keys[..i]) && Distinct(keys[..i])
    && error == (if ParseTicketKey(keys[i]).None? then InvalidTicketKey(keys[i]) else DuplicateTicketKey(keys[i]))
    && (ParseTicketKey(keys[i]).Some? ==> keys[i] in keys[..i])
  }

  /** Refuses the first unparsable or repeated key; silent exactly when there is none. */
  method AssertUniqueKeys(keys: seq<string>) returns (error: Option<KeyError>)
    ensures error.None? <==> AllParse(keys) && Distinct(keys)
    ensures error.Some? ==> exists i :: 0 <= i < |keys| && IsFirstFault(keys, i, error.value)
  {
    var seen: set<string> := {};
    for i := 0 to |keys|
      invariant seen == set k | k in keys[..i]
      invariant AllParse(keys[..i]) && Distinct(keys[..i])
    {
      var key := keys[i];
      if ParseTicketKey(key).None? {
        assert IsFirstFault(keys, i, InvalidTicketKey(key));
        return Some(InvalidTicketKey(key));
      }
      if key in seen {
        assert IsFirstFault(keys, i, DuplicateTicketKey(key));
        return Some(DuplicateTicketKey(key));
      }
      seen := seen + {key};
      assert keys[..i + 1] == keys[..i] + [key];
    }
    assert keys[..|keys|] == keys;
    return None;
  }
}
