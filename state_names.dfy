/**
 * The display names of states: `"state" + id`, where Java renders the int in decimal
 * (`Integer.toString`), with a leading '-' for negative values.
 */
module StateNames {

  import opened Optional

  predicate IsDigit(c: char) {
    '0' <= c <= '9'
  }

  function Digit(d: nat): (c: char)
    requires d < 10
    ensures IsDigit(c) && DigitValue(c) == d
  {
    ('0' as int + d) as char
  }

  function DigitValue(c: char): nat
    requires IsDigit(c)
  {
    c as int - '0' as int
  }

  predicate AllDigits(s: string) {
    forall i :: 0 <= i < |s| ==> IsDigit(s[i])
  }

  /** Decimal digits of n, most significant first, without leading zeros. */
  function NatString(n: nat): (s: string)
    ensures |s| > 0 && AllDigits(s)
    decreases n
  {
    if n < 10 then [Digit(n)] else NatString(n / 10) + [Digit(n % 10)]
  }

  /** `Integer.toString(n)`. */
  function IntString(n: int): string {
    if n < 0 then "-" + NatString(-n) else NatString(n)
  }

  /** The number a non-empty digit string denotes. */
  function ParseNat(s: string): nat
    requires |s| > 0 && AllDigits(s)
    decreases |s|
  {
    if |s| == 1 then DigitValue(s[0])
    else 10 * ParseNat(s[..|s| - 1]) + DigitValue(s[|s| - 1])
  }

  /** Reads back what `IntString` writes; None for anything else. */
  function ParseInt(s: string): Option<int> {
    if |s| > 1 && s[0] == '-' && AllDigits(s[1..]) then Some(0 - ParseNat(s[1..]) as int)
    else if |s| > 0 && AllDigits(s) then Some(ParseNat(s))
    else None
  }

  lemma {:induction false} ParseNatString(n: nat)
    ensures ParseNat(NatString(n)) == n
    decreases n
  {
    if n >= 10 {
      var s := NatString(n);
      assert s[..|s| - 1] == NatString(n / 10);
      ParseNatString(n / 10);
    }
  }

  lemma {:induction false} ParseIntString(n: int)
    ensures ParseInt(IntString(n)) == Some(n)
  {
    if n < 0 {
      var s := IntString(n);
      assert s[1..] == NatString(-n);
      ParseNatString(-n);
    } else {
      ParseNatString(n);
    }
  }

  /** Recovers the id from a name produced by `NewStateName`. */
  function ParseStateName(s: string): Option<int> {
    if |s| > 5 && s[..5] == "state" then ParseInt(s[5..]) else None
  }

  /** `getNewStateName(id)`: the name is "state" followed by the id, which can be read back from it. */
  function NewStateName(id: int): (r: string)
    ensures |r| > 5 && r[..5] == "state"
    ensures ParseStateName(r) == Some(id)
  {
    var r := "state" + IntString(id);
    assert r[5..] == IntString(id);
    ParseIntString(id);
    r
  }

  /** Distinct ids never share a name. */
  lemma NewStateNameInjective(i: int, j: int)
    requires NewStateName(i) == NewStateName(j)
    ensures i == j
  {
  }

}
