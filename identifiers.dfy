/** How `mark_agent_dead` and `promote_agent` read their `codename_or_id`
    argument (main.py:155, 177): an int, or a string made only of digits, names
    an agent by id; any other string names it by codename. */
module Identifiers {
  import opened Schema

  datatype AgentRef = ById(id: int) | ByCodename(codename: string)

  /** Whether the WHERE clause the reference selects matches agent `a`. */
  predicate Matches(a: Agent, ref: AgentRef)
  {
    match ref
    case ById(i) => a.id == i
    case ByCodename(c) => a.codename == c
  }

  predicate IsDigit(c: char)
  {
    '0' <= c <= '9'
  }

  /** `str.isdigit()` on ASCII text: non-empty and digits only. */
  predicate IsDigits(s: string)
  {
    |s| > 0 && forall i :: 0 <= i < |s| ==> IsDigit(s[i])
  }

  /** `int(s)` on a string of decimal digits. */
  function DigitsValue(s: string): (n: nat)
    requires forall i :: 0 <= i < |s| ==> IsDigit(s[i])
  {
    if s == [] then 0
    else
      assert IsDigit(s[|s| - 1]);
      DigitsValue(s[..|s| - 1]) * 10 + (s[|s| - 1] as int - '0' as int)
  }

  /** The decimal text of a natural number, without leading zeros. */
  function DecimalString(n: nat): (s: string)
    ensures IsDigits(s)
  {
    if n < 10 then [('0' as int + n) as char]
    else DecimalString(n / 10) + [('0' as int + n % 10) as char]
  }

  /** The reading both functions apply to a textual identifier. */
  function ParseRef(s: string): (r: AgentRef)
    ensures r.ById? <==> IsDigits(s)
    ensures r.ByCodename? ==> r.codename == s
  {
    if IsDigits(s) then ById(DigitsValue(s)) else ByCodename(s)
  }

  /** Writing a non-negative id in decimal and reading it back selects that id. */
  lemma {:induction false} DecimalRoundTrip(n: nat)
    ensures ParseRef(DecimalString(n)) == ById(n)
  {
    DigitsOfDecimal(n);
  }

  lemma {:induction false} DigitsOfDecimal(n: nat)
    ensures DigitsValue(DecimalString(n)) == n
  {
    var s := DecimalString(n);
    if n >= 10 {
      DigitsOfDecimal(n / 10);
      assert s[..|s| - 1] == DecimalString(n / 10);
    }
  }

  /** An agent whose codename is all digits cannot be reached by codename:
      the same text is read as an id instead. */
  lemma DigitCodenameReadAsId(a: Agent)
    requires IsDigits(a.codename)
    ensures ParseRef(a.codename) == ById(DigitsValue(a.codename))
    ensures Matches(a, ParseRef(a.codename)) <==> a.id == DigitsValue(a.codename)
  {
  }
}
