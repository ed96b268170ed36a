/**
 * Timestamps and their text form. The program stores `datetime` values and
 * writes them with `isoformat()`, reading them back with `fromisoformat()`.
 * Here a timestamp is a count of time units since a fixed origin, and its
 * text form is the canonical decimal numeral of that count; what the rest of
 * the program relies on (that the two conversions are inverse to each other)
 * is proved below rather than assumed.
 */
module IsoTime {
  import opened Wrappers

  /** A point in time: units elapsed since the earliest representable instant. */
  type Time = nat

  predicate IsDigit(c: char) { '0' <= c <= '9' }

  function DigitChar(d: nat): (c: char)
    requires d < 10
    ensures IsDigit(c)
  {
    ('0' as int + d) as char
  }

  function DigitValue(c: char): (d: nat)
    requires IsDigit(c)
    ensures d < 10 && DigitChar(d) == c
  {
    c as int - '0' as int
  }

  /** A numeral the parser accepts: digits only, at least one, no leading zero unless it is "0". */
  predicate Canonical(s: string) {
    s != [] && (forall i :: 0 <= i < |s| ==> IsDigit(s[i])) && (|s| > 1 ==> s[0] != '0')
  }

  /** `isoformat()`: the text written for a timestamp. */
  function Format(t: Time): (s: string)
    ensures Canonical(s)
  {
    if t < 10 then [DigitChar(t)]
    else
      var p := Format(t / 10);
      assert (p + [DigitChar(t % 10)])[0] == p[0];
      p + [DigitChar(t % 10)]
  }

  /** The number a string of digits denotes, most significant digit first. */
  function Value(s: string): nat
    requires forall i :: 0 <= i < |s| ==> IsDigit(s[i])
  {
    if s == [] then 0 else Value(s[..|s| - 1]) * 10 + DigitValue(s[|s| - 1])
  }

  /** `fromisoformat()`: the timestamp a text denotes, or `None` (a `ValueError`) when it denotes none. */
  function Parse(s: string): (r: Option<Time>)
    ensures r.Some? ==> Format(r.value) == s
    ensures r.None? ==> forall t: Time :: Format(t) != s
  {
    if Canonical(s) then
      FormatOfValue(s);
      Some(Value(s))
    else None
  }

  lemma {:induction false} ValueOfFormat(t: Time)
    ensures Value(Format(t)) == t
  {
    if t >= 10 {
      ValueOfFormat(t / 10);
      var s := Format(t);
      assert s[..|s| - 1] == Format(t / 10);
    }
  }

  lemma {:induction false} LeadingDigitBound(s: string)
    requires Canonical(s) && s[0] != '0'
    ensures Value(s) >= 1
  {
    if |s| > 1 {
      LeadingDigitBound(s[..|s| - 1]);
    }
  }

  lemma {:induction false} FormatOfValue(s: string)
    requires Canonical(s)
    ensures Format(Value(s)) == s
  {
    if |s| > 1 {
      var p := s[..|s| - 1];
      LeadingDigitBound(p);
      FormatOfValue(p);
      assert Value(s) / 10 == Value(p) && Value(s) % 10 == DigitValue(s[|s| - 1]);
    }
  }

  /** Reading back what was written gives the timestamp that was written. */
  lemma ParseFormat(t: Time)
    ensures Parse(Format(t)) == Some(t)
  {
    ValueOfFormat(t);
  }

  /** The two conversions are a bijection: a text parses to `t` exactly when it is the text written for `t`. */
  lemma ParseIsInverse(s: string, t: Time)
    ensures Parse(s) == Some(t) <==> s == Format(t)
  {
    if s == Format(t) { ParseFormat(t); }
    if Parse(s) == Some(t) { FormatOfValue(s); }
  }
}
