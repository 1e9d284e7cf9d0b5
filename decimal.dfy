/**
 * Decimal rendering of identifiers, as Java's string concatenation renders a
 * `long` or an `int` (`"/books/" + book.getIsbn()`), together with a reader
 * that inverts it. The reader is not part of the resource class; it is the
 * reference against which the link lists are shown to name the resources they
 * claim to name.
 */
module Decimal {
  import opened Wrappers

  predicate IsDigit(c: char) {
    '0' <= c <= '9'
  }

  predicate AllDigits(s: string) {
    forall i :: 0 <= i < |s| ==> IsDigit(s[i])
  }

  function DigitValue(c: char): (d: nat)
    requires IsDigit(c)
    ensures d < 10
  {
    c as int - '0' as int
  }

  function DigitChar(d: nat): (c: char)
    requires d < 10
    ensures IsDigit(c) && DigitValue(c) == d
  {
    ('0' as int + d) as char
  }

  /** The digits of `n`, most significant first, with no leading zero. */
  function NatToString(n: nat): (s: string)
    ensures |s| >= 1 && AllDigits(s)
    ensures s[0] == '0' <==> n == 0
    decreases n
  {
    if n < 10 then [DigitChar(n)] else NatToString(n / 10) + [DigitChar(n % 10)]
  }

  /** `Long.toString`: a minus sign before the digits of a negative value. */
  function IntToString(n: int): (s: string)
    ensures |s| >= 1 && IsDigit(s[|s| - 1])
    ensures s[0] == '-' <==> n < 0
    ensures forall i :: 0 <= i < |s| ==> s[i] == '-' || IsDigit(s[i])
    ensures var digits := if n < 0 then s[1..] else s;
      |digits| >= 1 && AllDigits(digits) && (digits[0] == '0' ==> digits == "0" && n == 0)
  {
    if n < 0 then "-" + NatToString(-n) else NatToString(n)
  }

  /** The value of a run of digits (the empty run reads as 0). */
  function ParseDigits(s: string): nat
    requires AllDigits(s)
  {
    if s == [] then 0 else 10 * ParseDigits(s[..|s| - 1]) + DigitValue(s[|s| - 1])
  }

  /** Reads an optionally negative decimal integer; anything else is `None`. */
  function ParseInt(s: string): Option<int> {
    if |s| >= 2 && s[0] == '-' && AllDigits(s[1..]) then
      var magnitude: int := ParseDigits(s[1..]);
      Some(-magnitude)
    else if |s| >= 1 && AllDigits(s) then Some(ParseDigits(s))
    else None
  }

  lemma {:induction false} ParseNatToString(n: nat)
    ensures ParseDigits(NatToString(n)) == n
    decreases n
  {
    if n >= 10 {
      var s := NatToString(n);
      assert s[..|s| - 1] == NatToString(n / 10);
      ParseNatToString(n / 10);
    }
  }

  /** A run of digits reads as its value. */
  lemma ParseIntOfDigits(t: string)
    requires |t| >= 1 && AllDigits(t)
    ensures ParseInt(t) == Some(ParseDigits(t))
  {
  }

  /** A minus sign before a run of digits reads as the negated value. */
  lemma ParseIntOfNegated(t: string)
    requires |t| >= 1 && AllDigits(t)
    ensures ParseInt("-" + t) == Some(-(ParseDigits(t) as int))
  {
  }

  /** Rendering loses nothing: the rendered text reads back as the same value. */
  lemma ParseIntToString(n: int)
    ensures ParseInt(IntToString(n)) == Some(n)
  {
    if n < 0 {
      var t := NatToString(-n);
      assert IntToString(n) == "-" + t;
      ParseIntOfNegated(t);
      ParseNatToString(-n);
    } else {
      ParseIntOfDigits(NatToString(n));
      ParseNatToString(n);
    }
  }

  /** Two identifiers render alike only when they are equal. */
  lemma IntToStringInjective(m: int, n: int)
    ensures IntToString(m) == IntToString(n) <==> m == n
  {
    ParseIntToString(m);
    ParseIntToString(n);
  }

  /** A rendered identifier followed directly by a non-digit is not a number. */
  lemma ParseIntRejectsSuffix(n: int, t: string)
    requires |t| >= 1 && !IsDigit(t[0])
    ensures ParseInt(IntToString(n) + t) == None
  {
    var r := IntToString(n);
    var s := r + t;
    assert s[|r|] == t[0];
    assert !AllDigits(s);
    if |s| >= 2 && s[0] == '-' {
      assert s[1..][|r| - 1] == t[0];
      assert !AllDigits(s[1..]);
    }
  }
}
