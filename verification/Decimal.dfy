/** Printing and reading unsigned decimal numbers. */
module Decimal {
  import opened Wrappers
  import opened Text

  predicate IsDigit(c: char) {
    '0' <= c <= '9'
  }

  lemma TenDigits(c: char)
    ensures IsDigit(c) <==> c in "0123456789"
  {
  }

  predicate AllDigits(s: string) {
    forall c | c in s :: IsDigit(c)
  }

  function DigitChar(d: nat): (c: char)
    requires d < 10
    ensures IsDigit(c) && c as int - '0' as int == d
  {
    '0' + d as char
  }

  function Print(n: nat): string {
    if n < 10 then [DigitChar(n)] else Print(n / 10) + [DigitChar(n % 10)]
  }

  function Value(s: string): nat
    requires AllDigits(s)
  {
    if s == [] then 0
    else
      assert s[|s| - 1] in s;
      Value(s[..|s| - 1]) * 10 + (s[|s| - 1] as int - '0' as int)
  }

  lemma {:induction false} ValueOfPrint(n: nat)
    ensures Print(n) != [] && AllDigits(Print(n)) && Value(Print(n)) == n
  {
    if n < 10 {
    } else {
      ValueOfPrint(n / 10);
      assert Print(n)[..|Print(n)| - 1] == Print(n / 10);
    }
  }

  /** Ten is the first number of two digits, and no number starts with a zero but zero. */
  lemma {:induction false} PrintCanonical(n: nat)
    ensures Print(n) != "" && (n > 0 ==> Print(n)[0] != '0') && (|Print(n)| == 1 <==> n < 10)
    ensures Print(10) == "10"
  {
    if n >= 10 {
      PrintCanonical(n / 10);
    }
  }

  /** The leading digits of a text. */
  function Leading(s: string): (d: string)
    ensures AllDigits(d) && d <= s
    ensures |d| < |s| ==> !IsDigit(s[|d|])
  {
    if s == [] || !IsDigit(s[0]) then [] else [s[0]] + Leading(s[1..])
  }

  lemma {:induction false} LeadingAll(s: string)
    requires AllDigits(s)
    ensures Leading(s) == s
  {
    if s == [] {
    } else {
      LeadingAll(s[1..]);
    }
  }

  lemma {:induction false} LeadingStops(s: string, rest: string)
    requires AllDigits(s) && rest != "" && !IsDigit(rest[0])
    ensures Leading(s + rest) == s
  {
    if s == [] {
    } else {
      assert (s + rest)[1..] == s[1..] + rest;
      LeadingStops(s[1..], rest);
    }
  }

  const INT_LIMIT := 0x8000_0000

  function SkipSpaces(s: string): string {
    if s != "" && IsSpace(s[0] as int) then SkipSpaces(s[1..]) else s
  }

  /** The number at the start of a text, if it fits 32 bits; what follows is ignored. */
  function ParseInt(s: string): Option<int> {
    var t := SkipSpaces(s);
    var signed := t != "" && (t[0] == '-' || t[0] == '+');
    var digits := Leading(if signed then t[1..] else t);
    var v: int := Value(digits);
    var n := if signed && t[0] == '-' then -v else v;
    if digits == "" || n < -INT_LIMIT || n >= INT_LIMIT then None else Some(n)
  }

  lemma ParseIntOfPrint(n: nat)
    ensures ParseInt(Print(n)) == if n < INT_LIMIT then Some(n) else None
  {
    hide Print, Leading, Value;
    ValueOfPrint(n);
    LeadingAll(Print(n));
    assert IsDigit(Print(n)[0]);
  }

  /** Reading a number: white space in front, a sign, the digits up to the first other
      character, and a value that fits 32 bits. */
  lemma {:induction false} ParseIntExact(spaces: string, sign: string, digits: string, rest: string)
    requires (forall c | c in spaces :: IsSpace(c as int)) && sign in {"", "+", "-"}
    requires AllDigits(digits) && digits != "" && (rest != "" ==> !IsDigit(rest[0]))
    ensures var v: int := Value(digits);
            var n := if sign == "-" then -v else v;
            ParseInt(spaces + sign + digits + rest)
              == if -0x8000_0000 <= n <= 0x7FFF_FFFF then Some(n) else None
  {
    hide Value, Leading, SkipSpaces;
    var t := sign + digits + rest;
    assert spaces + sign + digits + rest == spaces + t;
    assert digits[0] in digits;
    SpacesSkipped(spaces, t);
    LeadingRest(digits, rest);
    if sign == "" {
      assert t == digits + rest;
    } else {
      assert t[1..] == digits + rest;
    }
  }

  lemma {:induction false} LeadingRest(digits: string, rest: string)
    requires AllDigits(digits) && (rest != "" ==> !IsDigit(rest[0]))
    ensures Leading(digits + rest) == digits
  {
    if rest == "" {
      assert digits + rest == digits;
      LeadingAll(digits);
    } else {
      LeadingStops(digits, rest);
    }
  }

  lemma {:induction false} SpacesSkipped(spaces: string, t: string)
    requires (forall c | c in spaces :: IsSpace(c as int)) && (t != "" ==> !IsSpace(t[0] as int))
    ensures SkipSpaces(spaces + t) == t
  {
    if spaces == "" {
      assert spaces + t == t;
      assert SkipSpaces(t) == t;
    } else {
      assert spaces[0] in spaces && forall c | c in spaces[1..] :: c in spaces;
      assert (spaces + t)[1..] == spaces[1..] + t;
      SpacesSkipped(spaces[1..], t);
    }
  }

  /** Without a digit where the number should be there is none. */
  lemma {:induction false} ParseIntNone(spaces: string, sign: string, rest: string)
    requires (forall c | c in spaces :: IsSpace(c as int)) && sign in {"", "+", "-"}
    requires rest != "" ==> !IsDigit(rest[0]) && (sign == "" ==> rest[0] !in {'+', '-'} && !IsSpace(rest[0] as int))
    ensures ParseInt(spaces + sign + rest).None?
  {
    hide Value, Leading, SkipSpaces;
    var t := sign + rest;
    assert spaces + sign + rest == spaces + t;
    SpacesSkipped(spaces, t);
    LeadingRest("", rest);
    assert "" + rest == rest;
    if sign == "" {
      assert t == rest;
    } else {
      assert t[1..] == rest;
    }
  }
}
