/** The few Python string operations the catalog code relies on: str.strip(),
    str.lower() / case-insensitive comparison, str.title(), int(str) and str(int).
    Case mapping covers ASCII letters only (see README, "Left out"). */
module Text {
  import opened Wrappers

  /** The characters for which Python's str.isspace() holds; str.strip() and
      int() discard them at both ends. */
  predicate IsSpace(c: char) {
    || c == ' '
    || ('\t' <= c <= '\r')
    || ('\U{1C}' <= c <= '\U{1F}')
    || c == '\U{85}' || c == '\U{A0}' || c == '\U{1680}'
    || ('\U{2000}' <= c <= '\U{200A}')
    || c == '\U{2028}' || c == '\U{2029}' || c == '\U{202F}' || c == '\U{205F}' || c == '\U{3000}'
  }

  /** Length of the whitespace run at the start of s. */
  function LeadingSpaces(s: string): (n: nat)
    ensures n <= |s|
    ensures forall k :: 0 <= k < n ==> IsSpace(s[k])
    ensures n < |s| ==> !IsSpace(s[n])
  {
    if |s| == 0 || !IsSpace(s[0]) then 0 else 1 + LeadingSpaces(s[1..])
  }

  /** Length of the whitespace run at the end of s. */
  function TrailingSpaces(s: string): (n: nat)
    ensures n <= |s|
    ensures forall k :: |s| - n <= k < |s| ==> IsSpace(s[k])
    ensures n < |s| ==> !IsSpace(s[|s| - 1 - n])
  {
    if |s| == 0 || !IsSpace(s[|s| - 1]) then 0 else 1 + TrailingSpaces(s[..|s| - 1])
  }

  /** Python's str.strip(): s without its leading and trailing whitespace. */
  function Strip(s: string): (r: string)
    ensures LeadingSpaces(s) + |r| <= |s|
    ensures r == s[LeadingSpaces(s)..LeadingSpaces(s) + |r|]
    ensures forall k :: LeadingSpaces(s) + |r| <= k < |s| ==> IsSpace(s[k])
    ensures r == [] || (!IsSpace(r[0]) && !IsSpace(r[|r| - 1]))
  {
    var t := s[LeadingSpaces(s)..];
    t[..|t| - TrailingSpaces(t)]
  }

  /** A string without whitespace at either end is left alone by strip(). */
  lemma StripKeeps(s: string)
    requires s == [] || (!IsSpace(s[0]) && !IsSpace(s[|s| - 1]))
    ensures Strip(s) == s
  {
  }

  /** strip() is idempotent. */
  lemma StripIdempotent(s: string)
    ensures Strip(Strip(s)) == Strip(s)
  {
    StripKeeps(Strip(s));
  }

  function LowerChar(c: char): char {
    if 'A' <= c <= 'Z' then (c as int + 32) as char else c
  }

  function UpperChar(c: char): char {
    if 'a' <= c <= 'z' then (c as int - 32) as char else c
  }

  /** Letters are the only cased characters in the ASCII range. */
  predicate IsCased(c: char) {
    'A' <= c <= 'Z' || 'a' <= c <= 'z'
  }

  /** str.lower(), character by character. */
  function Lower(s: string): (r: string)
    ensures |r| == |s|
    ensures forall i :: 0 <= i < |s| ==> r[i] == LowerChar(s[i])
  {
    if s == [] then [] else [LowerChar(s[0])] + Lower(s[1..])
  }

  /** The comparison behind Django's `__iexact` lookup on SQLite (and behind
      `a.lower() == b.lower()`): equal after lower-casing both sides. */
  predicate SameIgnoringCase(a: string, b: string) {
    Lower(a) == Lower(b)
  }

  /** str.title(): a cased character is upper-cased when the character before
      it is not cased, and lower-cased otherwise. */
  function TitleAfter(s: string, previousIsCased: bool): (r: string)
    ensures |r| == |s|
  {
    if s == [] then []
    else
      [if previousIsCased then LowerChar(s[0]) else UpperChar(s[0])]
      + TitleAfter(s[1..], IsCased(s[0]))
  }

  function Title(s: string): (r: string)
    ensures |r| == |s|
  {
    TitleAfter(s, false)
  }

  /** title() looks only at which characters are letters, never at their case. */
  lemma {:induction false} TitleAfterIgnoresCase(s: string, previousIsCased: bool)
    ensures TitleAfter(s, previousIsCased) == TitleAfter(Lower(s), previousIsCased)
    decreases |s|
  {
    if s != [] {
      TitleAfterIgnoresCase(s[1..], IsCased(s[0]));
      assert Lower(s)[1..] == Lower(s[1..]);
    }
  }

  /** Two spellings that differ only in case get the same title. */
  lemma TitleIgnoresCase(a: string, b: string)
    requires SameIgnoringCase(a, b)
    ensures Title(a) == Title(b)
  {
    TitleAfterIgnoresCase(a, false);
    TitleAfterIgnoresCase(b, false);
  }

  /** The title still spells the same word, case aside. */
  lemma {:induction false} TitleAfterSameIgnoringCase(s: string, previousIsCased: bool)
    ensures SameIgnoringCase(TitleAfter(s, previousIsCased), s)
    decreases |s|
  {
    if s != [] {
      TitleAfterSameIgnoringCase(s[1..], IsCased(s[0]));
      var t := TitleAfter(s, previousIsCased);
      assert t[1..] == TitleAfter(s[1..], IsCased(s[0]));
      assert Lower(t)[1..] == Lower(t[1..]);
      assert Lower(s)[1..] == Lower(s[1..]);
    }
  }

  predicate IsDigit(c: char) {
    '0' <= c <= '9'
  }

  predicate AllDigits(s: string) {
    forall i :: 0 <= i < |s| ==> IsDigit(s[i])
  }

  function DigitChar(d: nat): (c: char)
    requires d < 10
    ensures IsDigit(c)
  {
    ('0' as int + d) as char
  }

  /** The number a string of decimal digits denotes. */
  function DigitsValue(s: string): nat
    requires AllDigits(s)
  {
    if s == [] then 0 else 10 * DigitsValue(s[..|s| - 1]) + (s[|s| - 1] as int - '0' as int)
  }

  /** The decimal digits of n, without leading zeros. */
  function NatDigits(n: nat): (s: string)
    ensures |s| >= 1 && AllDigits(s)
  {
    if n < 10 then [DigitChar(n)] else NatDigits(n / 10) + [DigitChar(n % 10)]
  }

  lemma {:induction false} NatDigitsValue(n: nat)
    ensures DigitsValue(NatDigits(n)) == n
  {
    if n >= 10 {
      NatDigitsValue(n / 10);
      var s := NatDigits(n);
      assert s[..|s| - 1] == NatDigits(n / 10);
    }
  }

  /** Python's str(n) for an int. */
  function IntToString(i: int): (s: string)
    ensures |s| >= 1
  {
    if i < 0 then "-" + NatDigits(-i) else NatDigits(i)
  }

  /** Python's int(s) for a str: optional surrounding whitespace, an optional
      sign, then one or more decimal digits; anything else raises ValueError
      (None here). */
  function ParseInt(s: string): (r: Option<int>)
    ensures r.Some? ==> |Strip(s)| >= 1
  {
    var t := Strip(s);
    if |t| >= 2 && (t[0] == '-' || t[0] == '+') && AllDigits(t[1..]) then
      Some(if t[0] == '-' then -(DigitsValue(t[1..]) as int) else DigitsValue(t[1..]) as int)
    else if |t| >= 1 && AllDigits(t) then
      Some(DigitsValue(t))
    else
      None
  }

  /** int() of a string of digits is the number they denote. */
  lemma ParseDigits(t: string)
    requires |t| >= 1 && AllDigits(t)
    ensures ParseInt(t) == Some(DigitsValue(t))
  {
    assert !IsSpace(t[0]) && !IsSpace(t[|t| - 1]);
    StripKeeps(t);
    assert !(t[0] == '-' || t[0] == '+');
  }

  /** int() of a minus sign followed by digits is the negated number. */
  lemma ParseMinusDigits(t: string)
    requires |t| >= 2 && t[0] == '-' && AllDigits(t[1..])
    ensures ParseInt(t) == Some(-(DigitsValue(t[1..]) as int))
  {
    assert IsDigit(t[|t| - 1]) by { assert t[|t| - 1] == t[1..][|t| - 2]; }
    assert !IsSpace(t[0]) && !IsSpace(t[|t| - 1]);
    StripKeeps(t);
  }

  /** The digits of a natural number parse back to it. */
  lemma ParseNatDigits(n: nat)
    ensures ParseInt(IntToString(n)) == Some(n)
  {
    ParseDigits(NatDigits(n));
    NatDigitsValue(n);
  }

  /** A minus sign and the digits of a positive number parse back to the
      negative number. */
  lemma ParseNegatedDigits(n: nat)
    requires n > 0
    ensures ParseInt("-" + NatDigits(n)) == Some(-(n as int))
  {
    var s := "-" + NatDigits(n);
    assert s[1..] == NatDigits(n);
    ParseMinusDigits(s);
    NatDigitsValue(n);
  }

  /** int(str(i)) == i. */
  lemma ParseIntRoundTrip(i: int)
    ensures ParseInt(IntToString(i)) == Some(i)
  {
    if i < 0 {
      ParseNegatedDigits(-i);
    } else {
      ParseNatDigits(i);
    }
  }
}
