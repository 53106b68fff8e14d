/*******************************************************************************
 *  The few java.lang.String behaviours the system relies on: string
 *  conversion of null and of int values, trim(), replace(target, ""),
 *  startsWith/endsWith and ASCII toLowerCase().
 *******************************************************************************/

module JavaText {
  import opened Wrappers

  /** A Java `String` reference; `None` is `null`. */
  type JStr = Option<string>

  /** What string concatenation writes for a possibly-null string. */
  function Show(s: JStr): string {
    match s
    case Some(t) => t
    case None => "null"
  }

  predicate IsDigit(c: char) {
    '0' <= c <= '9'
  }

  predicate AllDigits(s: string) {
    forall i | 0 <= i < |s| :: IsDigit(s[i])
  }

  function DigitChar(d: nat): (c: char)
    requires d < 10
    ensures IsDigit(c) && c as int - '0' as int == d
  {
    ('0' as int + d) as char
  }

  /** Decimal digits of a natural number, most significant first, no leading zero. */
  function NatToString(n: nat): (r: string)
    ensures 0 < |r| && AllDigits(r)
    ensures 1 < |r| ==> r[0] != '0'
    ensures n < 10 <==> |r| == 1
    decreases n
  {
    if n < 10 then [DigitChar(n)] else NatToString(n / 10) + [DigitChar(n % 10)]
  }

  /** `String.valueOf(int)`: an optional minus sign followed by the digits. */
  function IntToString(n: int): (r: string)
    ensures 0 < |r|
    ensures n < 0 <==> r[0] == '-'
  {
    if n < 0 then "-" + NatToString(-n) else NatToString(n)
  }

  /** The value of a run of decimal digits. */
  function DigitsValue(s: string): nat
    requires AllDigits(s)
  {
    if |s| == 0 then 0 else DigitsValue(s[..|s| - 1]) * 10 + (s[|s| - 1] as int - '0' as int)
  }

  /** A decimal integer: an optional minus sign and at least one digit. */
  function ParseDecimal(s: string): Option<int> {
    if 1 < |s| && s[0] == '-' && AllDigits(s[1..]) then Some(-(DigitsValue(s[1..]) as int))
    else if 0 < |s| && AllDigits(s) then Some(DigitsValue(s))
    else None
  }

  lemma {:induction false} NatToStringValue(n: nat)
    ensures DigitsValue(NatToString(n)) == n
    decreases n
  {
    if 10 <= n {
      NatToStringValue(n / 10);
      var s := NatToString(n);
      assert s[..|s| - 1] == NatToString(n / 10);
    }
  }

  /** Reading back the text of an int gives the int. */
  lemma IntToStringRoundTrip(n: int)
    ensures ParseDecimal(IntToString(n)) == Some(n)
  {
    NatToStringValue(if n < 0 then -n else n);
    if n < 0 {
      assert IntToString(n)[1..] == NatToString(-n);
    }
  }

  predicate IsNumeric(c: char) {
    IsDigit(c) || c == '-'
  }

  /** The longest prefix made of digits and minus signs. */
  function NumericPrefix(s: string): (r: string)
    ensures r <= s
  {
    if 0 < |s| && IsNumeric(s[0]) then [s[0]] + NumericPrefix(s[1..]) else []
  }

  lemma {:induction false} NumericPrefixStops(a: string, b: string)
    requires forall i | 0 <= i < |a| :: IsNumeric(a[i])
    requires 0 < |b| && !IsNumeric(b[0])
    ensures NumericPrefix(a + b) == a
  {
    if 0 < |a| {
      assert (a + b)[1..] == a[1..] + b;
      NumericPrefixStops(a[1..], b);
    } else {
      assert a + b == b;
    }
  }

  /** The text of an int, followed by anything that does not start with a digit or
      a minus sign, is recovered whole by reading its leading number. */
  lemma IntToStringReadsBack(n: int, rest: string)
    requires 0 < |rest| && !IsNumeric(rest[0])
    ensures ParseDecimal(NumericPrefix(IntToString(n) + rest)) == Some(n)
  {
    var t := IntToString(n);
    if n < 0 {
      assert t[1..] == NatToString(-n);
    }
    NumericPrefixStops(t, rest);
    IntToStringRoundTrip(n);
  }

  /** `String.valueOf(boolean)`. */
  function BoolToString(b: bool): string {
    if b then "true" else "false"
  }

  /** `s.startsWith(p)`. */
  predicate StartsWith(s: string, p: string) {
    p <= s
  }

  /** `s.endsWith(p)`. */
  predicate EndsWith(s: string, p: string) {
    |p| <= |s| && s[|s| - |p|..] == p
  }

  /** Java trims every character at or below the space character. */
  predicate IsTrimmable(c: char) {
    c <= ' '
  }

  function TrimStart(s: string): (r: string)
    ensures |r| <= |s| && r == s[|s| - |r|..]
    ensures forall k | 0 <= k < |s| - |r| :: IsTrimmable(s[k])
    ensures 0 < |r| ==> !IsTrimmable(r[0])
  {
    if 0 < |s| && IsTrimmable(s[0]) then TrimStart(s[1..]) else s
  }

  function TrimEnd(s: string): (r: string)
    ensures |r| <= |s| && r == s[..|r|]
    ensures forall k | |r| <= k < |s| :: IsTrimmable(s[k])
    ensures 0 < |r| ==> !IsTrimmable(r[|r| - 1])
  {
    if 0 < |s| && IsTrimmable(s[|s| - 1]) then TrimEnd(s[..|s| - 1]) else s
  }

  /** How many trimmable characters `s` starts with. */
  function LeadingBlanks(s: string): nat {
    |s| - |TrimStart(s)|
  }

  /** `s.trim()`: the slice of `s` left once the trimmable characters at both ends are
      gone; the slice starts and ends with a non-trimmable character. */
  function Trim(s: string): (r: string)
    ensures LeadingBlanks(s) + |r| <= |s|
    ensures r == s[LeadingBlanks(s)..LeadingBlanks(s) + |r|]
    ensures forall k | 0 <= k < LeadingBlanks(s) :: IsTrimmable(s[k])
    ensures forall k | LeadingBlanks(s) + |r| <= k < |s| :: IsTrimmable(s[k])
    ensures 0 < |r| ==> !IsTrimmable(r[0]) && !IsTrimmable(r[|r| - 1])
  {
    var t := TrimStart(s);
    var r := TrimEnd(t);
    SuffixOfSuffix(s, t, r);
    r
  }

  /** A prefix `r` of a suffix `t` of `s` is the slice of `s` at `|s| - |t|`, and what
      follows it in `s` is what follows it in `t`. */
  lemma SuffixOfSuffix(s: string, t: string, r: string)
    requires |t| <= |s| && t == s[|s| - |t|..]
    requires |r| <= |t| && r == t[..|r|]
    ensures r == s[|s| - |t|..|s| - |t| + |r|]
    ensures forall k | |s| - |t| + |r| <= k < |s| :: s[k] == t[k - (|s| - |t|)]
  {
  }

  predicate IsTrimmed(s: string) {
    0 < |s| ==> !IsTrimmable(s[0]) && !IsTrimmable(s[|s| - 1])
  }

  /** Trimming a string that starts and ends with a visible character changes nothing. */
  lemma TrimOfTrimmed(s: string)
    requires IsTrimmed(s)
    ensures Trim(s) == s
  {
  }

  /** `s.replace(p, "")`: every occurrence of `p`, scanning left to right, removed. */
  function RemoveAll(s: string, p: string): (r: string)
    requires 0 < |p|
    ensures |r| <= |s|
    decreases |s|
  {
    if |s| < |p| then s
    else if s[..|p|] == p then RemoveAll(s[|p|..], p)
    else [s[0]] + RemoveAll(s[1..], p)
  }

  /** A prefix none of whose characters can start `p` survives the removal untouched. */
  lemma {:induction false} RemoveAllKeepsPlainPrefix(a: string, b: string, p: string)
    requires 0 < |p|
    requires forall i | 0 <= i < |a| :: a[i] != p[0]
    ensures RemoveAll(a + b, p) == a + RemoveAll(b, p)
    decreases |a|
  {
    if |a| == 0 {
      assert a + b == b;
    } else if |a + b| < |p| {
      assert RemoveAll(b, p) == b;
    } else {
      assert (a + b)[0] == a[0];
      assert (a + b)[..|p|] != p;
      assert (a + b)[1..] == a[1..] + b;
      RemoveAllKeepsPlainPrefix(a[1..], b, p);
    }
  }

  function LowerChar(c: char): char {
    if 'A' <= c <= 'Z' then (c as int + 32) as char else c
  }

  /** `s.toLowerCase()` restricted to the ASCII letters: no upper-case letter is left,
      and a text without one comes back unchanged. */
  function ToLowerAscii(s: string): (r: string)
    ensures |r| == |s|
    ensures forall i | 0 <= i < |s| :: r[i] == LowerChar(s[i])
    ensures forall i | 0 <= i < |r| :: !('A' <= r[i] <= 'Z')
    ensures (forall i | 0 <= i < |s| :: !('A' <= s[i] <= 'Z')) ==> r == s
  {
    seq(|s|, i requires 0 <= i < |s| => LowerChar(s[i]))
  }

  /** Lower-casing twice is lower-casing once. */
  lemma ToLowerAsciiIdempotent(s: string)
    ensures ToLowerAscii(ToLowerAscii(s)) == ToLowerAscii(s)
  {
  }
}
