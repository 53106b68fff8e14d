/*******************************************************************************
 *  Medical records and the ISO-8601 local-date check they rely on
 *  (`LocalDate.parse` with the strict ISO date formatter).
 *******************************************************************************/

module MedicalRecords {
  import opened Wrappers
  import opened JavaText
  import Locations

  /** `LocalDate` accepts years up to nine digits in magnitude. */
  const MaxYear: int := 999999999

  /** The record constructor refuses treatment dates before this year. */
  const MinimumYear: int := 1900

  datatype Date = Date(year: int, month: int, day: int)

  /** Proleptic Gregorian leap years. */
  predicate IsLeapYear(y: int) {
    y % 4 == 0 && (y % 100 != 0 || y % 400 == 0)
  }

  function DaysInMonth(y: int, m: int): int
    requires 1 <= m <= 12
  {
    if m == 2 then (if IsLeapYear(y) then 29 else 28)
    else if m == 4 || m == 6 || m == 9 || m == 11 then 30
    else 31
  }

  /** A date `LocalDate.of` accepts. */
  predicate ValidDate(d: Date) {
    -MaxYear <= d.year <= MaxYear && 1 <= d.month <= 12 && 1 <= d.day <= DaysInMonth(d.year, d.month)
  }

  /** How many digits follow position `from`. */
  function DigitRun(s: string, from: nat): (n: nat)
    requires from <= |s|
    ensures from + n <= |s| && AllDigits(s[from..from + n])
    ensures from + n == |s| || !IsDigit(s[from + n])
    decreases |s| - from
  {
    if from < |s| && IsDigit(s[from]) then
      var n := DigitRun(s, from + 1);
      assert s[from..from + 1 + n] == [s[from]] + s[from + 1..from + 1 + n];
      1 + n
    else 0
  }

  /** 1 when the text opens with a sign character. */
  function SignLength(s: string): nat {
    if 0 < |s| && (s[0] == '+' || s[0] == '-') then 1 else 0
  }

  /** `LocalDate.parse(s, ISO_DATE)` on offset-free text. The year is a run of 4 to 10
      digits: exactly four without a sign, more than four after '+', and anything but
      zero after '-'. Month and day are two digits each, separated by '-', and the
      resulting date must exist. Nothing may follow the day. */
  function ParseIsoLocalDate(s: string): (r: Option<Date>)
    ensures r.Some? ==> ValidDate(r.value)
  {
    var start := SignLength(s);
    var end := start + DigitRun(s, start);
    if |s| != end + 6 then None else ParseFields(s[..start], s[start..end], s[end..])
  }

  function ParseFields(sign: string, digits: string, rest: string): (r: Option<Date>)
    requires AllDigits(digits) && |rest| == 6
    ensures r.Some? ==> ValidDate(r.value)
  {
    if |digits| < 4 || 10 < |digits| then None
    else if rest[0] != '-' || rest[3] != '-' || !AllDigits(rest[1..3]) || !AllDigits(rest[4..]) then None
    else
      var magnitude: int := DigitsValue(digits);
      var signOk := if sign == "" then |digits| == 4 else if sign == "+" then 4 < |digits| else magnitude != 0;
      var year := if sign == "-" then -magnitude else magnitude;
      var d := Date(year, DigitsValue(rest[1..3]), DigitsValue(rest[4..]));
      if signOk && ValidDate(d) then Some(d) else None
  }

  /* ---------------------------------------------------------------------------
   *  The ISO rendering of a date (`LocalDate.toString()`), the parser's partner
   * ------------------------------------------------------------------------- */

  function PadTo4(t: string): (r: string)
    ensures |r| == if |t| < 4 then 4 else |t|
    decreases 4 - |t|
  {
    if |t| < 4 then PadTo4("0" + t) else t
  }

  /** Four digits at least; a '+' for years past 9999 and a '-' for negative years. */
  function YearSign(y: int): string {
    if y < 0 then "-" else if 9999 < y then "+" else ""
  }

  function YearDigits(y: int): string {
    PadTo4(NatToString(if y < 0 then -y else y))
  }

  function TwoDigitText(n: int): string
    requires 0 <= n < 100
  {
    [DigitChar(n / 10), DigitChar(n % 10)]
  }

  function DateTail(d: Date): string
    requires ValidDate(d)
  {
    "-" + TwoDigitText(d.month) + "-" + TwoDigitText(d.day)
  }

  function FormatDate(d: Date): string
    requires ValidDate(d)
  {
    YearSign(d.year) + YearDigits(d.year) + DateTail(d)
  }

  function Pow10(k: nat): nat {
    if k == 0 then 1 else 10 * Pow10(k - 1)
  }

  lemma {:induction false} NatToStringLength(n: nat, k: nat)
    requires 0 < k
    ensures n < Pow10(k) <==> |NatToString(n)| <= k
    decreases k
  {
    PowerAtLeastTen(k);
    if 10 <= n {
      if k == 1 {
        assert |NatToString(n)| == |NatToString(n / 10)| + 1;
      } else {
        NatToStringLength(n / 10, k - 1);
        assert |NatToString(n)| == |NatToString(n / 10)| + 1;
        assert n < Pow10(k) <==> n / 10 < Pow10(k - 1);
      }
    }
  }

  lemma {:induction false} PowerAtLeastTen(k: nat)
    requires 0 < k
    ensures 10 <= Pow10(k)
  {
    if 1 < k {
      PowerAtLeastTen(k - 1);
    }
  }

  lemma {:induction false} PaddingKeepsValue(t: string)
    requires AllDigits(t)
    ensures AllDigits(PadTo4(t)) && DigitsValue(PadTo4(t)) == DigitsValue(t)
    decreases 4 - |t|
  {
    if |t| < 4 {
      LeadingZeroKeepsValue(t);
      PaddingKeepsValue("0" + t);
    }
  }

  lemma {:induction false} LeadingZeroKeepsValue(t: string)
    requires AllDigits(t)
    ensures AllDigits("0" + t) && DigitsValue("0" + t) == DigitsValue(t)
    decreases |t|
  {
    if 0 < |t| {
      assert ("0" + t)[..|t|] == "0" + t[..|t| - 1];
      LeadingZeroKeepsValue(t[..|t| - 1]);
    }
  }

  lemma TwoDigitTextValue(n: int)
    requires 0 <= n < 100
    ensures AllDigits(TwoDigitText(n)) && DigitsValue(TwoDigitText(n)) == n
  {
    var t := TwoDigitText(n);
    assert t[..1] == [DigitChar(n / 10)];
    assert t[..1][..0] == [];
    assert DigitsValue(t[..1]) == n / 10;
    assert t[1] as int - '0' as int == n % 10;
  }

  lemma YearPartsParse(y: int)
    requires -MaxYear <= y <= MaxYear
    ensures AllDigits(YearDigits(y)) && 4 <= |YearDigits(y)| <= 9
    ensures DigitsValue(YearDigits(y)) == if y < 0 then -y else y
    ensures YearSign(y) == "" ==> |YearDigits(y)| == 4
    ensures YearSign(y) == "+" ==> 4 < |YearDigits(y)|
  {
    var m: nat := if y < 0 then -y else y;
    NatToStringValue(m);
    PaddingKeepsValue(NatToString(m));
    assert Pow10(9) == 1000000000;
    NatToStringLength(m, 9);
    assert Pow10(4) == 10000;
    NatToStringLength(m, 4);
  }

  lemma DigitRunStops(a: string, b: string, from: nat)
    requires from <= |a| && AllDigits(a[from..]) && 0 < |b| && !IsDigit(b[0])
    ensures DigitRun(a + b, from) == |a| - from
    decreases |a| - from
  {
    if from < |a| {
      assert (a + b)[from] == a[from] == a[from..][0];
      assert AllDigits(a[from + 1..]) by { assert a[from + 1..] == a[from..][1..]; }
      DigitRunStops(a, b, from + 1);
    } else {
      assert (a + b)[from] == b[0];
    }
  }

  /** The three parts of a rendered date pass the field checks. */
  lemma RenderedFieldsParse(d: Date)
    requires ValidDate(d)
    ensures AllDigits(YearDigits(d.year)) && |DateTail(d)| == 6
    ensures ParseFields(YearSign(d.year), YearDigits(d.year), DateTail(d)) == Some(d)
  {
    YearPartsParse(d.year);
    TwoDigitTextValue(d.month);
    TwoDigitTextValue(d.day);
    var tail := DateTail(d);
    assert tail[1..3] == TwoDigitText(d.month);
    assert tail[4..] == TwoDigitText(d.day);
  }

  lemma ThreeParts(a: string, b: string, c: string)
    ensures var s := a + b + c;
      |s| == |a| + |b| + |c| && s[..|a|] == a && s[|a|..|a| + |b|] == b && s[|a| + |b|..] == c
  {
  }

  /** A sign (at most one character), a run of digits, then a non-digit: the parser's
      sign length and digit run find exactly these pieces. */
  lemma SignedRunSplits(sign: string, digits: string, tail: string)
    requires sign == "" || sign == "+" || sign == "-"
    requires 0 < |digits| && AllDigits(digits) && 0 < |tail| && !IsDigit(tail[0])
    ensures SignLength(sign + digits + tail) == |sign|
    ensures DigitRun(sign + digits + tail, |sign|) == |digits|
  {
    var s := sign + digits + tail;
    if sign == "" {
      assert s[0] == digits[0];
    }
    assert (sign + digits)[|sign|..] == digits;
    DigitRunStops(sign + digits, tail, |sign|);
  }

  /** The parser cuts a rendered date back into sign, year digits and tail. */
  lemma RenderedDateSplits(d: Date)
    requires ValidDate(d)
    ensures var s, sign, digits := FormatDate(d), YearSign(d.year), YearDigits(d.year);
      SignLength(s) == |sign| && DigitRun(s, |sign|) == |digits| && |s| == |sign| + |digits| + 6
      && s[..|sign|] == sign && s[|sign|..|sign| + |digits|] == digits && s[|sign| + |digits|..] == DateTail(d)
  {
    YearPartsParse(d.year);
    var tail := DateTail(d);
    assert tail[0] == '-';
    SignedRunSplits(YearSign(d.year), YearDigits(d.year), tail);
    ThreeParts(YearSign(d.year), YearDigits(d.year), tail);
  }

  /** Every date `LocalDate` can hold is read back from its ISO rendering. */
  lemma FormatThenParse(d: Date)
    requires ValidDate(d)
    ensures ParseIsoLocalDate(FormatDate(d)) == Some(d)
  {
    RenderedDateSplits(d);
    RenderedFieldsParse(d);
  }

  lemma {:induction false} DigitsValueBound(t: string)
    requires AllDigits(t)
    ensures DigitsValue(t) < Pow10(|t|)
    decreases |t|
  {
    if 0 < |t| {
      DigitsValueBound(t[..|t| - 1]);
    }
  }

  /** The year shapes the parser lets through: an unsigned year has exactly four digits
      (so 10000 must be written "+10000"), a '+' needs more than four digits, and a
      '-' needs a non-zero year. */
  lemma ParsedYearShape(s: string)
    requires ParseIsoLocalDate(s).Some?
    ensures var y, n := ParseIsoLocalDate(s).value.year, DigitRun(s, SignLength(s));
      |s| == SignLength(s) + n + 6
      && (SignLength(s) == 0 ==> n == 4 && 0 <= y < 10000)
      && (SignLength(s) == 1 && s[0] == '+' ==> 4 < n && 0 <= y)
      && (SignLength(s) == 1 && s[0] == '-' ==> y < 0)
  {
    var start := SignLength(s);
    var end := start + DigitRun(s, start);
    ParseIsoSplits(s);
    SignText(s);
    FieldsYearShape(s[..start], s[start..end], s[end..]);
  }

  lemma ParseIsoSplits(s: string)
    requires ParseIsoLocalDate(s).Some?
    ensures var start := SignLength(s); var end := start + DigitRun(s, start);
      |s| == end + 6 && AllDigits(s[start..end])
      && ParseIsoLocalDate(s) == ParseFields(s[..start], s[start..end], s[end..])
  {
  }

  lemma SignText(s: string)
    ensures SignLength(s) == 0 ==> s[..SignLength(s)] == ""
    ensures SignLength(s) == 1 && s[0] == '+' ==> s[..SignLength(s)] == "+"
    ensures SignLength(s) == 1 && s[0] == '-' ==> s[..SignLength(s)] == "-"
  {
  }

  lemma FieldsYearShape(sign: string, digits: string, rest: string)
    requires AllDigits(digits) && |rest| == 6 && ParseFields(sign, digits, rest).Some?
    ensures var y := ParseFields(sign, digits, rest).value.year;
      && (sign == "" ==> |digits| == 4 && 0 <= y < 10000)
      && (sign == "+" ==> 4 < |digits| && 0 <= y)
      && (sign == "-" ==> y < 0)
  {
    DigitsValueBound(digits);
    assert Pow10(4) == 10000;
  }

  /* ---------------------------------------------------------------------------
   *  MedicalRecord
   * ------------------------------------------------------------------------- */

  datatype MedicalRecord = MedicalRecord(
    location: Option<Locations.Location>,
    treatmentDetails: JStr,
    dateOfTreatment: string)

  /** `isValidDateFormat(date)`: any failure to parse, `null` included, means invalid,
      so a date that passes names a real calendar day. */
  predicate IsValidDateFormat(date: JStr)
    ensures IsValidDateFormat(date) ==> date.Some? && var d := ParseIsoLocalDate(date.value); d.Some? && ValidDate(d.value)
  {
    date.Some? && ParseIsoLocalDate(date.value).Some?
  }

  /** `new MedicalRecord(location, treatmentDetails, dateOfTreatment)`: a malformed date
      is refused first, then a well-formed one before 1900; an accepted date is
      stored exactly as written. */
  function NewMedicalRecord(location: Option<Locations.Location>, treatmentDetails: JStr, date: JStr)
    : (r: Result<MedicalRecord, Fault>)
    ensures r.Success? <==> IsValidDateFormat(date) && MinimumYear <= ParseIsoLocalDate(date.value).value.year
    ensures !IsValidDateFormat(date) ==> r == Failure(InvalidDateFormat)
    ensures IsValidDateFormat(date) && ParseIsoLocalDate(date.value).value.year < MinimumYear ==> r == Failure(DateBeforeMinimum)
    ensures r.Success? ==> r.value == MedicalRecord(location, treatmentDetails, date.value)
  {
    if !IsValidDateFormat(date) then Failure(InvalidDateFormat)
    else if ParseIsoLocalDate(date.value).value.year < MinimumYear then Failure(DateBeforeMinimum)
    else Success(MedicalRecord(location, treatmentDetails, date.value))
  }

  /** `setLocation`: any location, null included. */
  function SetLocation(rec: MedicalRecord, location: Option<Locations.Location>): (r: MedicalRecord)
    ensures r.location == location && r.(location := rec.location) == rec
  {
    rec.(location := location)
  }

  /** `setTreatmentDetails`: any text, null included. */
  function SetTreatmentDetails(rec: MedicalRecord, details: JStr): (r: MedicalRecord)
    ensures r.treatmentDetails == details && r.(treatmentDetails := rec.treatmentDetails) == rec
  {
    rec.(treatmentDetails := details)
  }

  /** `setDateOfTreatment(date)`: only the format is checked, so years before 1900 are
      accepted here; a rejected date leaves the record as it was. */
  function SetDateOfTreatment(rec: MedicalRecord, date: JStr): (r: Result<MedicalRecord, Fault>)
    ensures r.Success? <==> IsValidDateFormat(date)
    ensures r.Success? ==> r.value == rec.(dateOfTreatment := date.value)
    ensures r.Failure? ==> r.error == InvalidDateFormat
  {
    if IsValidDateFormat(date) then Success(rec.(dateOfTreatment := date.value)) else Failure(InvalidDateFormat)
  }

  /** A record can be built for exactly those rendered dates from 1900 on. */
  lemma ConstructorAcceptsFrom1900(location: Option<Locations.Location>, details: JStr, d: Date)
    requires ValidDate(d)
    ensures NewMedicalRecord(location, details, Some(FormatDate(d))).Success? <==> MinimumYear <= d.year
    ensures SetDateOfTreatment(MedicalRecord(location, details, ""), Some(FormatDate(d))).Success?
  {
    FormatThenParse(d);
  }
}
