/**
 * The client's date helpers: reading `YYYY-MM-DD` as a local calendar
 * date, printing it with a month abbreviation, and the "before today"
 * overdue test. A calendar date is a (year, month, day) triple and an
 * instant is a date plus milliseconds into that local day; the current
 * instant is a parameter.
 */
module DateUtils {
  import opened Common

  /** A local calendar date; `month` runs from 1 to 12. */
  datatype Date = Date(year: int, month: int, day: int)

  /** A local instant: a date and the milliseconds elapsed since its midnight. */
  datatype Instant = Instant(date: Date, millis: nat)

  /** What `new Date(...)` yields: a valid instant or an Invalid Date. */
  datatype Parsed = At(instant: Instant) | InvalidDate

  const MillisPerDay: nat := 86400000

  predicate IsLeapYear(y: int) {
    (y % 4 == 0 && y % 100 != 0) || y % 400 == 0
  }

  function DaysInMonth(y: int, m: int): (n: int)
    requires 1 <= m <= 12
    ensures 28 <= n <= 31
  {
    if m == 2 then (if IsLeapYear(y) then 29 else 28)
    else if m == 4 || m == 6 || m == 9 || m == 11 then 30
    else 31
  }

  /** The latest calendar date a JavaScript Date can hold (13 September 275760). */
  predicate WithinDateRange(d: Date) {
    d.year < 275760 || (d.year == 275760 && (d.month < 9 || (d.month == 9 && d.day <= 13)))
  }

  /** A date with every component in range, that a JavaScript Date can hold. */
  predicate ValidDate(d: Date) {
    1 <= d.month <= 12 && 1 <= d.day <= DaysInMonth(d.year, d.month) && WithinDateRange(d)
  }

  /** Strictly earlier in the calendar. */
  predicate DateLess(a: Date, b: Date) {
    a.year < b.year
    || (a.year == b.year && a.month < b.month)
    || (a.year == b.year && a.month == b.month && a.day < b.day)
  }

  /** Strictly earlier in time. */
  predicate InstantLess(a: Instant, b: Instant) {
    DateLess(a.date, b.date) || (a.date == b.date && a.millis < b.millis)
  }

  /** `DateLess` is the order of the calendar: never reflexive, and total on distinct dates. */
  lemma DateLessStrictTotal(a: Date, b: Date)
    ensures !DateLess(a, a)
    ensures a != b ==> DateLess(a, b) != DateLess(b, a)
  {
  }

  // ---------------------------------------------------------------------
  // parseLocalDate
  // ---------------------------------------------------------------------

  /** `Number(s)` on the text of one date part; `None` stands for NaN. */
  function ToNumber(s: string): (r: Option<nat>)
    ensures IsDigits(Trim(s)) ==> r == Some(DigitsValue(Trim(s)))
    ensures !IsDigits(Trim(s)) ==> r.None?
  {
    var t := Trim(s);
    if IsDigits(t) then Some(DigitsValue(t)) else None
  }

  /** The year `new Date(year, ...)` means: years 0 to 99 stand for 1900 to 1999. */
  function FullYear(year: nat): (r: nat)
    ensures year <= 99 ==> r == 1900 + year
    ensures year > 99 ==> r == year
  {
    if year <= 99 then 1900 + year else year
  }

  /** `new Date(year, monthIndex, day)`: a valid instant exactly when the date it names is valid. */
  function MakeLocalDate(year: nat, monthIndex: int, day: nat): (r: Parsed)
    ensures r.At? <==> ValidDate(Date(FullYear(year), monthIndex + 1, day))
    ensures r.At? ==> r.instant == Instant(Date(FullYear(year), monthIndex + 1, day), 0)
  {
    var d := Date(FullYear(year), monthIndex + 1, day);
    if ValidDate(d) then At(Instant(d, 0)) else InvalidDate
  }

  /**
   * `parseLocalDate`: the current instant for an empty string; otherwise
   * the first three `-`-separated parts read as numbers and taken as
   * year, month and day of a local date at midnight.
   */
  function ParseLocalDate(s: string, now: Instant): (r: Parsed)
    ensures s == "" ==> r == At(now)
    ensures s != "" && |Split(s, '-')| < 3 ==> r == InvalidDate
    ensures s != "" && r.At? ==> r.instant.millis == 0 && ValidDate(r.instant.date)
  {
    if s == "" then At(now)
    else
      var parts := Split(s, '-');
      var year := ToNumber(parts[0]);
      var month := if |parts| > 1 then ToNumber(parts[1]) else None;
      var day := if |parts| > 2 then ToNumber(parts[2]) else None;
      if year.None? || month.None? || day.None? then InvalidDate
      else MakeLocalDate(year.value, month.value as int - 1, day.value)
  }

  /** A string with no whitespace is its own trim. */
  lemma TrimWithoutSpace(s: string)
    requires forall i :: 0 <= i < |s| ==> !IsJsWhitespace(s[i])
    ensures Trim(s) == s
  {
    if s != [] {
      assert !AllWhitespace(s) by { assert !IsJsWhitespace(s[0]); }
    }
  }

  /** `Number` of a string of digits is its decimal value (`""` is 0). */
  lemma ToNumberDigits(s: string)
    requires IsDigits(s)
    ensures ToNumber(s) == Some(DigitsValue(s))
  {
    forall i | 0 <= i < |s| ensures !IsJsWhitespace(s[i]) {
      assert IsDigit(s[i]);
      DigitNotWhitespace(s[i]);
    }
    TrimWithoutSpace(s);
  }

  /** Reading a number printed in decimal gives it back. */
  lemma ToNumberOfNatToString(n: nat)
    ensures ToNumber(NatToString(n)) == Some(n)
  {
    ToNumberDigits(NatToString(n));
    DigitsValueOfNatToString(n);
  }

  lemma DigitsHaveNoDash(s: string)
    requires IsDigits(s)
    ensures '-' !in s
  {
    forall k | 0 <= k < |s| ensures s[k] != '-' {
      assert IsDigit(s[k]);
    }
  }

  /** Three digit strings joined by `-`, such as `2024-01-05` or `2024-1-5`. */
  function DashedText(ys: string, ms: string, ds: string): string {
    ys + "-" + ms + "-" + ds
  }

  /** The date three digit strings name, as `parseLocalDate` reads them. */
  function DigitsDate(ys: string, ms: string, ds: string): Date
    requires IsDigits(ys) && IsDigits(ms) && IsDigits(ds)
  {
    Date(FullYear(DigitsValue(ys)), DigitsValue(ms), DigitsValue(ds))
  }

  /** Text of the form `Y-M-D` splits on `-` into its three parts. */
  lemma SplitThree(ys: string, ms: string, ds: string)
    requires '-' !in ys && '-' !in ms && '-' !in ds
    ensures Split(DashedText(ys, ms, ds), '-') == [ys, ms, ds]
  {
    assert DashedText(ys, ms, ds) == ys + ['-'] + (ms + ['-'] + ds);
    SplitCons(ys, '-', ms + ['-'] + ds);
    SplitCons(ms, '-', ds);
    SplitNoSep(ds, '-');
  }

  /**
   * `YYYY-MM-DD`, padded or not, reads as midnight of the date its digits
   * name when that date is valid, and as an Invalid Date otherwise.
   */
  lemma ParseDashedDigits(ys: string, ms: string, ds: string, now: Instant)
    requires IsDigits(ys) && IsDigits(ms) && IsDigits(ds)
    ensures ValidDate(DigitsDate(ys, ms, ds)) ==>
      ParseLocalDate(DashedText(ys, ms, ds), now) == At(Instant(DigitsDate(ys, ms, ds), 0))
    ensures !ValidDate(DigitsDate(ys, ms, ds)) ==>
      ParseLocalDate(DashedText(ys, ms, ds), now) == InvalidDate
  {
    DashedDigitsMake(ys, ms, ds, DigitsValue(ys), DigitsValue(ms), DigitsValue(ds), now);
  }

  /** `parseLocalDate` on `Y-M-D` digit text is `new Date` of the numbers `y`, `m`, `d` the digits spell. */
  lemma DashedDigitsMake(ys: string, ms: string, ds: string, y: nat, m: nat, d: nat, now: Instant)
    requires IsDigits(ys) && IsDigits(ms) && IsDigits(ds)
    requires y == DigitsValue(ys) && m == DigitsValue(ms) && d == DigitsValue(ds)
    ensures DigitsDate(ys, ms, ds) == Date(FullYear(y), m, d)
    ensures ParseLocalDate(DashedText(ys, ms, ds), now) == MakeLocalDate(y, m - 1, d)
  {
    DigitsHaveNoDash(ys);
    DigitsHaveNoDash(ms);
    DigitsHaveNoDash(ds);
    ToNumberDigits(ys);
    ToNumberDigits(ms);
    ToNumberDigits(ds);
    NumbersMake(ys, ms, ds, y, m, d, now);
  }

  /** `Y-M-D` text whose parts read as numbers is `new Date` of those numbers. */
  lemma NumbersMake(ys: string, ms: string, ds: string, y: nat, m: nat, d: nat, now: Instant)
    requires '-' !in ys && '-' !in ms && '-' !in ds
    requires ToNumber(ys) == Some(y) && ToNumber(ms) == Some(m) && ToNumber(ds) == Some(d)
    ensures ParseLocalDate(DashedText(ys, ms, ds), now) == MakeLocalDate(y, m - 1, d)
  {
    var s := DashedText(ys, ms, ds);
    assert s != "" by { assert |s| >= 2; }
    SplitThree(ys, ms, ds);
    ThreeNumbersMake(s, y, m, d, now);
  }

  /** A string of three parts that read as numbers is `new Date` of those numbers. */
  lemma ThreeNumbersMake(s: string, y: nat, m: nat, d: nat, now: Instant)
    requires s != "" && |Split(s, '-')| == 3
    requires ToNumber(Split(s, '-')[0]) == Some(y)
    requires ToNumber(Split(s, '-')[1]) == Some(m)
    requires ToNumber(Split(s, '-')[2]) == Some(d)
    ensures ParseLocalDate(s, now) == MakeLocalDate(y, m - 1, d)
  {
  }

  /** The text `Y-M-D` for a date, with the numbers printed without padding. */
  function DateText(d: Date): string
    requires d.year >= 0 && d.month >= 1 && d.day >= 1
  {
    DashedText(NatToString(d.year), NatToString(d.month as nat), NatToString(d.day as nat))
  }

  /** A valid date of year 100 or later reads back from its printed text as its own midnight. */
  lemma ParseDateText(d: Date, now: Instant)
    requires ValidDate(d) && d.year >= 100
    ensures ParseLocalDate(DateText(d), now) == At(Instant(d, 0))
  {
    var ys, ms, ds := NatToString(d.year), NatToString(d.month as nat), NatToString(d.day as nat);
    DigitsValueOfNatToString(d.year);
    DigitsValueOfNatToString(d.month as nat);
    DigitsValueOfNatToString(d.day as nat);
    assert DigitsDate(ys, ms, ds) == d;
    ParseDashedDigits(ys, ms, ds, now);
  }

  // ---------------------------------------------------------------------
  // formatDate
  // ---------------------------------------------------------------------

  /** `months[monthIndex]` for a 1-based month. */
  function MonthAbbrev(m: int): (r: string)
    requires 1 <= m <= 12
    ensures |r| == 3
  {
    ["Jan", "Feb", "Mar", "Apr", "May", "Jun", "Jul", "Aug", "Sep", "Oct", "Nov", "Dec"][m - 1]
  }

  /** Twelve different abbreviations: the month can be read back from its abbreviation. */
  lemma MonthAbbrevInjective(m: int, n: int)
    requires 1 <= m <= 12 && 1 <= n <= 12 && MonthAbbrev(m) == MonthAbbrev(n)
    ensures m == n
  {
  }

  /**
   * `formatDate`: `-` for a missing or empty string; the month
   * abbreviation and day for `MMM d`, followed by `, ` and the year for
   * `MMM d, yyyy`; the input unchanged for any other format. An Invalid
   * Date prints as `undefined NaN` (and `, NaN`), as the template
   * literal would print it.
   */
  function FormatDate(s: Option<string>, format: string, now: Instant): (r: string)
    ensures s.None? || s.value == "" ==> r == "-"
    ensures s.Some? && s.value != "" && format != "MMM d" && format != "MMM d, yyyy" ==> r == s.value
  {
    if s.None? || s.value == "" then "-"
    else
      var p := ParseLocalDate(s.value, now);
      if format == "MMM d" then
        (if p.InvalidDate? then "undefined NaN"
         else MonthAbbrev(p.instant.date.month) + " " + NatToString(p.instant.date.day as nat))
      else if format == "MMM d, yyyy" then
        (if p.InvalidDate? then "undefined NaN, NaN"
         else MonthAbbrev(p.instant.date.month) + " " + NatToString(p.instant.date.day as nat)
              + ", " + NatToString(p.instant.date.year as nat))
      else s.value
  }

  /**
   * `Y-M-D` digit text formats as the month abbreviation and the day of the
   * date it names (and its year for `MMM d, yyyy`), or as `undefined NaN`
   * when that date is not valid.
   */
  lemma FormatDashedDigits(ys: string, ms: string, ds: string, now: Instant)
    requires IsDigits(ys) && IsDigits(ms) && IsDigits(ds)
    ensures var d := DigitsDate(ys, ms, ds);
      ValidDate(d) ==>
        FormatDate(Some(DashedText(ys, ms, ds)), "MMM d", now)
          == MonthAbbrev(d.month) + " " + NatToString(d.day as nat)
        && FormatDate(Some(DashedText(ys, ms, ds)), "MMM d, yyyy", now)
          == MonthAbbrev(d.month) + " " + NatToString(d.day as nat) + ", " + NatToString(d.year as nat)
    ensures !ValidDate(DigitsDate(ys, ms, ds)) ==>
      FormatDate(Some(DashedText(ys, ms, ds)), "MMM d", now) == "undefined NaN"
      && FormatDate(Some(DashedText(ys, ms, ds)), "MMM d, yyyy", now) == "undefined NaN, NaN"
  {
    ParseDashedDigits(ys, ms, ds, now);
  }

  /** An unparseable string formats as `undefined NaN`. */
  lemma FormatInvalid(s: string, now: Instant)
    requires s != "" && ParseLocalDate(s, now).InvalidDate?
    ensures FormatDate(Some(s), "MMM d", now) == "undefined NaN"
    ensures FormatDate(Some(s), "MMM d, yyyy", now) == "undefined NaN, NaN"
  {
  }

  // ---------------------------------------------------------------------
  // isOverdue
  // ---------------------------------------------------------------------

  /** `today.setHours(0, 0, 0, 0)`: the midnight that starts the current local day. */
  function StartOfDay(now: Instant): (r: Instant)
    ensures r.date == now.date && r.millis == 0
    ensures !InstantLess(now, r)
  {
    Instant(now.date, 0)
  }

  /**
   * `isOverdue`: false for a missing or empty string and for an Invalid
   * Date (every comparison with NaN is false); otherwise whether the
   * parsed date falls strictly before today's midnight.
   */
  function IsOverdue(s: Option<string>, now: Instant): bool {
    if s.None? || s.value == "" then false
    else
      var p := ParseLocalDate(s.value, now);
      p.At? && InstantLess(p.instant, StartOfDay(now))
  }

  /** Overdue means a valid calendar date strictly before today's date. */
  lemma IsOverdueMeaning(s: Option<string>, now: Instant)
    ensures IsOverdue(s, now) <==>
      s.Some? && s.value != "" && ParseLocalDate(s.value, now).At?
      && DateLess(ParseLocalDate(s.value, now).instant.date, now.date)
  {
  }

  /**
   * `Y-M-D` digit text is overdue exactly when it names a valid date before
   * today; today itself never is.
   */
  lemma {:induction false} OverdueDashedDigits(ys: string, ms: string, ds: string, now: Instant)
    requires IsDigits(ys) && IsDigits(ms) && IsDigits(ds)
    ensures IsOverdue(Some(DashedText(ys, ms, ds)), now)
        <==> ValidDate(DigitsDate(ys, ms, ds)) && DateLess(DigitsDate(ys, ms, ds), now.date)
    ensures DigitsDate(ys, ms, ds) == now.date ==> !IsOverdue(Some(DashedText(ys, ms, ds)), now)
  {
    ParseDashedDigits(ys, ms, ds, now);
    DateLessStrictTotal(DigitsDate(ys, ms, ds), now.date);
  }
}
