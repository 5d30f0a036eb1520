/** Date formatting for display: `format_pretty_date` turns a `YYYYMMDD`
    date and an `HH` hour into `"DD Mon YYYY - HH:00 UTC"`, and
    `parse_gpm_filename` finds the `.YYYYMMDD-SHHMM` start stamp of a GPM
    file name and renders it as `"DD Mon YYYY - HH:MM UTC"`. Neither raises:
    every failure gives a fallback string.

    `datetime.strptime` is modelled on fixed-width ASCII digit fields and
    the calendar check `datetime` performs; `%b` is the C-locale English
    month abbreviation. */
module Formatting {
  import opened Wrappers

  predicate IsDigit(c: char) {
    '0' <= c <= '9'
  }

  predicate AllDigits(s: string) {
    forall i :: 0 <= i < |s| ==> IsDigit(s[i])
  }

  /** Every piece of a digit string is a digit string. */
  lemma DigitsSlice(s: string, lo: int, hi: int)
    requires AllDigits(s) && 0 <= lo <= hi <= |s|
    ensures AllDigits(s[lo..hi])
  {
    assert forall i :: 0 <= i < hi - lo ==> s[lo..hi][i] == s[lo + i];
  }

  function DigitValue(c: char): (d: nat)
    requires IsDigit(c)
    ensures d < 10
  {
    c as int - '0' as int
  }

  function DigitChar(d: nat): (c: char)
    requires d < 10
    ensures IsDigit(c) && DigitValue(c) == d
  {
    ('0' as int + d) as char
  }

  function Pow10(n: nat): (p: nat)
    ensures p >= 1
  {
    if n == 0 then 1 else 10 * Pow10(n - 1)
  }

  /** The number a string of decimal digits writes. */
  function Number(s: string): (n: nat)
    requires AllDigits(s)
    ensures n < Pow10(|s|)
  {
    if s == [] then 0 else Number(s[..|s| - 1]) * 10 + DigitValue(s[|s| - 1])
  }

  /** `n` in `width` decimal digits, zero-padded on the left, as strftime
      writes `%d`, `%H`, `%M` (width 2) and `%Y` (width 4). */
  function Pad(n: nat, width: nat): (s: string)
    ensures |s| == width && AllDigits(s)
  {
    if width == 0 then [] else Pad(n / 10, width - 1) + [DigitChar(n % 10)]
  }

  /** Reading back a padded number gives the number. */
  lemma {:induction false} NumberOfPad(n: nat, width: nat)
    requires n < Pow10(width)
    ensures Number(Pad(n, width)) == n
  {
    if width > 0 {
      var s := Pad(n, width);
      NumberOfPad(n / 10, width - 1);
      assert s[..|s| - 1] == Pad(n / 10, width - 1);
    }
  }

  /** Padding the number a digit string writes gives the string back. */
  lemma {:induction false} PadOfNumber(s: string)
    requires AllDigits(s)
    ensures Pad(Number(s), |s|) == s
  {
    if s != [] {
      var init := s[..|s| - 1];
      assert AllDigits(init);
      PadOfNumber(init);
      var a := Number(init);
      var d := DigitValue(s[|s| - 1]);
      assert Number(s) == a * 10 + d;
      DivMod10(a, d);
      assert Pad(Number(s), |s|) == Pad(a, |s| - 1) + [DigitChar(d)];
      assert DigitChar(d) == s[|s| - 1];
      assert s == init + [s[|s| - 1]];
    }
  }

  lemma DivMod10(a: nat, d: nat)
    requires d < 10
    ensures (a * 10 + d) / 10 == a && (a * 10 + d) % 10 == d
  {
  }

  // ---------------------------------------------------------------------
  // The calendar

  /** A broken-down time as `datetime` holds it. */
  datatype DateTime = DateTime(year: nat, month: nat, day: nat, hour: nat, minute: nat)

  /** Gregorian leap years. */
  predicate IsLeapYear(y: nat) {
    y % 4 == 0 && (y % 100 != 0 || y % 400 == 0)
  }

  function DaysInMonth(y: nat, m: nat): (d: nat)
    requires 1 <= m <= 12
    ensures 28 <= d <= 31
    ensures m == 2 ==> (d == 29 <==> IsLeapYear(y))
  {
    if m == 2 then (if IsLeapYear(y) then 29 else 28)
    else if m == 4 || m == 6 || m == 9 || m == 11 then 30
    else 31
  }

  /** What `datetime` accepts: years 1 to 9999, a real day of the month,
      hours below 24 and minutes below 60. */
  predicate Valid(dt: DateTime) {
    && 1 <= dt.year <= 9999
    && 1 <= dt.month <= 12
    && 1 <= dt.day <= DaysInMonth(dt.year, dt.month)
    && dt.hour < 24
    && dt.minute < 60
  }

  const MonthNames: seq<string> :=
    ["Jan", "Feb", "Mar", "Apr", "May", "Jun", "Jul", "Aug", "Sep", "Oct", "Nov", "Dec"]

  /** `%b`. */
  function MonthAbbr(m: nat): (s: string)
    requires 1 <= m <= 12
    ensures |s| == 3
  {
    MonthNames[m - 1]
  }

  /** The month an abbreviation names. */
  function MonthNumber(s: string): (r: Option<nat>)
    ensures r.Some? ==> 1 <= r.value <= 12 && MonthAbbr(r.value) == s
    ensures (exists m :: 1 <= m <= 12 && MonthAbbr(m) == s) ==> r.Some?
  {
    if s in MonthNames then
      var k :| 0 <= k < |MonthNames| && MonthNames[k] == s;
      Some(k + 1)
    else None
  }

  /** Fixed-width fields: four digits of year, then two each of month, day,
      hour and minute. `None` when a field is not digits or the time is not
      a real one. */
  function ReadFields(year: string, month: string, day: string, hour: string, minute: string): (r: Option<DateTime>)
    requires |year| == 4 && |month| == 2 && |day| == 2 && |hour| == 2 && |minute| == 2
    ensures r.Some? ==> Valid(r.value)
    ensures r.Some? ==> Pad(r.value.year, 4) == year && Pad(r.value.month, 2) == month && Pad(r.value.day, 2) == day
                        && Pad(r.value.hour, 2) == hour && Pad(r.value.minute, 2) == minute
    // digit fields that write a real time are always read
    ensures AllDigits(year) && AllDigits(month) && AllDigits(day) && AllDigits(hour) && AllDigits(minute)
            && Valid(DateTime(Number(year), Number(month), Number(day), Number(hour), Number(minute)))
            ==> r == Some(DateTime(Number(year), Number(month), Number(day), Number(hour), Number(minute)))
  {
    if AllDigits(year) && AllDigits(month) && AllDigits(day) && AllDigits(hour) && AllDigits(minute) then
      var dt := DateTime(Number(year), Number(month), Number(day), Number(hour), Number(minute));
      PadOfNumber(year);
      PadOfNumber(month);
      PadOfNumber(day);
      PadOfNumber(hour);
      PadOfNumber(minute);
      if Valid(dt) then Some(dt) else None
    else None
  }

  // ---------------------------------------------------------------------
  // Rendering and reading back "DD Mon YYYY - HH:MM UTC"

  /** `"%d %b %Y - %H:"`, the part both output formats share. */
  function Stamp(dt: DateTime): (s: string)
    requires Valid(dt)
    ensures |s| == 17
  {
    Pad(dt.day, 2) + " " + MonthAbbr(dt.month) + " " + Pad(dt.year, 4) + " - " + Pad(dt.hour, 2) + ":"
  }

  /** The stamp assembled from already rendered fields. */
  lemma StampOf(dt: DateTime, day: string, month: string, year: string, hour: string)
    requires Valid(dt)
    requires Pad(dt.day, 2) == day && MonthAbbr(dt.month) == month && Pad(dt.year, 4) == year && Pad(dt.hour, 2) == hour
    ensures Stamp(dt) == day + " " + month + " " + year + " - " + hour + ":"
  {
  }

  /** Reads a `"DD Mon YYYY - HH:MM UTC"` string back into its fields. */
  function ReadStamp(s: string): (r: Option<DateTime>)
    ensures r.Some? ==> |s| == 23 && s[22] == 'C'
  {
    if |s| == 23 && AllDigits(s[0..2]) && s[2] == ' ' && MonthNumber(s[3..6]).Some? && s[6] == ' '
       && AllDigits(s[7..11]) && s[11..14] == " - " && AllDigits(s[14..16]) && s[16] == ':'
       && AllDigits(s[17..19]) && s[19..] == " UTC"
    then
      assert s[22] == s[19..][3];
      Some(DateTime(Number(s[7..11]), MonthNumber(s[3..6]).value, Number(s[0..2]), Number(s[14..16]), Number(s[17..19])))
    else None
  }

  /** Each month's abbreviation names that month and no other. */
  lemma MonthNumberOfAbbr(m: nat)
    requires 1 <= m <= 12
    ensures MonthNumber(MonthAbbr(m)) == Some(m)
  {
    var r := MonthNumber(MonthAbbr(m));
    assert MonthNames[m - 1] == MonthAbbr(m);
    assert r.Some?;
    assert forall a, b :: 1 <= a <= 12 && 1 <= b <= 12 && MonthAbbr(a) == MonthAbbr(b) ==> a == b;
  }

  /** Where each field sits in `"DD Mon YYYY - HH:MM UTC"`. */
  lemma LayoutFields(day: string, month: string, year: string, hour: string, minute: string, s: string)
    requires |day| == 2 && |month| == 3 && |year| == 4 && |hour| == 2 && |minute| == 2
    requires s == day + " " + month + " " + year + " - " + hour + ":" + minute + " UTC"
    ensures |s| == 23
    ensures s[0..2] == day && s[2] == ' ' && s[3..6] == month && s[6] == ' '
    ensures s[7..11] == year && s[11..14] == " - " && s[14..16] == hour && s[16] == ':'
    ensures s[17..19] == minute && s[19..] == " UTC"
  {
  }

  /** Where each field sits in a rendered time. */
  lemma RenderedFields(dt: DateTime, s: string)
    requires Valid(dt) && s == Stamp(dt) + Pad(dt.minute, 2) + " UTC"
    ensures |s| == 23
    ensures s[0..2] == Pad(dt.day, 2) && s[2] == ' ' && s[3..6] == MonthAbbr(dt.month) && s[6] == ' '
    ensures s[7..11] == Pad(dt.year, 4) && s[11..14] == " - " && s[14..16] == Pad(dt.hour, 2) && s[16] == ':'
    ensures s[17..19] == Pad(dt.minute, 2) && s[19..] == " UTC"
  {
    LayoutFields(Pad(dt.day, 2), MonthAbbr(dt.month), Pad(dt.year, 4), Pad(dt.hour, 2), Pad(dt.minute, 2), s);
  }

  /** A string not ending in `C` is not a rendered time. */
  lemma NotAStamp(s: string)
    requires |s| > 0 && s[|s| - 1] != 'C'
    ensures ReadStamp(s) == None
  {
  }

  /** Reading a rendered time gives the time back. */
  lemma ReadStampOfRendered(dt: DateTime)
    requires Valid(dt)
    ensures ReadStamp(Stamp(dt) + Pad(dt.minute, 2) + " UTC") == Some(dt)
  {
    var s := Stamp(dt) + Pad(dt.minute, 2) + " UTC";
    RenderedFields(dt, s);
    NumberOfPad(dt.day, 2);
    NumberOfPad(dt.year, 4);
    NumberOfPad(dt.hour, 2);
    NumberOfPad(dt.minute, 2);
    MonthNumberOfAbbr(dt.month);
  }

  // ---------------------------------------------------------------------
  // format_pretty_date

  /** The time an 8-digit date and a 2-digit hour write, at minute 0. */
  function DateOf(date: string, hour: string): (dt: DateTime)
    requires |date| == 8 && |hour| == 2 && AllDigits(date) && AllDigits(hour)
    ensures dt.minute == 0
  {
    DigitsSlice(date, 0, 4);
    DigitsSlice(date, 4, 6);
    DigitsSlice(date, 6, 8);
    DateTime(Number(date[..4]), Number(date[4..6]), Number(date[6..8]), Number(hour), 0)
  }

  /** An 8-character date is digits exactly when its year, month and day
      fields are. */
  lemma DateFields(date: string)
    requires |date| == 8
    ensures AllDigits(date) <==> AllDigits(date[..4]) && AllDigits(date[4..6]) && AllDigits(date[6..8])
  {
    if AllDigits(date) {
      DigitsSlice(date, 0, 4);
      DigitsSlice(date, 4, 6);
      DigitsSlice(date, 6, 8);
    }
    if AllDigits(date[..4]) && AllDigits(date[4..6]) && AllDigits(date[6..8]) {
      forall i | 0 <= i < 8 ensures IsDigit(date[i]) {
        if i < 4 { assert date[i] == date[..4][i]; }
        else if i < 6 { assert date[i] == date[4..6][i - 4]; }
        else { assert date[i] == date[6..8][i - 6]; }
      }
    }
  }

  /** `strptime(f"{date} {hour}", "%Y%m%d %H")` on an 8-digit date and a
      2-digit hour: it succeeds exactly when the digits write a real date
      and hour. */
  function ParseDateHour(date: string, hour: string): (r: Option<DateTime>)
    ensures r.Some? ==> Valid(r.value) && r.value.minute == 0
    ensures r.Some? <==> |date| == 8 && |hour| == 2 && AllDigits(date) && AllDigits(hour) && Valid(DateOf(date, hour))
    ensures r.Some? ==> |date| == 8 && |hour| == 2 && AllDigits(date) && AllDigits(hour) && r.value == DateOf(date, hour)
  {
    if |date| == 8 && |hour| == 2 then
      assert Number("00") == 0 by { assert "00"[..1] == "0"; assert "0"[..0] == []; }
      DateFields(date);
      ReadFields(date[..4], date[4..6], date[6..8], hour, "00")
    else None
  }

  /** `format_pretty_date`: a valid date and hour render as
      `"DD Mon YYYY - HH:00 UTC"`, which reads back as that date and hour;
      anything else gives `"{date} {hour}z"`. The hour defaults to `"00"`. */
  function FormatPrettyDate(date: string, hour: string := "00"): (r: string)
    ensures ParseDateHour(date, hour).Some? ==> ReadStamp(r) == ParseDateHour(date, hour)
    ensures ParseDateHour(date, hour).None? ==> r == date + " " + hour + "z"
    ensures ReadStamp(r).Some? <==> ParseDateHour(date, hour).Some?
  {
    match ParseDateHour(date, hour)
    case Some(dt) =>
      var r := Stamp(dt) + "00 UTC";
      assert Pad(0, 2) == "00";
      assert r == Stamp(dt) + Pad(dt.minute, 2) + " UTC";
      ReadStampOfRendered(dt);
      r
    case None =>
      var r := date + " " + hour + "z";
      NotAStamp(r);
      r
  }

  /** A valid date renders with the input's own digits: day, year and hour
      are copied, and the minutes are always `00`. */
  lemma PrettyDateDigits(date: string, hour: string)
    requires ParseDateHour(date, hour).Some?
    ensures var r := FormatPrettyDate(date, hour);
            && |r| == 23
            && r[0..2] == date[6..8] && r[7..11] == date[..4] && r[14..16] == hour && r[17..19] == "00"
            && r[3..6] == MonthAbbr(ParseDateHour(date, hour).value.month)
  {
    var dt := ParseDateHour(date, hour).value;
    var r := FormatPrettyDate(date, hour);
    assert Pad(0, 2) == "00";
    assert r == Stamp(dt) + Pad(dt.minute, 2) + " UTC";
    RenderedFields(dt, r);
  }

  /** A date and hour whose digits write a real time always render, as
      that time. */
  lemma ValidDateRenders(date: string, hour: string)
    requires |date| == 8 && |hour| == 2 && AllDigits(date) && AllDigits(hour)
    requires Valid(DateOf(date, hour))
    ensures FormatPrettyDate(date, hour) == Stamp(DateOf(date, hour)) + "00 UTC"
    ensures ReadStamp(FormatPrettyDate(date, hour)) == Some(DateOf(date, hour))
  {
  }

  // ---------------------------------------------------------------------
  // parse_gpm_filename

  /** `\.(\d{8})-S(\d{4})` matches at index i. */
  predicate StampAt(s: string, i: int) {
    && 0 <= i && i + 15 <= |s|
    && s[i] == '.' && AllDigits(s[i + 1..i + 9]) && s[i + 9] == '-' && s[i + 10] == 'S'
    && AllDigits(s[i + 11..i + 15])
  }

  /** `re.search`: the leftmost index at or after `from` where the pattern
      matches. */
  function FirstStamp(s: string, from: nat): (r: Option<nat>)
    decreases |s| - from
    ensures r.Some? ==> from <= r.value && StampAt(s, r.value)
                        && forall j :: from <= j < r.value ==> !StampAt(s, j)
    ensures r.None? ==> forall j :: from <= j ==> !StampAt(s, j)
  {
    if from + 15 > |s| then None
    else if StampAt(s, from) then Some(from)
    else FirstStamp(s, from + 1)
  }

  /** Each field of a match is digits. */
  lemma StampFields(s: string, i: nat)
    requires StampAt(s, i)
    ensures AllDigits(s[i + 1..i + 5]) && AllDigits(s[i + 5..i + 7]) && AllDigits(s[i + 7..i + 9])
    ensures AllDigits(s[i + 11..i + 13]) && AllDigits(s[i + 13..i + 15])
  {
    DigitsWithin(s, i + 1, i + 9, i + 1, i + 5);
    DigitsWithin(s, i + 1, i + 9, i + 5, i + 7);
    DigitsWithin(s, i + 1, i + 9, i + 7, i + 9);
    DigitsWithin(s, i + 11, i + 15, i + 11, i + 13);
    DigitsWithin(s, i + 11, i + 15, i + 13, i + 15);
  }

  lemma DigitsWithin(s: string, lo: int, hi: int, lo2: int, hi2: int)
    requires 0 <= lo <= lo2 <= hi2 <= hi <= |s| && AllDigits(s[lo..hi])
    ensures AllDigits(s[lo2..hi2])
  {
    forall k | 0 <= k < hi2 - lo2 ensures IsDigit(s[lo2..hi2][k]) {
      assert s[lo2..hi2][k] == s[lo..hi][lo2 - lo + k];
    }
  }

  /** The time the digits of the match at `i` write: `YYYYMMDD` after the
      dot, `HHMM` after the `S`. */
  function StampDigits(s: string, i: nat): DateTime
    requires StampAt(s, i)
  {
    StampFields(s, i);
    DateTime(Number(s[i + 1..i + 5]), Number(s[i + 5..i + 7]), Number(s[i + 7..i + 9]),
             Number(s[i + 11..i + 13]), Number(s[i + 13..i + 15]))
  }

  /** `strptime(group1 + group2, "%Y%m%d%H%M")` on the match at `i`: it
      succeeds exactly when the digits write a real time. */
  function StampTime(s: string, i: nat): (r: Option<DateTime>)
    requires StampAt(s, i)
    ensures r.Some? ==> Valid(r.value)
    ensures r.Some? <==> Valid(StampDigits(s, i))
    ensures r.Some? ==> r.value == StampDigits(s, i)
  {
    StampFields(s, i);
    ReadFields(s[i + 1..i + 5], s[i + 5..i + 7], s[i + 7..i + 9], s[i + 11..i + 13], s[i + 13..i + 15])
  }

  /** `filename[:25] + "..."`. */
  function Truncated(name: string): (r: string)
    ensures |name| <= 25 ==> r == name + "..."
    ensures |name| > 25 ==> |r| == 28 && r[..25] == name[..25]
    ensures |name| > 25 ==> r == name[..25] + "..."
  {
    (if |name| <= 25 then name else name[..25]) + "..."
  }

  /** The time of the first stamp in the name, if it is a real one. */
  function FilenameTime(name: string): (r: Option<DateTime>)
    ensures r.Some? ==> Valid(r.value)
    // the leftmost stamp decides; a name without a stamp has no time
    ensures forall i :: StampAt(name, i) && (forall j :: 0 <= j < i ==> !StampAt(name, j)) ==> r == StampTime(name, i)
    ensures (forall i :: !StampAt(name, i)) ==> r == None
  {
    match FirstStamp(name, 0)
    case None => None
    case Some(i) => StampTime(name, i)
  }

  /** `parse_gpm_filename`: the first stamp, when it is a real time, renders
      as `"DD Mon YYYY - HH:MM UTC"`, which reads back as that time; with no
      stamp, or an invalid first one, the name truncated to 25 characters
      plus `"..."`. */
  function ParseGpmFilename(name: string): (r: string)
    ensures FilenameTime(name).Some? ==> ReadStamp(r) == FilenameTime(name)
    ensures FilenameTime(name).None? ==> r == Truncated(name)
    ensures ReadStamp(r).Some? <==> FilenameTime(name).Some?
  {
    match FilenameTime(name)
    case Some(dt) =>
      ReadStampOfRendered(dt);
      Stamp(dt) + Pad(dt.minute, 2) + " UTC"
    case None =>
      var r := Truncated(name);
      NotAStamp(r);
      r
  }

  /** A name whose leftmost stamp writes a real time always renders, as
      that time. */
  lemma ValidStampRenders(name: string, i: nat)
    requires StampAt(name, i) && forall j :: 0 <= j < i ==> !StampAt(name, j)
    requires Valid(StampDigits(name, i))
    ensures var dt := StampDigits(name, i);
            ParseGpmFilename(name) == Stamp(dt) + Pad(dt.minute, 2) + " UTC"
    ensures ReadStamp(ParseGpmFilename(name)) == Some(StampDigits(name, i))
  {
  }

  // ---------------------------------------------------------------------
  // Examples

  lemma NumberOfTwo(a: char, b: char)
    requires IsDigit(a) && IsDigit(b)
    ensures Number([a, b]) == DigitValue(a) * 10 + DigitValue(b)
  {
    assert [a, b][..1] == [a];
    assert [a][..0] == [];
  }

  lemma NumberOfFour(a: char, b: char, c: char, d: char)
    requires IsDigit(a) && IsDigit(b) && IsDigit(c) && IsDigit(d)
    ensures Number([a, b, c, d]) == ((DigitValue(a) * 10 + DigitValue(b)) * 10 + DigitValue(c)) * 10 + DigitValue(d)
  {
    assert [a, b, c, d][..3] == [a, b, c];
    assert [a, b, c][..2] == [a, b];
    NumberOfTwo(a, b);
  }

  lemma PadExamples()
    ensures Pad(18, 2) == "18" && Pad(0, 2) == "00"
    ensures Pad(2025, 4) == "2025"
  {
  }

  lemma ParseDateHourExample(date: string, hour: string)
    requires date == "20251218" && hour == "00"
    ensures ParseDateHour(date, hour) == Some(DateTime(2025, 12, 18, 0, 0))
  {
    assert date[..4] == "2025" && date[4..6] == "12" && date[6..8] == "18";
    NumberOfFour('2', '0', '2', '5');
    NumberOfTwo('1', '2');
    NumberOfTwo('1', '8');
    NumberOfTwo('0', '0');
  }

  /** A date that parses renders as its stamp with minutes `00`. */
  lemma PrettyDateOfParsed(date: string, hour: string, dt: DateTime)
    requires ParseDateHour(date, hour) == Some(dt)
    ensures FormatPrettyDate(date, hour) == Stamp(dt) + "00 UTC"
  {
  }

  lemma ExampleStamp(dt: DateTime)
    requires dt == DateTime(2025, 12, 18, 0, 0)
    ensures Stamp(dt) == "18 Dec 2025 - 00:"
  {
    PadExamples();
    assert MonthAbbr(12) == "Dec";
    StampOf(dt, "18", "Dec", "2025", "00");
  }

  /** The documented example: `'20251218'` with the default hour `'00'`. */
  lemma PrettyDateExample(date: string, hour: string)
    requires date == "20251218" && hour == "00"
    ensures FormatPrettyDate(date, hour) == "18 Dec 2025 - 00:00 UTC"
  {
    var dt := DateTime(2025, 12, 18, 0, 0);
    ParseDateHourExample(date, hour);
    PrettyDateOfParsed(date, hour, dt);
    ExampleStamp(dt);
    ExampleJoin(FormatPrettyDate(date, hour), Stamp(dt));
  }

  lemma ExampleJoin(r: string, stamp: string)
    requires stamp == "18 Dec 2025 - 00:" && r == stamp + "00 UTC"
    ensures r == "18 Dec 2025 - 00:00 UTC"
  {
  }

  /** A short name without a stamp comes back whole, with `"..."` added. */
  lemma ShortNameFallback()
    ensures ParseGpmFilename("rain.nc") == "rain.nc..."
  {
    assert FirstStamp("rain.nc", 0) == None;
  }
}
