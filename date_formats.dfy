/**
 * The date directive table: the field getters built by `dateGetter` and `dateStrGetter`,
 * the English MONTH and DAY name lists, the `a` and `Z` entries, and DATE_FORMATS, which maps
 * each supported directive string to its getter.
 */
module DateFormats {
  import opened Decimal
  import opened Padding

  /**
   * The fields of a calendar date that the getters read, as a JavaScript Date reports them:
   * getFullYear, getMonth (0-11), getDate, getHours (0-23), getMinutes, getSeconds,
   * getDay (0 = Sunday) and getTimezoneOffset (minutes, positive west of UTC).
   */
  datatype DateFields = DateFields(
    year: int, month: int, date: int, hours: int, minutes: int, seconds: int,
    day: int, tzOffset: int)

  /** The ranges a Date guarantees, and a whole-hour timezone offset (see the `Z` entry). */
  predicate ValidDate(d: DateFields) {
    0 <= d.month < 12 && 1 <= d.date <= 31 && 0 <= d.hours < 24 &&
    0 <= d.minutes < 60 && 0 <= d.seconds < 60 && 0 <= d.day < 7 &&
    d.tzOffset % 60 == 0
  }

  type Date = d: DateFields | ValidDate(d)
    witness DateFields(1970, 0, 1, 0, 0, 0, 4, 0)

  /** The numeric fields `dateGetter` is asked for by name. */
  datatype Field = FullYear | Month | DayOfMonth | Hours | Minutes | Seconds

  /** The two name lists `dateStrGetter` can index. */
  datatype NameField = MonthName | DayName

  /**
   * One entry of the directive table: a padded numeric field (`dateGetter(name, size,
   * offset, trim)`, an absent offset being 0), a month or day name, possibly cut to three
   * characters (`dateStrGetter`), the am/pm marker or the timezone.
   */
  datatype Getter =
    | Numeric(field: Field, size: nat, offset: int, trim: bool)
    | Name(names: NameField, short: bool)
    | Marker
    | Zone

  const DAY: seq<string> :=
    ["Sunday", "Monday", "Tuesday", "Wednesday", "Thursday", "Friday", "Saturday"]

  const MONTH: seq<string> :=
    ["January", "February", "March", "April", "May", "June", "July", "August",
     "September", "October", "November", "December"]

  function FieldValue(d: DateFields, f: Field): int {
    match f
    case FullYear => d.year
    case Month => d.month
    case DayOfMonth => d.date
    case Hours => d.hours
    case Minutes => d.minutes
    case Seconds => d.seconds
  }

  /**
   * The offset step of `dateGetter`: the offset is added when it is positive or when the
   * value exceeds its negation, and a result of 0 under offset -12 becomes 12.
   */
  function Adjust(value: int, offset: int): (r: int)
    ensures offset >= 0 ==> r == value + offset
    ensures offset == -12 && 0 <= value < 24 ==>
      1 <= r <= 12 && r == (if value == 0 then 12 else if value <= 12 then value else value - 12)
  {
    var v := if offset > 0 || value > -offset then value + offset else value;
    if v == 0 && offset == -12 then 12 else v
  }

  /** JavaScript's `%`: the remainder takes the sign of the dividend. */
  function JsRem(a: int, b: int): (r: int)
    requires b > 0
    ensures Abs(r) < b
    ensures a >= 0 ==> r == a % b
  {
    if a >= 0 then a % b else -((-a) % b)
  }

  /**
   * The `Z` entry: `padNumber(offset / 60, 2) + padNumber(Math.abs(offset % 60), 2)`,
   * for an offset in whole hours (so `offset / 60` is an integer).
   */
  function ZoneText(offset: int): (s: string)
    requires offset % 60 == 0
  {
    Padded(offset / 60, 2, false) + Padded(Abs(JsRem(offset, 60)), 2, false)
  }

  /** Applying a table entry to a date. */
  function Apply(g: Getter, d: Date): string {
    match g
    case Numeric(field, size, offset, trim) =>
      Padded(Adjust(FieldValue(d, field), offset), size, trim)
    case Name(names, short) =>
      var name := if names == MonthName then MONTH[d.month] else DAY[d.day];
      if short then name[..3] else name
    case Marker =>
      if d.hours < 12 then "am" else "pm"
    case Zone =>
      ZoneText(d.tzOffset)
  }

  /** DATE_FORMATS: the supported directive strings. */
  const Formats: map<string, Getter> := map[
    "yyyy" := Numeric(FullYear, 4, 0, false),
    "yy" := Numeric(FullYear, 2, 0, true),
    "MMMMM" := Name(MonthName, false),
    "MMM" := Name(MonthName, true),
    "MM" := Numeric(Month, 2, 1, false),
    "M" := Numeric(Month, 1, 1, false),
    "dd" := Numeric(DayOfMonth, 2, 0, false),
    "d" := Numeric(DayOfMonth, 1, 0, false),
    "HH" := Numeric(Hours, 2, 0, false),
    "H" := Numeric(Hours, 1, 0, false),
    "hh" := Numeric(Hours, 2, -12, false),
    "h" := Numeric(Hours, 1, -12, false),
    "mm" := Numeric(Minutes, 2, 0, false),
    "m" := Numeric(Minutes, 1, 0, false),
    "ss" := Numeric(Seconds, 2, 0, false),
    "s" := Numeric(Seconds, 1, 0, false),
    "EEEE" := Name(DayName, false),
    "EEE" := Name(DayName, true),
    "a" := Marker,
    "Z" := Zone
  ]

  /** The characters that can start a directive (the class `[^yMdHhmsaZE]` excludes). */
  predicate IsDirectiveChar(c: char) {
    c in "yMdHhmsaZE"
  }

  predicate NoDirectiveChar(s: string) {
    forall i :: 0 <= i < |s| ==> !IsDirectiveChar(s[i])
  }

  /** `n` copies of `c`. */
  function Repeat(c: char, n: nat): (s: string)
    ensures |s| == n && forall i :: 0 <= i < n ==> s[i] == c
  {
    if n == 0 then "" else Repeat(c, n - 1) + [c]
  }

  /** The run lengths that have a table entry, per directive letter. */
  function SupportedLengths(c: char): set<nat> {
    match c
    case 'y' => {2, 4}
    case 'M' => {1, 2, 3, 5}
    case 'E' => {3, 4}
    case 'd' => {1, 2}
    case 'H' => {1, 2}
    case 'h' => {1, 2}
    case 'm' => {1, 2}
    case 's' => {1, 2}
    case 'a' => {1}
    case 'Z' => {1}
    case _ => {}
  }

  /** Rendering one part of a format: its table entry applied to the date, or the part itself. */
  function RenderPart(part: string, d: Date): string {
    if part in Formats then Apply(Formats[part], d) else part
  }

  /** All characters of `s` equal its first. */
  predicate IsRun(s: string) {
    |s| >= 1 && forall i :: 0 <= i < |s| ==> s[i] == s[0]
  }

  /** The keys of the table, listed. */
  lemma FormatKeysListed(key: string)
    requires key in Formats
    ensures key in ["yyyy", "yy", "MMMMM", "MMM", "MM"] || key in ["M", "dd", "d", "HH", "H"] ||
      key in ["hh", "h", "mm", "m", "ss"] || key in ["s", "EEEE", "EEE", "a", "Z"]
  {
  }

  predicate IsSupportedKey(key: string) {
    IsRun(key) && IsDirectiveChar(key[0]) && |key| in SupportedLengths(key[0])
  }

  lemma SupportedKeys1(key: string)
    requires key in ["yyyy", "yy", "MMMMM", "MMM", "MM"]
    ensures IsSupportedKey(key)
  {
  }

  lemma SupportedKeys2(key: string)
    requires key in ["M", "dd", "d", "HH", "H"]
    ensures IsSupportedKey(key)
  {
  }

  lemma SupportedKeys3(key: string)
    requires key in ["hh", "h", "mm", "m", "ss"]
    ensures IsSupportedKey(key)
  {
  }

  lemma SupportedKeys4(key: string)
    requires key in ["s", "EEEE", "EEE", "a", "Z"]
    ensures IsSupportedKey(key)
  {
  }

  /** Every key of the table is a run of one directive letter with a supported length. */
  lemma FormatKeys(key: string)
    requires key in Formats
    ensures IsRun(key) && IsDirectiveChar(key[0]) && |key| in SupportedLengths(key[0])
  {
    FormatKeysListed(key);
    if key in ["yyyy", "yy", "MMMMM", "MMM", "MM"] {
      SupportedKeys1(key);
    } else if key in ["M", "dd", "d", "HH", "H"] {
      SupportedKeys2(key);
    } else if key in ["hh", "h", "mm", "m", "ss"] {
      SupportedKeys3(key);
    } else {
      SupportedKeys4(key);
    }
  }

  /** A part without directive letters has no entry, so it is copied verbatim. */
  lemma LiteralPartVerbatim(part: string, d: Date)
    requires NoDirectiveChar(part)
    ensures part !in Formats && RenderPart(part, d) == part
  {
    if part in Formats {
      FormatKeys(part);
    }
  }

  /**
   * A run of one directive letter has an entry exactly when its length is one of the
   * supported lengths for that letter: "MMMM", "yyy", "EE" or "MMMMMM" have none and
   * are copied verbatim.
   */
  lemma RunHasEntry(c: char, n: nat, d: Date)
    requires IsDirectiveChar(c) && n >= 1
    ensures Repeat(c, n) in Formats <==> n in SupportedLengths(c)
    ensures Repeat(c, n) !in Formats ==> RenderPart(Repeat(c, n), d) == Repeat(c, n)
  {
    var r := Repeat(c, n);
    if r in Formats {
      FormatKeys(r);
      assert r[0] == c;
    }
    if n in SupportedLengths(c) {
      if c == 'y' && n == 2 { assert r == "yy"; }
      else if c == 'y' { assert r == "yyyy"; }
      else if c == 'M' && n == 1 { assert r == "M"; }
      else if c == 'M' && n == 2 { assert r == "MM"; }
      else if c == 'M' && n == 3 { assert r == "MMM"; }
      else if c == 'M' { assert r == "MMMMM"; }
      else if c == 'E' && n == 3 { assert r == "EEE"; }
      else if c == 'E' { assert r == "EEEE"; }
      else if c == 'd' && n == 1 { assert r == "d"; }
      else if c == 'd' { assert r == "dd"; }
      else if c == 'H' && n == 1 { assert r == "H"; }
      else if c == 'H' { assert r == "HH"; }
      else if c == 'h' && n == 1 { assert r == "h"; }
      else if c == 'h' { assert r == "hh"; }
      else if c == 'm' && n == 1 { assert r == "m"; }
      else if c == 'm' { assert r == "mm"; }
      else if c == 's' && n == 1 { assert r == "s"; }
      else if c == 's' { assert r == "ss"; }
      else if c == 'a' { assert r == "a"; }
      else { assert r == "Z"; }
    }
  }

  /** A numeric entry renders its field through the offset step and padNumber. */
  lemma NumericEntry(part: string, d: Date, field: Field, size: nat, offset: int, trim: bool)
    requires part in Formats && Formats[part] == Numeric(field, size, offset, trim)
    ensures RenderPart(part, d) == Padded(Adjust(FieldValue(d, field), offset), size, trim)
  {
  }

  /** A name entry renders the month or day name, possibly cut to three characters. */
  lemma NameEntry(part: string, d: Date, names: NameField, short: bool)
    requires part in Formats && Formats[part] == Name(names, short)
    ensures var name := if names == MonthName then MONTH[d.month] else DAY[d.day];
      RenderPart(part, d) == if short then name[..3] else name
  {
  }

  /** `MMMMM` and `EEEE` give the full month and day names, `MMM` and `EEE` their first three letters. */
  lemma NameEntries(d: Date)
    ensures RenderPart("MMMMM", d) == MONTH[d.month]
    ensures RenderPart("MMM", d) == MONTH[d.month][..3] && |RenderPart("MMM", d)| == 3
    ensures RenderPart("EEEE", d) == DAY[d.day]
    ensures RenderPart("EEE", d) == DAY[d.day][..3] && |RenderPart("EEE", d)| == 3
  {
    NameEntry("MMMMM", d, MonthName, false);
    NameEntry("MMM", d, MonthName, true);
    NameEntry("EEEE", d, DayName, false);
    NameEntry("EEE", d, DayName, true);
  }

  /** `a` gives "am" exactly before noon and "pm" otherwise. */
  lemma MarkerEntry(d: Date)
    ensures RenderPart("a", d) == "am" <==> d.hours < 12
    ensures RenderPart("a", d) == "pm" <==> d.hours >= 12
  {
    assert Formats["a"] == Marker;
  }

  /** `hh` and `h` show the hour on a 12-hour clock (midnight and noon as 12), always in 1..12. */
  lemma HalfDayHourEntries(d: Date)
    ensures var h12 := if d.hours == 0 then 12 else if d.hours <= 12 then d.hours else d.hours - 12;
      1 <= h12 <= 12 &&
      RenderPart("hh", d) == Padded(h12, 2, false) && RenderPart("h", d) == Padded(h12, 1, false)
  {
    NumericEntry("hh", d, Hours, 2, -12, false);
    NumericEntry("h", d, Hours, 1, -12, false);
  }

  /** `HH` and `H` show the 0-23 hour unchanged. */
  lemma HourEntries(d: Date)
    ensures RenderPart("HH", d) == Padded(d.hours, 2, false) && RenderPart("H", d) == Padded(d.hours, 1, false)
  {
    NumericEntry("HH", d, Hours, 2, 0, false);
    NumericEntry("H", d, Hours, 1, 0, false);
  }

  /** `MM` and `M` show the 0-based month plus one. */
  lemma MonthEntries(d: Date)
    ensures RenderPart("MM", d) == Padded(d.month + 1, 2, false)
    ensures RenderPart("M", d) == Padded(d.month + 1, 1, false)
  {
    NumericEntry("MM", d, Month, 2, 1, false);
    NumericEntry("M", d, Month, 1, 1, false);
  }

  /** The year entries: `yyyy` pads to four digits, `yy` keeps the last two. */
  lemma YearEntries(d: Date)
    ensures RenderPart("yyyy", d) == Padded(d.year, 4, false)
    ensures RenderPart("yy", d) == Padded(d.year, 2, true)
  {
    NumericEntry("yyyy", d, FullYear, 4, 0, false);
    NumericEntry("yy", d, FullYear, 2, 0, true);
  }

  /** Day of month is shown as it is, adding no offset. */
  lemma DayOfMonthEntries(d: Date)
    ensures RenderPart("dd", d) == Padded(d.date, 2, false) && RenderPart("d", d) == Padded(d.date, 1, false)
  {
    NumericEntry("dd", d, DayOfMonth, 2, 0, false);
    NumericEntry("d", d, DayOfMonth, 1, 0, false);
  }

  /** Minutes are shown as they are, adding no offset. */
  lemma MinuteEntries(d: Date)
    ensures RenderPart("mm", d) == Padded(d.minutes, 2, false) && RenderPart("m", d) == Padded(d.minutes, 1, false)
  {
    NumericEntry("mm", d, Minutes, 2, 0, false);
    NumericEntry("m", d, Minutes, 1, 0, false);
  }

  /** Seconds are shown as they are, adding no offset. */
  lemma SecondEntries(d: Date)
    ensures RenderPart("ss", d) == Padded(d.seconds, 2, false) && RenderPart("s", d) == Padded(d.seconds, 1, false)
  {
    NumericEntry("ss", d, Seconds, 2, 0, false);
    NumericEntry("s", d, Seconds, 1, 0, false);
  }

  /**
   * `Z` writes the offset in the sign convention of getTimezoneOffset (positive west of UTC):
   * a '-' only for a negative offset, never a '+', then the two-digit hours and "00".
   */
  lemma ZoneEntry(d: Date)
    ensures RenderPart("Z", d) ==
      (if d.tzOffset < 0 then "-" else "") + PadDigits(Abs(d.tzOffset) / 60, 2, false) + "00"
    ensures '+' !in RenderPart("Z", d)
  {
    var off := d.tzOffset;
    assert JsRem(off, 60) == 0;
    assert Padded(0, 2, false) == "00" by {
      assert NatToString(0) == "0";
    }
    if off < 0 {
      assert off / 60 < 0;
      assert Abs(off / 60) == Abs(off) / 60;
    } else {
      assert off / 60 >= 0;
    }
    PaddedSign(off / 60, 2, false);
    var z := RenderPart("Z", d);
    var digits := PadDigits(Abs(off / 60), 2, false);
    assert forall i :: 0 <= i < |digits| ==> IsDigit(digits[i]);
  }
}
