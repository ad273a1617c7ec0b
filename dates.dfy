/**
 * Calendar timestamps and the three `strftime` layouts the diary writes:
 * `%d.%m.%Y %H:%M` for an entry's `date` (parsed back with `strptime` to sort
 * the gallery), `%Y%m%d%H%M%S` for its `id`, and `%Y:%m:%d %H:%M:%S` for the
 * fallback capture time.
 */
module Dates {
  import opened Wrappers

  /** A Python `datetime` without sub-second precision. */
  datatype DateTime = DateTime(year: int, month: int, day: int, hour: int, minute: int, second: int)

  predicate IsLeapYear(y: int)
  {
    y % 4 == 0 && (y % 100 != 0 || y % 400 == 0)
  }

  function DaysInMonth(y: int, m: int): int
    requires 1 <= m <= 12
  {
    if m == 2 then (if IsLeapYear(y) then 29 else 28)
    else if m == 4 || m == 6 || m == 9 || m == 11 then 30
    else 31
  }

  /** The values Python's `datetime` constructor accepts (seconds below 60). */
  predicate Valid(d: DateTime)
  {
    && 1 <= d.year <= 9999
    && 1 <= d.month <= 12
    && 1 <= d.day <= DaysInMonth(d.year, d.month)
    && 0 <= d.hour < 24
    && 0 <= d.minute < 60
    && 0 <= d.second < 60
  }

  /** `a` is strictly earlier than `b`: Python's `datetime` comparison. */
  predicate Before(a: DateTime, b: DateTime)
  {
    || a.year < b.year
    || (a.year == b.year && a.month < b.month)
    || (a.year == b.year && a.month == b.month && a.day < b.day)
    || (a.year == b.year && a.month == b.month && a.day == b.day && a.hour < b.hour)
    || (a.year == b.year && a.month == b.month && a.day == b.day && a.hour == b.hour && a.minute < b.minute)
    || (a.year == b.year && a.month == b.month && a.day == b.day && a.hour == b.hour && a.minute == b.minute
        && a.second < b.second)
  }

  /** The timestamp with its seconds dropped, as `%H:%M` keeps it. */
  function ToMinute(d: DateTime): DateTime
  {
    d.(second := 0)
  }

  predicate IsDigit(c: char)
  {
    '0' <= c <= '9'
  }

  predicate AllDigits(s: string)
  {
    forall i :: 0 <= i < |s| ==> IsDigit(s[i])
  }

  function Pow10(n: nat): nat
  {
    if n == 0 then 1 else 10 * Pow10(n - 1)
  }

  /** The decimal value of a string of digits. */
  function DigitsValue(s: string): nat
    requires AllDigits(s)
  {
    if s == [] then 0 else 10 * DigitsValue(s[..|s| - 1]) + (s[|s| - 1] as int - '0' as int)
  }

  /** `n` written with exactly `width` digits, zero-padded on the left (`%02d`, `%04d`). */
  function Pad(n: nat, width: nat): (r: string)
    requires n < Pow10(width)
    ensures |r| == width && AllDigits(r)
    ensures DigitsValue(r) == n
  {
    if width == 0 then "" else
      var r := Pad(n / 10, width - 1) + [('0' as int + n % 10) as char];
      assert r[..|r| - 1] == Pad(n / 10, width - 1);
      r
  }

  /** Writing back the value of a digit string of a given width gives that string. */
  lemma {:induction false} PadDigitsValue(s: string)
    requires AllDigits(s)
    ensures DigitsValue(s) < Pow10(|s|)
    ensures Pad(DigitsValue(s), |s|) == s
    decreases |s|
  {
    if s != [] {
      var t := s[..|s| - 1];
      PadDigitsValue(t);
      var n := DigitsValue(s);
      assert n / 10 == DigitsValue(t) && n % 10 == s[|s| - 1] as int - '0' as int;
      assert s == t + [s[|s| - 1]];
    }
  }

  /** `strftime("%d.%m.%Y %H:%M")`: the `date` field of an entry. */
  function FormatDisplay(d: DateTime): (r: string)
    requires Valid(d)
    ensures |r| == 16
  {
    Pad(d.day, 2) + "." + Pad(d.month, 2) + "." + Pad(d.year, 4) + " " + Pad(d.hour, 2) + ":" + Pad(d.minute, 2)
  }

  /** `strftime("%Y%m%d%H%M%S")`: the `id` of an entry. */
  function FormatId(d: DateTime): (r: string)
    requires Valid(d)
    ensures |r| == 14 && AllDigits(r)
  {
    Pad(d.year, 4) + Pad(d.month, 2) + Pad(d.day, 2) + Pad(d.hour, 2) + Pad(d.minute, 2) + Pad(d.second, 2)
  }

  /** `strftime("%Y:%m:%d %H:%M:%S")`: the layout of an EXIF `DateTimeOriginal` tag. */
  function FormatExif(d: DateTime): (r: string)
    requires Valid(d)
    ensures |r| == 19
  {
    Pad(d.year, 4) + ":" + Pad(d.month, 2) + ":" + Pad(d.day, 2) + " " + Pad(d.hour, 2) + ":" + Pad(d.minute, 2)
      + ":" + Pad(d.second, 2)
  }

  /** The layout `DD.MM.YYYY HH:MM`, each field made of digits. */
  predicate DisplayShape(s: string)
  {
    && |s| == 16
    && s[2] == '.' && s[5] == '.' && s[10] == ' ' && s[13] == ':'
    && AllDigits(s[0..2]) && AllDigits(s[3..5]) && AllDigits(s[6..10]) && AllDigits(s[11..13]) && AllDigits(s[14..16])
  }

  /**
   * `datetime.strptime(s, "%d.%m.%Y %H:%M")` on zero-padded input: `None`
   * where Python raises `ValueError` (wrong layout, or a day, month, hour or
   * minute out of range, including the 29th of February of a common year).
   */
  function ParseDisplay(s: string): (r: Option<DateTime>)
    ensures r.Some? ==> Valid(r.value) && r.value.second == 0
  {
    if !DisplayShape(s) then None
    else
      var d := DateTime(DigitsValue(s[6..10]), DigitsValue(s[3..5]), DigitsValue(s[0..2]),
                        DigitsValue(s[11..13]), DigitsValue(s[14..16]), 0);
      if Valid(d) then Some(d) else None
  }

  /** Parsing what was written gives back the timestamp to the minute: the sort key of a saved entry is its creation time. */
  lemma ParseFormatDisplay(d: DateTime)
    requires Valid(d)
    ensures ParseDisplay(FormatDisplay(d)) == Some(ToMinute(d))
  {
    var s := FormatDisplay(d);
    assert s[0..2] == Pad(d.day, 2);
    assert s[3..5] == Pad(d.month, 2);
    assert s[6..10] == Pad(d.year, 4);
    assert s[11..13] == Pad(d.hour, 2);
    assert s[14..16] == Pad(d.minute, 2);
  }

  /** A string of the display layout is its five digit fields joined by the separators. */
  lemma DisplaySplit(s: string)
    requires DisplayShape(s)
    ensures s == s[0..2] + "." + s[3..5] + "." + s[6..10] + " " + s[11..13] + ":" + s[14..16]
  {
    assert s[2..3] == "." && s[5..6] == "." && s[10..11] == " " && s[13..14] == ":";
    assert s == s[0..2] + s[2..3] + s[3..5] + s[5..6] + s[6..10] + s[10..11] + s[11..13] + s[13..14] + s[14..16];
  }

  /** The other direction: a string that parses is exactly the rendering of what it parses to. */
  lemma FormatParseDisplay(s: string)
    requires ParseDisplay(s).Some?
    ensures FormatDisplay(ParseDisplay(s).value) == s
  {
    PadDigitsValue(s[0..2]);
    PadDigitsValue(s[3..5]);
    PadDigitsValue(s[6..10]);
    PadDigitsValue(s[11..13]);
    PadDigitsValue(s[14..16]);
    DisplaySplit(s);
  }

  /** Where each field sits in an id. */
  lemma FormatIdFields(d: DateTime)
    requires Valid(d)
    ensures var s := FormatId(d);
      && DigitsValue(s[0..4]) == d.year && DigitsValue(s[4..6]) == d.month && DigitsValue(s[6..8]) == d.day
      && DigitsValue(s[8..10]) == d.hour && DigitsValue(s[10..12]) == d.minute && DigitsValue(s[12..14]) == d.second
  {
    var s := FormatId(d);
    assert s[0..4] == Pad(d.year, 4);
    assert s[4..6] == Pad(d.month, 2);
    assert s[6..8] == Pad(d.day, 2);
    assert s[8..10] == Pad(d.hour, 2);
    assert s[10..12] == Pad(d.minute, 2);
    assert s[12..14] == Pad(d.second, 2);
  }

  /** Where each field and each separator sits in the EXIF layout `YYYY:MM:DD HH:MM:SS`. */
  lemma FormatExifFields(d: DateTime)
    requires Valid(d)
    ensures var s := FormatExif(d);
      && DigitsValue(s[0..4]) == d.year && s[4] == ':' && DigitsValue(s[5..7]) == d.month && s[7] == ':'
      && DigitsValue(s[8..10]) == d.day && s[10] == ' ' && DigitsValue(s[11..13]) == d.hour && s[13] == ':'
      && DigitsValue(s[14..16]) == d.minute && s[16] == ':' && DigitsValue(s[17..19]) == d.second
      && AllDigits(s[0..4]) && AllDigits(s[5..7]) && AllDigits(s[8..10])
      && AllDigits(s[11..13]) && AllDigits(s[14..16]) && AllDigits(s[17..19])
  {
    var s := FormatExif(d);
    assert s[0..4] == Pad(d.year, 4);
    assert s[5..7] == Pad(d.month, 2);
    assert s[8..10] == Pad(d.day, 2);
    assert s[11..13] == Pad(d.hour, 2);
    assert s[14..16] == Pad(d.minute, 2);
    assert s[17..19] == Pad(d.second, 2);
  }

  /**
   * Two ids are equal exactly when the clock readings they were made from
   * agree to the second: entries saved within one second share an id.
   */
  lemma FormatIdInjective(a: DateTime, b: DateTime)
    requires Valid(a) && Valid(b)
    ensures FormatId(a) == FormatId(b) <==> a == b
  {
    FormatIdFields(a);
    FormatIdFields(b);
  }
}
