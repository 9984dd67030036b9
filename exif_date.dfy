/**
 * The date conversion inside `extract_metadata` (process_images.py):
 * `datetime.strptime(raw, "%Y:%m:%d %H:%M:%S").strftime("%Y-%m-%d %H:%M:%S")`,
 * with `None` for an absent tag or any `ValueError`.
 *
 * The parser follows CPython's `_strptime`: `%Y` is exactly four digits;
 * `%m`, `%d`, `%H`, `%M` and `%S` take one or two digits within the ranges
 * of their regular expressions (`%S` up to 61, `%d` also a space and one
 * digit); the blank in the format matches one or more whitespace
 * characters; nothing may follow the seconds. Building the `datetime` then
 * rejects year 0, days past the end of the month and seconds 60 and 61.
 */
module ExifDate {
  import opened Wrappers

  datatype DateTime = DateTime(year: int, month: int, day: int, hour: int, minute: int, second: int)

  predicate IsDigit(c: char) {
    '0' <= c <= '9'
  }

  predicate AllDigits(s: string) {
    forall i :: 0 <= i < |s| ==> IsDigit(s[i])
  }

  /**
   * `\s` on a str pattern, within ASCII: space, tab, line feed, vertical tab,
   * form feed, carriage return and the four separators U+001C to U+001F.
   */
  predicate IsSpace(c: char) {
    c == ' ' || 9 <= c as int <= 13 || 28 <= c as int <= 31
  }

  /** The decimal value of a string of digits. */
  function DigitsValue(s: string): nat
    requires AllDigits(s)
  {
    if s == [] then 0 else 10 * DigitsValue(s[..|s| - 1]) + (s[|s| - 1] as int - '0' as int)
  }

  /** The length of the run of digits that `s` starts with. */
  function DigitPrefix(s: string): (n: nat)
    ensures n <= |s| && AllDigits(s[..n])
    ensures n < |s| ==> !IsDigit(s[n])
  {
    if s == [] || !IsDigit(s[0]) then 0
    else
      var n := 1 + DigitPrefix(s[1..]);
      assert s[..n] == [s[0]] + s[1..][..n - 1];
      n
  }

  /** The length of the run of whitespace that `s` starts with. */
  function SpacePrefix(s: string): (n: nat)
    ensures n <= |s|
    ensures forall i :: 0 <= i < n ==> IsSpace(s[i])
    ensures n < |s| ==> !IsSpace(s[n])
  {
    if s == [] || !IsSpace(s[0]) then 0 else 1 + SpacePrefix(s[1..])
  }

  /** One numeric field: one or two digits whose value lies in `[lo, hi]`. */
  function NumberField(t: string, lo: int, hi: int): Option<int> {
    if 1 <= |t| <= 2 && AllDigits(t) && lo <= DigitsValue(t) <= hi then Some(DigitsValue(t)) else None
  }

  /** `%d`: two digits 01-31, one digit 1-9, or a space and one digit 1-9; with the text after it. */
  function DayField(s: string): Option<(int, string)> {
    if |s| >= 2 && s[0] == ' ' && '1' <= s[1] <= '9' then Some((s[1] as int - '0' as int, s[2..]))
    else
      var n := DigitPrefix(s);
      match NumberField(s[..n], 1, 31)
      case None => None
      case Some(day) => Some((day, s[n..]))
  }

  /** The text before the first `:` of `s` when it is a run of digits, and the text after that `:`. */
  function DigitsThenColon(s: string): Option<(string, string)> {
    var n := DigitPrefix(s);
    if n < |s| && s[n] == ':' then Some((s[..n], s[n + 1..])) else None
  }

  /** `%H:%M:%S` up to the end of the text. */
  function TimeFields(s: string): Option<(int, int, int)> {
    match DigitsThenColon(s)
    case None => None
    case Some((hourText, afterHour)) =>
      match DigitsThenColon(afterHour)
      case None => None
      case Some((minuteText, secondText)) =>
        match (NumberField(hourText, 0, 23), NumberField(minuteText, 0, 59), NumberField(secondText, 0, 61))
        case (Some(hour), Some(minute), Some(second)) => Some((hour, minute, second))
        case _ => None
  }

  /** The regular-expression stage of `strptime`: the six fields, or `None` when the text does not match. */
  function StrptimeFields(s: string): Option<DateTime> {
    if |s| < 5 || !AllDigits(s[..4]) || s[4] != ':' then None
    else
      match DigitsThenColon(s[5..])
      case None => None
      case Some((monthText, afterMonth)) =>
        match (NumberField(monthText, 1, 12), DayField(afterMonth))
        case (Some(month), Some((day, afterDay))) =>
          var blank := SpacePrefix(afterDay);
          if blank == 0 then None
          else
            (match TimeFields(afterDay[blank..])
             case Some((hour, minute, second)) =>
               Some(DateTime(DigitsValue(s[..4]), month, day, hour, minute, second))
             case None => None)
        case _ => None
  }

  predicate IsLeapYear(y: int) {
    y % 4 == 0 && (y % 100 != 0 || y % 400 == 0)
  }

  function DaysInMonth(year: int, month: int): int
    requires 1 <= month <= 12
  {
    if month == 2 then (if IsLeapYear(year) then 29 else 28)
    else if month == 4 || month == 6 || month == 9 || month == 11 then 30
    else 31
  }

  /** What the `datetime` constructor accepts. */
  predicate IsValid(dt: DateTime) {
    && 1 <= dt.year <= 9999
    && 1 <= dt.month <= 12
    && 1 <= dt.day <= DaysInMonth(dt.year, dt.month)
    && 0 <= dt.hour <= 23 && 0 <= dt.minute <= 59 && 0 <= dt.second <= 59
  }

  /** `datetime.strptime(s, "%Y:%m:%d %H:%M:%S")`; `None` is a `ValueError`. */
  function ParseExifDate(s: string): (r: Option<DateTime>)
    ensures r.Some? ==> IsValid(r.value)
  {
    match StrptimeFields(s)
    case Some(dt) => if IsValid(dt) then Some(dt) else None
    case None => None
  }

  function DigitChar(d: int): char
    requires 0 <= d <= 9
  {
    (d + '0' as int) as char
  }

  /** A number as two digits, zero-padded. */
  function Pad2(n: int): string
    requires 0 <= n <= 99
  {
    [DigitChar(n / 10), DigitChar(n % 10)]
  }

  /** A number as four digits, zero-padded. */
  function Pad4(n: int): string
    requires 0 <= n <= 9999
  {
    Pad2(n / 100) + Pad2(n % 100)
  }

  /** `YYYY<sep>MM<sep>DD HH:MM:SS`, every field zero-padded. */
  function Layout(dt: DateTime, sep: char): (r: string)
    requires IsValid(dt)
    ensures |r| == 19
  {
    Pad4(dt.year) + [sep] + Pad2(dt.month) + [sep] + Pad2(dt.day) + [' ']
      + Pad2(dt.hour) + [':'] + Pad2(dt.minute) + [':'] + Pad2(dt.second)
  }

  /** The stored `date_taken`: the reformatted date, or `None` for an absent tag or a `ValueError`. */
  function ConvertDate(raw: Option<string>): (r: Option<string>)
    ensures raw.None? ==> r.None?
    ensures r.Some? ==> |r.value| == 19 && exists dt :: IsValid(dt) && r.value == Layout(dt, '-')
  {
    if raw.None? then None
    else
      match ParseExifDate(raw.value)
      case Some(dt) => Some(Layout(dt, '-'))
      case None => None
  }

  lemma {:induction false} DigitPrefixOf(digits: string, rest: string)
    requires AllDigits(digits)
    requires rest == [] || !IsDigit(rest[0])
    ensures DigitPrefix(digits + rest) == |digits|
  {
    if digits != [] {
      assert (digits + rest)[1..] == digits[1..] + rest;
      DigitPrefixOf(digits[1..], rest);
    }
  }

  lemma Pad2Value(n: int)
    requires 0 <= n <= 99
    ensures AllDigits(Pad2(n)) && DigitsValue(Pad2(n)) == n
  {
    var p := Pad2(n);
    assert p[..1][..0] == [];
    assert p[..1] == [DigitChar(n / 10)];
    assert DigitsValue(p[..1]) == n / 10;
    assert p[1] as int - '0' as int == n % 10;
  }

  /** Appending a digit multiplies the value by ten and adds the digit. */
  lemma DigitsValueSnoc(s: string, d: int)
    requires AllDigits(s) && 0 <= d <= 9
    ensures AllDigits(s + [DigitChar(d)]) && DigitsValue(s + [DigitChar(d)]) == 10 * DigitsValue(s) + d
  {
    assert (s + [DigitChar(d)])[..|s|] == s;
  }

  lemma Pad4Value(n: int)
    requires 0 <= n <= 9999
    ensures AllDigits(Pad4(n)) && DigitsValue(Pad4(n)) == n
  {
    var high, low := n / 100, n % 100;
    Pad2Value(high);
    DigitsValueSnoc(Pad2(high), low / 10);
    DigitsValueSnoc(Pad2(high) + [DigitChar(low / 10)], low % 10);
    assert Pad4(n) == Pad2(high) + [DigitChar(low / 10)] + [DigitChar(low % 10)];
  }

  /** `StrptimeFields` put together from the result of each of its stages. */
  lemma StrptimeStages(s: string, afterYear: string, monthText: string, afterMonth: string,
                       afterDay: string, dt: DateTime)
    requires |s| >= 5 && AllDigits(s[..4]) && s[4] == ':' && DigitsValue(s[..4]) == dt.year && s[5..] == afterYear
    requires DigitsThenColon(afterYear) == Some((monthText, afterMonth))
    requires NumberField(monthText, 1, 12) == Some(dt.month)
    requires DayField(afterMonth) == Some((dt.day, afterDay))
    requires 0 < SpacePrefix(afterDay)
    requires TimeFields(afterDay[SpacePrefix(afterDay)..]) == Some((dt.hour, dt.minute, dt.second))
    ensures StrptimeFields(s) == Some(dt)
  {
  }

  lemma ReadYear(n: int, rest: string)
    requires 0 <= n <= 9999
    ensures var s := Pad4(n) + [':'] + rest;
      |s| >= 5 && AllDigits(s[..4]) && s[4] == ':' && DigitsValue(s[..4]) == n && s[5..] == rest
  {
    Pad4Value(n);
    var s := Pad4(n) + [':'] + rest;
    assert s[..4] == Pad4(n);
  }

  /** A two-digit field followed by `:` is read as that field, leaving what follows the colon. */
  lemma ReadPad2Colon(n: int, rest: string)
    requires 0 <= n <= 99
    ensures DigitsThenColon(Pad2(n) + [':'] + rest) == Some((Pad2(n), rest))
  {
    Pad2Value(n);
    var s := Pad2(n) + [':'] + rest;
    assert s == Pad2(n) + ([':'] + rest);
    DigitPrefixOf(Pad2(n), [':'] + rest);
    assert s[..2] == Pad2(n);
    assert s[3..] == rest;
  }

  /** A two-digit day followed by a blank is read as that day, leaving the blank and what follows. */
  lemma ReadDay(n: int, rest: string)
    requires 1 <= n <= 31
    ensures DayField(Pad2(n) + [' '] + rest) == Some((n, [' '] + rest))
  {
    Pad2Value(n);
    var s := Pad2(n) + [' '] + rest;
    assert s == Pad2(n) + ([' '] + rest);
    DigitPrefixOf(Pad2(n), [' '] + rest);
    assert s[..2] == Pad2(n);
    assert s[2..] == [' '] + rest;
  }

  lemma ReadBlank(rest: string)
    requires rest != [] && IsDigit(rest[0])
    ensures SpacePrefix([' '] + rest) == 1 && ([' '] + rest)[1..] == rest
  {
    assert ([' '] + rest)[1..] == rest;
  }

  lemma ReadTime(hour: int, minute: int, second: int)
    requires 0 <= hour <= 23 && 0 <= minute <= 59 && 0 <= second <= 61
    ensures TimeFields(Pad2(hour) + [':'] + (Pad2(minute) + [':'] + Pad2(second)))
      == Some((hour, minute, second))
  {
    ReadPad2Colon(hour, Pad2(minute) + [':'] + Pad2(second));
    ReadPad2Colon(minute, Pad2(second));
    Pad2Value(hour); Pad2Value(minute); Pad2Value(second);
  }

  /** The regular-expression stage reads back every field of the EXIF layout, valid date or not. */
  lemma ParseLayoutFields(year: int, month: int, day: int, hour: int, minute: int, second: int)
    requires 1 <= year <= 9999 && 1 <= month <= 12 && 1 <= day <= 31
    requires 0 <= hour <= 23 && 0 <= minute <= 59 && 0 <= second <= 61
    ensures StrptimeFields(Pad4(year) + [':'] + Pad2(month) + [':'] + Pad2(day) + [' ']
      + Pad2(hour) + [':'] + Pad2(minute) + [':'] + Pad2(second))
      == Some(DateTime(year, month, day, hour, minute, second))
  {
    var time := Pad2(hour) + [':'] + (Pad2(minute) + [':'] + Pad2(second));
    var afterMonth := Pad2(day) + [' '] + time;
    var afterYear := Pad2(month) + [':'] + afterMonth;
    LayoutNesting(Pad4(year), Pad2(month), Pad2(day), Pad2(hour), Pad2(minute), Pad2(second), ':');
    ReadYear(year, afterYear);
    ReadPad2Colon(month, afterMonth);
    Pad2Value(month);
    ReadDay(day, time);
    ReadBlank(time);
    ReadTime(hour, minute, second);
    StrptimeStages(Pad4(year) + [':'] + afterYear, afterYear, Pad2(month), afterMonth, [' '] + time,
                   DateTime(year, month, day, hour, minute, second));
  }

  /** Concatenation is associative: the flat layout is the nested one the parser walks through. */
  lemma LayoutNesting(y: string, mo: string, d: string, h: string, mi: string, se: string, sep: char)
    ensures y + [sep] + mo + [sep] + d + [' '] + h + [':'] + mi + [':'] + se
      == y + [sep] + (mo + [sep] + (d + [' '] + (h + [':'] + (mi + [':'] + se))))
  {
  }

  /** The EXIF layout of a valid date parses back to that date. */
  lemma ParseExifLayout(dt: DateTime)
    requires IsValid(dt)
    ensures ParseExifDate(Layout(dt, ':')) == Some(dt)
  {
    ParseLayoutFields(dt.year, dt.month, dt.day, dt.hour, dt.minute, dt.second);
  }

  /** A date in the EXIF layout is stored in the dashed layout with the same fields. */
  lemma ConvertExifLayout(dt: DateTime)
    requires IsValid(dt)
    ensures ConvertDate(Some(Layout(dt, ':'))) == Some(Layout(dt, '-'))
  {
    ParseExifLayout(dt);
  }

  /** An impossible day (31 April) matches the pattern but gives `None`. */
  lemma ConvertDateRejectsDay()
    ensures ConvertDate(Some(Pad4(2023) + [':'] + Pad2(4) + [':'] + Pad2(31) + [' ']
      + Pad2(10) + [':'] + Pad2(0) + [':'] + Pad2(0))) == None
  {
    ParseLayoutFields(2023, 4, 31, 10, 0, 0);
  }

  /** A leap second matches the pattern (`%S` admits 60 and 61) but gives `None`. */
  lemma ConvertDateRejectsLeapSecond()
    ensures ConvertDate(Some(Pad4(2023) + [':'] + Pad2(6) + [':'] + Pad2(1) + [' ']
      + Pad2(12) + [':'] + Pad2(0) + [':'] + Pad2(60))) == None
  {
    ParseLayoutFields(2023, 6, 1, 12, 0, 60);
  }

  /** Text after the seconds is "unconverted data": the conversion gives `None`. */
  lemma TrailingTextRejected(dt: DateTime, rest: string)
    requires IsValid(dt) && rest != []
    ensures ConvertDate(Some(Layout(dt, ':') + rest)) == None
  {
    var seconds := Pad2(dt.second) + rest;
    var afterHour := Pad2(dt.minute) + [':'] + seconds;
    var time := Pad2(dt.hour) + [':'] + afterHour;
    var afterMonth := Pad2(dt.day) + [' '] + time;
    var afterYear := Pad2(dt.month) + [':'] + afterMonth;
    var s := Layout(dt, ':') + rest;
    LayoutNesting(Pad4(dt.year), Pad2(dt.month), Pad2(dt.day), Pad2(dt.hour), Pad2(dt.minute), seconds, ':');
    assert s == Pad4(dt.year) + [':'] + afterYear;
    ReadYear(dt.year, afterYear);
    ReadPad2Colon(dt.month, afterMonth);
    Pad2Value(dt.month);
    ReadDay(dt.day, time);
    ReadBlank(time);
    ReadPad2Colon(dt.hour, afterHour);
    ReadPad2Colon(dt.minute, seconds);
    assert NumberField(seconds, 0, 61) == None;
    assert TimeFields(time) == None;
    assert StrptimeFields(s) == None;
  }

  lemma Digit1Value(n: int)
    requires 0 <= n <= 9
    ensures AllDigits([DigitChar(n)]) && DigitsValue([DigitChar(n)]) == n
  {
    assert [DigitChar(n)][..0] == [];
  }

  /** A one-digit field followed by `:` is read as that field. */
  lemma ReadDigitColon(n: int, rest: string)
    requires 0 <= n <= 9
    ensures DigitsThenColon([DigitChar(n)] + [':'] + rest) == Some(([DigitChar(n)], rest))
  {
    var s := [DigitChar(n)] + [':'] + rest;
    assert s == [DigitChar(n)] + ([':'] + rest);
    DigitPrefixOf([DigitChar(n)], [':'] + rest);
    assert s[..1] == [DigitChar(n)];
    assert s[2..] == rest;
  }

  /** `%d` written as a space and one digit. */
  lemma ReadSpacedDay(n: int, rest: string)
    requires 1 <= n <= 9
    ensures DayField([' ', DigitChar(n)] + rest) == Some((n, rest))
  {
    assert ([' ', DigitChar(n)] + rest)[2..] == rest;
  }

  lemma ReadShortTime(hour: int, minute: int, second: int)
    requires 0 <= hour <= 9 && 0 <= minute <= 9 && 0 <= second <= 9
    ensures TimeFields([DigitChar(hour)] + [':'] + ([DigitChar(minute)] + [':'] + [DigitChar(second)]))
      == Some((hour, minute, second))
  {
    ReadDigitColon(hour, [DigitChar(minute)] + [':'] + [DigitChar(second)]);
    ReadDigitColon(minute, [DigitChar(second)]);
    Digit1Value(hour); Digit1Value(minute); Digit1Value(second);
  }

  /**
   * The shortest text the format admits: one-digit month, hour, minute and
   * second, the day as a space and a digit, and a tab for the blank.
   */
  function ShortLayout(dt: DateTime): string
    requires 1 <= dt.year <= 9999 && 1 <= dt.month <= 9 && 1 <= dt.day <= 9
    requires 0 <= dt.hour <= 9 && 0 <= dt.minute <= 9 && 0 <= dt.second <= 9
  {
    Pad4(dt.year) + [':'] + ([DigitChar(dt.month)] + [':'] + ([' ', DigitChar(dt.day)] + (['\t']
      + ([DigitChar(dt.hour)] + [':'] + ([DigitChar(dt.minute)] + [':'] + [DigitChar(dt.second)])))))
  }

  lemma ParseShortFields(dt: DateTime)
    requires 1 <= dt.year <= 9999 && 1 <= dt.month <= 9 && 1 <= dt.day <= 9
    requires 0 <= dt.hour <= 9 && 0 <= dt.minute <= 9 && 0 <= dt.second <= 9
    ensures StrptimeFields(ShortLayout(dt)) == Some(dt)
  {
    var time := [DigitChar(dt.hour)] + [':'] + ([DigitChar(dt.minute)] + [':'] + [DigitChar(dt.second)]);
    var afterDay := ['\t'] + time;
    var afterMonth := [' ', DigitChar(dt.day)] + afterDay;
    var afterYear := [DigitChar(dt.month)] + [':'] + afterMonth;
    ReadYear(dt.year, afterYear);
    ReadDigitColon(dt.month, afterMonth);
    Digit1Value(dt.month);
    ReadSpacedDay(dt.day, afterDay);
    assert SpacePrefix(afterDay) == 1 && afterDay[1..] == time;
    ReadShortTime(dt.hour, dt.minute, dt.second);
    StrptimeStages(ShortLayout(dt), afterYear, [DigitChar(dt.month)], afterMonth, afterDay, dt);
  }

  lemma ParseShortLayout(dt: DateTime)
    requires 1 <= dt.year <= 9999 && 1 <= dt.month <= 9 && 1 <= dt.day <= 9
    requires 0 <= dt.hour <= 9 && 0 <= dt.minute <= 9 && 0 <= dt.second <= 9
    ensures IsValid(dt) && ParseExifDate(ShortLayout(dt)) == Some(dt)
  {
    assert DaysInMonth(dt.year, dt.month) >= 28;
    ParseShortFields(dt);
  }

  /** The short form of a valid date is stored zero-padded, as the EXIF layout would be. */
  lemma ConvertShortLayout(dt: DateTime)
    requires 1 <= dt.year <= 9999 && 1 <= dt.month <= 9 && 1 <= dt.day <= 9
    requires 0 <= dt.hour <= 9 && 0 <= dt.minute <= 9 && 0 <= dt.second <= 9
    ensures ConvertDate(Some(ShortLayout(dt))) == Some(Layout(dt, '-'))
    ensures ConvertDate(Some(ShortLayout(dt))) == ConvertDate(Some(Layout(dt, ':')))
  {
    ParseShortLayout(dt);
    ConvertExifLayout(dt);
  }
}
