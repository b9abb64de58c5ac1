/** The textual timestamp layout `YYYY:MM:DD HH:MM:SS` (`%Y:%m:%d %H:%M:%S`)
    that the capture tags DateTimeOriginal and DateTimeDigitized use
    (CIPA DC-008-2012, section 4.6.5), and the one-hour correction applied
    to it. */
module TimestampText {
  import opened Outcomes
  import opened Calendar

  const Length := 19

  predicate IsDigit(c: char) {
    '0' <= c <= '9'
  }

  function DigitValue(c: char): int
    requires IsDigit(c)
  {
    c as int - '0' as int
  }

  function Digit(n: int): (c: char)
    requires 0 <= n < 10
    ensures IsDigit(c) && DigitValue(c) == n
  {
    ('0' as int + n) as char
  }

  /** Every field fits its width in the layout. */
  predicate FieldsFit(t: DateTime) {
    && 0 <= t.year < 10000 && 0 <= t.month < 100 && 0 <= t.day < 100
    && 0 <= t.hour < 100 && 0 <= t.minute < 100 && 0 <= t.second < 100
  }

  /** `strftime` with the tag layout, every field zero-padded. */
  function Format(t: DateTime): (s: string)
    requires FieldsFit(t)
    ensures |s| == Length
  {
    [Digit(t.year / 1000), Digit(t.year / 100 % 10), Digit(t.year / 10 % 10), Digit(t.year % 10), ':',
     Digit(t.month / 10), Digit(t.month % 10), ':',
     Digit(t.day / 10), Digit(t.day % 10), ' ',
     Digit(t.hour / 10), Digit(t.hour % 10), ':',
     Digit(t.minute / 10), Digit(t.minute % 10), ':',
     Digit(t.second / 10), Digit(t.second % 10)]
  }

  predicate Digits2At(s: string, i: nat)
    requires i + 2 <= |s|
  {
    IsDigit(s[i]) && IsDigit(s[i + 1])
  }

  function Number2At(s: string, i: nat): int
    requires i + 2 <= |s| && Digits2At(s, i)
  {
    10 * DigitValue(s[i]) + DigitValue(s[i + 1])
  }

  /** The character layout: digits with ':' and ' ' at fixed places. */
  predicate Layout(s: string) {
    && |s| == Length
    && Digits2At(s, 0) && Digits2At(s, 2) && s[4] == ':'
    && Digits2At(s, 5) && s[7] == ':'
    && Digits2At(s, 8) && s[10] == ' '
    && Digits2At(s, 11) && s[13] == ':'
    && Digits2At(s, 14) && s[16] == ':'
    && Digits2At(s, 17)
  }

  /** `strptime` with the tag layout: the calendar value the text names, or
      None when the text is off the layout or names no real instant
      (month 13, 30 February, second 60, year 0). */
  function Parse(s: string): (r: Option<DateTime>)
    ensures r.Some? ==> Valid(r.value)
  {
    if !Layout(s) then None
    else
      var t := DateTime(100 * Number2At(s, 0) + Number2At(s, 2), Number2At(s, 5), Number2At(s, 8),
                        Number2At(s, 11), Number2At(s, 14), Number2At(s, 17));
      if Valid(t) then Some(t) else None
  }

  /** Only the canonical text of an instant parses: reading a text and
      writing the value back gives the same text. */
  lemma FormatParse(s: string)
    requires Parse(s).Some?
    ensures Format(Parse(s).value) == s
  {
    FormatOfLayout(s, Parse(s).value);
  }

  lemma DigitOfValue(c: char)
    requires IsDigit(c)
    ensures Digit(DigitValue(c)) == c
  {
  }

  /** The two digits at i, rebuilt from the number they spell. */
  lemma Digits2Rebuilt(s: string, i: nat)
    requires i + 2 <= |s| && Digits2At(s, i)
    ensures Digit(Number2At(s, i) / 10) == s[i] && Digit(Number2At(s, i) % 10) == s[i + 1]
  {
    var n := Number2At(s, i);
    assert n / 10 == DigitValue(s[i]) && n % 10 == DigitValue(s[i + 1]);
    DigitOfValue(s[i]);
    DigitOfValue(s[i + 1]);
  }

  /** The four year digits are the two hundreds digits then the two units digits. */
  lemma YearDigits(y: int)
    requires 0 <= y < 10000
    ensures 10 * (y / 1000) + y / 100 % 10 == y / 100
    ensures 10 * (y / 10 % 10) + y % 10 == y % 100
  {
    var hi, lo := y / 100, y % 100;
    assert y == 100 * hi + lo;
    assert y / 1000 == hi / 10;
    assert y / 100 % 10 == hi % 10;
    assert y / 10 % 10 == lo / 10;
    assert y % 10 == lo % 10;
  }

  lemma CenturySplit(hi: int, lo: int)
    requires 0 <= hi < 100 && 0 <= lo < 100
    ensures (100 * hi + lo) / 1000 == hi / 10 && (100 * hi + lo) / 100 % 10 == hi % 10
    ensures (100 * hi + lo) / 10 % 10 == lo / 10 && (100 * hi + lo) % 10 == lo % 10
  {
  }

  lemma FormatOfLayout(s: string, t: DateTime)
    requires Layout(s)
    requires t == DateTime(100 * Number2At(s, 0) + Number2At(s, 2), Number2At(s, 5), Number2At(s, 8),
                           Number2At(s, 11), Number2At(s, 14), Number2At(s, 17))
    ensures Format(t) == s
  {
    CenturySplit(Number2At(s, 0), Number2At(s, 2));
    Digits2Rebuilt(s, 0);
    Digits2Rebuilt(s, 2);
    Digits2Rebuilt(s, 5);
    Digits2Rebuilt(s, 8);
    Digits2Rebuilt(s, 11);
    Digits2Rebuilt(s, 14);
    Digits2Rebuilt(s, 17);
    var f := Format(t);
    assert forall i | 0 <= i < Length :: f[i] == s[i];
  }

  /** Formatting then parsing gives back the same calendar value, so every
      text the program writes can be read again with the same layout. */
  lemma ParseFormat(t: DateTime)
    requires Valid(t)
    ensures Parse(Format(t)) == Some(t)
  {
    var s := Format(t);
    YearDigits(t.year);
    assert Layout(s);
    assert Number2At(s, 0) == t.year / 100;
    assert Number2At(s, 2) == t.year % 100;
    assert Number2At(s, 5) == t.month;
    assert Number2At(s, 8) == t.day;
    assert Number2At(s, 11) == t.hour;
    assert Number2At(s, 14) == t.minute;
    assert Number2At(s, 17) == t.second;
  }

  /** `increase_image_tag_date_by_one_hour`: read the text, add one hour with
      calendar rollover, write it back in the same layout. */
  function IncreaseByOneHour(text: string): (r: Result<string>)
    ensures Parse(text).None? ==> r == Err(BadTimestamp(text))
    ensures r.Ok? ==> Parse(text).Some? && Parse(r.value).Some?
                      && ToSeconds(Parse(r.value).value) == ToSeconds(Parse(text).value) + 3600
    ensures Parse(text).Some? && r.Err? ==> r.error == OutOfRange && Parse(text).value.year == MaxYear
    ensures r.Ok? <==> Parse(text).Some? && ToSeconds(Parse(text).value) + 3600 <= MaxSeconds
  {
    match Parse(text)
    case None => Err(BadTimestamp(text))
    case Some(t) =>
      match Shift(t, 3600)
      case Err(e) => Err(e)
      case Ok(later) =>
        ParseFormat(later);
        Ok(Format(later))
  }

  // ---------------------------------------------------------------------
  // Examples

  /** The text read back from the layout pins down the instant exactly. */
  lemma ParseInjective(s1: string, s2: string)
    requires Parse(s1).Some? && Parse(s1) == Parse(s2)
    ensures s1 == s2
  {
    FormatParse(s1);
    FormatParse(s2);
  }

  lemma YearEndExample()
    ensures IncreaseByOneHour("2023:12:31 23:00:00") == Ok("2024:01:01 00:00:00")
  {
    var before, after := DateTime(2023, 12, 31, 23, 0, 0), DateTime(2024, 1, 1, 0, 0, 0);
    assert Valid(before) && Valid(after);
    assert Format(before) == "2023:12:31 23:00:00";
    assert Format(after) == "2024:01:01 00:00:00";
    ParseFormat(before);
    YearRollover();
  }
}
