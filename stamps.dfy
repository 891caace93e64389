/** Minute-precision timestamps as the ingestion script reads and writes them:
    `datetime.strptime(text, '%m/%d/%Y %H:%M')` followed by
    `datetime.strftime(value, '%m/%d/%Y %H:%M')`. */
module Stamps {
  import opened Text

  /** A calendar date and a time of day, truncated to the minute. */
  datatype Stamp = Stamp(year: int, month: int, day: int, hour: int, minute: int)

  predicate IsLeapYear(y: int) {
    y % 4 == 0 && (y % 100 != 0 || y % 400 == 0)
  }

  function DaysInMonth(y: int, m: int): (d: int)
    requires 1 <= m <= 12
    ensures 28 <= d <= 31
    ensures d == 29 <==> m == 2 && IsLeapYear(y)
  {
    if m == 2 then (if IsLeapYear(y) then 29 else 28)
    else if m == 4 || m == 6 || m == 9 || m == 11 then 30
    else 31
  }

  /** What `datetime` accepts: years 1..9999, a day that exists in its month,
      hours 0..23 and minutes 0..59. */
  predicate Valid(t: Stamp) {
    1 <= t.year <= 9999 && 1 <= t.month <= 12 && 1 <= t.day <= DaysInMonth(t.year, t.month) &&
    0 <= t.hour <= 23 && 0 <= t.minute <= 59
  }

  /** Chronological order: `a` is not later than `b`. */
  predicate NotAfter(a: Stamp, b: Stamp) {
    a.year < b.year || (a.year == b.year &&
    (a.month < b.month || (a.month == b.month &&
    (a.day < b.day || (a.day == b.day &&
    (a.hour < b.hour || (a.hour == b.hour && a.minute <= b.minute)))))))
  }

  /** The closed window start <= t <= end. */
  predicate InWindow(t: Stamp, start: Stamp, end: Stamp) {
    NotAfter(start, t) && NotAfter(t, end)
  }

  // ---------------------------------------------------------------------
  // Characters and numerals

  predicate IsDigit(c: char) { '0' <= c <= '9' }

  /** The characters a `\s` of Python's `re` matches in the ASCII range. */
  predicate IsSpace(c: char) {
    c == ' ' || ('\t' <= c <= '\r') || ('\U{001C}' <= c <= '\U{001F}')
  }

  predicate AllDigits(s: string) {
    forall i :: 0 <= i < |s| ==> IsDigit(s[i])
  }

  function DigitValue(c: char): nat
    requires IsDigit(c)
  {
    (c as int) - ('0' as int)
  }

  function DigitChar(d: nat): (c: char)
    requires d < 10
    ensures IsDigit(c) && DigitValue(c) == d
  {
    (('0' as int) + d) as char
  }

  /** The value of a decimal numeral, most significant digit first. */
  function NumberValue(s: string): nat
    requires AllDigits(s)
    decreases |s|
  {
    if s == [] then 0 else 10 * NumberValue(s[..|s| - 1]) + DigitValue(s[|s| - 1])
  }

  /** `%m`, `%d`, `%H`, `%M` output: two digits, zero padded. */
  function Pad2(n: nat): (s: string)
    requires n < 100
    ensures |s| == 2 && AllDigits(s)
  {
    [DigitChar(n / 10), DigitChar(n % 10)]
  }

  /** `%Y` output: four digits, zero padded. */
  function Pad4(n: nat): (s: string)
    requires n < 10000
    ensures |s| == 4 && AllDigits(s)
  {
    Pad2(n / 100) + Pad2(n % 100)
  }

  lemma NumberValue2(s: string)
    requires |s| == 2 && AllDigits(s)
    ensures NumberValue(s) == 10 * DigitValue(s[0]) + DigitValue(s[1])
  {
    assert s[..1][..0] == [];
    assert NumberValue(s[..1]) == DigitValue(s[0]);
  }

  lemma NumberValue4(s: string)
    requires |s| == 4 && AllDigits(s)
    ensures NumberValue(s) == 100 * NumberValue(s[..2]) + NumberValue(s[2..])
  {
    assert s[..3][..2] == s[..2];
    assert s[..2][..1] == s[..1];
    assert s[..1][..0] == [];
    NumberValue2(s[..2]);
    NumberValue2(s[2..]);
    assert NumberValue(s[..3]) == 10 * NumberValue(s[..2]) + DigitValue(s[2]);
  }

  lemma NumberOfPad2(n: nat)
    requires n < 100
    ensures NumberValue(Pad2(n)) == n
  {
    NumberValue2(Pad2(n));
  }

  lemma NumberOfPad4(n: nat)
    requires n < 10000
    ensures NumberValue(Pad4(n)) == n
  {
    var s := Pad4(n);
    assert s[..2] == Pad2(n / 100) && s[2..] == Pad2(n % 100);
    NumberValue4(s);
    NumberOfPad2(n / 100);
    NumberOfPad2(n % 100);
  }

  lemma DigitCharOfValue(c: char)
    requires IsDigit(c)
    ensures DigitChar(DigitValue(c)) == c
  {
  }

  lemma Pad2OfNumber(s: string)
    requires |s| == 2 && AllDigits(s)
    ensures NumberValue(s) < 100 && Pad2(NumberValue(s)) == s
  {
    NumberValue2(s);
    var a, b := DigitValue(s[0]), DigitValue(s[1]);
    var n := 10 * a + b;
    assert n / 10 == a && n % 10 == b;
    DigitCharOfValue(s[0]);
    DigitCharOfValue(s[1]);
  }

  lemma Pad4OfNumber(s: string)
    requires |s| == 4 && AllDigits(s)
    ensures NumberValue(s) < 10000 && Pad4(NumberValue(s)) == s
  {
    NumberValue4(s);
    Pad2OfNumber(s[..2]);
    Pad2OfNumber(s[2..]);
    var x, y := NumberValue(s[..2]), NumberValue(s[2..]);
    var n := 100 * x + y;
    assert n / 100 == x && n % 100 == y;
    assert s == s[..2] + s[2..];
  }

  // ---------------------------------------------------------------------
  // Scanning

  /** The length of the run of whitespace that starts `s`. */
  function LeadingSpaces(s: string): (k: nat)
    ensures k <= |s|
    ensures k < |s| ==> !IsSpace(s[k])
    ensures forall j :: 0 <= j < k ==> IsSpace(s[j])
  {
    if s == [] || !IsSpace(s[0]) then 0 else 1 + LeadingSpaces(s[1..])
  }

  /** `%m`, `%H` and `%M` match one or two digits; the range is checked afterwards. */
  function NumberField(s: string): Option<nat> {
    if 1 <= |s| <= 2 && AllDigits(s) then Some(NumberValue(s)) else None
  }

  /** `%d` also matches a space followed by one digit. */
  function DayField(s: string): Option<nat> {
    if |s| == 2 && s[0] == ' ' && IsDigit(s[1]) then Some(DigitValue(s[1])) else NumberField(s)
  }

  // ---------------------------------------------------------------------
  // Parsing and printing

  /** `datetime.strptime(s, '%m/%d/%Y %H:%M')`: `None` stands for the
      `ValueError` it raises. The month and day end at the first and second
      `/`, the year is exactly four digits, the space of the format matches a
      run of one or more whitespace characters, the hour ends at the first
      `:` after it and the minute runs to the end of the text. */
  function Parse(s: string): (r: Option<Stamp>)
    ensures r.Some? ==> Valid(r.value)
  {
    var i1 := IndexOf(s, '/');
    if i1 == |s| then None else
    var rest1 := s[i1 + 1..];
    var i2 := IndexOf(rest1, '/');
    if i2 == |rest1| then None else
    var rest2 := rest1[i2 + 1..];
    if |rest2| < 4 || !AllDigits(rest2[..4]) then None else
    var rest3 := rest2[4..];
    var w := LeadingSpaces(rest3);
    if w == 0 then None else
    var rest4 := rest3[w..];
    var i3 := IndexOf(rest4, ':');
    if i3 == |rest4| then None else
    var month, day := NumberField(s[..i1]), DayField(rest1[..i2]);
    var hour, minute := NumberField(rest4[..i3]), NumberField(rest4[i3 + 1..]);
    if month.None? || day.None? || hour.None? || minute.None? then None else
    var t := Stamp(NumberValue(rest2[..4]), month.value, day.value, hour.value, minute.value);
    if Valid(t) then Some(t) else None
  }

  /** `datetime.strftime(t, '%m/%d/%Y %H:%M')`. */
  function Format(t: Stamp): (s: string)
    requires Valid(t)
  {
    Pad2(t.month) + "/" + Pad2(t.day) + "/" + Pad4(t.year) + " " + Pad2(t.hour) + ":" + Pad2(t.minute)
  }

  /** Lines 58-59 of the script: parse, then print back. */
  function Normalize(s: string): Option<string> {
    match Parse(s)
    case None => None
    case Some(t) => Some(Format(t))
  }

  /** The zero-padded sixteen-character shape `MM/DD/YYYY HH:MM`. */
  predicate IsCanonical(s: string) {
    |s| == 16 && s[2] == '/' && s[5] == '/' && s[10] == ' ' && s[13] == ':' &&
    AllDigits(s[..2]) && AllDigits(s[3..5]) && AllDigits(s[6..10]) &&
    AllDigits(s[11..13]) && AllDigits(s[14..])
  }

  lemma FormatShape(t: Stamp)
    requires Valid(t)
    ensures IsCanonical(Format(t))
    ensures Format(t)[..2] == Pad2(t.month) && Format(t)[3..5] == Pad2(t.day)
    ensures Format(t)[6..10] == Pad4(t.year)
    ensures Format(t)[11..13] == Pad2(t.hour) && Format(t)[14..] == Pad2(t.minute)
  {
  }

  /** Printing a valid stamp and parsing the text gives the stamp back. */
  lemma {:induction false} ParseFormat(t: Stamp)
    requires Valid(t)
    ensures Parse(Format(t)) == Some(t)
  {
    var s := Format(t);
    FormatShape(t);
    assert IndexOf(s, '/') == 2 by { assert !IsDigit('/'); }
    var rest1 := s[3..];
    assert rest1[2] == '/';
    assert IndexOf(rest1, '/') == 2 by { assert !IsDigit('/'); }
    var rest2 := rest1[3..];
    assert rest2 == s[6..];
    assert rest2[..4] == s[6..10];
    var rest3 := rest2[4..];
    assert rest3 == s[10..];
    assert IsSpace(rest3[0]) && !IsSpace(rest3[1]);
    assert LeadingSpaces(rest3) == 1;
    var rest4 := rest3[1..];
    assert rest4 == s[11..];
    assert rest4[2] == ':';
    assert IndexOf(rest4, ':') == 2 by { assert !IsDigit(':'); }
    assert rest4[..2] == s[11..13] && rest4[3..] == s[14..];
    assert rest1[..2] == s[3..5];
    NumberOfPad2(t.month);
    NumberOfPad2(t.day);
    NumberOfPad2(t.hour);
    NumberOfPad2(t.minute);
    NumberOfPad4(t.year);
  }

  /** Normalising twice is normalising once, and the result is always in the
      zero-padded sixteen-character shape. */
  lemma NormalizeIdempotent(s: string)
    ensures Normalize(s).Some? ==> IsCanonical(Normalize(s).value)
    ensures Normalize(s).Some? ==> Normalize(Normalize(s).value) == Normalize(s)
  {
    if Parse(s).Some? {
      FormatShape(Parse(s).value);
      ParseFormat(Parse(s).value);
    }
  }

  /** The five numerals of a text in the canonical shape. */
  function CanonicalFields(s: string): Stamp
    requires IsCanonical(s)
  {
    Stamp(NumberValue(s[6..10]), NumberValue(s[..2]), NumberValue(s[3..5]),
          NumberValue(s[11..13]), NumberValue(s[14..]))
  }

  /** On the canonical shape, parsing reads the five numerals and accepts them
      exactly when they form a valid stamp. */
  lemma {:induction false} ParseCanonical(s: string)
    requires IsCanonical(s)
    ensures Parse(s) == if Valid(CanonicalFields(s)) then Some(CanonicalFields(s)) else None
  {
    assert IndexOf(s, '/') == 2 by { assert s[0] == s[..2][0] && s[1] == s[..2][1]; }
    var rest1 := s[3..];
    assert IndexOf(rest1, '/') == 2 by { assert rest1[0] == s[3..5][0] && rest1[1] == s[3..5][1]; }
    var rest2 := rest1[3..];
    assert rest2 == s[6..] && rest2[..4] == s[6..10];
    var rest3 := rest2[4..];
    assert rest3 == s[10..];
    assert LeadingSpaces(rest3) == 1 by {
      assert IsSpace(rest3[0]);
      assert rest3[1] == s[11..13][0];
    }
    var rest4 := rest3[1..];
    assert rest4 == s[11..];
    assert IndexOf(rest4, ':') == 2 by { assert rest4[0] == s[11..13][0] && rest4[1] == s[11..13][1]; }
    assert rest4[..2] == s[11..13] && rest4[3..] == s[14..];
    assert rest1[..2] == s[3..5];
  }

  lemma CanonicalSplit(s: string)
    requires IsCanonical(s)
    ensures s == s[..2] + "/" + s[3..5] + "/" + s[6..10] + " " + s[11..13] + ":" + s[14..]
  {
  }

  /** Text that is already in the canonical shape and is accepted comes out of
      normalisation unchanged. */
  lemma CanonicalIsFixedPoint(s: string)
    requires IsCanonical(s) && Parse(s).Some?
    ensures Normalize(s) == Some(s)
  {
    ParseCanonical(s);
    var t := CanonicalFields(s);
    Pad2OfNumber(s[..2]);
    Pad2OfNumber(s[3..5]);
    Pad4OfNumber(s[6..10]);
    Pad2OfNumber(s[11..13]);
    Pad2OfNumber(s[14..]);
    CanonicalSplit(s);
  }

  /** February 29th exists in 2024 and in 2000, not in 2023 nor in 1900; by
      ParseCanonical, `02/29/YYYY HH:MM` is accepted for exactly those years. */
  lemma LeapDays()
    ensures Valid(Stamp(2024, 2, 29, 10, 0)) && Valid(Stamp(2000, 2, 29, 10, 0))
    ensures !Valid(Stamp(2023, 2, 29, 10, 0)) && !Valid(Stamp(1900, 2, 29, 10, 0))
  {
  }

  /** Month 13, April 31st, hour 24 and minute 60 are rejected. */
  lemma OutOfRangeFields()
    ensures !Valid(Stamp(2024, 13, 1, 10, 0)) && !Valid(Stamp(2024, 4, 31, 10, 0))
    ensures !Valid(Stamp(2024, 1, 1, 24, 0)) && !Valid(Stamp(2024, 1, 1, 10, 60))
  {
  }

  // ---------------------------------------------------------------------
  // Text comparison of printed stamps (see Findings in the README)

  /** Lexicographic order of two texts, character by character. */
  predicate TextNotAfter(a: string, b: string) {
    a == [] || (b != [] && (a[0] < b[0] || (a[0] == b[0] && TextNotAfter(a[1..], b[1..]))))
  }

  /** The reporter's `DateOfContact between start and end` as written, when the
      column holds the printed `MM/DD/YYYY HH:MM` text: a text comparison. */
  predicate TextWindowHas(t: Stamp, start: Stamp, end: Stamp)
    requires Valid(t) && Valid(start) && Valid(end)
  {
    TextNotAfter(Format(start), Format(t)) && TextNotAfter(Format(t), Format(end))
  }

  lemma FormatOfContactExample()
    ensures Format(Stamp(2023, 1, 15, 9, 0)) == "01/15/2023 09:00"
  {
  }

  lemma FormatOfStartExample()
    ensures Format(Stamp(2024, 1, 1, 0, 0)) == "01/01/2024 00:00"
  {
  }

  lemma FormatOfEndExample()
    ensures Format(Stamp(2024, 1, 31, 23, 59)) == "01/31/2024 23:59"
  {
  }

  /** A contact from January 2023 falls inside a January 2024 window when the
      window is compared as text, though it lies a year before the window. */
  lemma TextWindowAdmitsEarlierYear()
    ensures var t, start, end := Stamp(2023, 1, 15, 9, 0), Stamp(2024, 1, 1, 0, 0), Stamp(2024, 1, 31, 23, 59);
            Valid(t) && Valid(start) && Valid(end) &&
            TextWindowHas(t, start, end) && !InWindow(t, start, end)
  {
    FormatOfContactExample();
    FormatOfStartExample();
    FormatOfEndExample();
    var ft, fs, fe := "01/15/2023 09:00", "01/01/2024 00:00", "01/31/2024 23:59";
    assert TextNotAfter(fs[3..], ft[3..]);
    assert TextNotAfter(fs[2..], ft[2..]);
    assert TextNotAfter(fs[1..], ft[1..]);
    assert TextNotAfter(fs, ft);
    assert TextNotAfter(ft[3..], fe[3..]);
    assert TextNotAfter(ft[2..], fe[2..]);
    assert TextNotAfter(ft[1..], fe[1..]);
    assert TextNotAfter(ft, fe);
  }

  lemma FormatOfDecemberExample()
    ensures Format(Stamp(2023, 12, 1, 9, 0)) == "12/01/2023 09:00"
  {
  }

  lemma FormatOfMidJanuaryExample()
    ensures Format(Stamp(2024, 1, 15, 9, 0)) == "01/15/2024 09:00"
  {
  }

  /** The reporter's `order by DateOfContact desc` as written, on the printed
      text, lists a December 2023 contact before a January 2024 one, the
      reverse of newest first. */
  lemma TextOrderPutsEarlierYearFirst()
    ensures var older, newer := Stamp(2023, 12, 1, 9, 0), Stamp(2024, 1, 15, 9, 0);
            Valid(older) && Valid(newer) &&
            NotAfter(older, newer) && !NotAfter(newer, older) &&
            TextNotAfter(Format(newer), Format(older)) && !TextNotAfter(Format(older), Format(newer))
  {
    FormatOfDecemberExample();
    FormatOfMidJanuaryExample();
    var fo, fn := "12/01/2023 09:00", "01/15/2024 09:00";
    assert fn[0] < fo[0];
  }
}
