/** The commit date on a `hg heads` line, read the way `HgRepo.parse_date`
    reads it: drop the five characters of "date:", drop leading whitespace,
    parse "%a %b %d %H:%M:%S %Y %z" and convert to seconds since the Unix
    epoch, all with integer arithmetic on the proleptic Gregorian calendar. */
module Dates {
  import opened Text

  const DayNames: seq<string> := ["Mon", "Tue", "Wed", "Thu", "Fri", "Sat", "Sun"]
  const MonthNames: seq<string> := ["Jan", "Feb", "Mar", "Apr", "May", "Jun", "Jul", "Aug", "Sep", "Oct", "Nov", "Dec"]

  /** A civil date and time with its UTC offset in minutes east of UTC. */
  datatype Stamp = Stamp(year: int, month: int, day: int, hour: int, minute: int, second: int, offset: int)

  predicate IsLeapYear(y: int) {
    y % 4 == 0 && (y % 100 != 0 || y % 400 == 0)
  }

  function DaysInMonth(y: int, m: int): int
    requires 1 <= m <= 12
  {
    if m == 2 then (if IsLeapYear(y) then 29 else 28)
    else if m == 4 || m == 6 || m == 9 || m == 11 then 30
    else 31
  }

  /** The fields that `datetime` accepts: years 1 to 9999, a real day of the
      month, a time of day without leap second, an offset under a day. */
  predicate ValidStamp(st: Stamp) {
    && 1 <= st.year <= 9999
    && 1 <= st.month <= 12
    && 1 <= st.day <= DaysInMonth(st.year, st.month)
    && 0 <= st.hour <= 23 && 0 <= st.minute <= 59 && 0 <= st.second <= 59
    && -(23 * 60 + 59) <= st.offset <= 23 * 60 + 59
  }

  /** Days from 1970-01-01 to the given civil date. */
  function DaysFromCivil(y: int, m: int, d: int): int
    requires 1 <= m <= 12
  {
    var y' := if m <= 2 then y - 1 else y;
    var era := y' / 400;
    var yoe := y' - era * 400;
    var mp := (m + 9) % 12;
    var doy := (153 * mp + 2) / 5 + d - 1;
    var doe := yoe * 365 + yoe / 4 - yoe / 100 + doy;
    era * 146097 + doe - 719468
  }

  /** `datetime.timestamp()` of an aware datetime: seconds since the epoch, in UTC. */
  function EpochSeconds(st: Stamp): int
    requires 1 <= st.month <= 12
  {
    DaysFromCivil(st.year, st.month, st.day) * 86400
      + st.hour * 3600 + st.minute * 60 + st.second - st.offset * 60
  }

  predicate IsDigit(c: char) {
    '0' <= c <= '9'
  }

  predicate AllDigits(s: string) {
    forall i :: 0 <= i < |s| ==> IsDigit(s[i])
  }

  /** The decimal value of a string of digits. */
  function DigitsValue(s: string): nat
    requires AllDigits(s)
  {
    if s == [] then 0
    else DigitsValue(s[..|s| - 1]) * 10 + (s[|s| - 1] - '0') as nat
  }

  /** The number of an English month abbreviation, as `%b` reads it. */
  function MonthNumber(name: string): (r: Option<int>)
    ensures r.Some? ==> 1 <= r.value <= 12 && MonthNames[r.value - 1] == name
  {
    if name == "Jan" then Some(1) else if name == "Feb" then Some(2)
    else if name == "Mar" then Some(3) else if name == "Apr" then Some(4)
    else if name == "May" then Some(5) else if name == "Jun" then Some(6)
    else if name == "Jul" then Some(7) else if name == "Aug" then Some(8)
    else if name == "Sep" then Some(9) else if name == "Oct" then Some(10)
    else if name == "Nov" then Some(11) else if name == "Dec" then Some(12)
    else None
  }

  /** The fixed layout: separators in place, digits where numbers go. */
  predicate Layout(s: string) {
    && |s| == 30 && s[3] == ' ' && s[7] == ' ' && s[10] == ' ' && s[13] == ':'
    && s[16] == ':' && s[19] == ' ' && s[24] == ' ' && (s[25] == '+' || s[25] == '-')
    && AllDigits(s[8..10]) && AllDigits(s[11..13]) && AllDigits(s[14..16])
    && AllDigits(s[17..19]) && AllDigits(s[20..24]) && AllDigits(s[26..28])
    && AllDigits(s[28..30])
  }

  /** The offset "+HHMM" or "-HHMM" in minutes east of UTC. */
  function OffsetOf(s: string): int
    requires Layout(s)
  {
    var minutes := DigitsValue(s[26..28]) * 60 + DigitsValue(s[28..30]);
    if s[25] == '-' then -minutes else minutes
  }

  /** The fields of a string in the layout, read as numbers. */
  function FieldsOf(s: string, month: int): Stamp
    requires Layout(s)
  {
    Stamp(DigitsValue(s[20..24]), month, DigitsValue(s[8..10]), DigitsValue(s[11..13]),
      DigitsValue(s[14..16]), DigitsValue(s[17..19]), OffsetOf(s))
  }

  /** The layout `hg heads` prints, "Mon Nov 19 10:37:51 2018 +0100", read
      field by field; None where `strptime` or `datetime` would raise. */
  function ParseStamp(s: string): (r: Option<Stamp>)
    ensures r.Some? ==> ValidStamp(r.value)
  {
    if !Layout(s) || s[..3] !in DayNames || MonthNumber(s[4..7]).None? then None
    else
      var st := FieldsOf(s, MonthNumber(s[4..7]).value);
      if DigitsValue(s[26..28]) <= 23 && DigitsValue(s[28..30]) <= 59 && ValidStamp(st)
      then Some(st) else None
  }

  lemma Digits2(s: string)
    requires |s| == 2 && AllDigits(s)
    ensures DigitsValue(s) == (s[0] - '0') as int * 10 + (s[1] - '0') as int
  {
    assert s[..1][..0] == [];
    assert s[..1][0] == s[0];
    assert DigitsValue(s[..1]) == (s[0] - '0') as nat;
  }

  lemma Digits4(s: string)
    requires |s| == 4 && AllDigits(s)
    ensures DigitsValue(s) == ((s[0] - '0') as int * 10 + (s[1] - '0') as int) * 100
                              + (s[2] - '0') as int * 10 + (s[3] - '0') as int
  {
    Digits2(s[..2]);
    assert s[..3][..2] == s[..2];
  }

  /** `HgRepo.parse_date(item)`: None stands for the ValueError of `strptime`. */
  function ParseDate(item: string): (r: Option<int>)
    ensures r.Some? ==> exists st :: ValidStamp(st) && r.value == EpochSeconds(st)
  {
    match ParseStamp(LStrip(Drop(item, 5)))
    case None => None
    case Some(st) => Some(EpochSeconds(st))
  }

  /** The date line of the project's own test, "date:" and eight blanks
      before "Mon Nov 19 10:37:51 2018 +0100", gives 1542620271. */
  lemma ParseDateExample()
    ensures ParseDate("date:" + "        " + "Mon Nov 19 10:37:51 2018 +0100") == Some(1542620271)
  {
    StripLabel("date:", "        ", "Mon Nov 19 10:37:51 2018 +0100");
    ExampleStamp("Mon Nov 19 10:37:51 2018 +0100");
    ExampleEpoch();
  }

  lemma ExampleStamp(s: string)
    requires s == "Mon Nov 19 10:37:51 2018 +0100"
    ensures ParseStamp(s) == Some(Stamp(2018, 11, 19, 10, 37, 51, 60))
  {
    ExampleAssembled(s);
    ExampleDigits();
    AssembleFields("Mon", "Nov", "19", "10", "37", "51", "2018", '+', "01", "00", 11);
    ExampleNames();
    ExampleValid();
    ParseStampFields(s, 11, Stamp(2018, 11, 19, 10, 37, 51, 60));
  }

  lemma ExampleDigits()
    ensures AllDigits("19") && AllDigits("10") && AllDigits("37") && AllDigits("51")
    ensures AllDigits("2018") && AllDigits("01") && AllDigits("00")
    ensures DigitsValue("19") == 19 && DigitsValue("10") == 10 && DigitsValue("37") == 37
    ensures DigitsValue("51") == 51 && DigitsValue("2018") == 2018
    ensures DigitsValue("01") == 1 && DigitsValue("00") == 0
  {
    Digits2("19");
    Digits2("10");
    Digits2("37");
    Digits2("51");
    Digits4("2018");
    Digits2("01");
    Digits2("00");
  }

  lemma ExampleNames()
    ensures "Mon" in DayNames && MonthNumber("Nov") == Some(11)
  {
    assert DayNames[0] == "Mon";
  }

  lemma ExampleValid()
    ensures ValidStamp(Stamp(2018, 11, 19, 10, 37, 51, 60))
  {
    assert DaysInMonth(2018, 11) == 30;
  }

  lemma ExampleAssembled(s: string)
    requires s == "Mon Nov 19 10:37:51 2018 +0100"
    ensures s == Assemble("Mon", "Nov", "19", "10", "37", "51", "2018", '+', "01", "00")
  {
  }

  lemma ExampleEpoch()
    ensures EpochSeconds(Stamp(2018, 11, 19, 10, 37, 51, 60)) == 1542620271
  {
    assert DaysFromCivil(2018, 11, 19) == 17854;
  }

  /** A string in the layout whose fields form a valid stamp parses to it. */
  lemma ParseStampFields(s: string, month: int, st: Stamp)
    requires Layout(s) && s[..3] in DayNames && MonthNumber(s[4..7]) == Some(month)
    requires FieldsOf(s, month) == st && ValidStamp(st)
    requires DigitsValue(s[26..28]) <= 23 && DigitsValue(s[28..30]) <= 59
    ensures ParseStamp(s) == Some(st)
  {
  }

  /** Dropping "date:" and the blanks after it leaves the rest of the line. */
  lemma StripLabel(tag: string, blanks: string, s: string)
    requires |tag| == 5 && s != [] && !IsSpace(s[0])
    requires forall i :: 0 <= i < |blanks| ==> blanks[i] == ' '
    ensures LStrip(Drop(tag + blanks + s, 5)) == s
  {
    var line := tag + blanks + s;
    LStripPrefix(line[5..], |blanks|);
    assert line[5..] == blanks + s;
    assert (blanks + s)[|blanks|..] == s;
  }

  function DigitChar(n: int): char
    requires 0 <= n <= 9
  {
    ('0' as int + n) as char
  }

  /** `n` written with exactly two digits. */
  function Pad2(n: int): string
    requires 0 <= n <= 99
  {
    [DigitChar(n / 10), DigitChar(n % 10)]
  }

  /** `n` written with exactly four digits. */
  function Pad4(n: int): string
    requires 0 <= n <= 9999
  {
    Pad2(n / 100) + Pad2(n % 100)
  }

  /** The weekday of a civil date, 0 for Monday (1970-01-01 was a Thursday). */
  function Weekday(y: int, m: int, d: int): int
    requires 1 <= m <= 12
  {
    (DaysFromCivil(y, m, d) + 3) % 7
  }

  /** Ten fields put in the layout: "www mmm dd hh:mm:ss yyyy +hhmm". */
  function Assemble(w: string, mo: string, d: string, h: string, mi: string, se: string,
                    y: string, sign: char, oh: string, om: string): (s: string)
    requires |w| == 3 && |mo| == 3 && |d| == 2 && |h| == 2 && |mi| == 2 && |se| == 2
    requires |y| == 4 && |oh| == 2 && |om| == 2
    ensures |s| == 30 && s[..3] == w && s[4..7] == mo && s[8..10] == d && s[11..13] == h
    ensures s[14..16] == mi && s[17..19] == se && s[20..24] == y && s[26..28] == oh && s[28..30] == om
    ensures s[3] == ' ' && s[7] == ' ' && s[10] == ' ' && s[13] == ':'
    ensures s[16] == ':' && s[19] == ' ' && s[24] == ' ' && s[25] == sign
  {
    var s := seq(30, i requires 0 <= i < 30 =>
      if i < 3 then w[i] else if i < 4 then ' ' else if i < 7 then mo[i - 4]
      else if i < 8 then ' ' else if i < 10 then d[i - 8] else if i < 11 then ' '
      else if i < 13 then h[i - 11] else if i < 14 then ':' else if i < 16 then mi[i - 14]
      else if i < 17 then ':' else if i < 19 then se[i - 17] else if i < 20 then ' '
      else if i < 24 then y[i - 20] else if i < 25 then ' ' else if i < 26 then sign
      else if i < 28 then oh[i - 26] else om[i - 28]);
    assert s[..3] == w && s[4..7] == mo && s[8..10] == d && s[11..13] == h;
    assert s[14..16] == mi && s[17..19] == se;
    assert s[20..24] == y;
    assert s[26..28] == oh && s[28..30] == om;
    s
  }

  /** The date line `hg` prints for a commit stamp (an independent
      reference for the parser: hg's `%a %b %d %H:%M:%S %Y %1%2` layout). */
  function FormatStamp(st: Stamp): (s: string)
    requires ValidStamp(st)
  {
    FormatWithDay(DayNames[Weekday(st.year, st.month, st.day)], st)
  }

  /** The size of the stamp's offset, in minutes. */
  function OffsetSize(st: Stamp): int {
    if st.offset < 0 then -st.offset else st.offset
  }

  /** The sign hg prints before the offset. */
  function OffsetSign(st: Stamp): char {
    if st.offset < 0 then '-' else '+'
  }

  /** The date line for a stamp with the day name `w`. */
  function FormatWithDay(w: string, st: Stamp): (s: string)
    requires |w| == 3 && ValidStamp(st)
  {
    Assemble(w, MonthNames[st.month - 1],
      Pad2(st.day), Pad2(st.hour), Pad2(st.minute), Pad2(st.second), Pad4(st.year),
      OffsetSign(st), Pad2(OffsetSize(st) / 60), Pad2(OffsetSize(st) % 60))
  }

  lemma Pad2Value(n: int)
    requires 0 <= n <= 99
    ensures AllDigits(Pad2(n)) && DigitsValue(Pad2(n)) == n
  {
    var p := Pad2(n);
    assert p[..1] == [p[0]];
    assert DigitsValue(p[..1]) == n / 10;
  }

  lemma Pad4Value(n: int)
    requires 0 <= n <= 9999
    ensures AllDigits(Pad4(n)) && DigitsValue(Pad4(n)) == n
  {
    var p := Pad4(n);
    var a, b := Pad2(n / 100), Pad2(n % 100);
    Pad2Value(n / 100);
    Pad2Value(n % 100);
    assert p[..3] == a + [b[0]];
    assert p[..3][..2] == a;
    assert DigitsValue(p[..3]) == (n / 100) * 10 + (b[0] - '0') as nat;
    assert (b[0] - '0') as nat == (n % 100) / 10;
  }

  lemma MonthNumberOfName(m: int)
    requires 1 <= m <= 12
    ensures MonthNumber(MonthNames[m - 1]) == Some(m)
  {
  }

  /** Ten fields of digits put in the layout are read back as numbers. */
  lemma AssembleFields(w: string, mo: string, d: string, h: string, mi: string, se: string,
                       y: string, sign: char, oh: string, om: string, month: int)
    requires |w| == 3 && |mo| == 3 && |d| == 2 && |h| == 2 && |mi| == 2 && |se| == 2
    requires |y| == 4 && |oh| == 2 && |om| == 2 && (sign == '+' || sign == '-')
    requires AllDigits(d) && AllDigits(h) && AllDigits(mi) && AllDigits(se)
    requires AllDigits(y) && AllDigits(oh) && AllDigits(om)
    ensures var s := Assemble(w, mo, d, h, mi, se, y, sign, oh, om);
      && Layout(s) && s[..3] == w && s[4..7] == mo
      && s[26..28] == oh && s[28..30] == om
      && FieldsOf(s, month)
         == Stamp(DigitsValue(y), month, DigitsValue(d), DigitsValue(h), DigitsValue(mi), DigitsValue(se),
                  if sign == '-' then -(DigitsValue(oh) * 60 + DigitsValue(om)) else DigitsValue(oh) * 60 + DigitsValue(om))
  {
  }

  /** The date line for a valid stamp and a day name is in the layout, with
      that day name, the stamp's month name and the stamp's numbers. */
  lemma FormatFields(w: string, st: Stamp)
    requires w in DayNames && ValidStamp(st)
    ensures var s := FormatWithDay(w, st);
      && Layout(s) && s[..3] == w && MonthNumber(s[4..7]) == Some(st.month)
      && FieldsOf(s, st.month) == st
      && DigitsValue(s[26..28]) <= 23 && DigitsValue(s[28..30]) <= 59
  {
    var off, sign := OffsetSize(st), OffsetSign(st);
    Pad2Value(st.day);
    Pad2Value(st.hour);
    Pad2Value(st.minute);
    Pad2Value(st.second);
    Pad4Value(st.year);
    Pad2Value(off / 60);
    Pad2Value(off % 60);
    MonthNumberOfName(st.month);
    AssembleFields(w, MonthNames[st.month - 1], Pad2(st.day), Pad2(st.hour), Pad2(st.minute), Pad2(st.second),
                   Pad4(st.year), sign, Pad2(off / 60), Pad2(off % 60), st.month);
    var minutes := DigitsValue(Pad2(off / 60)) * 60 + DigitsValue(Pad2(off % 60));
    assert minutes == off;
    assert (if sign == '-' then -minutes else minutes) == st.offset;
  }

  /** The `date:` line hg prints for any valid stamp, with any run of blanks
      after the label, parses to that stamp's seconds since the epoch. */
  lemma ParseDateLine(st: Stamp, blanks: string)
    requires ValidStamp(st)
    requires forall i :: 0 <= i < |blanks| ==> blanks[i] == ' '
    ensures ParseDate("date:" + blanks + FormatStamp(st)) == Some(EpochSeconds(st))
  {
    var w := DayNames[Weekday(st.year, st.month, st.day)];
    var s := FormatStamp(st);
    assert s[..3] == w;
    assert s[0] == w[0];
    StripLabel("date:", blanks, s);
    ParseFormat(st);
  }

  /** Parsing what hg prints for a valid stamp gives the stamp back. */
  lemma ParseFormat(st: Stamp)
    requires ValidStamp(st)
    ensures ParseStamp(FormatStamp(st)) == Some(st)
  {
    var w := DayNames[Weekday(st.year, st.month, st.day)];
    FormatFields(w, st);
    ParseStampFields(FormatWithDay(w, st), st.month, st);
  }
}
