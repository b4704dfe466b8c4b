/**
 * `format_date`: the transaction date of a ledger row, rewritten as
 * `DD/MM/YYYY`.  A cell that is text is split on whitespace into day, month
 * name and year; the day is zero-filled to two characters and the Indonesian
 * month name is looked up in a fixed table (unknown names give `01`).
 */
module DateFormatting {
  import opened Strings

  type Day = d: int | 1 <= d <= 31 witness 1
  type MonthNumber = m: int | 1 <= m <= 12 witness 1
  /** Four-digit years: `%Y` pads years below 1000 differently from platform to platform. */
  type Year = y: int | 1000 <= y <= 9999 witness 1000

  /** A calendar date as a spreadsheet reader hands it over already typed. */
  datatype Date = Date(day: Day, month: MonthNumber, year: Year)

  /**
   * What `format_date` can be given: a missing cell, text, a typed date
   * (anything with `strftime`), or another object, of which only its `str()`
   * matters.
   */
  datatype DateCell = Absent | Text(text: string) | Typed(date: Date) | Other(shown: string)

  // ---------------------------------------------------------------------------
  // strftime('%d/%m/%Y')
  // ---------------------------------------------------------------------------

  /** `n` as exactly two decimal digits (`%d`, `%m`). */
  function TwoDigits(n: nat): (r: string)
    requires n < 100
    ensures |r| == 2 && AllDigits(r) && DigitsValue(r) == n
  {
    var r := [DigitChar(n / 10), DigitChar(n % 10)];
    assert r[..1] == [DigitChar(n / 10)];
    assert DigitsValue(r[..1]) == n / 10 by {
      assert r[..1][..0] == [];
    }
    r
  }

  /** `n` as exactly four decimal digits (`%Y`). */
  function FourDigits(n: nat): (r: string)
    requires n < 10000
    ensures |r| == 4 && AllDigits(r) && DigitsValue(r) == n
  {
    var r := TwoDigits(n / 100) + TwoDigits(n % 100);
    assert r[..3] == TwoDigits(n / 100) + [r[2]];
    assert r[..2] == TwoDigits(n / 100);
    r
  }

  /** `strftime('%d/%m/%Y')`: reading the three fields back gives the date. */
  function StrfTime(d: Date): string {
    TwoDigits(d.day) + "/" + TwoDigits(d.month) + "/" + FourDigits(d.year)
  }

  /** The ten characters of `%d/%m/%Y` give the day, the month and the year back. */
  lemma StrfTimeFields(d: Date)
    ensures var r := StrfTime(d);
      && |r| == 10 && r[2] == '/' && r[5] == '/'
      && AllDigits(r[..2]) && DigitsValue(r[..2]) == d.day
      && AllDigits(r[3..5]) && DigitsValue(r[3..5]) == d.month
      && AllDigits(r[6..]) && DigitsValue(r[6..]) == d.year
  {
    var r := StrfTime(d);
    assert r[..2] == TwoDigits(d.day);
    assert r[3..5] == TwoDigits(d.month);
    assert r[6..] == FourDigits(d.year);
  }

  // ---------------------------------------------------------------------------
  // str.zfill
  // ---------------------------------------------------------------------------

  function Zeros(n: nat): (r: string)
    ensures |r| == n && AllDigits(r) && DigitsValue(r) == 0
  {
    if n == 0 then [] else
      var r := Zeros(n - 1) + "0";
      assert r[..|r| - 1] == Zeros(n - 1);
      r
  }

  /**
   * Python's `str.zfill(width)`: text shorter than `width` is padded with
   * `0`s on the left, after a leading `+` or `-` sign if there is one.
   */
  function ZFill(s: string, width: nat): (r: string)
    ensures |s| >= width ==> r == s
    ensures |r| == if |s| >= width then |s| else width
  {
    if |s| >= width then s
    else if s != [] && (s[0] == '+' || s[0] == '-') then [s[0]] + Zeros(width - |s|) + s[1..]
    else Zeros(width - |s|) + s
  }

  /** Padding with zeros keeps the number a digit string denotes. */
  lemma {:induction false} LeadingZerosValue(n: nat, s: string)
    requires AllDigits(s)
    ensures AllDigits(Zeros(n) + s) && DigitsValue(Zeros(n) + s) == DigitsValue(s)
  {
    if s == [] {
      assert Zeros(n) + s == Zeros(n);
    } else {
      var init := s[..|s| - 1];
      LeadingZerosValue(n, init);
      var z := Zeros(n) + s;
      assert z[..|z| - 1] == Zeros(n) + init;
    }
  }

  lemma ZFillKeepsValue(s: string, width: nat)
    requires AllDigits(s)
    ensures AllDigits(ZFill(s, width)) && DigitsValue(ZFill(s, width)) == DigitsValue(s)
  {
    if |s| < width {
      assert s == [] || IsDigit(s[0]);
      ZFillUnsigned(s, width);
      LeadingZerosValue(width - |s|, s);
    }
  }

  /** Text that does not open with a sign is padded by zeros in front. */
  lemma ZFillUnsigned(s: string, width: nat)
    requires |s| < width && (s == [] || (s[0] != '+' && s[0] != '-'))
    ensures ZFill(s, width) == Zeros(width - |s|) + s
  {
  }

  lemma ZFillIdempotent(s: string, width: nat)
    ensures ZFill(ZFill(s, width), width) == ZFill(s, width)
  {
  }

  // ---------------------------------------------------------------------------
  // The month table
  // ---------------------------------------------------------------------------

  /**
   * Indonesian month names, short and long, with their two-digit numbers
   * (`TwoDigits(1)` is `01`), in the order the table lists them.
   */
  const MonthCodes: map<string, string> := map[
    "Jan" := TwoDigits(1), "Feb" := TwoDigits(2), "Mar" := TwoDigits(3), "Apr" := TwoDigits(4),
    "Mei" := TwoDigits(5), "Jun" := TwoDigits(6), "Jul" := TwoDigits(7), "Agu" := TwoDigits(8),
    "Sep" := TwoDigits(9), "Okt" := TwoDigits(10), "Nov" := TwoDigits(11), "Des" := TwoDigits(12),
    "Agustus" := TwoDigits(8), "Januari" := TwoDigits(1), "Februari" := TwoDigits(2),
    "Maret" := TwoDigits(3), "April" := TwoDigits(4), "Juni" := TwoDigits(6), "Juli" := TwoDigits(7),
    "September" := TwoDigits(9), "Oktober" := TwoDigits(10), "November" := TwoDigits(11),
    "Desember" := TwoDigits(12)]

  /** `months.get(name, '01')`: the lookup is exact, so case matters. */
  function MonthCode(name: string): (code: string)
    ensures name !in MonthCodes ==> code == TwoDigits(1)
    ensures name in MonthCodes ==> code == MonthCodes[name]
    ensures |code| == 2 && AllDigits(code) && 1 <= DigitsValue(code) <= 12
  {
    if name in MonthCodes then MonthCodes[name] else TwoDigits(1)
  }

  /** The long Indonesian month names, January first. */
  const LongMonthNames: seq<string> := ["Januari", "Februari", "Maret", "April", "Mei", "Juni",
    "Juli", "Agustus", "September", "Oktober", "November", "Desember"]

  /** The three-letter Indonesian month abbreviations, January first. */
  const ShortMonthNames: seq<string> := ["Jan", "Feb", "Mar", "Apr", "Mei", "Jun",
    "Jul", "Agu", "Sep", "Okt", "Nov", "Des"]

  /** Every month name is a single whitespace-free token. */
  lemma MonthNamesAreTokens()
    ensures forall i :: 0 <= i < 12 ==> LongMonthNames[i] != [] && NoSpace(LongMonthNames[i])
    ensures forall i :: 0 <= i < 12 ==> ShortMonthNames[i] != [] && NoSpace(ShortMonthNames[i])
  {
  }

  /** Every long month name looks up to its own month number. */
  lemma LongMonthNameLookUp(m: MonthNumber)
    ensures MonthCode(LongMonthNames[m - 1]) == TwoDigits(m)
  {
    if m <= 3 {
      LongNamesFirstQuarter(m);
    } else if m <= 6 {
      LongNamesSecondQuarter(m);
    } else if m <= 9 {
      LongNamesThirdQuarter(m);
    } else {
      LongNamesFourthQuarter(m);
    }
  }

  lemma LongNamesFirstQuarter(m: MonthNumber)
    requires 1 <= m <= 3
    ensures MonthCode(LongMonthNames[m - 1]) == TwoDigits(m)
  {
    if m == 1 {
      assert LongMonthNames[m - 1] == "Januari";
      assert MonthCode("Januari") == TwoDigits(1);
    } else if m == 2 {
      assert LongMonthNames[m - 1] == "Februari";
      assert MonthCode("Februari") == TwoDigits(2);
    } else {
      assert LongMonthNames[m - 1] == "Maret";
      assert MonthCode("Maret") == TwoDigits(3);
    }
  }

  lemma LongNamesSecondQuarter(m: MonthNumber)
    requires 4 <= m <= 6
    ensures MonthCode(LongMonthNames[m - 1]) == TwoDigits(m)
  {
    if m == 4 {
      assert LongMonthNames[m - 1] == "April";
      assert MonthCode("April") == TwoDigits(4);
    } else if m == 5 {
      assert LongMonthNames[m - 1] == "Mei";
      assert MonthCode("Mei") == TwoDigits(5);
    } else {
      assert LongMonthNames[m - 1] == "Juni";
      assert MonthCode("Juni") == TwoDigits(6);
    }
  }

  lemma LongNamesThirdQuarter(m: MonthNumber)
    requires 7 <= m <= 9
    ensures MonthCode(LongMonthNames[m - 1]) == TwoDigits(m)
  {
    if m == 7 {
      assert LongMonthNames[m - 1] == "Juli";
      assert MonthCode("Juli") == TwoDigits(7);
    } else if m == 8 {
      assert LongMonthNames[m - 1] == "Agustus";
      assert MonthCode("Agustus") == TwoDigits(8);
    } else {
      assert LongMonthNames[m - 1] == "September";
      assert MonthCode("September") == TwoDigits(9);
    }
  }

  lemma LongNamesFourthQuarter(m: MonthNumber)
    requires 10 <= m <= 12
    ensures MonthCode(LongMonthNames[m - 1]) == TwoDigits(m)
  {
    if m == 10 {
      assert LongMonthNames[m - 1] == "Oktober";
      assert MonthCode("Oktober") == TwoDigits(10);
    } else if m == 11 {
      assert LongMonthNames[m - 1] == "November";
      assert MonthCode("November") == TwoDigits(11);
    } else {
      assert LongMonthNames[m - 1] == "Desember";
      assert MonthCode("Desember") == TwoDigits(12);
    }
  }

  /** Every three-letter month name looks up to its own month number. */
  lemma ShortMonthNameLookUp(m: MonthNumber)
    ensures MonthCode(ShortMonthNames[m - 1]) == TwoDigits(m)
  {
    if m <= 3 {
      ShortNamesFirstQuarter(m);
    } else if m <= 6 {
      ShortNamesSecondQuarter(m);
    } else if m <= 9 {
      ShortNamesThirdQuarter(m);
    } else {
      ShortNamesFourthQuarter(m);
    }
  }

  lemma ShortNamesFirstQuarter(m: MonthNumber)
    requires 1 <= m <= 3
    ensures MonthCode(ShortMonthNames[m - 1]) == TwoDigits(m)
  {
    if m == 1 {
      assert ShortMonthNames[m - 1] == "Jan";
      assert MonthCode("Jan") == TwoDigits(1);
    } else if m == 2 {
      assert ShortMonthNames[m - 1] == "Feb";
      assert MonthCode("Feb") == TwoDigits(2);
    } else {
      assert ShortMonthNames[m - 1] == "Mar";
      assert MonthCode("Mar") == TwoDigits(3);
    }
  }

  lemma ShortNamesSecondQuarter(m: MonthNumber)
    requires 4 <= m <= 6
    ensures MonthCode(ShortMonthNames[m - 1]) == TwoDigits(m)
  {
    if m == 4 {
      assert ShortMonthNames[m - 1] == "Apr";
      assert MonthCode("Apr") == TwoDigits(4);
    } else if m == 5 {
      assert ShortMonthNames[m - 1] == "Mei";
      assert MonthCode("Mei") == TwoDigits(5);
    } else {
      assert ShortMonthNames[m - 1] == "Jun";
      assert MonthCode("Jun") == TwoDigits(6);
    }
  }

  lemma ShortNamesThirdQuarter(m: MonthNumber)
    requires 7 <= m <= 9
    ensures MonthCode(ShortMonthNames[m - 1]) == TwoDigits(m)
  {
    if m == 7 {
      assert ShortMonthNames[m - 1] == "Jul";
      assert MonthCode("Jul") == TwoDigits(7);
    } else if m == 8 {
      assert ShortMonthNames[m - 1] == "Agu";
      assert MonthCode("Agu") == TwoDigits(8);
    } else {
      assert ShortMonthNames[m - 1] == "Sep";
      assert MonthCode("Sep") == TwoDigits(9);
    }
  }

  lemma ShortNamesFourthQuarter(m: MonthNumber)
    requires 10 <= m <= 12
    ensures MonthCode(ShortMonthNames[m - 1]) == TwoDigits(m)
  {
    if m == 10 {
      assert ShortMonthNames[m - 1] == "Okt";
      assert MonthCode("Okt") == TwoDigits(10);
    } else if m == 11 {
      assert ShortMonthNames[m - 1] == "Nov";
      assert MonthCode("Nov") == TwoDigits(11);
    } else {
      assert ShortMonthNames[m - 1] == "Des";
      assert MonthCode("Des") == TwoDigits(12);
    }
  }

  /**
   * `format_date(date_str)`.  A missing cell gives the empty string, a typed
   * date its `strftime('%d/%m/%Y')`, another object its `str()`.  Text with at
   * least three whitespace-separated tokens becomes `day/month/year` (tokens
   * after the third are dropped); shorter text is returned as it is.
   */
  function FormatDate(cell: DateCell): (r: string)
    ensures cell.Absent? ==> r == ""
    ensures cell.Typed? ==> r == StrfTime(cell.date)
    ensures cell.Other? ==> r == cell.shown
  {
    match cell
    case Absent => ""
    case Typed(d) => StrfTime(d)
    case Other(shown) => shown
    case Text(text) => FormatDateText(text)
  }

  /** The text branch of `format_date`. */
  function FormatDateText(text: string): (r: string)
    ensures |Split(text)| < 3 ==> r == text
    ensures |Split(text)| >= 3 ==> r != [] && NoSpace(r)
  {
    var parts := Split(text);
    if |parts| >= 3 then
      JoinedDateNoSpace(parts[0], parts[1], parts[2]);
      JoinedDate(parts[0], parts[1], parts[2])
    else text
  }

  /** `f"{day}/{month}/{year}"` after padding the day and looking up the month. */
  function JoinedDate(day: string, month: string, year: string): string {
    ZFill(day, 2) + "/" + MonthCode(month) + "/" + year
  }

  lemma JoinedDateNoSpace(day: string, month: string, year: string)
    requires NoSpace(day) && NoSpace(year)
    ensures JoinedDate(day, month, year) != [] && NoSpace(JoinedDate(day, month, year))
  {
    var z, m := ZFill(day, 2), MonthCode(month);
    ZFillNoSpace(day, 2);
    DigitsNoSpace(m);
    assert NoSpace("/") by { assert "/"[0] == '/'; }
    NoSpaceAppend(z, "/");
    NoSpaceAppend(z + "/", m);
    NoSpaceAppend(z + "/" + m, "/");
    NoSpaceAppend(z + "/" + m + "/", year);
  }

  lemma ZFillNoSpace(s: string, width: nat)
    requires NoSpace(s)
    ensures NoSpace(ZFill(s, width))
  {
    var z := ZFill(s, width);
    if |s| < width {
      DigitsNoSpace(Zeros(width - |s|));
      if s != [] && (s[0] == '+' || s[0] == '-') {
        assert z == [s[0]] + Zeros(width - |s|) + s[1..];
        assert NoSpace([s[0]]) && NoSpace(s[1..]);
        NoSpaceAppend([s[0]], Zeros(width - |s|));
        NoSpaceAppend([s[0]] + Zeros(width - |s|), s[1..]);
      } else {
        ZFillUnsigned(s, width);
        NoSpaceAppend(Zeros(width - |s|), s);
      }
    }
  }

  /**
   * Text made of a day, a month name and a year, separated by any runs of
   * whitespace and possibly followed by more tokens, is formatted from those
   * three tokens alone.
   */
  lemma FormatDateOfTokens(lead: string, day: string, sep1: string, month: string, sep2: string,
                           year: string, rest: string, s: string)
    requires AllSpace(lead) && sep1 != [] && AllSpace(sep1) && sep2 != [] && AllSpace(sep2)
    requires day != [] && NoSpace(day) && month != [] && NoSpace(month) && year != [] && NoSpace(year)
    requires rest == [] || IsSpace(rest[0])
    requires s == lead + (day + (sep1 + (month + (sep2 + (year + rest)))))
    ensures FormatDate(Text(s)) == JoinedDate(day, month, year)
  {
    var tail := year + rest;
    SplitWord(year, rest);
    var m := month + (sep2 + tail);
    SplitToken(month, sep2, tail, m);
    var d := day + (sep1 + m);
    SplitToken(day, sep1, m, d);
    SplitSpacePrefix(lead, d);
    ThreeTokens(Split(s), Split(m), Split(tail), day, month, year);
  }

  /** A token followed by whitespace starts the split; the whitespace is dropped. */
  lemma SplitToken(w: string, sep: string, tail: string, s: string)
    requires w != [] && NoSpace(w) && sep != [] && AllSpace(sep)
    requires s == w + (sep + tail)
    ensures Split(s) == [w] + Split(tail)
  {
    SplitWord(w, sep + tail);
    SplitSpacePrefix(sep, tail);
  }

  lemma ThreeTokens(p: seq<string>, q: seq<string>, r: seq<string>, day: string, month: string, year: string)
    requires p == [day] + q && q == [month] + r && |r| >= 1 && r[0] == year
    ensures |p| >= 3 && p[0] == day && p[1] == month && p[2] == year
  {
  }

  /** Formatting text twice changes nothing more than formatting it once. */
  lemma FormatDateIdempotent(s: string)
    ensures FormatDate(Text(FormatDate(Text(s)))) == FormatDate(Text(s))
  {
    if |Split(s)| >= 3 {
      SplitSingle(FormatDate(Text(s)));
    }
  }

  /** A one-digit day gains its leading zero; a two-digit day is kept. */
  lemma ZFillDay(d: Day)
    ensures ZFill(NatDigits(d), 2) == TwoDigits(d)
  {
    if d >= 10 {
      assert NatDigits(d / 10) == [DigitChar(d / 10)];
      assert NatDigits(d) == [DigitChar(d / 10), DigitChar(d % 10)];
    } else {
      assert NatDigits(d) == [DigitChar(d)];
      assert DigitChar(0) == '0';
      assert ZFill(NatDigits(d), 2) == "0" + [DigitChar(d)];
    }
  }

  /**
   * A date written out as text (the day without padding, the long or short
   * month name, the four-digit year) formats exactly as the same date handed
   * over typed.
   */
  lemma TextAgreesWithTyped(d: Date, name: string, s: string)
    requires name == LongMonthNames[d.month - 1] || name == ShortMonthNames[d.month - 1]
    requires s == NatDigits(d.day) + (" " + (name + (" " + FourDigits(d.year))))
    ensures FormatDate(Text(s)) == FormatDate(Typed(d))
  {
    assert FourDigits(d.year) + "" == FourDigits(d.year);
    assert "" + s == s;
    MonthNameLookUp(d.month, name);
    DigitsNoSpace(NatDigits(d.day));
    DigitsNoSpace(FourDigits(d.year));
    FormatDateOfTokens("", NatDigits(d.day), " ", name, " ", FourDigits(d.year), "", s);
    ZFillDay(d.day);
  }

  lemma MonthNameLookUp(m: MonthNumber, name: string)
    requires name == LongMonthNames[m - 1] || name == ShortMonthNames[m - 1]
    ensures name != [] && NoSpace(name) && MonthCode(name) == TwoDigits(m)
  {
    LongMonthNameLookUp(m);
    ShortMonthNameLookUp(m);
    MonthNamesAreTokens();
  }

  /** The lookup is case-sensitive: `agustus` is not in the table and reads as January. */
  lemma MonthLookUpIsCaseSensitive()
    ensures MonthCode("Agustus") == TwoDigits(8)
    ensures MonthCode("agustus") == TwoDigits(1)
  {
  }

  /** An ISO date is a single token and comes back unchanged. */
  lemma IsoDateExample(s: string)
    requires s == "2024-08-15"
    ensures FormatDate(Text(s)) == s
  {
    SplitSingle(s);
  }
}
