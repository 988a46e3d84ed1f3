/** `Scheduler.formatDate`: the local `YYYY-MM-DD` key of a date, and the
    parse that inverts it (so distinct dates never share a schedule key). */
module DateFormat {
  import opened Dates
  import opened KeyedDays

  predicate IsDigit(ch: char) {
    '0' <= ch <= '9'
  }

  function DigitChar(d: int): (ch: char)
    requires 0 <= d < 10
    ensures IsDigit(ch)
  {
    ('0' as int + d) as char
  }

  function DigitValue(ch: char): int {
    ch as int - '0' as int
  }

  /** Decimal digits of a natural number, no leading zeros (`String(n)`). */
  function NatToString(n: nat): (s: string)
    ensures |s| >= 1
    ensures forall i :: 0 <= i < |s| ==> IsDigit(s[i])
    decreases n
  {
    if n < 10 then [DigitChar(n)] else NatToString(n / 10) + [DigitChar(n % 10)]
  }

  /** A JavaScript integer in a template literal: a minus sign, then the digits of its magnitude. */
  function IntToString(i: int): string {
    if i < 0 then "-" + NatToString(-i) else NatToString(i)
  }

  /** `String.prototype.padStart(width, fill)` with a one-character fill. */
  function PadStart(s: string, width: nat, fill: char): (r: string)
    ensures |r| == if |s| >= width then |s| else width
    ensures r[|r| - |s|..] == s
    ensures forall i :: 0 <= i < |r| - |s| ==> r[i] == fill
    decreases width - |s|
  {
    if |s| >= width then s else PadStart([fill] + s, width, fill)
  }

  /** Year, then month and day padded to two digits, joined by dashes. */
  function FormatCivil(c: Civil): string
    requires c.month >= 0 && c.day >= 0
  {
    IntToString(c.year) + "-" + PadStart(NatToString(c.month), 2, '0') + "-"
      + PadStart(NatToString(c.day), 2, '0')
  }

  /** `Scheduler.formatDate`: the local calendar date of `date`, rendered
      `YYYY-MM-DD`. `FormatDateLayout` states where its fields sit and
      `ParseFormatDate` reads them back. */
  function FormatDate(date: int): string {
    FormatCivil(ToCivil(date))
  }

  /** Value of a string of decimal digits (leading zeros allowed). */
  function ParseNat(s: string): int
    decreases |s|
  {
    if s == [] then 0 else ParseNat(s[..|s| - 1]) * 10 + DigitValue(s[|s| - 1])
  }

  function ParseInt(s: string): int {
    if |s| > 0 && s[0] == '-' then -ParseNat(s[1..]) else ParseNat(s)
  }

  /** Reads a `YYYY-MM-DD` key back into a day number: the year is everything
      before the last six characters, month and day are two digits each
      (a string too short or with no valid month reads as day 0). */
  function ParseDate(key: string): int {
    if |key| < 6 then 0 else
    var year := ParseInt(key[..|key| - 6]);
    var month := ParseNat(key[|key| - 5..|key| - 3]);
    var day := ParseNat(key[|key| - 2..]);
    if 1 <= month <= 12 then FromCivil(Civil(year, month, day)) else 0
  }

  lemma {:induction false} ParseNatToString(n: nat)
    ensures ParseNat(NatToString(n)) == n
    decreases n
  {
    if n >= 10 {
      var s := NatToString(n / 10);
      ParseNatToString(n / 10);
      assert (s + [DigitChar(n % 10)])[..|s|] == s;
    }
  }

  lemma ParseIntToString(i: int)
    ensures ParseInt(IntToString(i)) == i
  {
    if i < 0 {
      ParseNatToString(-i);
      assert ("-" + NatToString(-i))[1..] == NatToString(-i);
    } else {
      ParseNatToString(i);
      assert IsDigit(NatToString(i)[0]);
    }
  }

  lemma DigitRoundTrip(d: int)
    requires 0 <= d < 10
    ensures DigitValue(DigitChar(d)) == d
  {
  }

  /** Two digits read back as their value. */
  lemma ParseTwo(a: int, b: int)
    requires 0 <= a < 10 && 0 <= b < 10
    ensures ParseNat([DigitChar(a), DigitChar(b)]) == 10 * a + b
  {
    var s := [DigitChar(a), DigitChar(b)];
    DigitRoundTrip(a);
    DigitRoundTrip(b);
    assert s[..1] == [DigitChar(a)];
    assert [DigitChar(a)][..0] == [];
    assert ParseNat([DigitChar(a)]) == a;
  }

  /** A one-digit number is padded with a leading zero. */
  lemma OneDigitPadded(n: nat)
    requires 1 <= n < 10
    ensures PadStart(NatToString(n), 2, '0') == [DigitChar(0), DigitChar(n)]
  {
    assert NatToString(n) == [DigitChar(n)];
    assert PadStart([DigitChar(n)], 2, '0') == PadStart(['0', DigitChar(n)], 2, '0');
  }

  /** A two-digit number needs no padding. */
  lemma TwoDigitsUnpadded(n: nat)
    requires 10 <= n <= 99
    ensures PadStart(NatToString(n), 2, '0') == [DigitChar(n / 10), DigitChar(n % 10)]
  {
    assert NatToString(n / 10) == [DigitChar(n / 10)];
    assert NatToString(n) == [DigitChar(n / 10), DigitChar(n % 10)];
  }

  /** A month or a day of the month renders as exactly two digits that read back as itself. */
  lemma TwoDigits(n: nat)
    requires 1 <= n <= 99
    ensures |PadStart(NatToString(n), 2, '0')| == 2
    ensures ParseNat(PadStart(NatToString(n), 2, '0')) == n
  {
    if n < 10 {
      OneDigitPadded(n);
      ParseTwo(0, n);
    } else {
      TwoDigitsUnpadded(n);
      ParseTwo(n / 10, n % 10);
    }
  }

  lemma DayBound(c: Civil)
    requires ValidCivil(c)
    ensures c.day <= 31
  {
  }

  /** A month or a day of the month, padded, is two digits. */
  lemma FieldShape(n: nat)
    requires 1 <= n <= 99
    ensures var f := PadStart(NatToString(n), 2, '0'); |f| == 2 && IsDigit(f[0]) && IsDigit(f[1])
  {
    var s := NatToString(n);
    var f := PadStart(s, 2, '0');
    TwoDigits(n);
    assert f[2 - |s|..] == s;
    assert IsDigit(f[1]) by {
      assert f[1] == s[|s| - 1];
    }
    if |s| == 2 {
      assert f[0] == s[0];
    }
  }

  /** Where the dashes and the digits of a key sit. */
  lemma KeyShape(y: string, mm: string, dd: string, key: string)
    requires |mm| == 2 && IsDigit(mm[0]) && IsDigit(mm[1])
    requires |dd| == 2 && IsDigit(dd[0]) && IsDigit(dd[1])
    requires key == y + "-" + mm + "-" + dd
    ensures |key| >= 6 && key[|key| - 6] == '-' && key[|key| - 3] == '-'
    ensures IsDigit(key[|key| - 5]) && IsDigit(key[|key| - 4])
    ensures IsDigit(key[|key| - 2]) && IsDigit(key[|key| - 1])
  {
  }

  /** The three fields of a key are recovered by position. */
  lemma KeyFields(y: string, mm: string, dd: string)
    requires |mm| == 2 && |dd| == 2
    ensures var key := y + "-" + mm + "-" + dd;
      |key| == |y| + 6 && key[..|key| - 6] == y && key[|key| - 5..|key| - 3] == mm && key[|key| - 2..] == dd
  {
  }

  /** The three fields of a rendered date read back as its year, month and day. */
  lemma FormatCivilFields(c: Civil, key: string)
    requires 1 <= c.month <= 12 && 1 <= c.day <= 31 && key == FormatCivil(c)
    ensures |key| >= 6
    ensures ParseInt(key[..|key| - 6]) == c.year
    ensures ParseNat(key[|key| - 5..|key| - 3]) == c.month
    ensures ParseNat(key[|key| - 2..]) == c.day
  {
    var y, mm, dd := IntToString(c.year), PadStart(NatToString(c.month), 2, '0'), PadStart(NatToString(c.day), 2, '0');
    TwoDigits(c.month);
    TwoDigits(c.day);
    ParseIntToString(c.year);
    FieldValues(y, mm, dd, key);
  }

  /** Reading the fields of `y-mm-dd` back gives the values of its parts. */
  lemma FieldValues(y: string, mm: string, dd: string, key: string)
    requires |mm| == 2 && |dd| == 2 && key == y + "-" + mm + "-" + dd
    ensures |key| >= 6
    ensures ParseInt(key[..|key| - 6]) == ParseInt(y)
    ensures ParseNat(key[|key| - 5..|key| - 3]) == ParseNat(mm)
    ensures ParseNat(key[|key| - 2..]) == ParseNat(dd)
  {
    KeyFields(y, mm, dd);
  }

  /** Round trip on calendar dates: a rendered date parses back to its day number. */
  lemma ParseFormatCivil(c: Civil)
    requires ValidCivil(c)
    ensures |FormatCivil(c)| >= 6
    ensures ParseDate(FormatCivil(c)) == FromCivil(c)
  {
    assert c.day <= 31;
    var y, mm, dd := IntToString(c.year), PadStart(NatToString(c.month), 2, '0'), PadStart(NatToString(c.day), 2, '0');
    TwoDigits(c.month);
    TwoDigits(c.day);
    ParseIntToString(c.year);
    KeyFields(y, mm, dd);
    var key := FormatCivil(c);
    assert key == y + "-" + mm + "-" + dd;
    assert ParseInt(key[..|key| - 6]) == c.year;
    assert ParseNat(key[|key| - 5..|key| - 3]) == c.month;
    assert ParseNat(key[|key| - 2..]) == c.day;
  }

  /** Round trip: the key of a date parses back to that date. */
  lemma ParseFormatDate(date: int)
    ensures |FormatDate(date)| >= 6
    ensures ParseDate(FormatDate(date)) == date
  {
    ToCivilSpec(date);
    ParseFormatCivil(ToCivil(date));
  }

  /** The layout of a key: the year (`getFullYear()`), a dash, the month
      (`getMonth() + 1`) and the day of the month (`getDate()`) each as two
      digits, so padded with '0' below 10, joined by a dash. */
  lemma FormatDateLayout(date: int, key: string)
    requires key == FormatDate(date)
    ensures |key| >= 6 && key[|key| - 6] == '-' && key[|key| - 3] == '-'
    ensures IsDigit(key[|key| - 5]) && IsDigit(key[|key| - 4])
    ensures IsDigit(key[|key| - 2]) && IsDigit(key[|key| - 1])
    ensures ParseInt(key[..|key| - 6]) == ToCivil(date).year
    ensures ParseNat(key[|key| - 5..|key| - 3]) == ToCivil(date).month
    ensures ParseNat(key[|key| - 2..]) == ToCivil(date).day
  {
    ToCivilSpec(date);
    DayBound(ToCivil(date));
    FormatCivilLayout(ToCivil(date), key);
    FormatCivilFields(ToCivil(date), key);
  }

  lemma FormatCivilLayout(c: Civil, key: string)
    requires 1 <= c.month <= 12 && 1 <= c.day <= 31 && key == FormatCivil(c)
    ensures |key| >= 6 && key[|key| - 6] == '-' && key[|key| - 3] == '-'
    ensures IsDigit(key[|key| - 5]) && IsDigit(key[|key| - 4])
    ensures IsDigit(key[|key| - 2]) && IsDigit(key[|key| - 1])
  {
    var y, mm, dd := IntToString(c.year), PadStart(NatToString(c.month), 2, '0'), PadStart(NatToString(c.day), 2, '0');
    FieldShape(c.month);
    FieldShape(c.day);
    KeyShape(y, mm, dd, key);
  }

  /** Distinct dates have distinct keys: the schedule holds one entry per date. */
  lemma FormatDateInjective()
    ensures Injective(FormatDate)
  {
    forall a, b | FormatDate(a) == FormatDate(b) ensures a == b {
      ParseFormatDate(a);
      ParseFormatDate(b);
    }
  }

  /** The key of 16 February 2026, one of the hardcoded dates. */
  lemma FormatFeb16(c: Civil, date: int)
    requires c == Civil(2026, 2, 16) && date == FromCivil(c)
    ensures FormatDate(date) == "2026-02-16"
  {
    ToCivilFromCivil(c);
    FormatCivilFeb16(c);
  }

  lemma FormatCivilFeb16(c: Civil)
    requires c == Civil(2026, 2, 16)
    ensures FormatCivil(c) == "2026-02-16"
  {
    Text2026();
    OneDigitPadded(2);
    Text16();
  }

  lemma Text2026()
    ensures IntToString(2026) == "2026"
  {
    assert NatToString(2) == "2";
    assert NatToString(20) == "20";
    assert NatToString(202) == "202";
  }

  lemma Text16()
    ensures PadStart(NatToString(16), 2, '0') == "16"
  {
    assert NatToString(1) == "1";
  }
}
