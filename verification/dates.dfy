/** Calendar dates (proleptic Gregorian), the day before a date, and the
    `strftime` renderings the program uses: `%Y-%m-%d` (what `Date#to_s` gives),
    `%Y%m%d` and `%H:%M:%S`. */
module Dates {
  import opened Text

  datatype Date = Date(year: int, month: nat, day: nat)

  predicate IsLeapYear(y: int) {
    y % 4 == 0 && (y % 100 != 0 || y % 400 == 0)
  }

  function DaysInMonth(y: int, m: nat): (n: nat)
    ensures 28 <= n <= 31
  {
    if m == 2 then (if IsLeapYear(y) then 29 else 28)
    else if m == 4 || m == 6 || m == 9 || m == 11 then 30
    else 31
  }

  /** A date that exists in the calendar. */
  predicate ValidDate(d: Date) {
    1 <= d.month <= 12 && 1 <= d.day <= DaysInMonth(d.year, d.month)
  }

  /** Chronological order: `a` is strictly earlier than `b`. */
  predicate Before(a: Date, b: Date) {
    || a.year < b.year
    || (a.year == b.year && a.month < b.month)
    || (a.year == b.year && a.month == b.month && a.day < b.day)
  }

  /** `date - 1`: the day before `d`. */
  function Prev(d: Date): (p: Date)
    requires ValidDate(d)
    ensures ValidDate(p) && Before(p, d)
  {
    if d.day > 1 then Date(d.year, d.month, d.day - 1)
    else if d.month > 1 then Date(d.year, d.month - 1, DaysInMonth(d.year, d.month - 1))
    else Date(d.year - 1, 12, 31)
  }

  /** No calendar date lies strictly between `Prev(d)` and `d`. */
  lemma PrevIsImmediate(d: Date, e: Date)
    requires ValidDate(d) && ValidDate(e) && Before(e, d)
    ensures e == Prev(d) || Before(e, Prev(d))
  {
  }

  // ---------------------------------------------------------------------
  // Decimal numerals

  function Pow10(w: nat): (r: nat)
    ensures r >= 1
  {
    if w == 0 then 1 else 10 * Pow10(w - 1)
  }

  function DigitChar(n: nat): (c: char)
    requires n < 10
    ensures '0' <= c <= '9'
  {
    ('0' as int + n) as char
  }

  /** The value of a string of decimal digits. */
  function DecimalValue(s: string): int {
    if |s| == 0 then 0 else 10 * DecimalValue(s[..|s| - 1]) + (s[|s| - 1] as int - '0' as int)
  }

  /** The decimal numeral of `n`, zero-padded on the left to at least `w`
      characters (`%0wd`). */
  function Digits(n: nat, w: nat): (r: string)
    ensures |r| >= 1 && |r| >= w
    ensures forall i :: 0 <= i < |r| ==> '0' <= r[i] <= '9'
    decreases n + w
  {
    if n < 10 && w <= 1 then [DigitChar(n)]
    else Digits(n / 10, if w > 0 then w - 1 else 0) + [DigitChar(n % 10)]
  }

  /** Reading the numeral back gives the number. */
  lemma {:induction false} DigitsRoundTrip(n: nat, w: nat)
    ensures DecimalValue(Digits(n, w)) == n
    decreases n + w
  {
    var r := Digits(n, w);
    if n < 10 && w <= 1 {
      assert r[..0] == [];
    } else {
      var h := Digits(n / 10, if w > 0 then w - 1 else 0);
      DigitsRoundTrip(n / 10, if w > 0 then w - 1 else 0);
      assert r[..|r| - 1] == h;
    }
  }

  lemma DigitsInjective(a: nat, b: nat, w: nat)
    requires Digits(a, w) == Digits(b, w)
    ensures a == b
  {
    DigitsRoundTrip(a, w);
    DigitsRoundTrip(b, w);
  }

  /** A number below 10^w is rendered in exactly `w` characters. */
  lemma {:induction false} DigitsLength(n: nat, w: nat)
    requires 1 <= w && n < Pow10(w)
    ensures |Digits(n, w)| == w
    decreases w
  {
    if w > 1 {
      DigitsLength(n / 10, w - 1);
    }
  }

  /** For numerals of one fixed width, string order is numeric order. */
  lemma {:induction false} DigitsOrder(a: nat, b: nat, w: nat)
    requires 1 <= w && a < Pow10(w) && b < Pow10(w)
    ensures LexLess(Digits(a, w), Digits(b, w)) <==> a < b
    decreases w
  {
    if w == 1 {
      assert Digits(a, w) == [DigitChar(a)] && Digits(b, w) == [DigitChar(b)];
      LexLessConcat([DigitChar(a)], [DigitChar(b)], [], []);
      assert [DigitChar(a)] + [] == [DigitChar(a)] && [DigitChar(b)] + [] == [DigitChar(b)];
    } else {
      var ha, hb := Digits(a / 10, w - 1), Digits(b / 10, w - 1);
      DigitsLength(a / 10, w - 1);
      DigitsLength(b / 10, w - 1);
      DigitsOrder(a / 10, b / 10, w - 1);
      LexLessConcat(ha, hb, [DigitChar(a % 10)], [DigitChar(b % 10)]);
      SingleDigitOrder(a % 10, b % 10);
      if ha == hb {
        DigitsInjective(a / 10, b / 10, w - 1);
      }
      DecimalOrder(a, b);
    }
  }

  lemma SingleDigitOrder(a: nat, b: nat)
    requires a < 10 && b < 10
    ensures LexLess([DigitChar(a)], [DigitChar(b)]) <==> a < b
  {
    assert [DigitChar(a)][1..] == [] && [DigitChar(b)][1..] == [];
  }

  /** Numbers compare by their leading digits, then by their last digit. */
  lemma DecimalOrder(a: nat, b: nat)
    ensures a < b <==> a / 10 < b / 10 || (a / 10 == b / 10 && a % 10 < b % 10)
  {
    assert a == 10 * (a / 10) + a % 10 && b == 10 * (b / 10) + b % 10;
  }

  // ---------------------------------------------------------------------
  // strftime

  /** `%Y`: the year padded to at least four digits, with a sign when negative. */
  function YearText(y: int): (r: string)
    ensures |r| >= 4
  {
    if y >= 0 then Digits(y, 4) else "-" + Digits(-y, 4)
  }

  /** `%m` or `%d`: two digits. */
  function TwoDigits(n: nat): string {
    Digits(n, 2)
  }

  /** The "-MM-DD" part of `Date#to_s`. */
  function IsoTail(d: Date): string {
    "-" + TwoDigits(d.month) + "-" + TwoDigits(d.day)
  }

  /** `Date#to_s`, i.e. `strftime('%Y-%m-%d')`. */
  function Iso(d: Date): string {
    YearText(d.year) + IsoTail(d)
  }

  /** `strftime('%Y%m%d')`. */
  function Compact(d: Date): string {
    YearText(d.year) + TwoDigits(d.month) + TwoDigits(d.day)
  }

  /** `Date#strftime` for the directives `%Y`, `%m`, `%d` and `%%`; every other
      character is copied. */
  function Strftime(d: Date, fmt: string): (r: string)
    decreases |fmt|
  {
    if |fmt| == 0 then ""
    else if fmt[0] == '%' && |fmt| >= 2 && (fmt[1] == 'Y' || fmt[1] == 'm' || fmt[1] == 'd' || fmt[1] == '%') then
      var field :=
        if fmt[1] == 'Y' then YearText(d.year)
        else if fmt[1] == 'm' then TwoDigits(d.month)
        else if fmt[1] == 'd' then TwoDigits(d.day)
        else "%";
      field + Strftime(d, fmt[2..])
    else [fmt[0]] + Strftime(d, fmt[1..])
  }

  lemma StrftimeIso(d: Date)
    ensures Strftime(d, "%Y-%m-%d") == Iso(d)
    ensures Strftime(d, "%Y%m%d") == Compact(d)
  {
    var y, m, dd := YearText(d.year), TwoDigits(d.month), TwoDigits(d.day);
    assert Strftime(d, "%d") == dd + Strftime(d, "");
    assert Strftime(d, "-%d") == "-" + Strftime(d, "%d");
    assert Strftime(d, "%m-%d") == m + Strftime(d, "-%d");
    assert Strftime(d, "-%m-%d") == "-" + Strftime(d, "%m-%d");
    assert Strftime(d, "%Y-%m-%d") == y + Strftime(d, "-%m-%d");
    assert Strftime(d, "%m%d") == m + Strftime(d, "%d");
    assert Strftime(d, "%Y%m%d") == y + Strftime(d, "%m%d");
  }

  /** The tail of a valid date is six characters, with the month at 1..3 and
      the day at 4..6. */
  lemma IsoTailShape(d: Date)
    requires ValidDate(d)
    ensures |IsoTail(d)| == 6
    ensures IsoTail(d)[1..3] == TwoDigits(d.month) && IsoTail(d)[4..6] == TwoDigits(d.day)
  {
    assert Pow10(2) == 100;
    DigitsLength(d.month, 2);
    DigitsLength(d.day, 2);
  }

  lemma SplitEqual(a: string, b: string, c: string, d: string)
    requires |b| == |d| && a + b == c + d
    ensures a == c && b == d
  {
    assert a == (a + b)[..|a|] && c == (c + d)[..|c|];
    assert b == (a + b)[|a|..] && d == (c + d)[|c|..];
  }

  lemma YearTextSign(y: int)
    ensures YearText(y)[0] == '-' <==> y < 0
  {
  }

  lemma YearTextInjective(a: int, b: int)
    requires YearText(a) == YearText(b)
    ensures a == b
  {
    YearTextSign(a);
    YearTextSign(b);
    if a >= 0 && b >= 0 {
      DigitsInjective(a, b, 4);
    } else if a < 0 && b < 0 {
      assert YearText(a)[1..] == Digits(-a, 4) && YearText(b)[1..] == Digits(-b, 4);
      DigitsInjective(-a, -b, 4);
    }
  }

  /** `Date#to_s` tells valid dates apart. */
  lemma IsoInjective(a: Date, b: Date)
    requires ValidDate(a) && ValidDate(b) && Iso(a) == Iso(b)
    ensures a == b
  {
    IsoTailShape(a);
    IsoTailShape(b);
    SplitEqual(YearText(a.year), IsoTail(a), YearText(b.year), IsoTail(b));
    YearTextInjective(a.year, b.year);
    DigitsInjective(a.month, b.month, 2);
    DigitsInjective(a.day, b.day, 2);
  }

  /** On valid dates, the tails order by month, then day. */
  lemma IsoTailOrder(a: Date, b: Date)
    requires ValidDate(a) && ValidDate(b)
    ensures LexLess(IsoTail(a), IsoTail(b)) <==>
      a.month < b.month || (a.month == b.month && a.day < b.day)
  {
    assert Pow10(2) == 100;
    var ma, mb := TwoDigits(a.month), TwoDigits(b.month);
    var da, db := TwoDigits(a.day), TwoDigits(b.day);
    DigitsLength(a.month, 2);
    DigitsLength(b.month, 2);
    assert IsoTail(a) == "-" + (ma + ("-" + da));
    assert IsoTail(b) == "-" + (mb + ("-" + db));
    LexLessConcat("-", "-", ma + ("-" + da), mb + ("-" + db));
    LexLessConcat(ma, mb, "-" + da, "-" + db);
    LexLessConcat("-", "-", da, db);
    DigitsOrder(a.month, b.month, 2);
    DigitsOrder(a.day, b.day, 2);
    if ma == mb {
      DigitsInjective(a.month, b.month, 2);
    }
  }

  /** For four-digit years, comparing `Date#to_s` strings as Ruby strings
      agrees with calendar order. */
  lemma IsoOrder(a: Date, b: Date)
    requires ValidDate(a) && ValidDate(b)
    requires 0 <= a.year <= 9999 && 0 <= b.year <= 9999
    ensures LexLess(Iso(a), Iso(b)) <==> Before(a, b)
  {
    assert Pow10(4) == 10000;
    var ya, yb := YearText(a.year), YearText(b.year);
    DigitsLength(a.year, 4);
    DigitsLength(b.year, 4);
    LexLessConcat(ya, yb, IsoTail(a), IsoTail(b));
    DigitsOrder(a.year, b.year, 4);
    IsoTailOrder(a, b);
    if ya == yb {
      YearTextInjective(a.year, b.year);
    }
  }

  /** Past year 9999 the string order no longer follows the calendar. */
  lemma IsoOrderFailsAfterYear9999()
    ensures var a, b := Date(9999, 1, 1), Date(10000, 1, 1);
      ValidDate(a) && ValidDate(b) && Before(a, b) && LexLess(Iso(b), Iso(a))
  {
    var a, b := Date(9999, 1, 1), Date(10000, 1, 1);
    Year10000Lead();
    Year9999Lead();
    assert Iso(b)[0] == YearText(10000)[0];
    assert Iso(a)[0] == YearText(9999)[0];
  }

  lemma Year10000Lead()
    ensures YearText(10000)[0] == '1'
  {
    DigitsLead(10000, 4);
    DigitsLead(1000, 3);
    DigitsLead(100, 2);
    DigitsLead(10, 1);
    assert Digits(1, 0) == [DigitChar(1)];
  }

  lemma Year9999Lead()
    ensures YearText(9999)[0] == '9'
  {
    DigitsLead(9999, 4);
    DigitsLead(999, 3);
    DigitsLead(99, 2);
    assert Digits(9, 1) == [DigitChar(9)];
  }

  /** A numeral longer than one digit starts with the numeral of its tens. */
  lemma DigitsLead(n: nat, w: nat)
    requires !(n < 10 && w <= 1)
    ensures Digits(n, w)[0] == Digits(n / 10, if w > 0 then w - 1 else 0)[0]
  {
    var h := Digits(n / 10, if w > 0 then w - 1 else 0);
    assert Digits(n, w) == h + [DigitChar(n % 10)];
  }

  // ---------------------------------------------------------------------
  // Time.at(seconds).utc.strftime('%H:%M:%S')

  /** A duration in seconds as an UTC clock time; hours wrap at 24. */
  function ClockText(seconds: nat): string {
    TwoDigits((seconds / 3600) % 24) + ":" + TwoDigits((seconds / 60) % 60) + ":" + TwoDigits(seconds % 60)
  }

  /** Reads an "HH:MM:SS" string back to seconds. */
  function ClockSeconds(s: string): int
    requires |s| == 8
  {
    3600 * DecimalValue(s[0..2]) + 60 * DecimalValue(s[3..5]) + DecimalValue(s[6..8])
  }

  lemma ClockArithmetic(seconds: nat)
    ensures 3600 * ((seconds / 3600) % 24) + 60 * ((seconds / 60) % 60) + seconds % 60 == seconds % 86400
  {
    var s0, m1 := seconds % 60, seconds / 60;
    var m0, h1 := m1 % 60, m1 / 60;
    var h0, d := h1 % 24, h1 / 24;
    assert seconds == 3600 * h1 + (60 * m0 + s0);
    assert seconds / 3600 == h1;
    assert seconds == 86400 * d + (3600 * h0 + 60 * m0 + s0);
  }

  /** Where the three fields sit in an "HH:MM:SS" text. */
  lemma ClockFields(a: string, b: string, c: string)
    requires |a| == 2 && |b| == 2 && |c| == 2
    ensures var t := a + ":" + b + ":" + c;
      |t| == 8 && t[0..2] == a && t[3..5] == b && t[6..8] == c
  {
  }

  /** The clock text of a duration reads back as that duration modulo one day. */
  lemma ClockRoundTrip(seconds: nat)
    ensures |ClockText(seconds)| == 8
    ensures ClockSeconds(ClockText(seconds)) == seconds % 86400
  {
    var h, m, s := (seconds / 3600) % 24, (seconds / 60) % 60, seconds % 60;
    assert Pow10(2) == 100;
    DigitsLength(h, 2);
    DigitsLength(m, 2);
    DigitsLength(s, 2);
    ClockFields(TwoDigits(h), TwoDigits(m), TwoDigits(s));
    DigitsRoundTrip(h, 2);
    DigitsRoundTrip(m, 2);
    DigitsRoundTrip(s, 2);
    ClockArithmetic(seconds);
  }
}
