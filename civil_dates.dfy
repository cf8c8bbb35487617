/**
  The event date as the normaliser writes it and as its sort reads it back
  (backend/fetch-gigs/app.js, lines 166-171 and 294-297): the en-GB numeric
  date "DD/MM/YYYY" is rewritten to "DD-MM-YYYY", and the sort turns that into
  "YYYY-MM-DD" and hands it to the `Date` parser.
 */
module CivilDates {
  import opened Wrappers
  import opened JsStrings

  /** A day of the proleptic Gregorian calendar. */
  datatype CivilDate = CivilDate(year: int, month: int, day: int)

  predicate IsLeapYear(y: int) {
    y % 4 == 0 && (y % 100 != 0 || y % 400 == 0)
  }

  function DaysInMonth(y: int, m: int): (n: int)
    requires 1 <= m <= 12
    ensures 28 <= n <= 31
  {
    if m == 2 then (if IsLeapYear(y) then 29 else 28)
    else if m == 4 || m == 6 || m == 9 || m == 11 then 30
    else 31
  }

  /** A calendar day with a four-digit year. */
  predicate ValidDate(c: CivilDate) {
    && 1000 <= c.year <= 9999
    && 1 <= c.month <= 12
    && 1 <= c.day <= DaysInMonth(c.year, c.month)
  }

  type Date = c: CivilDate | ValidDate(c) witness CivilDate(2000, 1, 1)

  /** Days compared first by year, then month, then day. */
  predicate Before(a: CivilDate, b: CivilDate) {
    || a.year < b.year
    || (a.year == b.year && a.month < b.month)
    || (a.year == b.year && a.month == b.month && a.day < b.day)
  }

  /** A number that orders days as the calendar does; the sort compares the
      `Date` values of two days, and only the sign of their difference matters. */
  function DayNumber(c: CivilDate): int {
    (c.year * 13 + c.month) * 32 + c.day
  }

  lemma DayNumberOrdersDays(a: Date, b: Date)
    ensures DayNumber(a) < DayNumber(b) <==> Before(a, b)
    ensures DayNumber(a) == DayNumber(b) <==> a == b
  {
  }

  // Decimal digits

  function DigitChar(n: int): (c: char)
    requires 0 <= n < 10
    ensures '0' <= c <= '9'
  {
    (('0' as int) + n) as char
  }

  function DigitValue(c: char): (r: Option<int>)
    ensures r.Some? <==> '0' <= c <= '9'
    ensures r.Some? ==> 0 <= r.value < 10 && DigitChar(r.value) == c
  {
    if '0' <= c <= '9' then Some(c as int - '0' as int) else None
  }

  /** Two digits, zero-padded, as the `'2-digit'` option writes them. */
  function TwoDigits(n: int): (s: string)
    requires 0 <= n < 100
    ensures |s| == 2 && forall i :: 0 <= i < |s| ==> '0' <= s[i] <= '9'
  {
    [DigitChar(n / 10), DigitChar(n % 10)]
  }

  /** The four digits of a year from 1000 to 9999, as the `'numeric'` option writes it. */
  function FourDigits(n: int): (s: string)
    requires 1000 <= n <= 9999
    ensures |s| == 4 && forall i :: 0 <= i < |s| ==> '0' <= s[i] <= '9'
  {
    TwoDigits(n / 100) + TwoDigits(n % 100)
  }

  /** The value of a string of decimal digits, or `None` if some character is not a digit. */
  function DigitsValue(s: string): (r: Option<int>)
    ensures r.Some? ==> 0 <= r.value
    ensures r.Some? <==> forall i :: 0 <= i < |s| ==> '0' <= s[i] <= '9'
  {
    if s == [] then Some(0)
    else
      match (DigitsValue(s[..|s| - 1]), DigitValue(s[|s| - 1]))
      case (Some(v), Some(d)) => Some(v * 10 + d)
      case _ => None
  }

  lemma DigitRoundTrip(k: int)
    requires 0 <= k < 10
    ensures DigitValue(DigitChar(k)) == Some(k)
  {
  }

  /** Appending a digit to a numeral multiplies its value by ten and adds the digit. */
  lemma DigitsValueSnoc(s: string, k: int)
    requires 0 <= k < 10
    ensures DigitsValue(s + [DigitChar(k)]) == match DigitsValue(s) case Some(v) => Some(v * 10 + k) case None => None
  {
    var t := s + [DigitChar(k)];
    assert t[..|t| - 1] == s;
    DigitRoundTrip(k);
  }

  /** Appending two digits multiplies a numeral's value by a hundred and adds them. */
  lemma AppendTwoDigits(s: string, k: int)
    requires 0 <= k < 100
    ensures DigitsValue(s + TwoDigits(k)) == match DigitsValue(s) case Some(v) => Some(v * 100 + k) case None => None
  {
    var t := s + [DigitChar(k / 10)];
    assert s + TwoDigits(k) == t + [DigitChar(k % 10)];
    DigitsValueSnoc(s, k / 10);
    DigitsValueSnoc(t, k % 10);
  }

  lemma TwoDigitsValue(n: int)
    requires 0 <= n < 100
    ensures DigitsValue(TwoDigits(n)) == Some(n)
  {
    var none: string := [];
    assert DigitsValue(none) == Some(0);
    assert none + TwoDigits(n) == TwoDigits(n);
    AppendTwoDigits(none, n);
  }

  lemma FourDigitsValue(n: int)
    requires 1000 <= n <= 9999
    ensures DigitsValue(FourDigits(n)) == Some(n)
  {
    TwoDigitsValue(n / 100);
    AppendTwoDigits(TwoDigits(n / 100), n % 100);
  }

  // The written date

  /** `toLocaleDateString('en-GB', {day: '2-digit', month: '2-digit', year: 'numeric'})`. */
  function EnGbDate(c: Date): string {
    TwoDigits(c.day) + "/" + TwoDigits(c.month) + "/" + FourDigits(c.year)
  }

  /** The date field of a gig: the en-GB date with its slashes replaced by dashes. */
  function DisplayDate(c: Date): string {
    Join(Split(EnGbDate(c), "/"), "-")
  }

  /** The rewrite gives "DD-MM-YYYY". */
  lemma DisplayDateLayout(c: Date)
    ensures DisplayDate(c) == TwoDigits(c.day) + "-" + TwoDigits(c.month) + "-" + FourDigits(c.year)
    ensures |DisplayDate(c)| == 10
  {
    var dd, mm, yyyy := TwoDigits(c.day), TwoDigits(c.month), FourDigits(c.year);
    ThreeFields(dd, mm, yyyy, '/');
    JoinThree(dd, mm, yyyy, "-");
  }

  lemma JoinThree(a: string, b: string, c: string, sep: string)
    ensures Join([a, b, c], sep) == a + sep + b + sep + c
  {
    assert [a, b, c][1..] == [b, c];
    assert [b, c][1..] == [c];
    assert Join([b, c], sep) == b + sep + c;
    assert a + sep + (b + sep + c) == a + sep + b + sep + c;
  }

  lemma DigitsHaveNo(s: string, sep: char)
    requires !('0' <= sep <= '9')
    requires forall i :: 0 <= i < |s| ==> '0' <= s[i] <= '9'
    ensures sep !in s
  {
  }

  /** Three fields of digits joined by a separator split back into the three fields. */
  lemma ThreeFields(a: string, b: string, c: string, sep: char)
    requires !('0' <= sep <= '9')
    requires forall i :: 0 <= i < |a| ==> '0' <= a[i] <= '9'
    requires forall i :: 0 <= i < |b| ==> '0' <= b[i] <= '9'
    requires forall i :: 0 <= i < |c| ==> '0' <= c[i] <= '9'
    ensures Split(a + [sep] + b + [sep] + c, [sep]) == [a, b, c]
  {
    assert sep !in a by { DigitsHaveNo(a, sep); }
    assert sep !in b by { DigitsHaveNo(b, sep); }
    assert sep !in c by { DigitsHaveNo(c, sep); }
    assert a + [sep] + b + [sep] + c == a + [sep] + (b + [sep] + c) by {
      Assoc(a + [sep] + b, [sep], c);
      Assoc(a + [sep], b, [sep] + c);
      Assoc(a, [sep], b + [sep] + c);
    }
    assert Split(b + [sep] + c, [sep]) == [b, c] by {
      SplitAfter(b, [sep], c);
      SplitNone(c, [sep]);
    }
    SplitAfter(a, [sep], b + [sep] + c);
  }

  // The sort key

  function Reverse<T>(xs: seq<T>): (r: seq<T>)
    ensures |r| == |xs| && forall i :: 0 <= i < |xs| ==> r[i] == xs[|xs| - 1 - i]
  {
    if xs == [] then [] else Reverse(xs[1..]) + [xs[0]]
  }

  /** `date.split('-').reverse().join('-')`. */
  function SortDateString(date: string): string {
    Join(Reverse(Split(date, "-")), "-")
  }

  /** `new Date(s)` on the strings the comparator is given (a written date
      reversed to "YYYY-MM-DD", or "TBD"): the day a "YYYY-MM-DD" string
      names, and `None` (an invalid `Date`) otherwise. On other strings the
      model treats every other layout as invalid, while JavaScript's
      fallback parsing may accept some of them. */
  function ParseIsoDate(s: string): (r: Option<Date>)
    ensures r.Some? ==> |s| == 10 && s[4] == '-' && s[7] == '-'
  {
    if |s| == 10 && s[4] == '-' && s[7] == '-' then
      match (DigitsValue(s[..4]), DigitsValue(s[5..7]), DigitsValue(s[8..]))
      case (Some(y), Some(m), Some(d)) =>
        var c := CivilDate(y, m, d);
        if ValidDate(c) then Some(c) else None
      case _ => None
    else None
  }

  /** The sort key string of a written date is its ISO form "YYYY-MM-DD". */
  lemma SortDateStringOfDisplayDate(c: Date)
    ensures SortDateString(DisplayDate(c)) == FourDigits(c.year) + "-" + TwoDigits(c.month) + "-" + TwoDigits(c.day)
  {
    var dd, mm, yyyy := TwoDigits(c.day), TwoDigits(c.month), FourDigits(c.year);
    DisplayDateLayout(c);
    ThreeFields(dd, mm, yyyy, '-');
    assert Reverse([dd, mm, yyyy]) == [yyyy, mm, dd];
    JoinThree(yyyy, mm, dd, "-");
  }

  lemma ParseIsoLayout(c: Date)
    ensures ParseIsoDate(FourDigits(c.year) + "-" + TwoDigits(c.month) + "-" + TwoDigits(c.day)) == Some(c)
  {
    var dd, mm, yyyy := TwoDigits(c.day), TwoDigits(c.month), FourDigits(c.year);
    var iso := yyyy + "-" + mm + "-" + dd;
    assert iso[..4] == yyyy && iso[5..7] == mm && iso[8..] == dd;
    TwoDigitsValue(c.day);
    TwoDigitsValue(c.month);
    FourDigitsValue(c.year);
  }

  /** Reading back a written date: the sort recovers exactly the day that was
      written, so comparing keys compares the days themselves. */
  lemma SortKeyReadsDisplayDate(c: Date)
    ensures ParseIsoDate(SortDateString(DisplayDate(c))) == Some(c)
  {
    SortDateStringOfDisplayDate(c);
    ParseIsoLayout(c);
  }

  /** Different days are written differently. */
  lemma DisplayDateInjective(a: Date, b: Date)
    requires DisplayDate(a) == DisplayDate(b)
    ensures a == b
  {
    SortKeyReadsDisplayDate(a);
    SortKeyReadsDisplayDate(b);
  }
}
