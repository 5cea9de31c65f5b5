// The time stamp of update feeds: xtask/src/update_feed.rs turns seconds since 1970 into a civil date and time.
module UnixTime {
  import opened Arithmetic
  import opened Decimals

  datatype Civil = Civil(year: nat, month: nat, day: nat, hour: nat, minute: nat, second: nat)

  predicate IsLeapYear(year: nat) {
    (year % 4 == 0 && year % 100 != 0) || year % 400 == 0
  }

  function DaysInYear(year: nat): nat {
    if IsLeapYear(year) then 366 else 365
  }

  /** The length of a month, 1 to 12, as RFC 3339 section 5.7 tabulates it. */
  function DaysInMonth(year: nat, month: nat): nat
    requires 1 <= month <= 12
  {
    if month == 2 then (if IsLeapYear(year) then 29 else 28)
    else if month == 4 || month == 6 || month == 9 || month == 11 then 30
    else 31
  }

  // ----- Counting days and seconds from 1970 -----

  function DaysBeforeYear(year: nat): nat
    requires year >= 1970
  {
    if year == 1970 then 0 else DaysBeforeYear(year - 1) + DaysInYear(year - 1)
  }

  function DaysBeforeMonth(year: nat, month: nat): nat
    requires 1 <= month <= 13
  {
    if month == 1 then 0 else DaysBeforeMonth(year, month - 1) + DaysInMonth(year, month - 1)
  }

  /** The fields an RFC 3339 date-time may have (sections 5.6 and 5.7), without leap seconds. */
  predicate IsValid(c: Civil) {
    c.year >= 1970 && 1 <= c.month <= 12 && 1 <= c.day <= DaysInMonth(c.year, c.month)
    && c.hour < 24 && c.minute < 60 && c.second < 60
  }

  function Days(c: Civil): nat
    requires IsValid(c)
  {
    DaysBeforeYear(c.year) + DaysBeforeMonth(c.year, c.month) + (c.day - 1)
  }

  function Seconds(c: Civil): nat
    requires IsValid(c)
  {
    Days(c) * 86400 + c.hour * 3600 + c.minute * 60 + c.second
  }

  /** Twelve months make the year. */
  lemma MonthsFillTheYear(year: nat)
    ensures DaysBeforeMonth(year, 13) == DaysInYear(year)
  {
    var leap := if IsLeapYear(year) then 1 else 0;
    assert DaysBeforeMonth(year, 2) == 31;
    assert DaysBeforeMonth(year, 3) == 59 + leap;
    assert DaysBeforeMonth(year, 5) == 120 + leap;
    assert DaysBeforeMonth(year, 7) == 181 + leap;
    assert DaysBeforeMonth(year, 9) == 243 + leap;
    assert DaysBeforeMonth(year, 11) == 304 + leap;
  }

  // ----- The conversion -----

  method UnixToUtc(secs: nat) returns (c: Civil)
    ensures IsValid(c) && Seconds(c) == secs && GregorianSeconds(c) == secs
  {
    hide GregorianSeconds;
    var days: nat := secs / 86400;
    var remSecs := secs % 86400;
    var year := 1970;
    while true
      invariant year >= 1970
      invariant DaysBeforeYear(year) + days == secs / 86400
      decreases days
    {
      var daysInYear := if IsLeapYear(year) then 366 else 365;
      if days < daysInYear {
        break;
      }
      days := days - daysInYear;
      year := year + 1;
    }
    var month, day := MonthAndDay(year, days);
    c := Civil(year, month, day, remSecs / 3600, (remSecs % 3600) / 60, remSecs % 60);
    assert Days(c) == secs / 86400;
    SecondsInClosedForm(c);
  }

  /** The scan of the month table, `days` counting from the start of the year. */
  method MonthAndDay(year: nat, dayOfYear: nat) returns (month: nat, day: nat)
    requires dayOfYear < DaysInYear(year)
    ensures 1 <= month <= 12 && 1 <= day <= DaysInMonth(year, month)
    ensures DaysBeforeMonth(year, month) + (day - 1) == dayOfYear
  {
    var days := dayOfYear;
    var daysInMonth := [31, if IsLeapYear(year) then 29 else 28, 31, 30, 31, 30, 31, 31, 30, 31, 30, 31];
    assert forall m :: 1 <= m <= 12 ==> daysInMonth[m - 1] == DaysInMonth(year, m);
    month := 1;
    var i := 0;
    while i < |daysInMonth|
      invariant 0 <= i <= 12 && month == 1
      invariant DaysBeforeMonth(year, i + 1) + days == dayOfYear
    {
      if days < daysInMonth[i] {
        month := i + 1;
        break;
      }
      days := days - daysInMonth[i];
      i := i + 1;
    }
    MonthsFillTheYear(year);
    day := days + 1;
  }

  // ----- One date for each second -----

  ghost predicate EarlierInDay(a: Civil, b: Civil) {
    a.hour < b.hour || (a.hour == b.hour && (a.minute < b.minute || (a.minute == b.minute && a.second < b.second)))
  }

  ghost predicate EarlierInYear(a: Civil, b: Civil) {
    a.month < b.month || (a.month == b.month && (a.day < b.day || (a.day == b.day && EarlierInDay(a, b))))
  }

  /** The lexicographic order of the six fields. */
  ghost predicate Earlier(a: Civil, b: Civil) {
    a.year < b.year || (a.year == b.year && EarlierInYear(a, b))
  }

  lemma {:induction false} YearsAccumulate(y: nat, z: nat)
    requires 1970 <= y < z
    ensures DaysBeforeYear(y) + DaysInYear(y) <= DaysBeforeYear(z)
  {
    if y + 1 < z {
      YearsAccumulate(y, z - 1);
    }
  }

  lemma {:induction false} MonthsAccumulate(year: nat, m: nat, n: nat)
    requires 1 <= m < n <= 13
    ensures DaysBeforeMonth(year, m) + DaysInMonth(year, m) <= DaysBeforeMonth(year, n)
  {
    if m + 1 < n {
      MonthsAccumulate(year, m, n - 1);
    }
  }

  lemma DayIsInYear(c: Civil)
    requires IsValid(c)
    ensures DaysBeforeMonth(c.year, c.month) + c.day <= DaysInYear(c.year)
  {
    MonthsFillTheYear(c.year);
    MonthsAccumulate(c.year, c.month, 13);
  }

  lemma EarlierHasFewerSeconds(a: Civil, b: Civil)
    requires IsValid(a) && IsValid(b) && Earlier(a, b)
    ensures Seconds(a) < Seconds(b)
  {
    if a.year < b.year {
      YearsAccumulate(a.year, b.year);
      DayIsInYear(a);
    } else if a.month < b.month {
      MonthsAccumulate(a.year, a.month, b.month);
    }
  }

  lemma EarlierIsTotal(a: Civil, b: Civil)
    requires IsValid(a) && IsValid(b)
    ensures a == b || Earlier(a, b) || Earlier(b, a)
  {
  }

  /** Counting seconds is a strictly increasing bijection from valid dates: so the conversion, its inverse, gives
      the only possible answer and is strictly increasing as well. */
  lemma SecondsOrderDates(a: Civil, b: Civil)
    requires IsValid(a) && IsValid(b)
    ensures Seconds(a) < Seconds(b) <==> Earlier(a, b)
    ensures Seconds(a) == Seconds(b) <==> a == b
  {
    EarlierIsTotal(a, b);
    if Earlier(a, b) {
      EarlierHasFewerSeconds(a, b);
    } else if Earlier(b, a) {
      EarlierHasFewerSeconds(b, a);
    }
  }

  /** The Gregorian count of days before a year, in closed form. */
  lemma {:induction false} DaysBeforeYearInClosedForm(year: nat)
    requires year >= 1970
    ensures DaysBeforeYear(year) == 365 * (year - 1970) + (year - 1) / 4 - (year - 1) / 100 + (year - 1) / 400 - 477
  {
    if year > 1970 {
      DaysBeforeYearInClosedForm(year - 1);
      LeapYearsStep(year - 1);
    }
  }

  lemma LeapYearsStep(y: nat)
    requires y >= 1
    ensures y / 4 - y / 100 + y / 400
         == (y - 1) / 4 - (y - 1) / 100 + (y - 1) / 400 + if IsLeapYear(y) then 1 else 0
  {
    QuotientStep(y, 4);
    QuotientStep(y, 100);
    QuotientStep(y, 400);
    MultiplesNest(y, 4, 25);
    MultiplesNest(y, 100, 4);
  }

  lemma MultiplesNest(y: nat, d: nat, e: nat)
    requires d >= 1 && e >= 1
    ensures y % (d * e) == 0 ==> y % d == 0
  {
    if y % (d * e) == 0 {
      var q := y / (d * e);
      assert y == (d * e) * q == (e * q) * d;
      QuotientUnique(y, d, e * q, 0);
    }
  }

  lemma QuotientStep(y: nat, d: nat)
    requires y >= 1 && d >= 1
    ensures y / d == (y - 1) / d + if y % d == 0 then 1 else 0
  {
    var q, r := (y - 1) / d, (y - 1) % d;
    assert y == q * d + (r + 1);
    if r + 1 == d {
      QuotientUnique(y, d, q + 1, 0);
    } else {
      QuotientUnique(y, d, q, r + 1);
    }
  }

  /** The days before a month in closed form: as if February had 30 days, less the one or two it lacks. */
  lemma {:induction false} DaysBeforeMonthInClosedForm(year: nat, month: nat)
    requires 1 <= month <= 13
    ensures DaysBeforeMonth(year, month)
         == (367 * month - 362) / 12 - if month <= 2 then 0 else if IsLeapYear(year) then 1 else 2
  {
    if month > 1 {
      DaysBeforeMonthInClosedForm(year, month - 1);
    }
  }

  /** The seconds of a date since 1970 by the usual formula for the Gregorian calendar. */
  ghost function GregorianSeconds(c: Civil): int {
    var past := c.year - 1;
    var leap := c.year % 400 == 0 || (c.year % 4 == 0 && c.year % 100 != 0);
    var days := 365 * (c.year - 1970) + past / 4 - past / 100 + past / 400 - 477
                + (367 * c.month - 362) / 12 - (if c.month <= 2 then 0 else if leap then 1 else 2)
                + c.day - 1;
    ((days * 24 + c.hour) * 60 + c.minute) * 60 + c.second
  }

  /** The seconds of a valid date are those of the formula; and a valid day is one before the next month begins. */
  lemma SecondsInClosedForm(c: Civil)
    requires IsValid(c)
    ensures Seconds(c) == GregorianSeconds(c)
    ensures c.day <= (367 * (c.month + 1) - 362) / 12 - (367 * c.month - 362) / 12
                     - if c.month != 2 then 0 else if c.year % 400 == 0 || (c.year % 4 == 0 && c.year % 100 != 0) then 1 else 2
  {
    DaysBeforeYearInClosedForm(c.year);
    DaysBeforeMonthInClosedForm(c.year, c.month);
    DaysBeforeMonthInClosedForm(c.year, c.month + 1);
  }

  // ----- The time stamp -----

  /** A run of zero-padded numbers, each followed by one character. */
  function Joined(fields: seq<(nat, nat, byte)>): seq<byte> {
    if fields == [] then [] else Padded(fields[0].0, fields[0].1) + ([fields[0].2] + Joined(fields[1..]))
  }

  function Fields(c: Civil): seq<(nat, nat, byte)> {
    [(c.year, 4, '-' as int), (c.month, 2, '-' as int), (c.day, 2, 'T' as int),
     (c.hour, 2, ':' as int), (c.minute, 2, ':' as int), (c.second, 2, 'Z' as int)]
  }

  /** `YYYY-MM-DDThh:mm:ssZ`. */
  function Stamp(c: Civil): seq<byte> {
    Joined(Fields(c))
  }

  ghost predicate Fit(fields: seq<(nat, nat, byte)>) {
    forall i :: 0 <= i < |fields| ==> fields[i].1 >= 1 && fields[i].0 < Pow10(fields[i].1)
  }

  ghost predicate SameLayout(f: seq<(nat, nat, byte)>, g: seq<(nat, nat, byte)>) {
    |f| == |g| && forall i :: 0 <= i < |f| ==> f[i].1 == g[i].1 && f[i].2 == g[i].2
  }

  /** Joined texts of one layout compare at the first number in which they differ. */
  lemma {:induction false} JoinedKeepsOrder(f: seq<(nat, nat, byte)>, g: seq<(nat, nat, byte)>, k: nat)
    requires SameLayout(f, g) && Fit(f) && Fit(g) && k < |f|
    requires f[k].0 < g[k].0 && forall i :: 0 <= i < k ==> f[i].0 == g[i].0
    ensures Before(Joined(f), Joined(g))
  {
    var a, b, sep := Padded(f[0].0, f[0].1), Padded(g[0].0, g[0].1), [f[0].2];
    if k == 0 {
      PaddedKeepsOrder(f[0].0, g[0].0, f[0].1);
      BeforeWithSuffix(a, b, sep + Joined(f[1..]), sep + Joined(g[1..]));
    } else {
      JoinedKeepsOrder(f[1..], g[1..], k - 1);
      BeforeWithPrefix(sep, Joined(f[1..]), Joined(g[1..]));
      BeforeWithPrefix(a, sep + Joined(f[1..]), sep + Joined(g[1..]));
    }
  }

  lemma StampFits(c: Civil)
    requires IsValid(c)
    ensures Fit(Fields(c)) <==> c.year <= 9999
  {
    assert Pow10(2) == 10 * Pow10(1) && Pow10(4) == 100 * Pow10(2);
    assert Fields(c)[0].0 == c.year;
  }

  /** Four-digit years last until the end of 9999: 253402300800 seconds after the start of 1970. */
  lemma YearOfSeconds(c: Civil)
    requires IsValid(c)
    ensures c.year <= 9999 <==> Seconds(c) < 253402300800
  {
    var end := 10000;
    DaysBeforeYearInClosedForm(end);
    assert DaysBeforeYear(end) == 2932897;
    if c.year <= 9999 {
      DayIsInYear(c);
      YearsAccumulate(c.year, end);
    } else if c.year > 10000 {
      YearsAccumulate(end, c.year);
    }
  }

  lemma EarlierStamp(a: Civil, b: Civil)
    requires IsValid(a) && IsValid(b) && a.year <= 9999 && b.year <= 9999 && Earlier(a, b)
    ensures Before(Stamp(a), Stamp(b))
  {
    StampFits(a);
    StampFits(b);
    var f, g := Fields(a), Fields(b);
    if a.year < b.year {
      JoinedKeepsOrder(f, g, 0);
    } else if a.month < b.month {
      JoinedKeepsOrder(f, g, 1);
    } else if a.day < b.day {
      JoinedKeepsOrder(f, g, 2);
    } else if a.hour < b.hour {
      JoinedKeepsOrder(f, g, 3);
    } else if a.minute < b.minute {
      JoinedKeepsOrder(f, g, 4);
    } else {
      JoinedKeepsOrder(f, g, 5);
    }
  }

  // ----- Reading a stamp -----

  /** Where the k-th number starts when all numbers fit their widths. */
  function Offset(fields: seq<(nat, nat, byte)>, k: nat): nat
    requires k <= |fields|
  {
    if k == 0 then 0 else Offset(fields, k - 1) + fields[k - 1].1 + 1
  }

  ghost predicate FieldIsAt(text: seq<byte>, at: nat, number: nat, width: nat, end: byte) {
    at + width < |text| && text[at..at + width] == Padded(number, width) && text[at + width] == end
  }

  lemma {:induction false} OffsetAfterFirst(fields: seq<(nat, nat, byte)>, k: nat)
    requires 1 <= k <= |fields|
    ensures Offset(fields, k) == fields[0].1 + 1 + Offset(fields[1..], k - 1)
  {
    if k > 1 {
      OffsetAfterFirst(fields, k - 1);
    }
  }

  lemma LaterField(first: (nat, nat, byte), rest: seq<byte>, at: nat, field: (nat, nat, byte))
    requires |Padded(first.0, first.1)| == first.1 && FieldIsAt(rest, at, field.0, field.1, field.2)
    ensures FieldIsAt(Padded(first.0, first.1) + ([first.2] + rest), first.1 + 1 + at, field.0, field.1, field.2)
  {
    var text, start := Padded(first.0, first.1) + ([first.2] + rest), first.1 + 1 + at;
    assert text[start..start + field.1] == rest[at..at + field.1];
  }

  lemma FirstField(number: nat, width: nat, end: byte, rest: seq<byte>)
    requires |Padded(number, width)| == width
    ensures FieldIsAt(Padded(number, width) + ([end] + rest), 0, number, width, end)
  {
    var text := Padded(number, width) + ([end] + rest);
    assert text[0..0 + width] == Padded(number, width);
  }

  lemma {:induction false} JoinedFieldIsAtOffset(fields: seq<(nat, nat, byte)>, k: nat)
    requires Fit(fields) && k < |fields|
    ensures FieldIsAt(Joined(fields), Offset(fields, k), fields[k].0, fields[k].1, fields[k].2)
  {
    hide Padded, FieldIsAt;
    var first, rest := fields[0], Joined(fields[1..]);
    WidthIsKept(first.0, first.1);
    if k == 0 {
      FirstField(first.0, first.1, first.2, rest);
    } else {
      OffsetAfterFirst(fields, k);
      JoinedFieldIsAtOffset(fields[1..], k - 1);
      LaterField(first, rest, Offset(fields[1..], k - 1), fields[k]);
    }
  }

  lemma {:induction false} JoinedLength(fields: seq<(nat, nat, byte)>)
    requires forall i :: 0 <= i < |fields| ==> fields[i].1 >= 1
    ensures |Joined(fields)| >= Offset(fields, |fields|)
    ensures |Joined(fields)| == Offset(fields, |fields|) <==> Fit(fields)
  {
    if fields != [] {
      WidthIsKept(fields[0].0, fields[0].1);
      JoinedLength(fields[1..]);
      OffsetAfterFirst(fields, |fields|);
      assert Fit(fields) <==> fields[0].0 < Pow10(fields[0].1) && Fit(fields[1..]) by {
        assert forall i :: 1 <= i < |fields| ==> fields[i] == fields[1..][i - 1];
      }
    }
  }

  lemma StampLayout(c: Civil)
    ensures Offset(Fields(c), 0) == 0 && Offset(Fields(c), 1) == 5 && Offset(Fields(c), 2) == 8
    ensures Offset(Fields(c), 3) == 11 && Offset(Fields(c), 4) == 14 && Offset(Fields(c), 5) == 17
    ensures Offset(Fields(c), 6) == 20
  {
    var f := Fields(c);
    assert Offset(f, 0) == 0;
    assert Offset(f, 1) == 5;
    assert Offset(f, 2) == 8;
    assert Offset(f, 3) == 11;
    assert Offset(f, 4) == 14;
    assert Offset(f, 5) == 17;
  }

  /** The stamp has the twenty characters of an RFC 3339 date-time exactly until the end of the year 9999. */
  lemma StampIsRfc3339(c: Civil)
    requires IsValid(c)
    ensures |Stamp(c)| == 20 <==> Seconds(c) < 253402300800
  {
    StampFits(c);
    YearOfSeconds(c);
    JoinedLength(Fields(c));
    StampLayout(c);
  }

  /** Every number can be read back from its place in the stamp. */
  lemma StampReadsBack(c: Civil)
    requires IsValid(c) && c.year <= 9999
    ensures FieldIsAt(Stamp(c), 0, c.year, 4, '-' as int) && FieldIsAt(Stamp(c), 5, c.month, 2, '-' as int)
    ensures FieldIsAt(Stamp(c), 8, c.day, 2, 'T' as int) && FieldIsAt(Stamp(c), 11, c.hour, 2, ':' as int)
    ensures FieldIsAt(Stamp(c), 14, c.minute, 2, ':' as int) && FieldIsAt(Stamp(c), 17, c.second, 2, 'Z' as int)
    ensures |Stamp(c)| == 20
  {
    StampFits(c);
    YearOfSeconds(c);
    StampIsRfc3339(c);
    StampLayout(c);
    var f := Fields(c);
    JoinedFieldIsAtOffset(f, 0);
    JoinedFieldIsAtOffset(f, 1);
    JoinedFieldIsAtOffset(f, 2);
    JoinedFieldIsAtOffset(f, 3);
    JoinedFieldIsAtOffset(f, 4);
    JoinedFieldIsAtOffset(f, 5);
  }

  // ----- Sorting stamps -----

  /** The order of texts: at the first byte in which they differ, a proper prefix first. */
  ghost predicate TextLess(a: seq<byte>, b: seq<byte>) {
    a < b || Before(a, b)
  }

  /** Stamps taken before the year 10000 sort as text in the order of time. */
  lemma StampsSortByTime(a: Civil, b: Civil)
    requires IsValid(a) && IsValid(b) && a.year <= 9999 && b.year <= 9999
    ensures TextLess(Stamp(a), Stamp(b)) <==> Seconds(a) < Seconds(b)
  {
    hide Stamp, Seconds;
    SecondsOrderDates(a, b);
    SecondsOrderDates(b, a);
    YearOfSeconds(a);
    YearOfSeconds(b);
    StampIsRfc3339(a);
    StampIsRfc3339(b);
    if Seconds(a) < Seconds(b) {
      EarlierStamp(a, b);
    } else if Seconds(b) < Seconds(a) {
      EarlierStamp(b, a);
      BeforeIsAsymmetric(Stamp(b), Stamp(a));
    } else if Before(Stamp(a), Stamp(b)) {
      BeforeIsAsymmetric(Stamp(a), Stamp(b));
    }
  }

  const LAST_OF_9999 := Civil(9999, 12, 31, 23, 59, 59)
  const FIRST_OF_10000 := Civil(10000, 1, 1, 0, 0, 0)

  lemma FirstDigits()
    ensures Stamp(LAST_OF_9999) != [] && Stamp(LAST_OF_9999)[0] == '9' as int
    ensures Stamp(FIRST_OF_10000) != [] && Stamp(FIRST_OF_10000)[0] == '1' as int
  {
    assert Padded(9, 1) == [Digit(9)];
    assert Padded(99, 2)[0] == Digit(9);
    assert Padded(999, 3)[0] == Digit(9);
    assert Padded(9999, 4)[0] == Digit(9);
    assert Padded(1, 0) == [Digit(1)];
    assert Padded(10, 1)[0] == Digit(1);
    assert Padded(100, 2)[0] == Digit(1);
    assert Padded(1000, 3)[0] == Digit(1);
    assert Padded(10000, 4)[0] == Digit(1);
  }

  lemma SecondsAroundTheYear10000(last: Civil, first: Civil)
    requires last == LAST_OF_9999 && first == FIRST_OF_10000
    ensures IsValid(last) && Seconds(last) == 253402300799
    ensures IsValid(first) && Seconds(first) == 253402300800
  {
    DaysBeforeYearInClosedForm(last.year);
    DaysBeforeYearInClosedForm(first.year);
    MonthsFillTheYear(last.year);
  }

  /** The last second of 9999 and the next one: as texts they sort the other way round. */
  lemma SortingEndsWithTheYear9999()
    ensures IsValid(LAST_OF_9999) && Seconds(LAST_OF_9999) == 253402300799
    ensures IsValid(FIRST_OF_10000) && Seconds(FIRST_OF_10000) == 253402300800
    ensures !TextLess(Stamp(LAST_OF_9999), Stamp(FIRST_OF_10000)) && TextLess(Stamp(FIRST_OF_10000), Stamp(LAST_OF_9999))
  {
    hide Stamp, Seconds;
    SecondsAroundTheYear10000(LAST_OF_9999, FIRST_OF_10000);
    FirstDigits();
    assert FirstDiffersAt(Stamp(FIRST_OF_10000), Stamp(LAST_OF_9999), 0);
    BeforeIsAsymmetric(Stamp(FIRST_OF_10000), Stamp(LAST_OF_9999));
  }

  ghost predicate SortsByTime(a: Civil, b: Civil)
    requires IsValid(a) && IsValid(b)
  {
    TextLess(Stamp(a), Stamp(b)) <==> Seconds(a) < Seconds(b)
  }

  /** Stamps of all times up to a second sort as text in the order of time if and only if that second lies
      before the year 10000. */
  lemma StampsSortExactlyUntil10000(n: nat)
    ensures (forall a, b :: IsValid(a) && IsValid(b) && Seconds(a) <= n && Seconds(b) <= n ==> SortsByTime(a, b))
       <==> n < 253402300800
  {
    if n < 253402300800 {
      forall a, b | IsValid(a) && IsValid(b) && Seconds(a) <= n && Seconds(b) <= n ensures SortsByTime(a, b) {
        YearOfSeconds(a);
        YearOfSeconds(b);
        StampsSortByTime(a, b);
      }
    } else {
      SortingEndsWithTheYear9999();
      assert !SortsByTime(LAST_OF_9999, FIRST_OF_10000);
    }
  }
}
