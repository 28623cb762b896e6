/**
 UTC timestamps in object names: the Gregorian calendar, the layout 2006-01-02T15:04:05,
 and the order of both. An instant is a number of seconds since 0000-01-01T00:00:00Z.
 */
module Calendar {
  import opened Text

  const DAY: nat := 86400

  datatype Civil = Civil(year: nat, month: nat, day: nat, hour: nat, minute: nat, second: nat)

  predicate Leap(y: nat) { y % 4 == 0 && (y % 100 != 0 || y % 400 == 0) }
  function YearLength(y: nat): nat { if Leap(y) then 366 else 365 }
  function MonthLength(y: nat, m: nat): nat {
    if m == 2 then (if Leap(y) then 29 else 28) else if m in {4, 6, 9, 11} then 30 else 31
  }

  predicate Real(c: Civil) {
    && 1 <= c.month <= 12 && 1 <= c.day <= MonthLength(c.year, c.month)
    && c.hour < 24 && c.minute < 60 && c.second < 60
  }

  function DaysBeforeYear(y: nat): nat { if y == 0 then 0 else DaysBeforeYear(y - 1) + YearLength(y - 1) }
  function DaysBeforeMonth(y: nat, m: nat): nat {
    if m <= 1 then 0 else DaysBeforeMonth(y, m - 1) + MonthLength(y, m - 1)
  }
  function DayNumber(c: Civil): int { DaysBeforeYear(c.year) + DaysBeforeMonth(c.year, c.month) + c.day - 1 }
  function Clock(c: Civil): nat { 3600 * c.hour + 60 * c.minute + c.second }

  // The instant of a civil time.
  function Instant(c: Civil): int { DAY * DayNumber(c) + Clock(c) }

  // ---- From instants to civil time, time.Time.UTC ------------------------------------------

  function YearAndDay(day: nat, y: nat): (nat, nat)
    decreases day
  {
    if day < YearLength(y) then (y, day) else YearAndDay(day - YearLength(y), y + 1)
  }

  function MonthAndDay(y: nat, day: nat, m: nat): (nat, nat)
    requires 1 <= m <= 12
    decreases 12 - m
  {
    if m == 12 || day < MonthLength(y, m) then (m, day + 1) else MonthAndDay(y, day - MonthLength(y, m), m + 1)
  }

  function TimeOfDay(s: nat): (nat, nat, nat) { (s / 3600, s % 3600 / 60, s % 3600 % 60) }

  function CivilOf(t: nat): Civil {
    var (y, rest) := YearAndDay(t / DAY, 0);
    var (m, d) := MonthAndDay(y, rest, 1);
    var (hour, minute, second) := TimeOfDay(t % DAY);
    Civil(y, m, d, hour, minute, second)
  }

  lemma {:induction false} YearAndDayCorrect(day: nat, y: nat)
    ensures var (year, rest) := YearAndDay(day, y);
            rest < YearLength(year) && DaysBeforeYear(year) + rest == DaysBeforeYear(y) + day
    decreases day
  {
    if day >= YearLength(y) { YearAndDayCorrect(day - YearLength(y), y + 1); }
  }

  // Multiples of k below n.
  function MultiplesBelow(n: nat, k: nat): nat
    requires k > 0
  {
    (n + k - 1) / k
  }

  lemma NextMultiple(n: nat, k: nat)
    requires k > 0
    ensures MultiplesBelow(n + 1, k) == MultiplesBelow(n, k) + (if n % k == 0 then 1 else 0)
  {
    var q, r := n / k, n % k;
    assert n == k * q + r;
    if r == 0 {
      DivUnique(n + k, k, q + 1, 0);
      DivUnique(n + k - 1, k, q, k - 1);
    } else {
      DivUnique(n + k, k, q + 1, r);
      DivUnique(n + k - 1, k, q + 1, r - 1);
    }
  }

  lemma DivUnique(n: nat, k: nat, q: nat, r: nat)
    requires r < k && n == k * q + r
    ensures n / k == q
  {
    var z := n / k - q;
    assert k * (q + z) == k * q + k * z;
    if z != 0 { Multiple(k, z); }
  }

  lemma Multiple(k: int, z: int)
    requires k > 0 && z != 0
    ensures k * z >= k || k * z <= -k
  {
    if z >= 1 { NonNegative(k, z - 1); } else { NonNegative(k, -z - 1); }
  }

  lemma NonNegative(a: int, b: int)
    requires a >= 0 && b >= 0
    ensures a * b >= 0
  {
  }

  lemma LeapYears(y: nat)
    ensures y % 400 == 0 ==> y % 100 == 0
    ensures y % 100 == 0 ==> y % 4 == 0
  {
    var q, r := y / 400, y / 100;
    if y % 400 == 0 { assert y == 400 * q; DivUnique(y, 100, 4 * q, 0); }
    if y % 100 == 0 { assert y == 100 * r; DivUnique(y, 4, 25 * r, 0); }
  }

  // The count of days agrees with the closed form by centuries.
  lemma {:induction false} DaysClosedForm(y: nat)
    ensures DaysBeforeYear(y) == 365 * y + MultiplesBelow(y, 4) - MultiplesBelow(y, 100) + MultiplesBelow(y, 400)
  {
    if y > 0 {
      DaysClosedForm(y - 1);
      NextMultiple(y - 1, 4);
      NextMultiple(y - 1, 100);
      NextMultiple(y - 1, 400);
      LeapYears(y - 1);
    }
  }

  lemma MonthStarts(y: nat)
    ensures var feb := if y % 4 == 0 && (y % 100 != 0 || y % 400 == 0) then 29 else 28;
      && DaysBeforeMonth(y, 1) == 0 && DaysBeforeMonth(y, 2) == 31 && DaysBeforeMonth(y, 3) == 31 + feb
      && DaysBeforeMonth(y, 4) == 62 + feb && DaysBeforeMonth(y, 5) == 92 + feb && DaysBeforeMonth(y, 6) == 123 + feb
      && DaysBeforeMonth(y, 7) == 153 + feb && DaysBeforeMonth(y, 8) == 184 + feb && DaysBeforeMonth(y, 9) == 215 + feb
      && DaysBeforeMonth(y, 10) == 245 + feb && DaysBeforeMonth(y, 11) == 276 + feb
      && DaysBeforeMonth(y, 12) == 306 + feb
  {
    var feb := MonthLength(y, 2);
    assert DaysBeforeMonth(y, 2) == 31;
    assert DaysBeforeMonth(y, 3) == 31 + feb;
    assert DaysBeforeMonth(y, 4) == 62 + feb;
    assert DaysBeforeMonth(y, 5) == 92 + feb;
    assert DaysBeforeMonth(y, 6) == 123 + feb;
    assert DaysBeforeMonth(y, 7) == 153 + feb;
    assert DaysBeforeMonth(y, 8) == 184 + feb;
    assert DaysBeforeMonth(y, 9) == 215 + feb;
    assert DaysBeforeMonth(y, 10) == 245 + feb;
    assert DaysBeforeMonth(y, 11) == 276 + feb;
  }

  lemma YearSum(y: nat)
    ensures DaysBeforeMonth(y, 12) + MonthLength(y, 12) == YearLength(y)
  {
    MonthStarts(y);
  }

  // So does the count of days within a year.
  lemma MonthsClosedForm(y: nat, m: nat)
    requires 1 <= m <= 12
    ensures DaysBeforeMonth(y, m) == (367 * m - 362) / 12 -
            (if m <= 2 then 0 else if y % 4 == 0 && (y % 100 != 0 || y % 400 == 0) then 1 else 2)
  {
    hide DaysBeforeMonth;
    MonthStarts(y);
  }

  lemma {:induction false} MonthAndDayCorrect(y: nat, day: nat, m: nat)
    requires 1 <= m <= 12 && DaysBeforeMonth(y, m) + day < YearLength(y)
    ensures var (month, d) := MonthAndDay(y, day, m);
            && 1 <= month <= 12 && 1 <= d <= MonthLength(y, month)
            && DaysBeforeMonth(y, month) + d - 1 == DaysBeforeMonth(y, m) + day
    decreases 12 - m
  {
    hide MonthLength, YearLength;
    YearSum(y);
    if m < 12 && day >= MonthLength(y, m) { MonthAndDayCorrect(y, day - MonthLength(y, m), m + 1); }
  }

  lemma TimeOfDayCorrect(s: nat)
    requires s < DAY
    ensures var (h, m, sec) := TimeOfDay(s);
            h < 24 && m < 60 && sec < 60 && 3600 * h + 60 * m + sec == s
  {
    var r := s % 3600;
    assert s == 3600 * (s / 3600) + r;
    assert r == 60 * (r / 60) + r % 60;
  }

  lemma CivilOfReal(t: nat)
    ensures Real(CivilOf(t)) && Instant(CivilOf(t)) == t
  {
    var day := t / DAY;
    YearAndDayCorrect(day, 0);
    var (y, rest) := YearAndDay(day, 0);
    MonthAndDayCorrect(y, rest, 1);
    TimeOfDayCorrect(t % DAY);
  }

  // ---- Chronological order -------------------------------------------------------------------

  predicate Before(a: Civil, b: Civil) {
    a.year < b.year || (a.year == b.year &&
    (a.month < b.month || (a.month == b.month &&
    (a.day < b.day || (a.day == b.day && Clock(a) < Clock(b))))))
  }

  lemma {:induction false} YearsAdd(y: nat, z: nat)
    requires y < z
    ensures DaysBeforeYear(y) + YearLength(y) <= DaysBeforeYear(z)
  {
    if y < z - 1 { YearsAdd(y, z - 1); }
  }

  lemma {:induction false} MonthsAdd(y: nat, m: nat, n: nat)
    requires 1 <= m < n
    ensures DaysBeforeMonth(y, m) + MonthLength(y, m) <= DaysBeforeMonth(y, n)
  {
    if m < n - 1 { MonthsAdd(y, m, n - 1); }
  }

  lemma DayFits(c: Civil)
    requires Real(c)
    ensures 0 <= DayNumber(c) - DaysBeforeYear(c.year) < YearLength(c.year)
  {
    YearSum(c.year);
    if c.month < 12 { MonthsAdd(c.year, c.month, 12); }
  }

  lemma EarlierFirst(a: Civil, b: Civil)
    requires Real(a) && Real(b) && Before(a, b)
    ensures Instant(a) < Instant(b)
  {
    assert Clock(a) < DAY;
    if a.year < b.year {
      YearsAdd(a.year, b.year);
      DayFits(a);
      DayFits(b);
    } else if a.month < b.month {
      MonthsAdd(a.year, a.month, b.month);
    }
    assert DayNumber(a) < DayNumber(b) || (DayNumber(a) == DayNumber(b) && Clock(a) < Clock(b));
  }

  lemma ClockInjective(a: Civil, b: Civil)
    requires Real(a) && Real(b) && Clock(a) == Clock(b)
    ensures a.hour == b.hour && a.minute == b.minute && a.second == b.second
  {
  }

  // Civil times are ordered like the instants they name, and name no instant twice.
  lemma OrderExact(a: Civil, b: Civil)
    requires Real(a) && Real(b)
    ensures Before(a, b) <==> Instant(a) < Instant(b)
    ensures Instant(a) == Instant(b) ==> a == b
  {
    if Before(a, b) {
      EarlierFirst(a, b);
    } else if Before(b, a) {
      EarlierFirst(b, a);
    } else {
      ClockInjective(a, b);
    }
  }

  lemma InstantRoundTrip(c: Civil)
    requires Real(c) && 0 <= Instant(c)
    ensures CivilOf(Instant(c)) == c
  {
    CivilOfReal(Instant(c));
    OrderExact(c, CivilOf(Instant(c)));
  }

  // ---- The Gregorian calendar, written out ------------------------------------------------------

  // The second at which a date stands in the proleptic Gregorian calendar, in one formula.
  function Gregorian(y: nat, m: nat, d: nat, hour: nat, minute: nat, second: nat): int {
    var short := if m <= 2 then 0 else if y % 4 == 0 && (y % 100 != 0 || y % 400 == 0) then 1 else 2;
    86400 * (365 * y + (y + 3) / 4 - (y + 99) / 100 + (y + 399) / 400 + (367 * m - 362) / 12 - short + d - 1)
    + 3600 * hour + 60 * minute + second
  }

  // A date that exists, month by month.
  predicate Exists(c: Civil) {
    && (c.month in {1, 3, 5, 7, 8, 10, 12} ==> 1 <= c.day <= 31)
    && (c.month in {4, 6, 9, 11} ==> 1 <= c.day <= 30)
    && (c.month == 2 ==> 1 <= c.day <= 29)
    && (c.month == 2 && c.day == 29 ==> c.year % 4 == 0 && (c.year % 100 != 0 || c.year % 400 == 0))
    && 1 <= c.month <= 12 && c.hour <= 23 && c.minute <= 59 && c.second <= 59
  }

  // The civil time of an instant is the one date that exists and stands at this second.
  lemma CivilOfExactly(t: nat, c: Civil)
    ensures CivilOf(t) == c <==> Exists(c) && Gregorian(c.year, c.month, c.day, c.hour, c.minute, c.second) == t
    ensures Exists(c) ==> Real(c) && Instant(c) == Gregorian(c.year, c.month, c.day, c.hour, c.minute, c.second)
  {
    hide CivilOf, Gregorian;
    ExistsIsReal(c);
    CivilOfReal(t);
    if Real(c) {
      InGregorian(c);
      if Instant(c) == t { InstantRoundTrip(c); }
    }
  }

  lemma ExistsIsReal(c: Civil)
    ensures Exists(c) <==> Real(c)
  {
  }

  lemma InGregorian(c: Civil)
    requires 1 <= c.month <= 12
    ensures Instant(c) == Gregorian(c.year, c.month, c.day, c.hour, c.minute, c.second)
  {
    DaysClosedForm(c.year);
    MonthsClosedForm(c.year, c.month);
    hide DaysBeforeYear, DaysBeforeMonth;
  }

  // ---- Printing --------------------------------------------------------------------------------

  function Digit(n: nat): byte
    requires n < 10
  {
    '0' + n as char
  }

  predicate IsDigit(c: byte) { '0' <= c <= '9' }
  function DigitValue(c: byte): nat
    requires IsDigit(c)
  {
    c as nat - '0' as nat
  }

  // n in w digits, with leading zeros.
  function Digits(n: nat, w: nat): (s: text)
    ensures |s| == w
  {
    if w == 0 then [] else Digits(n / 10, w - 1) + [Digit(n % 10)]
  }

  predicate AllDigits(s: text) { forall i :: 0 <= i < |s| ==> IsDigit(s[i]) }

  function Value(s: text): nat
    requires AllDigits(s)
  {
    if s == [] then 0 else 10 * Value(s[..|s| - 1]) + DigitValue(s[|s| - 1])
  }

  function Power10(w: nat): nat { if w == 0 then 1 else 10 * Power10(w - 1) }

  lemma {:induction false} ValueOfDigits(n: nat, w: nat)
    requires n < Power10(w)
    ensures AllDigits(Digits(n, w)) && Value(Digits(n, w)) == n
  {
    if w > 0 {
      ValueOfDigits(n / 10, w - 1);
      var s := Digits(n, w);
      assert s[..|s| - 1] == Digits(n / 10, w - 1);
    }
  }

  lemma {:induction false} DigitsOfValue(s: text)
    requires AllDigits(s)
    ensures Value(s) < Power10(|s|) && Digits(Value(s), |s|) == s
  {
    if s != [] { DigitsOfValue(s[..|s| - 1]); }
  }

  // Same-length strings compare by their first parts, then by their rests.
  lemma {:induction false} LessByParts(a: text, b: text, x: text, y: text)
    requires |a| == |b|
    ensures Less(a + x, b + y) <==> Less(a, b) || (a == b && Less(x, y))
  {
    if a == [] {
      assert a + x == x && b + y == y;
    } else {
      LessByParts(a[1..], b[1..], x, y);
      assert (a + x)[1..] == a[1..] + x && (b + y)[1..] == b[1..] + y;
      assert a == [a[0]] + a[1..] && b == [b[0]] + b[1..];
    }
  }

  lemma LessTotalEmpty()
    ensures !Less([], [])
  {
  }

  lemma LastDigitOrder(a: text, b: text, x: nat, y: nat)
    requires |a| == |b| && x < 10 && y < 10
    ensures Less(a + [Digit(x)], b + [Digit(y)]) <==> Less(a, b) || (a == b && x < y)
  {
    LessByParts(a, b, [Digit(x)], [Digit(y)]);
  }

  lemma {:induction false} DigitsOrder(n: nat, m: nat, w: nat)
    requires n < Power10(w) && m < Power10(w)
    ensures Less(Digits(n, w), Digits(m, w)) <==> n < m
    ensures Digits(n, w) == Digits(m, w) ==> n == m
  {
    hide AllDigits, Value, Less;
    ValueOfDigits(n, w);
    ValueOfDigits(m, w);
    if w > 0 {
      DigitsOrder(n / 10, m / 10, w - 1);
      LastDigitOrder(Digits(n / 10, w - 1), Digits(m / 10, w - 1), n % 10, m % 10);
    } else {
      LessTotalEmpty();
    }
  }

  // A year takes four digits, or more when it needs them.
  function YearText(y: nat): (s: text)
    ensures |s| >= 4 && (|s| == 4 <==> y < 10000)
  {
    if y < 10000 then Digits(y, 4) else YearText(y / 10) + [Digit(y % 10)]
  }

  function Field(separator: byte, n: nat): (s: text)
    ensures |s| == 3
  {
    [separator] + Digits(n, 2)
  }

  // time.Format with the layout 2006-01-02T15:04:05.
  function Layout(c: Civil): text {
    YearText(c.year) + (Field('-', c.month) + (Field('-', c.day)
      + (Field('T', c.hour) + (Field(':', c.minute) + Field(':', c.second)))))
  }

  lemma FieldOrder(separator: byte, n: nat, m: nat, x: text, y: text)
    requires n < 100 && m < 100
    ensures Less(Field(separator, n) + x, Field(separator, m) + y) <==> n < m || (n == m && Less(x, y))
    ensures Field(separator, n) + x == Field(separator, m) + y ==> n == m && x == y
  {
    assert Power10(2) == 100;
    DigitsOrder(n, m, 2);
    LessByParts([separator], [separator], Digits(n, 2), Digits(m, 2));
    LessByParts(Field(separator, n), Field(separator, m), x, y);
    if Field(separator, n) + x == Field(separator, m) + y {
      assert x == (Field(separator, n) + x)[3..] && y == (Field(separator, m) + y)[3..];
      assert Field(separator, n) == (Field(separator, n) + x)[..3] == Field(separator, m);
      assert Digits(n, 2) == Field(separator, n)[1..] == Digits(m, 2);
    }
  }

  lemma TimeTextOrder(a: Civil, b: Civil)
    requires Real(a) && Real(b)
    ensures Less(Field(':', a.minute) + Field(':', a.second), Field(':', b.minute) + Field(':', b.second)) <==>
            a.minute < b.minute || (a.minute == b.minute && a.second < b.second)
  {
    FieldOrder(':', a.second, b.second, [], []);
    assert Field(':', a.second) + [] == Field(':', a.second) && Field(':', b.second) + [] == Field(':', b.second);
    FieldOrder(':', a.minute, b.minute, Field(':', a.second), Field(':', b.second));
  }

  // Comparing printed times as strings is comparing them in time.
  lemma LayoutOrder(a: Civil, b: Civil)
    requires Real(a) && Real(b) && a.year < 10000 && b.year < 10000
    ensures Less(Layout(a), Layout(b)) <==> Before(a, b)
  {
    assert Power10(4) == 10000;
    TimeTextOrder(a, b);
    var (ta, tb) := (Field(':', a.minute) + Field(':', a.second), Field(':', b.minute) + Field(':', b.second));
    FieldOrder('T', a.hour, b.hour, ta, tb);
    var (ha, hb) := (Field('T', a.hour) + ta, Field('T', b.hour) + tb);
    FieldOrder('-', a.day, b.day, ha, hb);
    var (da, db) := (Field('-', a.day) + ha, Field('-', b.day) + hb);
    FieldOrder('-', a.month, b.month, da, db);
    LessByParts(YearText(a.year), YearText(b.year), Field('-', a.month) + da, Field('-', b.month) + db);
    DigitsOrder(a.year, b.year, 4);
  }

  // For instance: the last day of a month of 31 days.
  lemma LastOfMay()
    ensures CivilOf(63_884_343_600) == Civil(2024, 5, 31, 3, 0, 0)
    ensures Layout(CivilOf(63_884_343_600)) == "2024-05-31T03:00:00"
  {
    hide CivilOf, Layout;
    CivilOfExactly(63_884_343_600, Civil(2024, 5, 31, 3, 0, 0));
    PrintedLastOfMay();
  }

  lemma PrintedLastOfMay()
    ensures Layout(Civil(2024, 5, 31, 3, 0, 0)) == "2024-05-31T03:00:00"
  {
    hide Digits, YearText;
    FourDigits();
    TwoDigits(5);
    TwoDigits(31);
    TwoDigits(3);
    TwoDigits(0);
    assert Field('-', 5) == "-05" && Field('-', 31) == "-31" && Field('T', 3) == "T03" && Field(':', 0) == ":00";
    hide Field;
    assert "T03" + (":00" + ":00") == "T03:00:00";
    assert "-31" + "T03:00:00" == "-31T03:00:00";
    assert "-05" + "-31T03:00:00" == "-05-31T03:00:00";
    assert "2024" + "-05-31T03:00:00" == "2024-05-31T03:00:00";
  }

  lemma FourDigits()
    ensures YearText(2024) == "2024"
  {
    var n := 2024;
    TwoDigits(n / 100);
    assert Digits(n / 10, 3) == Digits(n / 100, 2) + [Digit(2)];
    assert Digits(n, 4) == Digits(n / 10, 3) + [Digit(4)];
  }

  lemma TwoDigits(n: nat)
    requires n < 100
    ensures Digits(n, 2) == [Digit(n / 10), Digit(n % 10)]
  {
    assert n / 10 % 10 == n / 10;
    assert Digits(n / 10, 1) == [] + [Digit(n / 10)];
  }

  // In years 0000 to 9999 later instants print later.
  lemma PrintingIsMonotone(s: nat, t: nat)
    requires CivilOf(s).year < 10000 && CivilOf(t).year < 10000
    ensures Less(Layout(CivilOf(s)), Layout(CivilOf(t))) <==> s < t
  {
    CivilOfReal(s);
    CivilOfReal(t);
    OrderExact(CivilOf(s), CivilOf(t));
    LayoutOrder(CivilOf(s), CivilOf(t));
  }

  // ---- Parsing -----------------------------------------------------------------------------------

  // ^[0-9]{4}-[0-9]{2}-[0-9]{2}T[0-9]{2}:[0-9]{2}:[0-9]{2}$
  predicate MatchesLayout(s: text) {
    && |s| == 19 && AllDigits(s[..4])
    && s[4] == '-' && AllDigits(s[5..7]) && s[7] == '-' && AllDigits(s[8..10])
    && s[10] == 'T' && AllDigits(s[11..13]) && s[13] == ':' && AllDigits(s[14..16])
    && s[16] == ':' && AllDigits(s[17..19])
  }

  // time.Parse with the layout, on text of that shape.
  function ParseLayout(s: text): Option<Civil>
    requires MatchesLayout(s)
  {
    var c := Civil(Value(s[..4]), Value(s[5..7]), Value(s[8..10]), Value(s[11..13]), Value(s[14..16]),
      Value(s[17..19]));
    if Real(c) then Some(c) else None
  }

  lemma LayoutParts(c: Civil)
    requires c.year < 10000
    ensures var s := Layout(c);
      && |s| == 19 && s[..4] == Digits(c.year, 4)
      && s[4] == '-' && s[5..7] == Digits(c.month, 2) && s[7] == '-' && s[8..10] == Digits(c.day, 2)
      && s[10] == 'T' && s[11..13] == Digits(c.hour, 2) && s[13] == ':' && s[14..16] == Digits(c.minute, 2)
      && s[16] == ':' && s[17..19] == Digits(c.second, 2)
  {
    var s := Layout(c);
    var t := Field(':', c.minute) + Field(':', c.second);
    assert s[10..] == Field('T', c.hour) + t;
    assert s[13..] == s[10..][3..] == t;
    assert s[14..16] == t[1..3] && s[17..19] == t[4..6];
  }

  lemma PrintParse(c: Civil)
    requires Real(c) && c.year < 10000
    ensures MatchesLayout(Layout(c)) && ParseLayout(Layout(c)) == Some(c)
  {
    LayoutParts(c);
    assert Power10(2) == 100 && Power10(4) == 10000;
    ValueOfDigits(c.year, 4);
    ValueOfDigits(c.month, 2);
    ValueOfDigits(c.day, 2);
    ValueOfDigits(c.hour, 2);
    ValueOfDigits(c.minute, 2);
    ValueOfDigits(c.second, 2);
  }

  lemma ParsePrint(s: text)
    requires MatchesLayout(s) && ParseLayout(s).Some?
    ensures var c := ParseLayout(s).value; Real(c) && c.year < 10000 && Layout(c) == s
  {
    var c := ParseLayout(s).value;
    assert Power10(4) == 10000;
    DigitsOfValue(s[..4]);
    DigitsOfValue(s[5..7]);
    DigitsOfValue(s[8..10]);
    DigitsOfValue(s[11..13]);
    DigitsOfValue(s[14..16]);
    DigitsOfValue(s[17..19]);
    LayoutParts(c);
    SamePieces(s, Layout(c));
  }

  lemma SamePieces(s: text, t: text)
    requires |s| == |t| == 19 && s[..4] == t[..4] && s[4] == t[4] && s[5..7] == t[5..7] && s[7] == t[7]
    requires s[8..10] == t[8..10] && s[10] == t[10] && s[11..13] == t[11..13] && s[13] == t[13]
    requires s[14..16] == t[14..16] && s[16] == t[16] && s[17..19] == t[17..19]
    ensures s == t
  {
    assert s ==
      s[..4] + [s[4]] + s[5..7] + [s[7]] + s[8..10] + [s[10]]
      + s[11..13] + [s[13]] + s[14..16] + [s[16]] + s[17..19];
    assert t ==
      t[..4] + [t[4]] + t[5..7] + [t[7]] + t[8..10] + [t[10]]
      + t[11..13] + [t[13]] + t[14..16] + [t[16]] + t[17..19];
  }

  // The texts that match the layout and parse are exactly the printed real seconds of the
  // years 0000 to 9999.
  lemma ParseExact(s: text)
    ensures MatchesLayout(s) && ParseLayout(s).Some? <==>
      exists t: nat :: CivilOf(t).year < 10000 && s == Layout(CivilOf(t))
  {
    if MatchesLayout(s) && ParseLayout(s).Some? {
      ParsePrint(s);
      var c := ParseLayout(s).value;
      assert 0 <= Instant(c);
      InstantRoundTrip(c);
      assert s == Layout(CivilOf(Instant(c)));
    }
    if t: nat :| CivilOf(t).year < 10000 && s == Layout(CivilOf(t)) {
      CivilOfReal(t);
      PrintParse(CivilOf(t));
    }
  }
}
