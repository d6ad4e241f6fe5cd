/** `GET /upcoming` of server/routes/birthdays.js: the `days` window, the
    "MM-DD" birthday check, the number of days to the next birthday, and the
    filtered list sorted by that number. Dates are whole days: today is a
    calendar date given as a parameter, and a date is placed by its day of
    the year, where a day past the end of its month runs on into the next
    month as `new Date(year, month - 1, day)` does. */
module Birthdays {
  import opened Js
  import opened Schema
  import opened Sorting

  // ---------------------------------------------------------------------
  // The window
  // ---------------------------------------------------------------------

  /** `Math.min(parseInt(days, 10) || 30, 365)`: a missing, unreadable or
      zero value gives 30. */
  function DaysWindow(query: Option<string>): (r: int)
    ensures r <= 365 && r != 0
    ensures query.None? ==> r == 30
    ensures query.Some? && (ParseInt(query.value).None? || ParseInt(query.value) == Some(0)) ==> r == 30
  {
    var parsed := if query.None? then None else ParseInt(query.value);
    var n := if parsed.None? || parsed.value == 0 then 30 else parsed.value;
    Min(n, 365)
  }

  /** A decimal window is taken as given up to 365. */
  lemma DaysWindowOfDecimal(n: nat)
    ensures DaysWindow(Some(NatToString(n))) == if n == 0 then 30 else Min(n, 365)
  {
    ParseIntOfNatToString(n);
  }

  // ---------------------------------------------------------------------
  // Calendar arithmetic
  // ---------------------------------------------------------------------

  predicate IsLeapYear(y: int) {
    y % 4 == 0 && (y % 100 != 0 || y % 400 == 0)
  }

  function DaysInYear(y: int): int {
    if IsLeapYear(y) then 366 else 365
  }

  function DaysInMonth(y: int, m: int): int
    requires 1 <= m <= 12
  {
    if m == 2 then (if IsLeapYear(y) then 29 else 28)
    else if m == 4 || m == 6 || m == 9 || m == 11 then 30
    else 31
  }

  /** The days of year `y` before the first of month `m`. */
  function DaysBeforeMonth(y: int, m: int): (r: int)
    requires 1 <= m <= 12
    ensures 0 <= r <= DaysInYear(y) - DaysInMonth(y, m)
  {
    var common := [0, 31, 59, 90, 120, 151, 181, 212, 243, 273, 304, 334][m - 1];
    if IsLeapYear(y) && m > 2 then common + 1 else common
  }

  /** The day of the year (1 for January 1) of `new Date(y, m - 1, d)`. */
  function DayOfYear(y: int, m: int, d: int): int
    requires 1 <= m <= 12
  {
    DaysBeforeMonth(y, m) + d
  }

  /** A calendar date, as the clock gives today. */
  predicate ValidDate(y: int, m: int, d: int) {
    1 <= m <= 12 && 1 <= d <= DaysInMonth(y, m)
  }

  datatype Date = Date(year: int, month: int, day: int)

  /** The days before January 1 of year `y` in the proleptic Gregorian
      calendar, counted from January 1 of year 1. */
  function YearStart(y: int): int {
    365 * (y - 1) + (y - 1) / 4 - (y - 1) / 100 + (y - 1) / 400
  }

  /** The number of a day counted from a fixed origin: what a `Date` at
      local midnight measures, in whole days. */
  function DayNumber(y: int, m: int, d: int): int
    requires 1 <= m <= 12
  {
    YearStart(y) + DayOfYear(y, m, d)
  }

  lemma DivStep(y: int, n: int)
    requires n == 4 || n == 100 || n == 400
    ensures y / n - (y - 1) / n == if y % n == 0 then 1 else 0
  {
  }

  /** A multiple of 400 is a multiple of 100, and one of 100 a multiple of 4. */
  lemma DivisorChain(y: int)
    ensures y % 400 == 0 ==> y % 100 == 0
    ensures y % 100 == 0 ==> y % 4 == 0
  {
    var q4, q100, q400 := y / 4, y / 100, y / 400;
    assert y == 4 * q4 + y % 4 && y == 100 * q100 + y % 100 && y == 400 * q400 + y % 400;
    if y % 400 == 0 {
      var m := 4 * q400 - q100;
      assert y % 100 == 100 * m && 0 <= 100 * m < 100;
    }
    if y % 100 == 0 {
      var m := 25 * q100 - q4;
      assert y % 4 == 4 * m && 0 <= 4 * m < 4;
    }
  }

  /** A year is as long as the gap between its start and the next one's. */
  lemma YearStartStep(y: int)
    ensures YearStart(y + 1) == YearStart(y) + DaysInYear(y)
  {
    DivStep(y, 4);
    DivStep(y, 100);
    DivStep(y, 400);
    DivisorChain(y);
  }

  /** The calendar date after a valid date. */
  function NextDay(y: int, m: int, d: int): (r: Date)
    requires ValidDate(y, m, d)
    ensures ValidDate(r.year, r.month, r.day)
  {
    if d < DaysInMonth(y, m) then Date(y, m, d + 1)
    else if m < 12 then Date(y, m + 1, 1)
    else Date(y + 1, 1, 1)
  }

  /** Day numbers count calendar days: the next date has the next number,
      across the end of a month and of a year. */
  lemma DayNumberNextDay(y: int, m: int, d: int)
    requires ValidDate(y, m, d)
    ensures var n := NextDay(y, m, d);
      DayNumber(n.year, n.month, n.day) == DayNumber(y, m, d) + 1
  {
    if d == DaysInMonth(y, m) {
      if m < 12 {
        assert DaysBeforeMonth(y, m + 1) == DaysBeforeMonth(y, m) + DaysInMonth(y, m);
      } else {
        YearStartStep(y);
      }
    }
  }

  /** Whole days from `today` to the next birthday on month `m`, day `d`:
      this year's date when it is not before today, else next year's
      (`DaysUntilNext` states it in day numbers). */
  function DaysUntil(today: Date, m: int, d: int): (r: int)
    requires ValidDate(today.year, today.month, today.day)
    requires 1 <= m <= 12 && 1 <= d <= 31
    ensures 0 <= r <= 366
    ensures r == 0 <==> DayOfYear(today.year, m, d) == DayOfYear(today.year, today.month, today.day)
    ensures DayOfYear(today.year, m, d) >= DayOfYear(today.year, today.month, today.day) ==>
      r == DayOfYear(today.year, m, d) - DayOfYear(today.year, today.month, today.day)
  {
    var y := today.year;
    var t := DayOfYear(y, today.month, today.day);
    var thisYear := DayOfYear(y, m, d);
    if thisYear < t then
      assert DaysBeforeMonth(y + 1, m) <= DaysBeforeMonth(y, m) + 1;
      DaysInYear(y) - t + DayOfYear(y + 1, m, d)
    else thisYear - t
  }

  /** The count is the distance to the next occurrence of the date: today
      plus the count is the date this year or next year, and neither of
      those lies strictly between today and that day. */
  lemma DaysUntilNext(today: Date, m: int, d: int)
    requires ValidDate(today.year, today.month, today.day)
    requires 1 <= m <= 12 && 1 <= d <= 31
    ensures var t := DayNumber(today.year, today.month, today.day);
      var r := DaysUntil(today, m, d);
      t + r == DayNumber(today.year, m, d) || t + r == DayNumber(today.year + 1, m, d)
    ensures var t := DayNumber(today.year, today.month, today.day);
      var r := DaysUntil(today, m, d);
      (DayNumber(today.year, m, d) < t || t + r <= DayNumber(today.year, m, d))
      && (DayNumber(today.year + 1, m, d) < t || t + r <= DayNumber(today.year + 1, m, d))
  {
    var y := today.year;
    YearStartStep(y);
    assert DaysBeforeMonth(y + 1, m) + 1 >= DaysBeforeMonth(y, m);
  }

  /** A birthday today is 0 days away. */
  lemma BirthdayToday(today: Date)
    requires ValidDate(today.year, today.month, today.day)
    ensures DaysUntil(today, today.month, today.day) == 0
  {
  }

  // ---------------------------------------------------------------------
  // The "MM-DD" check
  // ---------------------------------------------------------------------

  /** The month and day of a birthday: a non-empty string that splits on
      "-" into exactly two integers, month 1 to 12 and day 1 to 31. */
  function ParseBirthday(b: Option<Json>): (r: Option<(int, int)>)
    ensures r.Some? ==> 1 <= r.value.0 <= 12 && 1 <= r.value.1 <= 31
    ensures r.Some? ==>
      b.Some? && b.value.JStr? && b.value.s != "" && |Split(b.value.s, '-')| == 2
      && NumberAsInteger(Split(b.value.s, '-')[0]) == Some(r.value.0)
      && NumberAsInteger(Split(b.value.s, '-')[1]) == Some(r.value.1)
    ensures b.None? || !b.value.JStr? || b.value.s == "" ==> r.None?
  {
    match b
    case Some(JStr(s)) =>
      if s == "" then None
      else
        var parts := Split(s, '-');
        if |parts| != 2 then None
        else
          var month := NumberAsInteger(parts[0]);
          var day := NumberAsInteger(parts[1]);
          if month.None? || day.None? then None
          else if month.value < 1 || month.value > 12 then None
          else if day.value < 1 || day.value > 31 then None
          else Some((month.value, day.value))
    case _ => None
  }

  /** Two decimal digits, with a leading zero below 10. */
  function TwoDigits(n: int): (s: string)
    requires 0 <= n < 100
    ensures |s| == 2 && AllDigits(s)
  {
    [DigitChar(n / 10), DigitChar(n % 10)]
  }

  lemma NumberOfTwoDigits(n: int)
    requires 0 <= n < 100
    ensures NumberAsInteger(TwoDigits(n)) == Some(n)
  {
    var s := TwoDigits(n);
    assert [] + "" + s + [] == s;
    NumberAsIntegerOf([], "", s, []);
    assert DecimalValue(s[..1]) == n / 10 by {
      assert s[..1][..0] == [];
    }
    assert s[..|s| - 1] == s[..1];
    assert DecimalValue(s) == n / 10 * 10 + n % 10;
  }

  /** Every "MM-DD" birthday is read back as its month and day. */
  lemma ParseBirthdayFormatted(m: int, d: int)
    requires 1 <= m <= 12 && 1 <= d <= 31
    ensures ParseBirthday(Some(JStr(TwoDigits(m) + "-" + TwoDigits(d)))) == Some((m, d))
  {
    var a := TwoDigits(m);
    var b := TwoDigits(d);
    var s := a + "-" + b;
    assert '-' !in a && '-' !in b;
    assert s == a + ['-'] + b;
    SplitAtFirst(a, b, '-');
    SplitWithout(b, '-');
    assert Split(s, '-') == [a, b];
    NumberOfTwoDigits(m);
    NumberOfTwoDigits(d);
    ParseBirthdayOfParts(s, a, b, m, d);
  }

  /** A non-empty text of two dash-separated numbers in range is read as
      that month and day. */
  lemma ParseBirthdayOfParts(s: string, a: string, b: string, m: int, d: int)
    requires 1 <= m <= 12 && 1 <= d <= 31
    requires Split(s, '-') == [a, b]
    requires NumberAsInteger(a) == Some(m) && NumberAsInteger(b) == Some(d)
    ensures ParseBirthday(Some(JStr(s))) == Some((m, d))
  {
  }

  // ---------------------------------------------------------------------
  // The route
  // ---------------------------------------------------------------------

  /** The member fields the route reads. */
  datatype BirthdayMember = BirthdayMember(
    name: Option<string>,
    birthday: Option<Json>,
    email: Option<string>,
    picture: Option<string>,
    roles: Roles)

  datatype Upcoming = Upcoming(
    name: Option<string>,
    birthday: string,
    daysUntil: int,
    email: Option<string>,
    picture: Option<string>,
    roles: Roles)

  /** The `map` step: the entry of a member with a valid birthday, `null`
      otherwise. */
  function Entry(m: BirthdayMember, today: Date): (r: Option<Upcoming>)
    requires ValidDate(today.year, today.month, today.day)
    ensures r.Some? <==> ParseBirthday(m.birthday).Some?
    ensures r.Some? ==> 0 <= r.value.daysUntil <= 366
    ensures r.Some? ==>
      var (month, day) := ParseBirthday(m.birthday).value;
      r.value == Upcoming(m.name, m.birthday.value.s, DaysUntil(today, month, day), m.email, m.picture, m.roles)
  {
    match ParseBirthday(m.birthday)
    case None => None
    case Some((month, day)) =>
      Some(Upcoming(m.name, m.birthday.value.s, DaysUntil(today, month, day), m.email, m.picture, m.roles))
  }

  /** `members.map((m) => ...)`: one entry per member, in order. */
  function Entries(members: seq<BirthdayMember>, today: Date): (es: seq<Option<Upcoming>>)
    requires ValidDate(today.year, today.month, today.day)
    ensures |es| == |members|
    ensures forall i :: 0 <= i < |members| ==> es[i] == Entry(members[i], today)
  {
    if members == [] then []
    else
      var rest := Entries(members[1..], today);
      assert forall i :: 1 <= i < |members| ==> members[i] == members[1..][i - 1];
      [Entry(members[0], today)] + rest
  }

  /** `.filter(Boolean).filter((m) => m.daysUntil >= 0 && m.daysUntil <= days)`. */
  function InWindow(members: seq<BirthdayMember>, today: Date, days: int): (r: seq<Upcoming>)
    requires ValidDate(today.year, today.month, today.day)
    ensures forall u :: u in r ==> 0 <= u.daysUntil <= days
  {
    Window(Entries(members, today), days)
  }

  /** Every kept entry is the entry of some member (`InWindow`). */
  lemma InWindowSound(members: seq<BirthdayMember>, today: Date, days: int, u: Upcoming)
    requires ValidDate(today.year, today.month, today.day)
    requires u in InWindow(members, today, days)
    ensures exists i :: 0 <= i < |members| && Entry(members[i], today) == Some(u)
  {
    var es := Entries(members, today);
    var i :| 0 <= i < |es| && es[i] == Some(u);
    assert Entry(members[i], today) == es[i];
  }

  /** Every member whose next birthday falls within the window is kept
      (`InWindow`). */
  lemma InWindowComplete(members: seq<BirthdayMember>, today: Date, days: int, i: int)
    requires ValidDate(today.year, today.month, today.day)
    requires 0 <= i < |members| && Entry(members[i], today).Some?
    requires Entry(members[i], today).value.daysUntil <= days
    ensures Entry(members[i], today).value in InWindow(members, today, days)
  {
    var es := Entries(members, today);
    assert es[i] == Entry(members[i], today);
    assert InWindow(members, today, days) == Window(es, days);
  }

  /** The same filter on the entries themselves. */
  function Window(es: seq<Option<Upcoming>>, days: int): (r: seq<Upcoming>)
    ensures forall u :: u in r ==> 0 <= u.daysUntil <= days
    ensures forall u :: u in r ==> exists i :: 0 <= i < |es| && es[i] == Some(u)
    ensures forall i :: 0 <= i < |es| && es[i].Some? && 0 <= es[i].value.daysUntil <= days ==> es[i].value in r
  {
    if es == [] then []
    else
      var rest := Window(es[1..], days);
      assert forall i :: 1 <= i < |es| ==> es[i] == es[1..][i - 1];
      (if es[0].Some? && 0 <= es[0].value.daysUntil <= days then [es[0].value] else []) + rest
  }

  function DaysUntilKey(u: Upcoming): int {
    u.daysUntil
  }

  datatype UpcomingReply = UpcomingReply(days: int, count: nat, upcoming: seq<Upcoming>)

  /** The reply of `GET /upcoming`. */
  function UpcomingBirthdays(members: seq<BirthdayMember>, today: Date, daysQuery: Option<string>): (r: UpcomingReply)
    requires ValidDate(today.year, today.month, today.day)
  {
    var days := DaysWindow(daysQuery);
    var upcoming := SortByKey(InWindow(members, today, days), DaysUntilKey);
    UpcomingReply(days, |upcoming|, upcoming)
  }

  /** Every listed birthday is within the window, the list runs from the
      nearest birthday, `count` is its length, and a member whose next
      birthday falls within the window is listed. */
  lemma UpcomingBirthdaysShape(members: seq<BirthdayMember>, today: Date, daysQuery: Option<string>)
    requires ValidDate(today.year, today.month, today.day)
    ensures var r := UpcomingBirthdays(members, today, daysQuery);
      && r.days == DaysWindow(daysQuery) && r.count == |r.upcoming|
      && (forall i :: 0 <= i < |r.upcoming| ==> 0 <= r.upcoming[i].daysUntil <= r.days)
      && (forall i, j :: 0 <= i < j < |r.upcoming| ==> r.upcoming[i].daysUntil <= r.upcoming[j].daysUntil)
      && (forall i :: (0 <= i < |members| && Entry(members[i], today).Some?
            && Entry(members[i], today).value.daysUntil <= r.days) ==> Entry(members[i], today).value in r.upcoming)
  {
    var days := DaysWindow(daysQuery);
    var kept := InWindow(members, today, days);
    var sorted := SortByKey(kept, DaysUntilKey);
    assert UpcomingBirthdays(members, today, daysQuery) == UpcomingReply(days, |sorted|, sorted);
    SortedWindow(kept, days);
    forall i | 0 <= i < |members| && Entry(members[i], today).Some? && Entry(members[i], today).value.daysUntil <= days
      ensures Entry(members[i], today).value in sorted
    {
      InWindowComplete(members, today, days, i);
    }
  }

  /** Sorting the kept birthdays by `daysUntil` keeps every one of them,
      keeps them within the window and orders them. */
  lemma SortedWindow(kept: seq<Upcoming>, days: int)
    requires forall u :: u in kept ==> 0 <= u.daysUntil <= days
    ensures var sorted := SortByKey(kept, DaysUntilKey);
      && (forall i :: 0 <= i < |sorted| ==> 0 <= sorted[i].daysUntil <= days)
      && (forall i, j :: 0 <= i < j < |sorted| ==> sorted[i].daysUntil <= sorted[j].daysUntil)
      && (forall u :: u in kept ==> u in sorted)
  {
    var sorted := SortByKey(kept, DaysUntilKey);
    SortByKeySorted(kept, DaysUntilKey);
    forall i, j | 0 <= i < j < |sorted|
      ensures sorted[i].daysUntil <= sorted[j].daysUntil
    {
      assert DaysUntilKey(sorted[i]) <= DaysUntilKey(sorted[j]);
    }
    forall i | 0 <= i < |sorted|
      ensures 0 <= sorted[i].daysUntil <= days
    {
      assert sorted[i] in multiset(kept);
    }
    forall u | u in kept
      ensures u in sorted
    {
      assert u in multiset(sorted);
    }
  }
}
