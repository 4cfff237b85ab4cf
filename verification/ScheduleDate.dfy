/** The calendar half of esp_schedule.c: schedules on a day of certain months. */
module ScheduleDate {
  import opened Common
  import opened BitSets

  // ---- the calendar ----

  predicate Leap(y: nat) {
    y % 4 == 0 && (y % 100 != 0 || y % 400 == 0)
  }

  function DaysInMonth(y: nat, m: nat): nat {
    if m == 2 then if Leap(y) then 29 else 28
    else if m == 4 || m == 6 || m == 9 || m == 11 then 30
    else 31
  }

  function DaysBeforeMonth(y: nat, m: nat): nat {
    if m <= 1 then 0 else DaysBeforeMonth(y, m - 1) + DaysInMonth(y, m - 1)
  }

  function DaysBeforeYear(y: nat): nat {
    if y <= 1970 then 0 else DaysBeforeYear(y - 1) + DaysBeforeMonth(y - 1, 13)
  }

  /** A moment in local time at a fixed UTC offset; months and days count from 1. */
  datatype Moment = Moment(year: nat, month: nat, day: nat, second: nat)

  predicate Valid(t: Moment) {
    t.year >= 1970 && 1 <= t.month <= 12 && 1 <= t.day <= DaysInMonth(t.year, t.month) && t.second < 86400
  }

  /** mktime, for dates that exist. */
  function Mktime(t: Moment): int {
    (DaysBeforeYear(t.year) + DaysBeforeMonth(t.year, t.month) + t.day - 1) * 86400 + t.second
  }

  predicate Before(a: Moment, b: Moment) {
    a.year < b.year
    || (a.year == b.year && (a.month < b.month
    || (a.month == b.month && (a.day < b.day
    || (a.day == b.day && a.second < b.second)))))
  }

  lemma {:induction false} MonthsGrow(y: nat, m: nat, n: nat)
    requires 1 <= m < n <= 13
    ensures DaysBeforeMonth(y, m) + DaysInMonth(y, m) <= DaysBeforeMonth(y, n)
    decreases n
  {
    if m < n - 1 {
      MonthsGrow(y, m, n - 1);
    }
  }

  lemma {:induction false} YearsGrow(y: nat, z: nat)
    requires 1970 <= y < z
    ensures DaysBeforeYear(y) + DaysBeforeMonth(y, 13) <= DaysBeforeYear(z)
    decreases z
  {
    if y < z - 1 {
      YearsGrow(y, z - 1);
    }
  }

  /** Among dates that exist, mktime keeps the order of the calendar. */
  lemma MktimeMonotone(a: Moment, b: Moment)
    requires Valid(a) && Valid(b)
    ensures Mktime(a) < Mktime(b) <==> Before(a, b)
    ensures Mktime(a) == Mktime(b) <==> a == b
  {
    if Before(a, b) {
      BeforeIsLess(a, b);
    } else if Before(b, a) {
      BeforeIsLess(b, a);
    }
  }

  lemma BeforeIsLess(a: Moment, b: Moment)
    requires Valid(a) && Valid(b) && Before(a, b)
    ensures Mktime(a) < Mktime(b)
  {
    if a.year < b.year {
      YearsGrow(a.year, b.year);
      MonthsGrow(a.year, a.month, 13);
    } else if a.month < b.month {
      MonthsGrow(a.year, a.month, b.month);
    }
  }

  /** The calendar is the Gregorian one: the days before a month, and before a year, since
      the start of 1970. */
  lemma DaysOfMonths(y: nat, m: nat)
    requires 1 <= m <= 13
    ensures DaysBeforeMonth(y, m) == [0, 31, 59, 90, 120, 151, 181, 212, 243, 273, 304, 334, 365][m - 1]
                                     + if m > 2 && Leap(y) then 1 else 0
  {
    assert DaysBeforeMonth(y, 2) == 31;
    assert DaysBeforeMonth(y, 3) == 59 + if Leap(y) then 1 else 0;
    assert DaysBeforeMonth(y, 5) == DaysBeforeMonth(y, 3) + 61;
    assert DaysBeforeMonth(y, 7) == DaysBeforeMonth(y, 5) + 61;
    assert DaysBeforeMonth(y, 9) == DaysBeforeMonth(y, 7) + 62;
    assert DaysBeforeMonth(y, 11) == DaysBeforeMonth(y, 9) + 61;
    assert DaysBeforeMonth(y, 13) == DaysBeforeMonth(y, 11) + 61;
  }

  lemma {:induction false} DaysOfYears(y: nat)
    requires y >= 1970
    ensures DaysBeforeYear(y) == 365 * (y - 1970) + LeapsTo(y - 1) - 477
  {
    if y > 1970 {
      DaysOfYears(y - 1);
      DaysOfMonths(y - 1, 13);
      LeapStep(y - 1);
    }
  }

  /** The leap years up to y. */
  function LeapsTo(y: nat): int {
    y / 4 - y / 100 + y / 400
  }

  lemma LeapStep(y: nat)
    requires y > 0
    ensures LeapsTo(y) == LeapsTo(y - 1) + if Leap(y) then 1 else 0
  {
    Multiples(y, 4);
    Multiples(y, 100);
    Multiples(y, 400);
    Nested(y);
  }

  lemma Nested(y: nat)
    ensures y % 400 == 0 ==> y % 100 == 0
    ensures y % 100 == 0 ==> y % 4 == 0
  {
    if y % 400 == 0 {
      NoRest(4 * (y / 400));
    }
    if y % 100 == 0 {
      NoRest(25 * (y / 100));
    }
  }

  lemma NoRest(k: nat)
    ensures 100 * k % 100 == 0 && 4 * k % 4 == 0
  {
  }

  lemma Multiples(y: nat, n: nat)
    requires y > 0 && (n == 4 || n == 100 || n == 400)
    ensures y / n == (y - 1) / n + if y % n == 0 then 1 else 0
  {
  }

  // ---- the schedule ----

  datatype DateTrigger = DateTrigger(day: nat, months: nat, year: nat, everyYear: bool, second: nat)

  predicate Sane(s: DateTrigger) {
    1 <= s.day <= 31 && s.months < 4096 && s.second < 86400
  }

  /** The numbers of the selected months; position 0 is January. */
  predicate Listed(months: nat, m: nat) {
    1 <= m <= 12 && Bit(months, m - 1)
  }

  /** The scheduled moment of a month. */
  function At(s: DateTrigger, y: nat, m: nat): Moment {
    Moment(y, m, s.day, s.second)
  }

  /** In the current month, the scheduled moment is still to come. */
  predicate Ahead(s: DateTrigger, now: Moment) {
    s.day > now.day || (s.day == now.day && s.second > now.second)
  }

  /** esp_schedule_get_next_month: a month counted from January of the year of the
      result, or zero. */
  function NextMonth(s: DateTrigger, now: Moment): nat
    requires 1 <= now.month <= 12
  {
    var currentBit := Shl(1, now.month - 1);
    if s.months == 0 then
      if s.day == now.day then if s.second > now.second then now.month else now.month + 1
      else if s.day > now.day then now.month
      else now.month + 1
    else if s.year > now.year then Ffs(s.months)
    else if And(currentBit, s.months) != 0 && ((s.day == now.day && s.second > now.second) || s.day > now.day) then
      now.month
    else if And(s.months, Xor(currentBit, 0xFFFF)) > currentBit then Ffs(And(s.months, Shl(0xFFFF, now.month)))
    else if !s.everyYear && s.year <= now.year then 0
    else Ffs(s.months) + 12
  }

  /** esp_schedule_get_next_year */
  function NextYear(s: DateTrigger, now: Moment): nat {
    if s.year > now.year then s.year else now.year
  }

  /** The month and year that are finally scheduled (212-224). */
  function Target(s: DateTrigger, now: Moment): Moment
    requires 1 <= now.month <= 12
  {
    var month := NextMonth(s, now);
    var mon := if month == 0 then now.month else month - 1;
    At(s, NextYear(s, now) + mon / 12, mon % 12 + 1)
  }

  /** The value of get_next_month, without the bit arithmetic, for a schedule that
      lists months and whose year has come; positions count from 0. */
  ghost predicate ByCases(months: nat, t: nat, ahead: bool, again: bool, m: int) {
    if Bit(months, t) && ahead then m == t + 1
    else if exists k: nat :: k > t && Bit(months, k) then
      m - 1 > t && Bit(months, m - 1) && forall k: nat :: t < k < m - 1 ==> !Bit(months, k)
    else if !again then m == 0
    else m >= 13 && Bit(months, m - 13) && forall k: nat :: k < m - 13 ==> !Bit(months, k)
  }

  lemma WordMask(k: nat)
    ensures Bit(0xFFFF, k) <==> k < 16
    ensures Shl(1, 12) == 4096 && Shl(1, 16) == 65536
  {
    WordBit(k);
    assert Shl(1, 4) == 16;
    assert Shl(1, 8) == 256;
  }

  lemma LaterMonths(months: nat, t: nat)
    requires t < 12 && 0 < months < 4096
    ensures And(months, Xor(Shl(1, t), 0xFFFF)) > Shl(1, t) <==> exists k: nat :: k > t && Bit(months, k)
  {
    forall k: nat ensures Bit(0xFFFF, k) <==> k < 16 {
      WordMask(k);
    }
    WordMask(0);
    LaterTest(months, t, 0xFFFF, 16);
  }

  lemma FirstLater(months: nat, t: nat)
    requires t < 12 && 0 < months < 4096 && exists k: nat :: k > t && Bit(months, k)
    ensures var m := Ffs(And(months, Shl(0xFFFF, t + 1)));
      m - 1 > t && Bit(months, m - 1) && forall k: nat :: t < k < m - 1 ==> !Bit(months, k)
  {
    forall k: nat ensures Bit(0xFFFF, k) <==> k < 16 {
      WordMask(k);
    }
    WordMask(0);
    var k: nat :| k > t && Bit(months, k);
    assert k >= t + 1;
    FirstFrom(months, t + 1, 0xFFFF, 16);
  }

  lemma NextMonthCases(s: DateTrigger, now: Moment)
    requires Sane(s) && 1 <= now.month <= 12 && s.months != 0 && s.year <= now.year
    ensures ByCases(s.months, now.month - 1, Ahead(s, now), s.everyYear, NextMonth(s, now))
  {
    var t := now.month - 1;
    TestBit(s.months, t);
    LaterMonths(s.months, t);
    FfsIsLeast(s.months);
    if exists k: nat :: k > t && Bit(s.months, k) {
      FirstLater(s.months, t);
    }
  }

  /** Month k, counted from January of the current year and possibly beyond it,
      is one in which the schedule still goes off. */
  predicate MonthDue(s: DateTrigger, now: Moment, k: nat)
    requires now.month >= 1
  {
    k >= now.month && Bit(s.months, (k - 1) % 12) && (k == now.month ==> Ahead(s, now))
  }

  lemma OnlyMonths(s: DateTrigger, k: nat)
    requires Sane(s) && Bit(s.months, k)
    ensures k < 12
  {
    assert Shl(1, 4) == 16;
    assert Shl(1, 8) == 256;
    assert Shl(1, 12) == 4096;
    BelowPower(s.months, 12);
  }

  lemma MonthIndex(k: nat)
    requires 1 <= k <= 24
    ensures (k - 1) % 12 == if k <= 12 then k - 1 else k - 13
  {
  }

  /** Repeating every year: the bit arithmetic finds the first due month. */
  lemma NextMonthIsLeast(s: DateTrigger, now: Moment)
    requires Sane(s) && 1 <= now.month <= 12 && s.months != 0 && s.year <= now.year && s.everyYear
    ensures var m := NextMonth(s, now);
      && now.month <= m <= now.month + 12 && MonthDue(s, now, m)
      && forall k :: now.month <= k < m ==> !MonthDue(s, now, k)
  {
    var m, t := NextMonth(s, now), now.month - 1;
    NextMonthCases(s, now);
    if k: nat :| k > t && Bit(s.months, k) {
      OnlyMonths(s, m - 1);
    }
    MonthIndex(m);
    forall k | now.month <= k < m ensures !MonthDue(s, now, k) {
      MonthIndex(k);
    }
  }

  /** Not repeating: the first due month of this year, or zero when there is none. */
  lemma NextMonthThisYear(s: DateTrigger, now: Moment)
    requires Sane(s) && 1 <= now.month <= 12 && s.months != 0 && s.year <= now.year && !s.everyYear
    ensures var m := NextMonth(s, now);
      && m <= 12 && (m != 0 <==> exists k :: now.month <= k <= 12 && MonthDue(s, now, k))
      && (m != 0 ==> MonthDue(s, now, m))
      && forall k :: now.month <= k < m ==> !MonthDue(s, now, k)
  {
    var m, t := NextMonth(s, now), now.month - 1;
    NextMonthCases(s, now);
    if k: nat :| k > t && Bit(s.months, k) {
      OnlyMonths(s, m - 1);
    }
    assert m != 0 ==> MonthDue(s, now, m);
    forall k | now.month <= k <= 12 && MonthDue(s, now, k) ensures m != 0 && k >= m {
      assert (k - 1) % 12 == k - 1;
    }
  }

  /** ESP_SCHEDULE_MONTH_ALL has seven bits set: it lists January to July only. */
  lemma MonthAllIsHalfAYear(m: nat)
    ensures Listed(0x7F, m) <==> 1 <= m <= 7
  {
    assert Shl(1, 4) == 16;
    assert Shl(1, 7) == 128;
    if m >= 1 {
      OnesBit(7, m - 1);
    }
  }

  // ---- expiry ----

  /** The last moment of a schedule that does not repeat every year. */
  function Last(s: DateTrigger): Moment {
    At(s, s.year, Fls(s.months))
  }

  /** esp_schedule_is_expired, for a schedule on a date that lists months. */
  predicate IsExpired(s: DateTrigger, now: Moment) {
    !s.everyYear && Mktime(Last(s)) < Mktime(now)
  }

  lemma LastIsLast(s: DateTrigger)
    requires Sane(s) && s.months != 0
    ensures Listed(s.months, Fls(s.months))
    ensures forall m: nat :: Listed(s.months, m) ==> m <= Fls(s.months)
  {
    FlsIsGreatest(s.months);
    OnlyMonths(s, Fls(s.months) - 1);
  }

  /** A month of the current year is due exactly when its moment is still to come. */
  lemma DueIsBefore(s: DateTrigger, now: Moment, m: nat)
    requires Valid(now) && now.month <= m <= 12 && Listed(s.months, m)
    ensures MonthDue(s, now, m) <==> Before(now, At(s, now.year, m))
  {
    assert (m - 1) % 12 == m - 1;
  }

  /** The two tests disagree at one instant only: at the very second of the last
      moment the schedule has not expired and yet has no month left. */
  lemma ExpiryGap(s: DateTrigger, now: Moment)
    requires Sane(s) && s.months != 0 && !s.everyYear && Valid(now) && Valid(Last(s))
    ensures !IsExpired(s, now) && NextMonth(s, now) == 0 <==> now == Last(s)
  {
    var last := Fls(s.months);
    LastIsLast(s);
    MktimeMonotone(Last(s), now);
    if s.year > now.year {
      FfsIsLeast(s.months);
    } else {
      NextMonthThisYear(s, now);
      if s.year == now.year {
        DueThisYear(s, now);
      }
    }
  }

  lemma DueThisYear(s: DateTrigger, now: Moment)
    requires Sane(s) && s.months != 0 && Valid(now) && Valid(Last(s)) && s.year == now.year
    ensures (exists k :: now.month <= k <= 12 && MonthDue(s, now, k)) <==> Before(now, Last(s))
  {
    var last := Fls(s.months);
    LastIsLast(s);
    if now.month <= last {
      DueIsBefore(s, now, last);
    }
    forall k | now.month <= k <= 12 && MonthDue(s, now, k) ensures Before(now, Last(s)) {
      assert (k - 1) % 12 == k - 1;
      assert Listed(s.months, k);
    }
  }

  /** As long as its last moment is still to come, a schedule is neither expired
      nor out of months. */
  lemma StillToCome(s: DateTrigger, now: Moment)
    requires Sane(s) && s.months != 0 && !s.everyYear && Valid(now) && Valid(Last(s))
    requires Mktime(now) < Mktime(Last(s))
    ensures !IsExpired(s, now) && NextMonth(s, now) != 0
  {
    ExpiryGap(s, now);
  }

  /** Served within the second of its last moment, the timer is armed once more,
      for a moment that is not one of the schedule's. */
  lemma SpuriousMonth(s: DateTrigger)
    requires Sane(s) && s.months != 0 && !s.everyYear && Valid(Last(s))
    ensures !IsExpired(s, Last(s))
    ensures var u := Target(s, Last(s)); !(u.year == s.year && Listed(s.months, u.month))
  {
    LastIsLast(s);
    ExpiryGap(s, Last(s));
  }

  // ---- the moment that is scheduled ----

  function ShortestMonth(m: nat): nat {
    if m == 2 then 28 else DaysInMonth(1970, m)
  }

  /** The day exists in every listed month of every year. */
  predicate DayExists(s: DateTrigger) {
    forall m :: 1 <= m <= 12 && Listed(s.months, m) ==> s.day <= ShortestMonth(m)
  }

  /** On a day that every listed month has. */
  predicate Dated(s: DateTrigger) {
    Sane(s) && s.months != 0 && DayExists(s) && (s.everyYear || s.year >= 1970)
  }

  /** One of the schedule's moments. The year of one that repeats is its first; it may
      be 0. */
  predicate IsMoment(s: DateTrigger, u: Moment) {
    && u.day == s.day && u.second == s.second && Listed(s.months, u.month) && u.year >= 1970
    && (if s.everyYear then u.year >= s.year else u.year == s.year)
  }

  lemma MomentsValid(s: DateTrigger, u: Moment)
    requires Sane(s) && DayExists(s) && IsMoment(s, u)
    ensures Valid(u)
  {
  }

  /** The scheduled moment is the first of the schedule's moments after now. */
  lemma TargetIsNext(s: DateTrigger, now: Moment)
    requires Sane(s) && s.months != 0 && DayExists(s) && Valid(now)
    requires s.everyYear || (s.year >= now.year && NextMonth(s, now) != 0)
    ensures var u := Target(s, now);
      && IsMoment(s, u) && Valid(u) && Mktime(u) > Mktime(now)
      && forall v :: IsMoment(s, v) && Mktime(v) > Mktime(now) ==> Mktime(v) >= Mktime(u)
  {
    var u := Target(s, now);
    TargetFacts(s, now);
    MomentsValid(s, u);
    MktimeMonotone(now, u);
    forall v | IsMoment(s, v) && Mktime(v) > Mktime(now) ensures Mktime(v) >= Mktime(u) {
      MomentsValid(s, v);
      MktimeMonotone(now, v);
      MktimeMonotone(v, u);
      NoneBetween(s, now, v);
    }
  }

  /** A schedule without a list of months, whose year has come, is armed for the first
      time after now that its day comes, if the month aimed at has that day. */
  lemma OnceIsNext(s: DateTrigger, now: Moment)
    requires Sane(s) && s.months == 0 && s.year <= now.year && Valid(now) && Valid(Target(s, now))
    ensures var u := Target(s, now);
      && u.day == s.day && u.second == s.second && Mktime(u) > Mktime(now)
      && forall v :: Valid(v) && v.day == s.day && v.second == s.second && Mktime(v) > Mktime(now) ==>
        Mktime(v) >= Mktime(u)
  {
    var u := Target(s, now);
    MktimeMonotone(now, u);
    forall v | Valid(v) && v.day == s.day && v.second == s.second && Mktime(v) > Mktime(now)
      ensures Mktime(v) >= Mktime(u)
    {
      MktimeMonotone(now, v);
      MktimeMonotone(v, u);
    }
  }

  lemma TargetFacts(s: DateTrigger, now: Moment)
    requires Sane(s) && s.months != 0 && Valid(now)
    requires s.everyYear || (s.year >= now.year && NextMonth(s, now) != 0)
    ensures IsMoment(s, Target(s, now)) && Before(now, Target(s, now))
  {
    var m := NextMonth(s, now);
    if s.year > now.year {
      FfsIsLeast(s.months);
      OnlyMonths(s, m - 1);
      assert (m - 1) / 12 == 0 && (m - 1) % 12 == m - 1;
    } else if s.everyYear {
      NextMonthIsLeast(s, now);
    } else {
      NextMonthThisYear(s, now);
    }
  }

  /** Which month of which year the month counted m is. */
  lemma CountedMonth(m: nat)
    requires m >= 1
    ensures 12 * ((m - 1) / 12) + (m - 1) % 12 + 1 == m && (m - 1) % 12 < 12
  {
  }

  /** Of two moments on the same day and second, the one in the earlier month is first. */
  lemma EarlierMonth(a: Moment, b: Moment)
    requires a.day == b.day && a.second == b.second && 1 <= a.month <= 12 && 1 <= b.month <= 12
    requires 12 * a.year + a.month <= 12 * b.year + b.month
    ensures !Before(b, a)
  {
  }

  lemma MonthOfYear(s: DateTrigger, now: Moment, v: Moment)
    requires Sane(s) && Valid(now) && Valid(v) && Before(now, v) && IsMoment(s, v)
    ensures MonthDue(s, now, 12 * (v.year - now.year) + v.month)
  {
    ModTwelve(v.year - now.year, v.month - 1);
  }

  lemma ModTwelve(q: nat, r: nat)
    requires r < 12
    ensures (12 * q + r) % 12 == r
  {
  }

  lemma NoneBetween(s: DateTrigger, now: Moment, v: Moment)
    requires Sane(s) && s.months != 0 && Valid(now) && Valid(v)
    requires s.everyYear || (s.year >= now.year && NextMonth(s, now) != 0)
    requires IsMoment(s, v) && Before(now, v)
    ensures !Before(v, Target(s, now))
  {
    var m := NextMonth(s, now);
    if s.year > now.year {
      FfsIsLeast(s.months);
      OnlyMonths(s, m - 1);
      assert m <= v.month;
    } else {
      MonthOfYear(s, now, v);
      if s.everyYear {
        NextMonthIsLeast(s, now);
      } else {
        NextMonthThisYear(s, now);
      }
      assert m <= 12 * (v.year - now.year) + v.month;
    }
    CountedMonth(m);
    EarlierMonth(Target(s, now), v);
  }
}
