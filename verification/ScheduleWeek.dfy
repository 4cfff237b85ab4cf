/** The weekly half of the calendar arithmetic of esp_schedule.c. */
module ScheduleWeek {
  import opened BitSets

  const DAY := 86400      // SECONDS_IN_DAY
  const WEEK := 7 * DAY

  // ---- instants: seconds of local time since the epoch, at a fixed UTC offset ----

  function DayOf(t: nat): nat { t / DAY }

  function SecondOf(t: nat): nat { t % DAY }

  /** tm_wday, with Sunday as 0; the epoch was a Thursday. */
  function TmWday(t: nat): nat { (DayOf(t) + 4) % 7 }

  /** The engine's own numbering, with Monday as 0. */
  function Weekday(t: nat): nat { (TmWday(t) + 7 - 1) % 7 }

  function Instant(day: nat, second: nat): nat { DAY * day + second }

  lemma InstantFacts(day: nat, second: nat)
    requires second < DAY
    ensures DayOf(Instant(day, second)) == day && SecondOf(Instant(day, second)) == second
  {
  }

  lemma InstantOf(t: nat)
    ensures t == Instant(DayOf(t), SecondOf(t)) && SecondOf(t) < DAY
  {
  }

  // ---- esp_schedule_get_no_of_days ----

  /** Days until the schedule goes off next: `ahead` says that today's time of
      day is still to come, `days` has Monday at its lowest position. */
  function NoOfDays(days: nat, today: nat, ahead: bool): int {
    var todayBit := Shl(1, today);
    if days == 0 then if ahead then 0 else 1
    else if And(days, todayBit) != 0 && ahead then 0
    else if And(days, Xor(todayBit, 0xFF)) > todayBit then
      Ffs(And(days, Shl(0xFF, today + 1))) - 1 - today
    else
      var nextDay := Ffs(days) - 1;
      if nextDay == today then 7 else 7 - today + nextDay
  }

  /** The weekday d days after `today`. */
  function DayAfter(today: nat, d: nat): nat {
    (today + d) % 7
  }

  lemma DayAfterFacts(today: nat, d: nat)
    requires today < 7
    ensures d < 7 - today ==> DayAfter(today, d) == today + d
    ensures 7 - today <= d < 14 - today ==> DayAfter(today, d) == today + d - 7
  {
  }

  /** The schedule may go off d days from today. */
  predicate Due(days: nat, today: nat, ahead: bool, d: nat) {
    Bit(days, DayAfter(today, d)) && (d > 0 || ahead)
  }

  /** d is the first such day. */
  ghost predicate FirstDue(days: nat, today: nat, ahead: bool, d: int) {
    d >= 0 && Due(days, today, ahead, d) && forall e :: 0 <= e < d ==> !Due(days, today, ahead, e)
  }

  lemma OnlyWeekdays(days: nat, k: nat)
    requires days < 128 && k >= 7
    ensures !Bit(days, k)
  {
    assert Shl(1, 3) == 8;
    assert Shl(1, 7) == 128;
    BelowPower(days, 7);
  }

  /** The value of the function, without the bit arithmetic. */
  lemma NoOfDaysCases(days: nat, today: nat, ahead: bool) returns (next: nat)
    requires today < 7 && 0 < days < 128
    ensures Bit(days, next)
    ensures var d := NoOfDays(days, today, ahead);
      if Bit(days, today) && ahead then d == 0 && next == today
      else if exists k: nat :: k > today && Bit(days, k) then
        d == next - today > 0 && forall k: nat :: today < k < next ==> !Bit(days, k)
      else
        d == 7 - today + next && forall k: nat :: k < next ==> !Bit(days, k)
  {
    assert Shl(1, 3) == 8;
    assert Shl(1, 6) == 64;
    assert Shl(1, 8) == 256;
    forall k: nat ensures Bit(0xFF, k) <==> k < 8 {
      ByteBit(k);
    }
    TestBit(days, today);
    LaterTest(days, today, 0xFF, 8);
    FfsIsLeast(days);
    if exists k: nat :: k > today && Bit(days, k) {
      var k: nat :| k > today && Bit(days, k);
      assert k >= today + 1;
      FirstFrom(days, today + 1, 0xFF, 8);
    }
    next := if And(days, Shl(1, today)) != 0 && ahead then today
            else if And(days, Xor(Shl(1, today), 0xFF)) > Shl(1, today) then Ffs(And(days, Shl(0xFF, today + 1))) - 1
            else Ffs(days) - 1;
  }

  /** The bit arithmetic finds the first day, today included only while its time
      is ahead, that a search day by day would find. */
  lemma NoOfDaysIsLeast(days: nat, today: nat, ahead: bool)
    requires today < 7 && 0 < days < 128
    ensures FirstDue(days, today, ahead, NoOfDays(days, today, ahead))
    ensures NoOfDays(days, today, ahead) <= 7
  {
    var next := NoOfDaysCases(days, today, ahead);
    forall k: nat | k >= 7 ensures !Bit(days, k) {
      OnlyWeekdays(days, k);
    }
    if Bit(days, today) && ahead {
      DayAfterFacts(today, 0);
    } else if exists k: nat :: k > today && Bit(days, k) {
      LaterThisWeek(days, today, ahead, next);
    } else {
      NextWeek(days, today, ahead, next);
    }
  }

  lemma LaterThisWeek(days: nat, today: nat, ahead: bool, next: nat)
    requires today < next < 7 && Bit(days, next) && !(Bit(days, today) && ahead)
    requires forall k: nat :: today < k < next ==> !Bit(days, k)
    ensures FirstDue(days, today, ahead, next - today)
  {
    forall e | 0 <= e <= next - today ensures DayAfter(today, e) == today + e {
      DayAfterFacts(today, e);
    }
  }

  lemma NextWeek(days: nat, today: nat, ahead: bool, next: nat)
    requires today < 7 && next <= today && Bit(days, next) && !(Bit(days, today) && ahead)
    requires forall k: nat :: k < next || today < k ==> !Bit(days, k)
    ensures FirstDue(days, today, ahead, 7 - today + next)
  {
    forall e | 0 <= e <= 7 - today + next
      ensures DayAfter(today, e) == if e < 7 - today then today + e else today + e - 7
    {
      DayAfterFacts(today, e);
    }
  }

  // ---- the next instant ----

  /** A weekly schedule for `second` of the day goes off at u; without any day it
      goes off at that time of whichever day comes first. */
  ghost predicate Occurs(days: nat, second: nat, u: nat) {
    SecondOf(u) == second && (days == 0 || Bit(days, Weekday(u)))
  }

  /** The same in numbers: day 4 of the epoch, 5 January 1970, was a Monday, and Monday is
      the lowest bit of the mask. */
  predicate GoesOff(days: nat, second: nat, u: nat) {
    u % 86400 == second && (days == 0 || days / [1, 2, 4, 8, 16, 32, 64][(u / 86400 + 3) % 7] % 2 == 1)
  }

  lemma {:induction false} BitAt(x: nat, k: nat)
    requires k < 7
    ensures Bit(x, k) <==> x / [1, 2, 4, 8, 16, 32, 64][k] % 2 == 1
  {
    if k > 0 {
      BitAt(x / 2, k - 1);
      Halved(x);
    }
  }

  lemma Halved(x: nat)
    ensures x / 2 / 2 == x / 4 && x / 2 / 4 == x / 8 && x / 2 / 8 == x / 16
    ensures x / 2 / 16 == x / 32 && x / 2 / 32 == x / 64
  {
  }

  lemma OccursIs(days: nat, second: nat, u: nat)
    ensures Occurs(days, second, u) <==> GoesOff(days, second, u)
  {
    ModSum(u / DAY + 4, 6);
    ModSum(u / DAY + 3, 7);
    assert Weekday(u) == (u / 86400 + 3) % 7;
    BitAt(days, (u / 86400 + 3) % 7);
  }

  /** A schedule for one day of the week goes off on that day. */
  lemma OnItsDay(k: nat, second: nat, u: nat)
    requires k < 7
    ensures GoesOff(Shl(1, k), second, u) <==> u % 86400 == second && (u / 86400) % 7 == (4 + k) % 7
  {
    OnlyBit(k, (u / 86400 + 3) % 7);
    DayShift(u / 86400, k);
  }

  lemma OnlyBit(k: nat, j: nat)
    requires k < 7 && j < 7
    ensures Shl(1, k) != 0 && (Shl(1, k) / [1, 2, 4, 8, 16, 32, 64][j] % 2 == 1 <==> j == k)
  {
    BitAt(Shl(1, k), j);
    SingleBit(k, j);
    SingleBit(k, k);
    ZeroBit(k);
  }

  lemma DayShift(d: nat, k: nat)
    requires k < 7
    ensures (d + 3) % 7 == k <==> d % 7 == (4 + k) % 7
  {
    ModSum(d, 3);
  }

  /** The time difference of esp_schedule_get_next_schedule_time_diff. */
  function TimeDiff(days: nat, second: nat, now: nat): int {
    second + DAY * NoOfDays(days, Weekday(now), second > SecondOf(now)) - SecondOf(now)
  }

  function Next(days: nat, second: nat, now: nat): int {
    now + TimeDiff(days, second, now)
  }

  /** u is the first occurrence strictly after t. */
  ghost predicate IsNext(days: nat, second: nat, t: nat, u: int) {
    u > t && Occurs(days, second, u) && forall v :: t < v < u ==> !Occurs(days, second, v)
  }

  lemma ModSeven(n: nat, q: nat, r: nat)
    requires n == 7 * q + r && r < 7
    ensures n % 7 == r
  {
  }

  lemma ModSum(x: nat, c: nat)
    ensures (x % 7 + c) % 7 == (x + c) % 7
  {
    var y := x % 7 + c;
    ModSeven(x + c, x / 7 + y / 7, y % 7);
  }

  lemma WeekdayShift(day: nat, e: nat)
    ensures ((day + e + 4) % 7 + 6) % 7 == (((day + 4) % 7 + 6) % 7 + e) % 7
  {
    ModSum(day + e + 4, 6);
    ModSum(day + 4, 6);
    ModSum(day + 4 + 6, e);
  }

  lemma WeekdayLater(t: nat, e: nat, second: nat)
    requires second < DAY
    ensures Weekday(Instant(DayOf(t) + e, second)) == DayAfter(Weekday(t), e)
  {
    InstantFacts(DayOf(t) + e, second);
    WeekdayShift(DayOf(t), e);
  }

  /** Skipping the days before d skips no occurrence. */
  lemma NothingBefore(days: nat, second: nat, now: nat, ahead: bool, d: nat)
    requires second < DAY && ahead == (second > SecondOf(now))
    requires days != 0 ==> forall e :: 0 <= e < d ==> !Due(days, Weekday(now), ahead, e)
    requires days == 0 ==> d <= 1 && (d == 1 ==> !ahead)
    ensures forall v :: now < v < Instant(DayOf(now) + d, second) ==> !Occurs(days, second, v)
  {
    forall v | now < v < Instant(DayOf(now) + d, second) && SecondOf(v) == second
      ensures !Occurs(days, second, v)
    {
      InstantOf(v);
      DayOrder(now, v, d, second);
      var e := DayOf(v) - DayOf(now);
      WeekdayLater(now, e, second);
      assert days != 0 ==> !Due(days, Weekday(now), ahead, e);
    }
  }

  lemma DayOrder(now: nat, v: nat, d: nat, second: nat)
    requires now < v < Instant(DayOf(now) + d, second) && SecondOf(v) == second
    ensures 0 <= DayOf(v) - DayOf(now) < d && (DayOf(v) == DayOf(now) ==> second > SecondOf(now))
  {
    InstantOf(now);
    InstantOf(v);
  }

  lemma OccursOn(days: nat, second: nat, now: nat, ahead: bool, d: nat)
    requires second < DAY && ahead == (second > SecondOf(now)) && d <= 7
    requires days != 0 ==> FirstDue(days, Weekday(now), ahead, d)
    requires days == 0 ==> d == if ahead then 0 else 1
    ensures IsNext(days, second, now, Instant(DayOf(now) + d, second))
  {
    InstantFacts(DayOf(now) + d, second);
    WeekdayLater(now, d, second);
    NothingBefore(days, second, now, ahead, d);
    IsAhead(now, d, second, ahead);
    assert days != 0 ==> Due(days, Weekday(now), ahead, d);
  }

  lemma IsAhead(now: nat, d: nat, second: nat, ahead: bool)
    requires second < DAY && ahead == (second > SecondOf(now)) && (d == 0 ==> ahead)
    ensures Instant(DayOf(now) + d, second) > now
  {
    InstantOf(now);
  }

  lemma WithinAWeek(days: nat, second: nat, now: nat, ahead: bool, d: nat)
    requires second < DAY && ahead == (second > SecondOf(now)) && d <= 7
    requires days != 0 ==> FirstDue(days, Weekday(now), ahead, d)
    requires days == 0 ==> d == if ahead then 0 else 1
    ensures Instant(DayOf(now) + d, second) - now <= WEEK
  {
    InstantOf(now);
    if d == 7 {
      DayAfterFacts(Weekday(now), 0);
      DayAfterFacts(Weekday(now), 7);
      assert !Due(days, Weekday(now), ahead, 0);
    }
  }

  /** The engine arms its timer for the first occurrence strictly after now, at
      most a week ahead; in milliseconds that fits 32 bits. */
  lemma NextIsNext(days: nat, second: nat, now: nat)
    requires days < 128 && second < DAY
    ensures IsNext(days, second, now, Next(days, second, now))
    ensures 0 < TimeDiff(days, second, now) <= WEEK
    ensures TimeDiff(days, second, now) * 1000 < 0x1_0000_0000
  {
    var ahead := second > SecondOf(now);
    var d := NoOfDays(days, Weekday(now), ahead);
    if days != 0 {
      NoOfDaysIsLeast(days, Weekday(now), ahead);
    }
    OccursOn(days, second, now, ahead, d);
    WithinAWeek(days, second, now, ahead, d);
    InstantOf(now);
  }
}
