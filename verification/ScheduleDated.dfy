/** Schedules on a day of certain months, of one year or of every year, run by the
    re-arming timer of esp_schedule.c, whose period is an unsigned number of 32 bits. */
module ScheduleDated {
  import opened Common
  import opened BitSets
  import opened Recurrence
  import opened ScheduleDate
  import opened ScheduleTrigger

  const WIDTH := 0x1_0000_0000

  /** The longest time, in seconds, whose milliseconds fit 32 bits. */
  const FARTHEST := 4294967

  // ---- the date of an instant ----

  /** The last year, from y on, that has begun d days after the start of 1970. */
  function YearFrom(d: nat, y: nat): (r: nat)
    requires y >= 1970 && DaysBeforeYear(y) <= d
    ensures r >= y && DaysBeforeYear(r) <= d < DaysBeforeYear(r) + DaysBeforeMonth(r, 13)
    decreases d - DaysBeforeYear(y)
  {
    MonthsGrow(y, 1, 13);
    if d < DaysBeforeYear(y) + DaysBeforeMonth(y, 13) then y else YearFrom(d, y + 1)
  }

  function MonthFrom(y: nat, d: nat, m: nat): (r: nat)
    requires 1 <= m <= 12 && DaysBeforeMonth(y, m) <= d < DaysBeforeMonth(y, 13)
    ensures m <= r <= 12 && DaysBeforeMonth(y, r) <= d < DaysBeforeMonth(y, r) + DaysInMonth(y, r)
    decreases 12 - m
  {
    if d < DaysBeforeMonth(y, m) + DaysInMonth(y, m) then m else MonthFrom(y, d, m + 1)
  }

  /** localtime_r, at a fixed UTC offset */
  function LocalTime(t: nat): Moment {
    var day := t / 86400;
    var y := YearFrom(day, 1970);
    var m := MonthFrom(y, day - DaysBeforeYear(y), 1);
    Moment(y, m, day - DaysBeforeYear(y) - DaysBeforeMonth(y, m) + 1, t % 86400)
  }

  /** It is the date that exists and that mktime turns back into the instant. */
  lemma LocalTimeIs(t: nat)
    ensures Valid(LocalTime(t)) && Mktime(LocalTime(t)) == t
  {
  }

  lemma LocalTimeOf(u: Moment)
    requires Valid(u)
    ensures Mktime(u) >= 0 && LocalTime(Mktime(u)) == u
  {
    LocalTimeIs(Mktime(u));
    MktimeMonotone(LocalTime(Mktime(u)), u);
  }

  // ---- the rule and the search ----

  predicate Yearly(s: DateTrigger) {
    Dated(s) && s.everyYear
  }

  /** When a schedule that does not repeat every year is to trigger for the last time. */
  function End(s: DateTrigger): int {
    Mktime(Last(s))
  }

  lemma EndIsLast(s: DateTrigger)
    requires Dated(s) && !s.everyYear
    ensures Valid(Last(s)) && IsMoment(s, Last(s))
    ensures forall v :: IsMoment(s, v) ==> Valid(v) && Mktime(v) <= End(s)
  {
    LastIsLast(s);
    MomentsValid(s, Last(s));
    forall v | IsMoment(s, v) ensures Valid(v) && Mktime(v) <= End(s) {
      MomentsValid(s, v);
      MktimeMonotone(Last(s), v);
    }
  }

  /** There is nothing more to come. */
  predicate Over(s: DateTrigger, t: int) {
    !s.everyYear && t > End(s)
  }

  /** The schedule's moments; once they are over, every instant counts as one, so that
      there always is a next one. */
  ghost predicate Occurs(s: DateTrigger, u: nat) {
    IsMoment(s, LocalTime(u)) || Over(s, u)
  }

  ghost function Rule(s: DateTrigger): nat -> bool {
    (u: nat) => Occurs(s, u)
  }

  /** The instant that esp_schedule_get_next_schedule_time_diff aims at. */
  function NextDate(s: DateTrigger, t: nat): int {
    LocalTimeIs(t);
    Mktime(Target(s, LocalTime(t)))
  }

  /** Some moment is still to come. */
  predicate Ongoing(s: DateTrigger, t: nat) {
    s.everyYear || t < End(s)
  }

  function NextOr(s: DateTrigger, t: nat): nat {
    if Ongoing(s, t) && NextDate(s, t) > t then NextDate(s, t) else t + 1
  }

  ghost function Search(s: DateTrigger): nat -> nat {
    (t: nat) => NextOr(s, t)
  }

  lemma OngoingTarget(s: DateTrigger, t: nat)
    requires Dated(s) && Ongoing(s, t)
    ensures var now := LocalTime(t); s.everyYear || (s.year >= now.year && NextMonth(s, now) != 0)
  {
    LocalTimeIs(t);
    if !s.everyYear {
      EndIsLast(s);
      MktimeMonotone(LocalTime(t), Last(s));
      StillToCome(s, LocalTime(t));
    }
  }

  lemma NextDateIsNext(s: DateTrigger, t: nat)
    requires Dated(s)
    ensures FirstAfter(Rule(s), t, NextOr(s, t))
    ensures Ongoing(s, t) ==> NextOr(s, t) == NextDate(s, t) && (!s.everyYear ==> NextOr(s, t) <= End(s))
  {
    var now := LocalTime(t);
    LocalTimeIs(t);
    if Ongoing(s, t) {
      OngoingTarget(s, t);
      TargetIsNext(s, now);
      var u := Target(s, now);
      LocalTimeOf(u);
      if !s.everyYear {
        EndIsLast(s);
      }
      forall v | t < v < Mktime(u) ensures !Rule(s)(v) {
        LocalTimeIs(v);
      }
    } else {
      assert Rule(s)(t + 1);
    }
  }

  lemma SearchFinds(s: DateTrigger)
    requires Dated(s)
    ensures Finds(Rule(s), Search(s))
  {
    forall t ensures FirstAfter(Rule(s), t, Search(s)(t)) {
      NextDateIsNext(s, t);
    }
  }

  /** Until the end, what counts are the schedule's moments. */
  lemma RuleIs(s: DateTrigger, u: nat)
    requires s.everyYear || u <= End(s)
    ensures Rule(s)(u) <==> IsMoment(s, LocalTime(u))
  {
  }

  /** Even when there is nothing more to come, the search aims at a later instant. */
  lemma NextDateLater(s: DateTrigger, t: nat)
    requires Dated(s)
    ensures NextDate(s, t) > t
  {
    var now := LocalTime(t);
    LocalTimeIs(t);
    var m := NextMonth(s, now);
    if s.everyYear || (s.year >= now.year && m != 0) {
      TargetIsNext(s, now);
    } else {
      if s.year > now.year {
        FfsIsLeast(s.months);
      }
      NextMonthThisYear(s, now);
      if m == 0 {
        MonthGap(s, now.year, now.month);
        assert Target(s, now) == NextAt(s, now.year, now.month);
      } else {
        assert Target(s, now) == At(s, now.year, m);
        if m > now.month {
          MonthsGrow(now.year, now.month, m);
        }
      }
    }
  }

  // ---- the period of the timer ----

  /** What esp_schedule_start_timer makes of a number of seconds: a number of ticks
      of so many milliseconds. */
  function Period(diff: nat, tick: nat): nat
    requires tick > 0
  {
    diff * 1000 % WIDTH / tick
  }

  /** The period is right exactly when the milliseconds fit; otherwise it is too short. */
  lemma PeriodIsRight(diff: nat, tick: nat)
    requires tick > 0 && 1000 % tick == 0
    ensures Period(diff, tick) * tick == diff * 1000 <==> diff <= FARTHEST
    ensures diff > FARTHEST ==> Period(diff, tick) * tick < diff * 1000
    ensures Period(diff, tick) * tick <= diff * 1000 % 4294967296 < Period(diff, tick) * tick + tick
  {
    var ms := diff * 1000;
    Rounded(ms % WIDTH, tick);
    var k := 1000 / tick;
    assert 1000 == k * tick;
    assert ms == diff * k * tick;
    if diff <= FARTHEST {
      assert ms % WIDTH == ms;
      Exact(diff * k, tick);
    } else {
      assert ms % WIDTH < ms;
    }
  }

  lemma Exact(n: nat, tick: nat)
    requires tick > 0
    ensures n * tick / tick * tick == n * tick
  {
    Quotient(n * tick, tick, n);
  }

  lemma Quotient(x: nat, tick: nat, n: nat)
    requires tick > 0 && x == n * tick
    ensures x / tick == n
  {
    var q, r := x / tick, x % tick;
    assert q * tick + r == x;
    assert (n - q) * tick == r;
    if n - q >= 1 {
      AtLeast(n - q, tick);
    } else if q - n >= 1 {
      AtLeast(q - n, tick);
    }
  }

  lemma AtLeast(a: nat, b: nat)
    requires a >= 1
    ensures a * b >= b
  {
    assert a * b == (a - 1) * b + b;
  }

  lemma Rounded(x: nat, tick: nat)
    requires tick > 0
    ensures x / tick * tick <= x < x / tick * tick + tick
  {
  }

  /** When the timer is due that is started for the next moment. */
  function Due(now: nat, next: nat, tick: nat): nat
    requires now < next && tick > 0
  {
    1000 * now + Period(next - now, tick) * tick
  }

  lemma DueIsRight(now: nat, next: nat, tick: nat)
    requires now < next && tick > 0 && 1000 % tick == 0
    ensures 1000 * now <= Due(now, next, tick) <= 1000 * next
    ensures Due(now, next, tick) == 1000 * next <==> next - now <= FARTHEST
  {
    PeriodIsRight(next - now, tick);
  }

  // ---- which schedules never outrun the timer ----

  /** From every instant of its years, the next moment is within reach of the timer. */
  ghost predicate AlwaysInReach(s: DateTrigger) {
    forall now :: Valid(now) && now.year >= s.year && 1 <= now.month ==> InReach(s, now)
  }

  predicate InReach(s: DateTrigger, now: Moment)
    requires 1 <= now.month <= 12
  {
    Mktime(Target(s, now)) - Mktime(now) <= FARTHEST
  }

  predicate ListsAll(months: nat) {
    forall m :: 1 <= m <= 12 ==> Listed(months, m)
  }

  function MonthAfter(m: nat): nat {
    m % 12 + 1
  }

  function YearAfter(y: nat, m: nat): nat {
    if m == 12 then y + 1 else y
  }

  /** The scheduled moment a month later. */
  function NextAt(s: DateTrigger, y: nat, m: nat): Moment {
    At(s, YearAfter(y, m), MonthAfter(m))
  }

  lemma MonthGap(s: DateTrigger, y: nat, m: nat)
    requires y >= 1970 && 1 <= m <= 12
    ensures Mktime(NextAt(s, y, m)) - Mktime(At(s, y, m)) == DaysInMonth(y, m) * 86400
  {
    assert DaysBeforeMonth(y, m + 1) == DaysBeforeMonth(y, m) + DaysInMonth(y, m);
    assert DaysBeforeYear(y + 1) == DaysBeforeYear(y) + DaysBeforeMonth(y, 13);
  }

  /** With every month listed, the next moment is this month's or the next one's. */
  lemma AllInReach(s: DateTrigger, now: Moment)
    requires Yearly(s) && ListsAll(s.months) && Valid(now) && now.year >= s.year
    ensures InReach(s, now)
  {
    var v, w := At(s, now.year, now.month), NextAt(s, now.year, now.month);
    MonthGap(s, now.year, now.month);
    assert IsMoment(s, v) && IsMoment(s, w);
    TargetIsNext(s, now);
    if Mktime(v) > Mktime(now) {
      assert Mktime(Target(s, now)) <= Mktime(v);
    } else {
      assert Mktime(Target(s, now)) <= Mktime(w);
    }
  }

  /** A month that is listed and followed by one that is not. */
  lemma GapAfter(months: nat, l: nat, m: nat) returns (p: nat)
    requires Listed(months, l) && 1 <= m <= 12 && !Listed(months, m)
    ensures Listed(months, p) && !Listed(months, MonthAfter(p))
    decreases (m + 12 - l) % 12
  {
    if Listed(months, MonthAfter(l)) {
      p := GapAfter(months, MonthAfter(l), m);
    } else {
      p := l;
    }
  }

  lemma TwoMonths(y: nat, m: nat)
    requires 1 <= m <= 12
    ensures DaysInMonth(y, m) + DaysInMonth(YearAfter(y, m), MonthAfter(m)) >= 59
  {
  }

  /** At a moment whose next month is not listed, the one after it is out of reach. */
  lemma OutOfReach(s: DateTrigger, y: nat, p: nat)
    requires Yearly(s) && Listed(s.months, p) && !Listed(s.months, MonthAfter(p)) && y >= s.year && y >= 1970
    ensures Valid(At(s, y, p)) && !InReach(s, At(s, y, p))
  {
    var now, v := At(s, y, p), NextAt(s, y, p);
    var w := NextAt(s, v.year, v.month);
    MomentsValid(s, now);
    TargetIsNext(s, now);
    var u := Target(s, now);
    MktimeMonotone(now, u);
    SkipsMonth(y, p, u.year, u.month);
    TwoMonthsOn(s, y, p);
    NotBefore(s, u, w);
  }

  /** A later month that is not the next one is the one after that, or later. */
  lemma SkipsMonth(y: nat, m: nat, z: nat, n: nat)
    requires 1 <= m <= 12 && 1 <= n <= 12 && n != MonthAfter(m) && (y < z || (y == z && m < n))
    ensures var y1, m1 := YearAfter(y, m), MonthAfter(m);
      var y2, m2 := YearAfter(y1, m1), MonthAfter(m1);
      y2 < z || (y2 == z && m2 <= n)
  {
  }

  lemma TwoMonthsOn(s: DateTrigger, y: nat, p: nat)
    requires y >= 1970 && 1 <= p <= 12
    ensures var v := NextAt(s, y, p);
      Mktime(NextAt(s, v.year, v.month)) - Mktime(At(s, y, p)) > FARTHEST
  {
    var v := NextAt(s, y, p);
    MonthGap(s, y, p);
    MonthGap(s, v.year, v.month);
    TwoMonths(y, p);
  }

  lemma {:induction false} YearDays(y: nat)
    requires y >= 1970
    ensures DaysBeforeYear(y) >= 365 * (y - 1970)
  {
    if y > 1970 {
      YearDays(y - 1);
      assert DaysBeforeMonth(y - 1, 13) >= 365 by {
        MonthsOfYear(y - 1);
      }
    }
  }

  lemma MonthsOfYear(y: nat)
    ensures DaysBeforeMonth(y, 13) >= 365
  {
    assert DaysBeforeMonth(y, 3) >= 59;
    assert DaysBeforeMonth(y, 5) >= 120;
    assert DaysBeforeMonth(y, 7) >= 181;
    assert DaysBeforeMonth(y, 9) >= 243;
    assert DaysBeforeMonth(y, 11) >= 304;
  }

  /** So every yearly schedule that leaves out a month has an instant from which its
      timer is started for a moment that is out of reach. */
  lemma SomewhereOutOfReach(s: DateTrigger) returns (start: nat)
    requires Yearly(s) && !ListsAll(s.months)
    ensures start >= TILL_2020 && NextOr(s, start) - start > FARTHEST
  {
    var m :| 1 <= m <= 12 && !Listed(s.months, m);
    FfsIsLeast(s.months);
    OnlyMonths(s, Ffs(s.months) - 1);
    var p := GapAfter(s.months, Ffs(s.months), m);
    var y := Max(s.year, 2020);
    OutOfReach(s, y, p);
    LocalTimeOf(At(s, y, p));
    start := Mktime(At(s, y, p));
    YearDays(y);
    NextDateIsNext(s, start);
  }

  /** Mktime keeps the order of months on a given day of theirs, even if the day does
      not exist in one of them. */
  lemma NotBefore(s: DateTrigger, u: Moment, w: Moment)
    requires u == At(s, u.year, u.month) && w == At(s, w.year, w.month)
    requires 1970 <= u.year && 1970 <= w.year && 1 <= u.month <= 12 && 1 <= w.month <= 12
    requires w.year < u.year || (w.year == u.year && w.month <= u.month)
    ensures Mktime(w) <= Mktime(u)
  {
    if w.year < u.year {
      YearsGrow(w.year, u.year);
      MonthsGrow(w.year, w.month, 13);
    } else if w.month < u.month {
      MonthsGrow(w.year, w.month, u.month);
    }
  }

  /** The timer can reach the next moment from everywhere if and only if all months
      are listed. */
  lemma ReachIsEveryMonth(s: DateTrigger)
    requires Yearly(s)
    ensures AlwaysInReach(s) <==> ListsAll(s.months)
  {
    if ListsAll(s.months) {
      forall now | Valid(now) && now.year >= s.year && 1 <= now.month ensures InReach(s, now) {
        AllInReach(s, now);
      }
    } else {
      var m :| 1 <= m <= 12 && !Listed(s.months, m);
      FfsIsLeast(s.months);
      var l := Ffs(s.months);
      OnlyMonths(s, l - 1);
      var p := GapAfter(s.months, l, m);
      OutOfReach(s, Max(s.year, 1970), p);
    }
  }

  // ---- the schedule ----

  lemma ServedAfter(s: DateTrigger, start: nat, served: seq<nat>, n: nat)
    requires Dated(s) && n < |served| && Possible(Search(s), start, served)
    ensures served[n] > start && served[n] >= Armed(Search(s), start, served, n)
  {
    SearchFinds(s);
    ServedLate(Rule(s), Search(s), start, served, n);
  }

  /** Whenever the timer is started, the next moment is within its reach. */
  ghost predicate Reaches(s: DateTrigger, start: nat, served: seq<nat>) {
    forall i {:trigger Armed(Search(s), start, served, i)} :: 0 <= i <= |served| ==>
      Armed(Search(s), start, served, i) - (if i == 0 then start else served[i - 1]) <= FARTHEST
  }

  /** As it always is when all months are listed, from the schedule's first year on. */
  lemma EveryMonthReaches(s: DateTrigger, start: nat, served: seq<nat>)
    requires Yearly(s) && ListsAll(s.months) && LocalTime(start).year >= s.year
    requires Possible(Search(s), start, served)
    ensures Reaches(s, start, served)
  {
    forall i {:trigger Armed(Search(s), start, served, i)} | 0 <= i <= |served|
      ensures Armed(Search(s), start, served, i) - (if i == 0 then start else served[i - 1]) <= FARTHEST
    {
      var t := if i == 0 then start else served[i - 1];
      if i > 0 {
        ServedAfter(s, start, served, i - 1);
      }
      LaterYear(start, t);
      AllInReach(s, LocalTime(t));
      NextDateIsNext(s, t);
    }
  }

  lemma LaterYear(t: nat, u: nat)
    requires t <= u
    ensures Valid(LocalTime(u)) && Mktime(LocalTime(u)) == u && LocalTime(t).year <= LocalTime(u).year
  {
    LocalTimeIs(t);
    LocalTimeIs(u);
    MktimeMonotone(LocalTime(u), LocalTime(t));
  }

  /** The triggers, in milliseconds, are these instants. */
  ghost predicate At1000(triggers: seq<nat>, instants: seq<nat>) {
    |triggers| == |instants| && forall i :: 0 <= i < |triggers| ==> triggers[i] == 1000 * instants[i]
  }

  class Schedule {
    const date: DateTrigger
    const tick: nat              // portTICK_PERIOD_MS
    var nextUtc: nat             // next_scheduled_time_utc
    var timer: Option<nat>       // when the one-shot timer is due, in milliseconds
    var triggers: seq<nat>       // the due times of the callbacks served so far

    constructor (date: DateTrigger, tick: nat)
      requires Dated(date) && tick > 0 && 1000 % tick == 0
      ensures Valid() && timer == None && triggers == [] && this.date == date && this.tick == tick
    {
      this.date, this.tick := date, tick;
      nextUtc, timer, triggers := 0, None, [];
    }

    ghost predicate Valid()
      reads this
    {
      Dated(date) && tick > 0 && 1000 % tick == 0
    }

    /** The timer has been started at this time for the instant that the search finds:
        it is due then if and only if that is within its reach, and otherwise before it. */
    ghost predicate Started(now: nat)
      reads this
    {
      && nextUtc == NextDate(date, now) > now && timer.Some? && 1000 * now <= timer.value <= 1000 * nextUtc
      && (timer.value == 1000 * nextUtc <==> nextUtc - now <= FARTHEST)
    }

    /** esp_schedule_start_timer. Before the clock has been set nothing happens. */
    method StartTimer(now: nat)
      requires Valid()
      modifies this`nextUtc, this`timer
      ensures Valid()
      ensures if now < 1576800000 then timer == old(timer) && nextUtc == old(nextUtc) else Started(now)
      ensures now >= TILL_2020 && Ongoing(date, now) ==> nextUtc == NextOr(date, now)
      ensures now >= TILL_2020 && !Ongoing(date, now) ==> !IsMoment(date, LocalTime(nextUtc))
    {
      if now < TILL_2020 {
        return;
      }
      var target := NextScheduled(now);
      DueIsRight(now, target, tick);
      nextUtc := target;
      timer := Some(1000 * now + Period(target - now, tick) * tick);
    }

    /** esp_schedule_get_next_schedule_time_diff, without the subtraction */
    method NextScheduled(now: nat) returns (target: nat)
      requires Valid()
      ensures target == NextDate(date, now) > now
      ensures Ongoing(date, now) ==> target == NextOr(date, now)
      ensures !Ongoing(date, now) ==> !IsMoment(date, LocalTime(target))
    {
      NextDateIsNext(date, now);
      NextDateLater(date, now);
      LocalTimeIs(now);
      target := Mktime(Target(date, LocalTime(now)));
      if !Ongoing(date, now) {
        EndIsLast(date);
        LocalTimeIs(target);
      }
    }

    /** esp_schedule_is_expired */
    method IsExpired(now: nat) returns (expired: bool)
      requires Valid()
      ensures expired == Over(date, now) == Expired(OnDate(date, nextUtc), now)
      ensures expired <==> Past(OnDate(date, nextUtc), now)
    {
      ExpiredIsPast(OnDate(date, nextUtc), now);
      return !date.everyYear && Mktime(Last(date)) < now;
    }

    /** esp_schedule_common_timer_cb: once its last moment is past, a schedule is not
        started again; within the very second of it, it is, for no moment of its own. */
    method TimerCallback(now: nat)
      requires Valid() && timer.Some? && 1000 * now + 999 >= timer.value && now >= TILL_2020
      modifies this
      ensures Valid() && triggers == old(triggers) + [old(timer).value]
      ensures if Over(date, now) then timer == None && nextUtc == old(nextUtc) else Started(now)
      ensures Ongoing(date, now) ==> nextUtc == NextOr(date, now)
      ensures !date.everyYear && now == End(date) ==> !IsMoment(date, LocalTime(nextUtc))
    {
      triggers := triggers + [timer.value];
      timer := None;
      var expired := IsExpired(now);
      if !expired {
        StartTimer(now);
      }
    }

    /** Enabled when the next moment is out of reach, it triggers when none has come. */
    method TriggerEarly(start: nat) returns (due: nat)
      requires Valid() && start >= TILL_2020 && NextOr(date, start) - start > FARTHEST
      modifies this
      ensures triggers == old(triggers) + [due] && 1000 * start <= due < 1000 * NextOr(date, start)
      ensures forall u :: start < u <= due / 1000 ==> !Rule(date)(u)
    {
      NextDateIsNext(date, start);
      StartTimer(start);
      due := timer.value;
      TimerCallback(due / 1000);
    }

    /** Enabled and then served a number of times, it triggers for each armed instant. */
    method ServeAll(start: nat, served: seq<nat>) returns (ghost instants: seq<nat>)
      requires Valid() && start >= TILL_2020 && triggers == [] && Ongoing(date, start)
      requires forall i :: 0 <= i < |served| ==> Ongoing(date, served[i])
      requires Possible(Search(date), start, served) && Reaches(date, start, served)
      modifies this
      ensures Valid() && InStep(start, served, |served|, instants)
    {
      instants := [];
      StartTimer(start);
      assert nextUtc == Armed(Search(date), start, served, 0);
      for n := 0 to |served|
        invariant Valid() && InStep(start, served, n, instants)
      {
        instants := Serve(served[n], start, served, n, instants);
      }
    }

    /** After n callbacks the triggers are the first n armed instants, and the timer is
        due at the next one. */
    ghost predicate InStep(start: nat, served: seq<nat>, n: nat, instants: seq<nat>)
      requires n <= |served|
      reads this
    {
      && |instants| == n && TriggeredFor(Search(date), start, served, instants) && At1000(triggers, instants)
      && nextUtc == Armed(Search(date), start, served, n) && timer == Some(1000 * nextUtc)
    }

    /** One callback. */
    method Serve(now: nat, ghost start: nat, ghost served: seq<nat>, ghost n: nat, ghost instants: seq<nat>)
      returns (ghost more: seq<nat>)
      requires Valid() && start >= TILL_2020 && n < |served| && now == served[n] && InStep(start, served, n, instants)
      requires Possible(Search(date), start, served) && Reaches(date, start, served) && Ongoing(date, now)
      modifies this
      ensures Valid() && InStep(start, served, n + 1, more)
    {
      ServedAfter(date, start, served, n);
      TriggeredStep(Search(date), start, served, instants);
      more := instants + [nextUtc];
      TimerCallback(now);
      assert nextUtc == Armed(Search(date), start, served, n + 1);
    }

    /** When every moment is within reach and served in time, a yearly schedule triggers
        for exactly the listed moments after the start, in order, each once. */
    method RunYearly(start: nat, served: seq<nat>) returns (ghost instants: seq<nat>)
      requires Valid() && date.everyYear && start >= TILL_2020 && triggers == []
      requires Possible(Search(date), start, served) && Prompt(Search(date), start, served)
      requires Reaches(date, start, served)
      modifies this
      ensures timer == Some(1000 * nextUtc) && At1000(triggers, instants) && |instants| == |served|
      ensures forall i, j :: 0 <= i < j < |instants| ==> instants[i] < instants[j]
      ensures forall u :: start < u < nextUtc ==> (IsMoment(date, LocalTime(u)) <==> u in instants)
    {
      instants := ServeAll(start, served);
      SearchFinds(date);
      ServedAreOccurrences(Rule(date), Search(date), start, served, instants);
      forall u: nat ensures Rule(date)(u) <==> IsMoment(date, LocalTime(u)) {
        RuleIs(date, u);
      }
    }

    /** A schedule that does not repeat triggers for exactly its moments after the start,
        in order, each once; after the last of them it is not started again. Served in
        time means: before the next moment, if there is one; and not within the second
        of the last moment. */
    method RunToEnd(start: nat, served: seq<nat>) returns (ghost instants: seq<nat>)
      requires Valid() && !date.everyYear && TILL_2020 <= start < End(date) && triggers == [] && served != []
      requires ServedToEnd(date, start, served) && Reaches(date, start, served)
      modifies this
      ensures At1000(triggers, instants) && |instants| == |served|
      ensures forall i, j :: 0 <= i < j < |instants| ==> instants[i] < instants[j]
      ensures var last := served[|served| - 1];
        if last > End(date) then
          timer == None && forall u: nat :: start < u ==> (IsMoment(date, LocalTime(u)) <==> u in instants)
        else
          && timer == Some(1000 * nextUtc)
          && forall u: nat :: start < u < nextUtc ==> (IsMoment(date, LocalTime(u)) <==> u in instants)
    {
      var n := |served| - 1;
      FrontOfRun(date, start, served);
      instants := ServeAll(start, served[..n]);
      ServedAfter(date, start, served, n);
      instants := ServeLast(served[n], start, served, instants);
      RunIsMoments(date, start, served, instants);
    }

    /** The last callback of such a run. */
    method ServeLast(now: nat, ghost start: nat, ghost served: seq<nat>, ghost instants: seq<nat>)
      returns (ghost all: seq<nat>)
      requires Valid() && !date.everyYear && served != [] && now == served[|served| - 1]
      requires now >= TILL_2020 && now != End(date)
      requires InStep(start, served[..|served| - 1], |served| - 1, instants) && now >= nextUtc
      requires Reaches(date, start, served)
      modifies this
      ensures At1000(triggers, all) && AreArmed(date, start, served, all)
      ensures if now > End(date) then timer == None else timer == Some(1000 * nextUtc) && nextUtc == NextOr(date, now)
    {
      all := instants + [nextUtc];
      AllArmed(date, start, served, instants, nextUtc);
      TimerCallback(now);
      if now < End(date) {
        assert nextUtc == Armed(Search(date), start, served, |served|);
      }
    }
  }

  /** The callbacks of a run to the end of a schedule. */
  ghost predicate ServedToEnd(s: DateTrigger, start: nat, served: seq<nat>) {
    && Possible(Search(s), start, served)
    && (forall i :: 0 <= i < |served| - 1 ==> Ongoing(s, served[i]))
    && (forall i {:trigger Armed(Search(s), start, served, i)} :: 0 <= i < |served| ==>
      Armed(Search(s), start, served, i) < End(s) ==> served[i] < NextOr(s, Armed(Search(s), start, served, i)))
    && (served != [] ==> served[|served| - 1] != End(s))
  }

  /** For each callback the instant it was armed for. */
  ghost predicate AreArmed(s: DateTrigger, start: nat, served: seq<nat>, instants: seq<nat>) {
    && |instants| == |served|
    && forall i {:trigger instants[i]} :: 0 <= i < |instants| ==> instants[i] == Armed(Search(s), start, served, i)
  }

  lemma AllArmed(s: DateTrigger, start: nat, served: seq<nat>, instants: seq<nat>, last: nat)
    requires served != []
    requires var n, front := |served| - 1, served[..|served| - 1];
      |instants| == n && TriggeredFor(Search(s), start, front, instants) && last == Armed(Search(s), start, front, n)
    ensures AreArmed(s, start, served, instants + [last])
  {
    forall i | 0 <= i < |served| ensures (instants + [last])[i] == Armed(Search(s), start, served, i) {
      ArmedFront(s, start, served, |served| - 1, i);
    }
  }

  lemma ArmedFront(s: DateTrigger, start: nat, served: seq<nat>, n: nat, i: nat)
    requires i <= n <= |served|
    ensures Armed(Search(s), start, served[..n], i) == Armed(Search(s), start, served, i)
  {
  }

  /** All its callbacks but the last fit the general theory. */
  lemma FrontOfRun(s: DateTrigger, start: nat, served: seq<nat>)
    requires Dated(s) && !s.everyYear && start < End(s) && served != []
    requires ServedToEnd(s, start, served) && Reaches(s, start, served)
    ensures var front := served[..|served| - 1];
      && Possible(Search(s), start, front) && Prompt(Search(s), start, front) && Reaches(s, start, front)
      && (forall i :: 0 <= i < |front| ==> Ongoing(s, front[i]))
      && Armed(Search(s), start, front, |front|) <= End(s)
    ensures Finds(Rule(s), Search(s))
  {
    var n := |served| - 1;
    var front := served[..n];
    SearchFinds(s);
    forall i {:trigger Armed(Search(s), start, front, i)} | 0 <= i <= n
      ensures Armed(Search(s), start, front, i) == Armed(Search(s), start, served, i) <= End(s)
    {
      ArmedInTime(s, start, served, i);
    }
    forall i {:trigger Armed(Search(s), start, front, i)} | 0 <= i < n
      ensures front[i] < Search(s)(Armed(Search(s), start, front, i))
    {
      FrontInTime(s, start, served, i);
    }
  }

  lemma ArmedInTime(s: DateTrigger, start: nat, served: seq<nat>, i: nat)
    requires Dated(s) && !s.everyYear && start < End(s) && i < |served| && ServedToEnd(s, start, served)
    ensures Armed(Search(s), start, served[..|served| - 1], i) == Armed(Search(s), start, served, i) <= End(s)
  {
    ArmedFront(s, start, served, |served| - 1, i);
    NextDateIsNext(s, if i == 0 then start else served[i - 1]);
  }

  lemma FrontInTime(s: DateTrigger, start: nat, served: seq<nat>, i: nat)
    requires Dated(s) && !s.everyYear && start < End(s) && i < |served| - 1 && ServedToEnd(s, start, served)
    ensures served[i] < NextOr(s, Armed(Search(s), start, served[..|served| - 1], i))
  {
    ArmedInTime(s, start, served, i);
    assert served[i] >= Armed(Search(s), start, served, i);
  }

  /** What has been armed, up to the last callback, are the moments. */
  lemma RunIsMoments(s: DateTrigger, start: nat, served: seq<nat>, instants: seq<nat>)
    requires Dated(s) && !s.everyYear && start < End(s) && served != []
    requires ServedToEnd(s, start, served) && Reaches(s, start, served)
    requires AreArmed(s, start, served, instants)
    ensures forall i, j :: 0 <= i < j < |instants| ==> instants[i] < instants[j]
    ensures var last := served[|served| - 1];
      if last > End(s) then forall u: nat :: start < u ==> (IsMoment(s, LocalTime(u)) <==> u in instants)
      else forall u: nat :: start < u < NextOr(s, last) ==> (IsMoment(s, LocalTime(u)) <==> u in instants)
  {
    var n := |served| - 1;
    var front := served[..n];
    FrontOfRun(s, start, served);
    forall i, j | 0 <= i < j < |instants| ensures instants[i] < instants[j] {
      ArmedFront(s, start, served, n, i);
      ArmedFront(s, start, served, n, j);
      ArmedAscend(Rule(s), Search(s), start, front, i, j);
    }
    forall u: nat | start < u && (served[n] > End(s) || u < NextOr(s, served[n]))
      ensures IsMoment(s, LocalTime(u)) <==> u in instants
    {
      MomentOfRun(s, start, served, instants, u);
    }
  }

  lemma MomentOfRun(s: DateTrigger, start: nat, served: seq<nat>, instants: seq<nat>, u: nat)
    requires Dated(s) && !s.everyYear && start < End(s) && served != []
    requires ServedToEnd(s, start, served) && Reaches(s, start, served)
    requires AreArmed(s, start, served, instants)
    requires start < u && (served[|served| - 1] > End(s) || u < NextOr(s, served[|served| - 1]))
    ensures IsMoment(s, LocalTime(u)) <==> u in instants
  {
    var n := |served| - 1;
    var front, last := served[..n], Armed(Search(s), start, served, n);
    FrontOfRun(s, start, served);
    ArmedFront(s, start, served, n, n);
    EachOnce(Rule(s), Search(s), start, front, n);
    InInstants(s, start, served, instants, u);
    if u <= last {
      RuleIs(s, u);
    } else {
      NotLater(s, start, served, u);
    }
  }

  lemma InInstants(s: DateTrigger, start: nat, served: seq<nat>, instants: seq<nat>, u: nat)
    requires served != [] && AreArmed(s, start, served, instants)
    ensures u in instants <==> IsArmed(Search(s), start, served[..|served| - 1], |served| - 1, u)
  {
    var n := |served| - 1;
    forall i | 0 <= i <= n
      ensures instants[i] == Armed(Search(s), start, served[..n], i)
    {
      ArmedFront(s, start, served, n, i);
    }
    if IsArmed(Search(s), start, served[..n], n, u) {
      var i :| 0 <= i <= n && u == Armed(Search(s), start, served[..n], i);
      assert instants[i] == u;
    }
  }

  /** Between the last armed instant and what comes next there is no moment. */
  lemma NotLater(s: DateTrigger, start: nat, served: seq<nat>, u: nat)
    requires Dated(s) && !s.everyYear && start < End(s) && served != []
    requires ServedToEnd(s, start, served) && Reaches(s, start, served)
    requires var last := served[|served| - 1];
      Armed(Search(s), start, served, |served| - 1) < u && (last > End(s) || u < NextOr(s, last))
    ensures !IsMoment(s, LocalTime(u))
  {
    var n := |served| - 1;
    var a, last := Armed(Search(s), start, served, n), served[n];
    FrontOfRun(s, start, served);
    ArmedFront(s, start, served, n, n);
    LocalTimeIs(u);
    EndIsLast(s);
    if a < End(s) {
      NoneMissed(Rule(s), Search(s), a, last);
      NextDateIsNext(s, a);
      assert FirstAfter(Rule(s), a, NextOr(s, a));
      assert !Rule(s)(u);
    }
  }
}
