/** What a schedule of esp_schedule.c says about its timing, and when it has expired. */
module ScheduleTrigger {
  import opened ScheduleDate

  /** `next` is next_scheduled_time_utc, zero as long as none has been set. */
  datatype Trigger =
    | Relative(next: int)
    | Weekly(days: nat, second: nat, next: int)
    | OnDate(date: DateTrigger, next: int)

  /** esp_schedule_is_expired */
  predicate Expired(t: Trigger, now: int) {
    match t
    case Relative(next) => 0 < next <= now
    case Weekly(days, _, next) => days == 0 && 0 < next <= now
    case OnDate(date, next) =>
      if date.months == 0 then 0 < next <= now
      else !date.everyYear && Mktime(Last(date)) < now
  }

  /** For a schedule that lists months it is the test on the date. */
  lemma SameTest(s: DateTrigger, next: int, now: Moment)
    requires s.months != 0
    ensures Expired(OnDate(s, next), Mktime(now)) <==> IsExpired(s, now)
  {
  }

  /** The instant that was set for it has come. */
  predicate HasCome(next: int, now: int) {
    next != 0 && 0 <= next && next <= now
  }

  /** Nothing more is to come of it. What goes off once is over when the instant set for
      it has come; a schedule on certain dates of one year when all of them are behind;
      one that repeats, every week or every year, never. */
  ghost predicate Past(t: Trigger, now: int) {
    (t.Relative? && HasCome(t.next, now))
    || (t.Weekly? && t.days == 0 && HasCome(t.next, now))
    || (t.OnDate? && t.date.months == 0 && HasCome(t.next, now))
    || (t.OnDate? && t.date.months != 0 && !t.date.everyYear && forall v :: IsMoment(t.date, v) ==> Mktime(v) < now)
  }

  /** A schedule on dates is on a day that every listed month has. */
  predicate Regular(t: Trigger) {
    t.OnDate? && t.date.months != 0 ==> Dated(t.date)
  }

  /** The test for the last listed month is right. */
  lemma ExpiredIsPast(t: Trigger, now: int)
    requires Regular(t)
    ensures Expired(t, now) <==> Past(t, now)
  {
    if t.OnDate? && t.date.months != 0 && !t.date.everyYear {
      var s := t.date;
      LastIsLast(s);
      MomentsValid(s, Last(s));
      forall v | IsMoment(s, v) ensures Mktime(v) <= Mktime(Last(s)) {
        MomentsValid(s, v);
        MktimeMonotone(Last(s), v);
      }
      assert IsMoment(s, Last(s));
    }
  }
}
