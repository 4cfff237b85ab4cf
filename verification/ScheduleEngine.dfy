/** The re-arming timer of esp_schedule.c for schedules on days of the week. */
module ScheduleEngine {
  import opened Common
  import opened Recurrence
  import opened ScheduleTrigger
  import opened ScheduleWeek

  /** The schedule's rule, and the engine's search, as functions of the time. */
  ghost function Rule(days: nat, second: nat): nat -> bool {
    (u: nat) => Occurs(days, second, u)
  }

  ghost function Search(days: nat, second: nat): nat -> nat {
    (t: nat) => NextOr(days, second, t)
  }

  /** The search, outside its domain too. */
  function NextOr(days: nat, second: nat, t: nat): nat {
    if Next(days, second, t) > t then Next(days, second, t) else t + 1
  }

  lemma SearchFinds(days: nat, second: nat)
    requires days < 128 && second < DAY
    ensures Finds(Rule(days, second), Search(days, second))
  {
    forall t ensures FirstAfter(Rule(days, second), t, Search(days, second)(t)) {
      NextIsNext(days, second, t);
    }
  }

  lemma SearchIs(days: nat, second: nat, t: nat)
    requires days < 128 && second < DAY
    ensures Search(days, second)(t) == Next(days, second, t)
  {
    NextIsNext(days, second, t);
  }

  lemma RuleIs(days: nat, second: nat)
    ensures forall u {:trigger Occurs(days, second, u)} :: Rule(days, second)(u) <==> Occurs(days, second, u)
  {
  }

  lemma ServedAfter(days: nat, second: nat, start: nat, served: seq<nat>, n: nat)
    requires days < 128 && second < DAY && n < |served| && Possible(Search(days, second), start, served)
    ensures served[n] > start && served[n] >= Armed(Search(days, second), start, served, n)
  {
    SearchFinds(days, second);
    ServedLate(Rule(days, second), Search(days, second), start, served, n);
  }

  class Schedule {
    const days: nat
    const second: nat
    var nextUtc: nat             // next_scheduled_time_utc, zero when unset
    var timer: Option<nat>       // when the one-shot timer is due
    var triggers: seq<nat>       // the due times of the callbacks served so far

    constructor (days: nat, second: nat)
      requires days < 128 && second < DAY
      ensures Valid() && timer == None && triggers == [] && this.days == days && this.second == second
    {
      this.days, this.second := days, second;
      nextUtc, timer, triggers := 0, None, [];
    }

    ghost predicate Valid()
      reads this
    {
      days < 128 && second < DAY && (timer.Some? ==> timer == Some(nextUtc) && nextUtc > 0)
    }

    /** esp_schedule_start_timer, and so esp_schedule_enable. Before the clock has
        been set nothing happens. */
    method StartTimer(now: nat)
      requires Valid()
      modifies this`nextUtc, this`timer
      ensures Valid()
      ensures if now < 1576800000 then timer == old(timer) && nextUtc == old(nextUtc)
              else timer == Some(nextUtc) && IsNext(days, second, now, nextUtc) && nextUtc == Next(days, second, now)
      ensures now >= TILL_2020 ==>
        now < nextUtc && GoesOff(days, second, nextUtc)
        && forall u: nat :: now < u < nextUtc ==> !GoesOff(days, second, u)
    {
      if now < TILL_2020 {
        return;
      }
      NextIsNext(days, second, now);
      var diff := TimeDiff(days, second, now);
      nextUtc := now + diff;
      timer := Some(now + diff);
      forall u: nat ensures Occurs(days, second, u) <==> GoesOff(days, second, u) {
        OccursIs(days, second, u);
      }
    }

    /** esp_schedule_disable */
    method Disable()
      requires Valid()
      modifies this`nextUtc, this`timer
      ensures Valid() && timer == None && nextUtc == 0
    {
      timer := None;
      nextUtc := 0;
    }

    /** esp_schedule_is_expired: only a schedule for a single day expires. */
    method IsExpired(now: nat) returns (expired: bool)
      requires Valid()
      ensures expired == Expired(Weekly(days, second, nextUtc), now)
      ensures expired <==> Past(Weekly(days, second, nextUtc), now)
    {
      return days == 0 && nextUtc > 0 && nextUtc <= now;
    }

    /** esp_schedule_common_timer_cb, served at some time at or after the due time. */
    method TimerCallback(now: nat)
      requires Valid() && timer.Some? && now >= timer.value && now >= TILL_2020
      modifies this
      ensures Valid() && triggers == old(triggers) + [old(timer).value]
      ensures days == 0 ==> timer == None && nextUtc == old(nextUtc)
      ensures days != 0 ==> timer == Some(Next(days, second, now))
    {
      triggers := triggers + [timer.value];
      timer := None;
      var expired := IsExpired(now);
      if expired {
        return;
      }
      StartTimer(now);
    }

    method Enable(start: nat)
      requires Valid() && start >= TILL_2020
      modifies this`nextUtc, this`timer
      ensures Valid() && timer == Some(Search(days, second)(start))
    {
      StartTimer(start);
      SearchIs(days, second, start);
    }

    method Serve(now: nat)
      requires Valid() && days != 0 && timer.Some? && now >= timer.value && now >= TILL_2020
      modifies this
      ensures Valid() && triggers == old(triggers) + [old(timer).value] && timer == Some(Search(days, second)(now))
    {
      TimerCallback(now);
      SearchIs(days, second, now);
    }

    /** A repeating schedule, enabled and then served a number of times, triggers for
        each armed instant. */
    method ServeAll(start: nat, served: seq<nat>)
      requires Valid() && days != 0 && start >= TILL_2020 && triggers == []
      requires Possible(Search(days, second), start, served)
      modifies this
      ensures TriggeredFor(Search(days, second), start, served, triggers) && |triggers| == |served|
      ensures timer == Some(Armed(Search(days, second), start, served, |served|))
    {
      ghost var search := Search(days, second);
      Enable(start);
      for n := 0 to |served|
        invariant Valid() && |triggers| == n && TriggeredFor(search, start, served, triggers)
        invariant timer == Some(Armed(search, start, served, n))
      {
        ServedAfter(days, second, start, served, n);
        TriggeredStep(search, start, served, triggers);
        Serve(served[n]);
      }
    }

    /** When served in time, it triggers for exactly the occurrences after the start,
        in order, each once. */
    method RunRepeating(start: nat, served: seq<nat>)
      requires Valid() && days != 0 && start >= TILL_2020 && triggers == []
      requires Possible(Search(days, second), start, served) && Prompt(Search(days, second), start, served)
      modifies this
      ensures |triggers| == |served| && timer.Some?
      ensures forall i, j :: 0 <= i < j < |triggers| ==> triggers[i] < triggers[j]
      ensures forall u :: start < u < timer.value ==> (GoesOff(days, second, u) <==> u in triggers)
    {
      ServeAll(start, served);
      SearchFinds(days, second);
      ServedAreOccurrences(Rule(days, second), Search(days, second), start, served, triggers);
      RuleIs(days, second);
      forall u: nat ensures Occurs(days, second, u) <==> GoesOff(days, second, u) {
        OccursIs(days, second, u);
      }
    }

    /** A schedule for a single day triggers once per enabling, at the first
        occurrence of its time of day, and is not armed again. */
    method RunOnce(start: nat, served: nat)
      requires Valid() && days == 0 && start >= TILL_2020 && served >= Next(0, second, start)
      modifies this
      ensures Valid() && timer == None
      ensures triggers == old(triggers) + [Next(0, second, start)] && IsNext(0, second, start, Next(0, second, start))
    {
      StartTimer(start);
      TimerCallback(served);
    }
  }
}
