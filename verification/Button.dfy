/** The debouncer of button.c, handler by handler. */
module Button {
  import opened Common
  import opened ButtonMachine

  class Device {
    // settings
    const glitch: nat
    var cbs: seq<Cb>                 // the list of press callbacks, from its head
    var taskqOn: bool
    var hasPush: bool
    var hasTap: bool
    var hasRelease: bool

    // state
    var level: bool                  // whether the pin is at its active level
    var status: Status
    var taskq: Option<nat>           // two queues of one place each
    var argq: Option<nat>
    var psh: Option<nat>             // when the timers are due
    var rls: Option<nat>
    var press: seq<Option<nat>>
    var ran: seq<Act>                // what the application has seen

    ghost function Now(): State
      reads this
    {
      State(Config(glitch, cbs, taskqOn, hasPush, hasTap, hasRelease), level, status, taskq, argq, psh, rls, press, ran)
    }

    /** iot_button_create */
    constructor (glitch: nat)
      ensures Quiet(Now()) && AtRest(Now()) && this.glitch == glitch && cbs == [] && ran == []
    {
      this.glitch, cbs, taskqOn, hasPush, hasTap, hasRelease := glitch, [], false, false, false, false;
      level, status, taskq, argq, psh, rls, press, ran := false, Idle, None, None, None, None, [], [];
    }

    /** iot_button_add_on_press_cb, with the threshold in ticks */
    method AddOnPress(interval: nat, task: nat, arg: nat) returns (ok: bool)
      requires Quiet(Now()) && AtRest(Now())
      modifies this`cbs, this`press
      ensures Quiet(Now()) && AtRest(Now()) && (ok <==> interval != 0)
      ensures cbs == (if ok then [Cb(interval, true, task, arg)] else []) + old(cbs)
    {
      ok := interval != 0;
      if ok {
        cbs, press := [Cb(interval, true, task, arg)] + cbs, [None] + press;
      }
    }

    /** iot_button_add_on_release_cb, with the threshold in ticks */
    method AddOnRelease(interval: nat, task: nat, arg: nat) returns (ok: bool)
      requires Quiet(Now()) && AtRest(Now())
      modifies this`cbs, this`press, this`taskqOn
      ensures Quiet(Now()) && AtRest(Now()) && (ok <==> interval != 0) && (ok ==> taskqOn)
      ensures cbs == (if ok then [Cb(interval, false, task, arg)] else []) + old(cbs)
    {
      ok := interval != 0;
      if ok {
        taskqOn := true;
        cbs, press := [Cb(interval, false, task, arg)] + cbs, [None] + press;
      }
    }

    /** button_gpio_isr_handler */
    method PinChanges(active: bool, now: nat)
      requires WellFormed(Now())
      modifies this`level, this`psh, this`rls, this`press
      ensures Now() == Edge(old(Now()), active, now)
    {
      level := active;
      if active {
        psh := Some(now + glitch);
        var i := 0;
        while i < |cbs|
          invariant 0 <= i <= |cbs| && |press| == |cbs|
          invariant level == active && psh == Some(now + glitch) && rls == old(rls)
          invariant forall k :: 0 <= k < i ==> press[k] == Some(now + cbs[k].interval)
        {
          press := press[i := Some(now + cbs[i].interval)];
          i := i + 1;
        }
        assert press == Edge(old(Now()), active, now).press;
      } else {
        rls := Some(now + glitch);
      }
    }

    /** button_tap_psh_cb */
    method PushDue(now: nat)
      modifies this`psh, this`rls, this`status, this`ran
      ensures Now() == OnPush(old(Now()), now)
    {
      psh, rls := None, None;
      if level {
        status := Push;
        if hasPush {
          ran := ran + [Pushed];
        }
        assert ran == old(ran) + Do(hasPush, Pushed);
      } else {
        rls := Some(now + glitch);
      }
    }

    /** button_press_cb */
    method PressDue(i: nat)
      requires WellFormed(Now()) && i < |cbs|
      modifies this`press, this`status, this`taskq, this`argq, this`ran
      ensures Now() == OnPress(old(Now()), i)
    {
      press := press[i := None];
      if level {
        status := Pressed;
        if taskqOn && !cbs[i].onPress {
          taskq := Some(cbs[i].task);
          argq := Some(cbs[i].arg);
        } else {
          ran := ran + [Ran(cbs[i].task, cbs[i].arg)];
        }
      }
    }

    /** Stop the timers of all press callbacks. */
    method StopPresses()
      modifies this`press
      ensures press == seq(|old(press)|, _ => None)
    {
      var i := 0;
      while i < |press|
        invariant 0 <= i <= |press| == |old(press)|
        invariant forall k :: 0 <= k < i ==> press[k] == None
      {
        press := press[i := None];
        i := i + 1;
      }
    }

    /** button_tap_rls_cb */
    method ReleaseDue()
      requires WellFormed(Now())
      modifies this`rls, this`press, this`status, this`taskq, this`argq, this`ran
      ensures Now() == OnRelease(old(Now()))
    {
      rls := None;
      if level {
        return;
      }
      StopPresses();
      var acts: seq<Act> := [];
      if taskqOn && taskq.Some? && status != Idle {
        acts := [RanDeferred(taskq.value, argq.value)];
        taskq, argq := None, None;
      }
      ghost var first := acts;
      if hasTap && status == Push {
        acts := acts + [Tapped];
      }
      if hasRelease && status != Idle {
        acts := acts + [Released];
      }
      assert acts == first + Do(hasTap && status == Push, Tapped) + Do(hasRelease && status != Idle, Released);
      ran, status := ran + acts, Idle;
    }

    /** The press timer that is due first. */
    method FirstPress() returns (first: Option<nat>)
      requires WellFormed(Now())
      ensures match first
        case None => forall k :: 0 <= k < |press| ==> press[k] == None
        case Some(i) =>
          && i < |press| && press[i].Some?
          && forall k :: 0 <= k < |press| && press[k].Some? ==> press[i].value <= press[k].value
    {
      first := None;
      var i := 0;
      while i < |press|
        invariant 0 <= i <= |press|
        invariant match first
          case None => forall k :: 0 <= k < i ==> press[k] == None
          case Some(j) =>
            && j < i && press[j].Some?
            && forall k :: 0 <= k < i && press[k].Some? ==> press[j].value <= press[k].value
      {
        if press[i].Some? && (first.None? || press[i].value < press[first.value].value) {
          first := Some(i);
        }
        i := i + 1;
      }
    }

    method NextDue(until: nat) returns (next: Option<Timer>)
      requires WellFormed(Now())
      ensures match next
        case None => NothingDue(Now(), until)
        case Some(t) => Earliest(Now(), t, until)
    {
      next := None;
      var due := until + 1;
      if psh.Some? && psh.value < due {
        next, due := Some(PushTimer), psh.value;
      }
      if rls.Some? && rls.value < due {
        next, due := Some(ReleaseTimer), rls.value;
      }
      var first := FirstPress();
      if first.Some? && press[first.value].value < due {
        next := Some(PressTimer(first.value));
      }
    }

    method Handle(t: Timer)
      requires WellFormed(Now()) && IsTimer(Now(), t) && DueAt(Now(), t).Some?
      modifies this`psh, this`rls, this`press, this`status, this`taskq, this`argq, this`ran
      ensures Now() == Fire(old(Now()), t)
    {
      match t {
        case PushTimer => PushDue(psh.value);
        case ReleaseTimer => ReleaseDue();
        case PressTimer(i) => PressDue(i);
      }
    }

    /** The timer service, up to a tick. */
    method ServeUntil(until: nat) returns (ghost ts: seq<Timer>)
      requires Queued(Now())
      modifies this`psh, this`rls, this`press, this`status, this`taskq, this`argq, this`ran
      ensures Queued(Now()) && Serves(old(Now()), until, ts, Now())
      decreases Work(Now())
    {
      var next := NextDue(until);
      ts := [];
      if next.Some? {
        NextQueued(Now(), TimerEvent(next.value));
        WorkDrops(Now(), next.value);
        Handle(next.value);
        ghost var rest := ServeUntil(until);
        ts := [next.value] + rest;
        assert ts[1..] == rest;
      }
    }

    method PinThenServe(active: bool, now: nat, until: nat) returns (ghost ts: seq<Timer>)
      requires Queued(Now())
      modifies this`level, this`psh, this`rls, this`press, this`status, this`taskq, this`argq, this`ran
      ensures Queued(Now()) && ServesAfter(old(Now()), active, now, until, ts, Now())
    {
      NextQueued(Now(), PinEvent(active, now));
      PinChanges(active, now);
      ts := ServeUntil(until);
    }

    method DownAndUp(at: nat, held: nat) returns (ghost ts: seq<Timer>, ghost mid: State, ghost us: seq<Timer>)
      requires Queued(Now())
      modifies this`level, this`psh, this`rls, this`press, this`status, this`taskq, this`argq, this`ran
      ensures ServesAfter(old(Now()), true, at, at + held, ts, mid)
      ensures Queued(mid) && ServesAfter(mid, false, at + held, at + held + 2 * glitch, us, Now())
    {
      ghost var s := Now();
      ts := PinThenServe(true, at, at + held);
      mid := Now();
      assert ServesAfter(s, true, at, at + held, ts, mid);
      us := PinThenServe(false, at + held, at + held + 2 * glitch);
    }

    /** The button is pressed at a tick and held. A pulse shorter than the debounce
        time shows nothing; a longer press shows exactly PressActs. */
    method PressAndRelease(at: nat, held: nat) returns (ghost fired: seq<nat>)
      requires Quiet(Now()) && AtRest(Now()) && LongThresholds(Now().cfg) && Distinct(Now().cfg)
      modifies this`level, this`psh, this`rls, this`press, this`status, this`taskq, this`argq, this`ran
      ensures Quiet(Now())
      ensures held < glitch ==> ran == old(ran)
      ensures held >= glitch ==>
        FiredBy(Now().cfg, held, fired) && ran == old(ran) + PressActs(Now().cfg, fired) && AtRest(Now())
    {
      ghost var s := Now();
      ghost var ts, mid, us := DownAndUp(at, held);
      fired := AnyPress(s, at, held, ts, mid, at + held + 2 * glitch, us, Now());
    }

    method UpDownUp(at: nat, down: nat, again: nat)
      returns (ghost us: seq<Timer>, ghost up: State, ghost vs: seq<Timer>, ghost low: State, ghost ws: seq<Timer>)
      requires Queued(Now())
      modifies this`level, this`psh, this`rls, this`press, this`status, this`taskq, this`argq, this`ran
      ensures UpAndDown(old(Now()), at, down, us, up, again, vs, low, again + 2 * glitch, ws, Now())
    {
      us := PinThenServe(false, at, down);
      up := Now();
      vs := PinThenServe(true, down, again);
      low := Now();
      ws := PinThenServe(false, again, again + 2 * glitch);
    }

    method DownUpDownUp(at: nat, off: nat, down: nat, again: nat, ghost s: State)
      returns (ghost ts: seq<Timer>, ghost mid: State, ghost us: seq<Timer>, ghost up: State, ghost vs: seq<Timer>,
               ghost low: State, ghost until: nat, ghost ws: seq<Timer>, ghost end: State)
      requires Queued(s) && s == Now()
      modifies this`level, this`psh, this`rls, this`press, this`status, this`taskq, this`argq, this`ran
      ensures end == Now() && until == again + 2 * s.cfg.glitch
      ensures ButtonMachine.DownUpDownUp(s, at, off, ts, mid, down, us, up, again, vs, low, until, ws, end)
    {
      ts := PinThenServe(true, at, off);
      mid := Now();
      us, up, vs, low, ws := UpDownUp(off, down, again);
      until, end := again + 2 * glitch, Now();
    }

    /** The release of a press that has been held bounces, for less than the debounce time:
        it shows what a clean press shows, the release once. */
    method PressAndBounce(at: nat, held: nat, down: nat, again: nat) returns (ghost fired: seq<nat>)
      requires Prepared(Now()) && held >= glitch
      requires at + held <= down < at + held + glitch && down <= again < down + glitch
      modifies this`level, this`psh, this`rls, this`press, this`status, this`taskq, this`argq, this`ran
      ensures Quiet(Now()) && AtRest(Now())
      ensures FiredBy(old(Now()).cfg, held, fired) && ran == old(ran) + PressActs(old(Now()).cfg, fired)
    {
      ghost var s := Now();
      assert s.cfg.glitch == glitch;
      ghost var ts, mid, us, up, vs, low, until, ws, end := DownUpDownUp(at, at + held, down, again, s);
      fired := BouncedRelease(s, at, held, ts, mid, down, us, up, again, vs, low, until, ws, end);
    }
  }
}
