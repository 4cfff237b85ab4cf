/** The debouncer of button.c as a state machine: edges of the pin, and one-shot
    timers that are served at the tick they are due. */
module ButtonMachine {
  import opened Common

  datatype Status = Idle | Push | Pressed

  /** A callback for long presses; it runs at its threshold when onPress, and is put
      off to the release otherwise. */
  datatype Cb = Cb(interval: nat, onPress: bool, task: nat, arg: nat)

  /** glitch: the debounce time in ticks; the flags tell which callbacks are set. */
  datatype Config = Config(glitch: nat, cbs: seq<Cb>, taskqOn: bool, hasPush: bool, hasTap: bool, hasRelease: bool)

  /** What the application gets to see. */
  datatype Act = Pushed | Tapped | Released | Ran(task: nat, arg: nat) | RanDeferred(task: nat, arg: nat)

  /** Each timer holds the tick it is due at, if it runs. */
  datatype State = State(
    cfg: Config, level: bool, status: Status, taskq: Option<nat>, argq: Option<nat>,
    psh: Option<nat>, rls: Option<nat>, press: seq<Option<nat>>, ran: seq<Act>)

  datatype Timer = PushTimer | ReleaseTimer | PressTimer(i: nat)

  // ---- the handlers ----

  function Do(b: bool, a: Act): seq<Act> {
    if b then [a] else []
  }

  /** button_gpio_isr_handler: the pin has changed to level at tick now. */
  function Edge(s: State, level: bool, now: nat): State {
    if level then
      s.(level := level, psh := Some(now + s.cfg.glitch),
         press := seq(|s.cfg.cbs|, i requires 0 <= i < |s.cfg.cbs| => Some(now + s.cfg.cbs[i].interval)))
    else s.(level := level, rls := Some(now + s.cfg.glitch))
  }

  /** button_tap_psh_cb */
  function OnPush(s: State, now: nat): State {
    if s.level then s.(psh := None, rls := None, status := Push, ran := s.ran + Do(s.cfg.hasPush, Pushed))
    else s.(psh := None, rls := Some(now + s.cfg.glitch))
  }

  /** button_press_cb */
  function OnPress(s: State, i: nat): State
    requires i < |s.cfg.cbs| == |s.press|
  {
    var t := s.(press := s.press[i := None]);
    var cb := s.cfg.cbs[i];
    if !s.level then t
    else if s.cfg.taskqOn && !cb.onPress then t.(status := Pressed, taskq := Some(cb.task), argq := Some(cb.arg))
    else t.(status := Pressed, ran := s.ran + [Ran(cb.task, cb.arg)])
  }

  /** Whether a release runs a deferred callback. */
  predicate HasDeferred(s: State) {
    s.cfg.taskqOn && s.taskq.Some? && s.status != Idle
  }

  /** What a release runs: the deferred callback, the tap, the release. */
  function ReleaseActs(s: State): seq<Act>
    requires WellFormed(s)
  {
    (if HasDeferred(s) then [RanDeferred(s.taskq.value, s.argq.value)] else [])
    + Do(s.cfg.hasTap && s.status == Push, Tapped) + Do(s.cfg.hasRelease && s.status != Idle, Released)
  }

  /** button_tap_rls_cb */
  function OnRelease(s: State): State
    requires WellFormed(s)
  {
    if s.level then s.(rls := None)
    else
      s.(rls := None, press := seq(|s.press|, _ => None), status := Idle,
         taskq := if HasDeferred(s) then None else s.taskq, argq := if HasDeferred(s) then None else s.argq,
         ran := s.ran + ReleaseActs(s))
  }

  /** A timer for each callback, and an argument for a queued task. */
  predicate WellFormed(s: State) {
    |s.press| == |s.cfg.cbs| && (s.taskq.Some? ==> s.argq.Some?)
  }

  predicate IsTimer(s: State, t: Timer) {
    t.PressTimer? ==> t.i < |s.press| && t.i < |s.cfg.cbs|
  }

  function DueAt(s: State, t: Timer): Option<nat>
    requires IsTimer(s, t)
  {
    match t
    case PushTimer => s.psh
    case ReleaseTimer => s.rls
    case PressTimer(i) => s.press[i]
  }

  function Fire(s: State, t: Timer): State
    requires WellFormed(s) && IsTimer(s, t) && DueAt(s, t).Some?
  {
    match t
    case PushTimer => OnPush(s, s.psh.value)
    case ReleaseTimer => OnRelease(s)
    case PressTimer(i) => OnPress(s, i)
  }

  // ---- what every run keeps ----

  /** The two queues hold a callback and its own argument, or nothing, and a callback
      only while the button is not idle. */
  ghost predicate Queued(s: State) {
    && WellFormed(s) && (s.argq.Some? ==> s.taskq.Some?)
    && (s.taskq.Some? ==> s.status != Idle && s.cfg.taskqOn && OfOneCallback(s.cfg.cbs, s.taskq.value, s.argq))
  }

  ghost predicate OfOneCallback(cbs: seq<Cb>, task: nat, arg: Option<nat>) {
    exists i :: 0 <= i < |cbs| && !cbs[i].onPress && cbs[i].task == task && Some(cbs[i].arg) == arg
  }

  datatype Event = PinEvent(level: bool, now: nat) | TimerEvent(timer: Timer)

  predicate Possible(s: State, e: Event) {
    e.TimerEvent? ==> IsTimer(s, e.timer) && DueAt(s, e.timer).Some?
  }

  function Next(s: State, e: Event): State
    requires WellFormed(s) && Possible(s, e)
  {
    match e
    case PinEvent(level, now) => Edge(s, level, now)
    case TimerEvent(t) => Fire(s, t)
  }

  lemma NextQueued(s: State, e: Event)
    requires Queued(s) && Possible(s, e)
    ensures Queued(Next(s, e)) && Next(s, e).cfg == s.cfg
  {
  }

  ghost predicate Runs(s: State, es: seq<Event>, end: State)
    requires Queued(s)
    decreases |es|
  {
    if es == [] then end == s
    else Possible(s, es[0]) && (NextQueued(s, es[0]); Runs(Next(s, es[0]), es[1..], end))
  }

  /** Whatever edges come, and in whatever order the timers are served. */
  lemma {:induction false} RunsQueued(s: State, es: seq<Event>, end: State)
    requires Queued(s) && Runs(s, es, end)
    ensures Queued(end) && end.cfg == s.cfg
    decreases |es|
  {
    if es != [] {
      NextQueued(s, es[0]);
      RunsQueued(Next(s, es[0]), es[1..], end);
    }
  }

  // ---- timers served when they are due ----

  /** t is due by until, and no timer is due before it. */
  predicate Earliest(s: State, t: Timer, until: nat) {
    && IsTimer(s, t) && DueAt(s, t).Some? && DueAt(s, t).value <= until
    && (s.psh.Some? ==> DueAt(s, t).value <= s.psh.value)
    && (s.rls.Some? ==> DueAt(s, t).value <= s.rls.value)
    && (forall i :: 0 <= i < |s.press| && s.press[i].Some? ==> DueAt(s, t).value <= s.press[i].value)
  }

  predicate Later(due: Option<nat>, until: nat) {
    due.Some? ==> due.value > until
  }

  predicate NothingDue(s: State, until: nat) {
    Later(s.psh, until) && Later(s.rls, until) && forall i :: 0 <= i < |s.press| ==> Later(s.press[i], until)
  }

  /** The timers are served in order until nothing is due any more. */
  ghost predicate Serves(s: State, until: nat, ts: seq<Timer>, end: State)
    requires Queued(s)
    decreases |ts|
  {
    if ts == [] then end == s && NothingDue(s, until)
    else Earliest(s, ts[0], until) && (NextQueued(s, TimerEvent(ts[0])); Serves(Fire(s, ts[0]), until, ts[1..], end))
  }

  function Running(press: seq<Option<nat>>): nat {
    if press == [] then 0 else Running(press[..|press| - 1]) + if press[|press| - 1].Some? then 1 else 0
  }

  /** Serving comes to an end: the push timer may start the release timer once. */
  function Work(s: State): nat {
    (if s.psh.Some? then 2 else 0) + (if s.rls.Some? then 1 else 0) + Running(s.press)
  }

  lemma {:induction false} RunningDrops(press: seq<Option<nat>>, i: nat)
    requires i < |press| && press[i].Some?
    ensures Running(press[i := None]) == Running(press) - 1
  {
    var n := |press| - 1;
    if i < n {
      RunningDrops(press[..n], i);
      assert press[i := None][..n] == press[..n][i := None];
    } else {
      assert press[i := None][..n] == press[..n];
    }
  }

  lemma {:induction false} NoneRunning(press: seq<Option<nat>>)
    requires forall i :: 0 <= i < |press| ==> press[i] == None
    ensures Running(press) == 0
  {
    if press != [] {
      NoneRunning(press[..|press| - 1]);
    }
  }

  lemma WorkDrops(s: State, t: Timer)
    requires WellFormed(s) && IsTimer(s, t) && DueAt(s, t).Some?
    ensures Work(Fire(s, t)) < Work(s)
  {
    match t
    case PushTimer =>
    case ReleaseTimer => NoneRunning(seq(|s.press|, _ => None));
    case PressTimer(i) => RunningDrops(s.press, i);
  }

  // ---- nothing happens while the button is up and idle ----

  ghost predicate Quiet(s: State) {
    Queued(s) && !s.level && s.status == Idle
  }

  lemma {:induction false} QuietRunsNothing(s: State, until: nat, ts: seq<Timer>, end: State)
    requires Quiet(s) && Serves(s, until, ts, end)
    ensures Quiet(end) && end.ran == s.ran && end.cfg == s.cfg
    decreases |ts|
  {
    if ts != [] {
      NextQueued(s, TimerEvent(ts[0]));
      QuietRunsNothing(Fire(s, ts[0]), until, ts[1..], end);
    }
  }

  /** No timer runs. */
  predicate AtRest(s: State) {
    s.psh == None && s.rls == None && forall i :: 0 <= i < |s.press| ==> s.press[i] == None
  }

  /** Every threshold is longer than the debounce time. */
  predicate LongThresholds(cfg: Config) {
    forall i :: 0 <= i < |cfg.cbs| ==> cfg.glitch < cfg.cbs[i].interval
  }

  /** The pin changes, then timers are served. */
  ghost predicate ServesAfter(s: State, level: bool, now: nat, until: nat, ts: seq<Timer>, end: State)
    requires Queued(s)
  {
    NextQueued(s, PinEvent(level, now));
    Serves(Edge(s, level, now), until, ts, end)
  }

  lemma {:induction false} ServesQueued(s: State, until: nat, ts: seq<Timer>, end: State)
    requires Queued(s) && Serves(s, until, ts, end)
    ensures Queued(end) && NothingDue(end, until)
    decreases |ts|
  {
    if ts != [] {
      NextQueued(s, TimerEvent(ts[0]));
      ServesQueued(Fire(s, ts[0]), until, ts[1..], end);
    }
  }

  /** A pulse shorter than the debounce time runs nothing, however long one waits. */
  lemma ShortPulse(s: State, at: nat, width: nat, ts: seq<Timer>, mid: State, until: nat, us: seq<Timer>, end: State)
    requires Quiet(s) && AtRest(s) && LongThresholds(s.cfg) && width < s.cfg.glitch
    requires ServesAfter(s, true, at, at + width, ts, mid)
    requires Queued(mid) && ServesAfter(mid, false, at + width, until, us, end)
    ensures end.ran == s.ran && Quiet(end)
  {
    assert ts == [];
    NextQueued(mid, PinEvent(false, at + width));
    QuietRunsNothing(Edge(mid, false, at + width), until, us, end);
  }

  // ---- a clean press ----

  predicate Distinct(cfg: Config) {
    forall i, j :: 0 <= i < j < |cfg.cbs| ==> cfg.cbs[i].interval != cfg.cbs[j].interval
  }

  predicate IsDeferred(cfg: Config, i: nat)
    requires i < |cfg.cbs|
  {
    cfg.taskqOn && !cfg.cbs[i].onPress
  }

  /** Callbacks in the order of their thresholds. */
  ghost predicate Ascending(cfg: Config, done: seq<nat>) {
    && (forall k :: 0 <= k < |done| ==> done[k] < |cfg.cbs|)
    && (forall k, l :: 0 <= k < l < |done| ==> cfg.cbs[done[k]].interval < cfg.cbs[done[l]].interval)
  }

  predicate Indices(cfg: Config, done: seq<nat>) {
    forall k :: 0 <= k < |done| ==> done[k] < |cfg.cbs|
  }

  /** What runs at the thresholds themselves. */
  function Presses(cfg: Config, done: seq<nat>): seq<Act>
    requires Indices(cfg, done)
  {
    if done == [] then []
    else
      var n := |done| - 1;
      var cb := cfg.cbs[done[n]];
      Presses(cfg, done[..n]) + if IsDeferred(cfg, done[n]) then [] else [Ran(cb.task, cb.arg)]
  }

  function LastDeferred(cfg: Config, done: seq<nat>): (r: Option<nat>)
    requires Indices(cfg, done)
    ensures r.Some? ==> r.value < |cfg.cbs|
  {
    if done == [] then None
    else if IsDeferred(cfg, done[|done| - 1]) then Some(done[|done| - 1])
    else LastDeferred(cfg, done[..|done| - 1])
  }

  /** Exactly the timers of done have been served, in the order of their thresholds. */
  ghost predicate Served(cfg: Config, press: seq<Option<nat>>, at: nat, done: seq<nat>) {
    && |press| == |cfg.cbs| && Ascending(cfg, done)
    && (forall i :: 0 <= i < |press| ==> press[i] == if i in done then None else Some(at + cfg.cbs[i].interval))
    && (forall i, k :: 0 <= i < |press| && i !in done && 0 <= k < |done| ==>
          cfg.cbs[done[k]].interval < cfg.cbs[i].interval)
  }

  /** The queues hold the last deferred callback of done. */
  ghost predicate Holding(s: State, done: seq<nat>)
    requires Indices(s.cfg, done)
  {
    match LastDeferred(s.cfg, done)
    case None => s.taskq == None
    case Some(i) => s.taskq == Some(s.cfg.cbs[i].task) && s.argq == Some(s.cfg.cbs[i].arg)
  }

  /** What has been run, and how far the button has got. */
  ghost predicate Shown(s: State, ran: seq<Act>, done: seq<nat>)
    requires Indices(s.cfg, done)
  {
    && s.status == (if done == [] then Push else Pressed)
    && s.ran == ran + Do(s.cfg.hasPush, Pushed) + Presses(s.cfg, done)
  }

  /** The button has been down since tick at. */
  ghost predicate Held(s: State, ran: seq<Act>, at: nat, done: seq<nat>) {
    && Queued(s) && s.level && s.rls == None && Served(s.cfg, s.press, at, done) && Holding(s, done)
    && if s.psh.Some? then s.psh == Some(at + s.cfg.glitch) && done == [] && s.status == Idle && s.ran == ran
       else Shown(s, ran, done)
  }

  lemma HeldStarts(s: State, at: nat)
    requires Quiet(s) && AtRest(s)
    ensures Held(Edge(s, true, at), s.ran, at, [])
  {
    NextQueued(s, PinEvent(true, at));
  }

  lemma HeldPush(s: State, ran: seq<Act>, at: nat, done: seq<nat>)
    requires Held(s, ran, at, done) && s.psh.Some?
    ensures Held(OnPush(s, s.psh.value), ran, at, done)
  {
    NextQueued(s, TimerEvent(PushTimer));
    assert ran + Do(s.cfg.hasPush, Pushed) + [] == ran + Do(s.cfg.hasPush, Pushed);
  }

  lemma ServedOne(s: State, at: nat, done: seq<nat>, i: nat, until: nat)
    requires Served(s.cfg, s.press, at, done) && Distinct(s.cfg) && Earliest(s, PressTimer(i), until)
    ensures i !in done && Served(s.cfg, s.press[i := None], at, done + [i])
  {
    var more := done + [i];
    forall k | 0 <= k < |s.press| ensures k in more <==> k in done || k == i {
    }
  }

  lemma HoldingOne(s: State, done: seq<nat>, i: nat)
    requires WellFormed(s) && Indices(s.cfg, done) && i < |s.cfg.cbs| && s.level && Holding(s, done)
    ensures Holding(OnPress(s, i), done + [i])
  {
    assert (done + [i])[..|done|] == done;
  }

  lemma ShownOne(s: State, ran: seq<Act>, done: seq<nat>, i: nat)
    requires WellFormed(s) && Indices(s.cfg, done) && i < |s.cfg.cbs| && s.level && Shown(s, ran, done)
    ensures Shown(OnPress(s, i), ran, done + [i])
  {
    assert (done + [i])[..|done|] == done;
    var head, cb := ran + Do(s.cfg.hasPush, Pushed), s.cfg.cbs[i];
    var act := Ran(cb.task, cb.arg);
    assert head + (Presses(s.cfg, done) + [act]) == head + Presses(s.cfg, done) + [act];
    assert Presses(s.cfg, done) + [] == Presses(s.cfg, done);
  }

  lemma HeldPress(s: State, ran: seq<Act>, at: nat, done: seq<nat>, i: nat, until: nat)
    requires Held(s, ran, at, done) && LongThresholds(s.cfg) && Distinct(s.cfg)
    requires Earliest(s, PressTimer(i), until)
    ensures Held(OnPress(s, i), ran, at, done + [i])
  {
    NextQueued(s, TimerEvent(PressTimer(i)));
    ServedOne(s, at, done, i, until);
    HoldingOne(s, done, i);
    if s.psh.Some? {
      PushFirst(s, ran, at, done, i, until);
    }
    ShownOne(s, ran, done, i);
  }

  lemma PushFirst(s: State, ran: seq<Act>, at: nat, done: seq<nat>, i: nat, until: nat)
    requires Held(s, ran, at, done) && LongThresholds(s.cfg) && s.psh.Some? && i < |s.cfg.cbs|
    ensures !Earliest(s, PressTimer(i), until)
  {
    assert i !in done && s.press[i] == Some(at + s.cfg.cbs[i].interval);
  }

  /** While the button is down, the timers of done have been due by until. */
  ghost predicate Reached(cfg: Config, done: seq<nat>, at: nat, until: nat)
    requires Indices(cfg, done)
  {
    forall k :: 0 <= k < |done| ==> at + cfg.cbs[done[k]].interval <= until
  }

  lemma {:induction false} HeldServes(s: State, ran: seq<Act>, at: nat, done: seq<nat>, until: nat, ts: seq<Timer>,
                                      end: State)
    returns (all: seq<nat>)
    requires Held(s, ran, at, done) && LongThresholds(s.cfg) && Distinct(s.cfg)
    requires Reached(s.cfg, done, at, until) && Serves(s, until, ts, end)
    ensures Held(end, ran, at, all) && end.cfg == s.cfg && Reached(end.cfg, all, at, until) && NothingDue(end, until)
    decreases |ts|
  {
    all := done;
    if ts != [] {
      NextQueued(s, TimerEvent(ts[0]));
      match ts[0]
      case PushTimer =>
        HeldPush(s, ran, at, done);
        all := HeldServes(Fire(s, ts[0]), ran, at, done, until, ts[1..], end);
      case PressTimer(i) =>
        HeldPress(s, ran, at, done, i, until);
        ServedOne(s, at, done, i, until);
        all := HeldServes(Fire(s, ts[0]), ran, at, done + [i], until, ts[1..], end);
    }
  }

  /** The button has gone up, and the release timer is running. */
  ghost predicate Releasing(s: State) {
    Queued(s) && !s.level && s.psh == None && s.rls.Some?
  }

  /** The pin is up, and the debounce timer or the release timer is running: in whatever
      order they are served, the release is shown once. */
  lemma {:induction false} UpServes(s: State, until: nat, ts: seq<Timer>, end: State)
    requires Queued(s) && !s.level && (s.psh.Some? || s.rls.Some?)
    requires (s.psh.Some? ==> s.psh.value + s.cfg.glitch <= until) && (s.rls.Some? ==> s.rls.value <= until)
    requires Serves(s, until, ts, end)
    ensures end.ran == s.ran + ReleaseActs(s) && Quiet(end) && AtRest(end)
    decreases |ts|
  {
    NextQueued(s, TimerEvent(ts[0]));
    var t := Fire(s, ts[0]);
    if t.psh.Some? || t.rls.Some? {
      UpServes(t, until, ts[1..], end);
      assert t.status == Idle ==> t.ran + ReleaseActs(t) == t.ran;
    } else {
      assert ts[1..] == [];
    }
  }

  lemma ReleaseServes(s: State, until: nat, ts: seq<Timer>, end: State)
    requires Releasing(s) && s.rls.value <= until && Serves(s, until, ts, end)
    ensures end.ran == s.ran + ReleaseActs(s) && Quiet(end) && AtRest(end)
  {
    UpServes(s, until, ts, end);
  }

  /** The callbacks whose thresholds are at most held, in the order of the thresholds. */
  ghost predicate FiredBy(cfg: Config, held: nat, fired: seq<nat>) {
    Ascending(cfg, fired) && forall i :: 0 <= i < |cfg.cbs| ==> (i in fired <==> cfg.cbs[i].interval <= held)
  }

  /** All that a press shows: the push, the callbacks at their thresholds, and at the
      release the last deferred one, a tap when no threshold was reached, the release. */
  function PressActs(cfg: Config, fired: seq<nat>): seq<Act>
    requires Indices(cfg, fired)
  {
    Do(cfg.hasPush, Pushed) + Presses(cfg, fired)
    + (match LastDeferred(cfg, fired)
       case None => []
       case Some(i) => [RanDeferred(cfg.cbs[i].task, cfg.cbs[i].arg)])
    + Do(cfg.hasTap && fired == [], Tapped) + Do(cfg.hasRelease, Released)
  }

  lemma HeldEnds(s: State, ran: seq<Act>, at: nat, done: seq<nat>, held: nat)
    requires Held(s, ran, at, done) && Reached(s.cfg, done, at, at + held) && NothingDue(s, at + held)
    requires held >= s.cfg.glitch
    ensures s.psh == None && FiredBy(s.cfg, held, done)
  {
    forall i | 0 <= i < |s.cfg.cbs| ensures i in done <==> s.cfg.cbs[i].interval <= held {
      assert Later(s.press[i], at + held);
    }
  }

  lemma ActsShown(s: State, ran: seq<Act>, at: nat, done: seq<nat>, now: nat)
    requires Held(s, ran, at, done) && s.psh == None
    ensures Releasing(Edge(s, false, now))
    ensures s.ran + ReleaseActs(Edge(s, false, now)) == ran + PressActs(s.cfg, done)
  {
    NextQueued(s, PinEvent(false, now));
    var up := Edge(s, false, now);
    var last := if HasDeferred(up) then [RanDeferred(up.taskq.value, up.argq.value)] else [];
    Regroup(ran, Do(s.cfg.hasPush, Pushed), Presses(s.cfg, done), last, Do(s.cfg.hasTap && done == [], Tapped),
            Do(s.cfg.hasRelease, Released));
  }

  lemma Regroup(a: seq<Act>, b: seq<Act>, c: seq<Act>, d: seq<Act>, e: seq<Act>, f: seq<Act>)
    ensures a + b + c + (d + e + f) == a + (b + c + d + e + f)
  {
  }

  /** A clean press, held for no less than the debounce time. */
  lemma CleanPress(s: State, at: nat, held: nat, ts: seq<Timer>, mid: State, until: nat, us: seq<Timer>, end: State)
    returns (fired: seq<nat>)
    requires Quiet(s) && AtRest(s) && LongThresholds(s.cfg) && Distinct(s.cfg)
    requires held >= s.cfg.glitch && until >= at + held + s.cfg.glitch
    requires ServesAfter(s, true, at, at + held, ts, mid)
    requires Queued(mid) && ServesAfter(mid, false, at + held, until, us, end)
    ensures FiredBy(s.cfg, held, fired) && end.ran == s.ran + PressActs(s.cfg, fired)
    ensures Quiet(end) && AtRest(end)
  {
    HeldStarts(s, at);
    fired := HeldServes(Edge(s, true, at), s.ran, at, [], at + held, ts, mid);
    HeldEnds(mid, s.ran, at, fired, held);
    ActsShown(mid, s.ran, at, fired, at + held);
    ReleaseServes(Edge(mid, false, at + held), until, us, end);
  }

  lemma AnyPress(s: State, at: nat, held: nat, ts: seq<Timer>, mid: State, until: nat, us: seq<Timer>, end: State)
    returns (fired: seq<nat>)
    requires Quiet(s) && AtRest(s) && LongThresholds(s.cfg) && Distinct(s.cfg) && until >= at + held + s.cfg.glitch
    requires ServesAfter(s, true, at, at + held, ts, mid)
    requires Queued(mid) && ServesAfter(mid, false, at + held, until, us, end)
    ensures Quiet(end) && (held < s.cfg.glitch ==> end.ran == s.ran)
    ensures held >= s.cfg.glitch ==>
      FiredBy(s.cfg, held, fired) && end.ran == s.ran + PressActs(s.cfg, fired) && AtRest(end)
  {
    fired := [];
    if held < s.cfg.glitch {
      ShortPulse(s, at, held, ts, mid, until, us, end);
    } else {
      fired := CleanPress(s, at, held, ts, mid, until, us, end);
    }
  }

  // ---- a release that bounces ----

  /** Up and idle, with thresholds that are told apart. */
  ghost predicate Prepared(s: State) {
    Quiet(s) && AtRest(s) && LongThresholds(s.cfg) && Distinct(s.cfg)
  }

  /** What a release will show is not touched. */
  predicate SameRelease(s: State, t: State) {
    t.cfg == s.cfg && t.status == s.status && t.taskq == s.taskq && t.argq == s.argq && t.ran == s.ran
  }

  /** As long as the release timer is not due, nothing happens while the pin is up. */
  lemma {:induction false} WaitsUp(s: State, until: nat, ts: seq<Timer>, end: State)
    requires Releasing(s) && s.rls.value > until && Serves(s, until, ts, end)
    ensures Releasing(end) && end.rls == s.rls && SameRelease(s, end)
    decreases |ts|
  {
    if ts != [] {
      NextQueued(s, TimerEvent(ts[0]));
      WaitsUp(Fire(s, ts[0]), until, ts[1..], end);
    }
  }

  /** The pin is down again, but not for the debounce time: a release timer that is due
      does nothing. */
  ghost predicate Bouncing(s: State, at: nat) {
    && Queued(s) && s.level && s.psh == Some(at + s.cfg.glitch)
    && forall i :: 0 <= i < |s.press| ==> s.press[i] == Some(at + s.cfg.cbs[i].interval)
  }

  lemma {:induction false} WaitsDown(s: State, at: nat, until: nat, ts: seq<Timer>, end: State)
    requires Bouncing(s, at) && LongThresholds(s.cfg) && until < at + s.cfg.glitch && Serves(s, until, ts, end)
    ensures Bouncing(end, at) && SameRelease(s, end)
    decreases |ts|
  {
    if ts != [] {
      NextQueued(s, TimerEvent(ts[0]));
      assert ts[0] == ReleaseTimer;
      WaitsDown(Fire(s, ts[0]), at, until, ts[1..], end);
    }
  }

  /** After a press has been held, its release bounces: the pin goes up, down again before
      the debounce time is over, and up for good before the debounce time is over. It shows
      what a clean press shows, the release once. */
  lemma BouncedRelease(s: State, at: nat, held: nat, ts: seq<Timer>, mid: State, down: nat, us: seq<Timer>, up: State,
                       again: nat, vs: seq<Timer>, low: State, until: nat, ws: seq<Timer>, end: State)
    returns (fired: seq<nat>)
    requires Prepared(s) && held >= s.cfg.glitch
    requires at + held <= down < at + held + s.cfg.glitch && down <= again < down + s.cfg.glitch
    requires until >= again + 2 * s.cfg.glitch
    requires DownUpDownUp(s, at, at + held, ts, mid, down, us, up, again, vs, low, until, ws, end)
    ensures FiredBy(s.cfg, held, fired) && end.ran == s.ran + PressActs(s.cfg, fired)
    ensures Quiet(end) && AtRest(end)
  {
    HeldStarts(s, at);
    fired := HeldServes(Edge(s, true, at), s.ran, at, [], at + held, ts, mid);
    HeldEnds(mid, s.ran, at, fired, held);
    ActsShown(mid, s.ran, at, fired, at + held);
    Bounces(Edge(mid, false, at + held), down, us, up, again, vs, low, until, ws, end);
  }

  /** The pin goes up at one tick, down at another and up again at a third, and timers are
      served in between. */
  ghost predicate UpAndDown(s: State, at: nat, down: nat, us: seq<Timer>, up: State, again: nat, vs: seq<Timer>,
                            low: State, until: nat, ws: seq<Timer>, end: State)
    requires Queued(s)
  {
    && ServesAfter(s, false, at, down, us, up)
    && Queued(up) && ServesAfter(up, true, down, again, vs, low)
    && Queued(low) && ServesAfter(low, false, again, until, ws, end)
  }

  ghost predicate DownUpDownUp(s: State, at: nat, off: nat, ts: seq<Timer>, mid: State, down: nat, us: seq<Timer>,
                               up: State, again: nat, vs: seq<Timer>, low: State, until: nat, ws: seq<Timer>,
                               end: State)
    requires Queued(s)
  {
    ServesAfter(s, true, at, off, ts, mid) && Queued(mid)
    && UpAndDown(mid, off, down, us, up, again, vs, low, until, ws, end)
  }

  lemma Bounces(s: State, down: nat, us: seq<Timer>, up: State, again: nat, vs: seq<Timer>, low: State,
                until: nat, ws: seq<Timer>, end: State)
    requires Releasing(s) && LongThresholds(s.cfg) && s.rls.value > down
    requires down <= again < down + s.cfg.glitch && until >= again + 2 * s.cfg.glitch
    requires Serves(s, down, us, up)
    requires Queued(up) && ServesAfter(up, true, down, again, vs, low)
    requires Queued(low) && ServesAfter(low, false, again, until, ws, end)
    ensures end.ran == s.ran + ReleaseActs(s) && Quiet(end) && AtRest(end)
  {
    WaitsUp(s, down, us, up);
    NextQueued(up, PinEvent(true, down));
    WaitsDown(Edge(up, true, down), down, again, vs, low);
    NextQueued(low, PinEvent(false, again));
    UpServes(Edge(low, false, again), until, ws, end);
  }

  /** The deferred callback of a press is the one with the greatest threshold reached. */
  lemma {:induction false} LastIsLongest(cfg: Config, done: seq<nat>)
    requires Ascending(cfg, done)
    ensures match LastDeferred(cfg, done)
      case None => forall k :: 0 <= k < |done| ==> !IsDeferred(cfg, done[k])
      case Some(i) =>
        && i in done && IsDeferred(cfg, i)
        && forall k :: 0 <= k < |done| && IsDeferred(cfg, done[k]) ==> cfg.cbs[done[k]].interval <= cfg.cbs[i].interval
  {
    if done != [] {
      var n := |done| - 1;
      LastIsLongest(cfg, done[..n]);
      assert forall k :: 0 <= k < n ==> done[k] == done[..n][k];
    }
  }
}
