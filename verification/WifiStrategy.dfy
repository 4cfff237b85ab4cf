/** When to try the Wi-Fi connection again, after app_event.c: three attempts at
    once, then rounds of twelve slow and three faster ones. */
module WifiStrategy {
  import opened Common

  const PHASE_1_DURATION := 3600

  const PHASE_1_TIMEOUT := 300

  const PHASE_2_TIMEOUT := 80

  /** connect_strategy_context_t; the timeout is in seconds. */
  datatype Phase = Phase(cnt: nat, max: nat, timeout: nat)

  // ---- where the machine stands, by the number of failures alone ----

  /** The phase, and the failures counted in it, after n failures in a row. */
  function Position(n: nat): (nat, nat) {
    if n < 3 then (0, n)
    else
      var m := (n - 3) % 15;
      if m < 12 then (1, m) else (2, m - 12)
  }

  function MaxCount(p: nat): nat {
    if p == 1 then PHASE_1_DURATION / PHASE_1_TIMEOUT else 3
  }

  function Timeout(p: nat): nat {
    if p == 0 then 0 else if p == 1 then PHASE_1_TIMEOUT else PHASE_2_TIMEOUT
  }

  lemma PositionStep(n: nat)
    ensures var (p, c) := Position(n);
      && p < 3 && c < MaxCount(p)
      && Position(n + 1) == if c + 1 >= MaxCount(p) then (if p == 1 then 2 else 1, 0) else (p, c + 1)
    ensures Delay(n) == Timeout(Position(n).0)
  {
  }

  /** The delay after the n-th failure in a row. */
  function Delay(n: nat): nat {
    if n < 3 then 0 else if (n - 3) % 15 < 12 then PHASE_1_TIMEOUT else PHASE_2_TIMEOUT
  }

  /** All the delays after n failures in a row, one by one. */
  function Waited(n: nat): nat {
    if n == 0 then 0 else Waited(n - 1) + Delay(n)
  }

  /** The same in closed form: 3840 seconds for each full round. */
  lemma {:induction false} WaitedClosed(n: nat)
    ensures n < 3 ==> Waited(n) == 0
    ensures n >= 3 ==> var k := n - 2; Waited(n) == k / 15 * 3840 + 300 * Min(k % 15, 12) + 80 * Max(k % 15 - 12, 0)
  {
    if n > 0 {
      WaitedClosed(n - 1);
      if n >= 3 {
        RoundStep(n - 3);
      }
    }
  }

  lemma RoundStep(j: nat)
    ensures (j + 1) / 15 == (if j % 15 == 14 then j / 15 + 1 else j / 15)
    ensures (j + 1) % 15 == (if j % 15 == 14 then 0 else j % 15 + 1)
  {
  }

  class Strategy {
    var connected: bool
    var curPhase: nat
    var phases: array<Phase>
    var timer: Option<nat>           // the delay the reconnect timer was started with

    ghost var failures: nat          // in a row, since the last success
    ghost var waited: nat            // the sum of their delays

    /** The counters say how many failures there have been: every counter is below
        its maximum, and only the current phase's can be other than zero. */
    ghost predicate Valid()
      reads this, phases
    {
      && phases.Length == 3 && curPhase == Position(failures).0 < 3
      && (forall i :: 0 <= i < 3 ==>
            phases[i] == Phase(if i == curPhase then Position(failures).1 else 0, MaxCount(i), Timeout(i)))
      && waited == Waited(failures)
    }

    /** wifi_custom_connect_strategy_init */
    constructor ()
      ensures Valid() && fresh(phases) && failures == 0 && !connected && timer == None
    {
      connected, curPhase, timer, failures, waited := false, 0, None, 0, 0;
      var p := new Phase[3](_ => Phase(0, 0, 0));
      phases := p;
      new;
      phases[0] := Phase(0, 3, 0);
      phases[1] := Phase(0, PHASE_1_DURATION / PHASE_1_TIMEOUT, PHASE_1_TIMEOUT);
      phases[2] := Phase(0, 3, PHASE_2_TIMEOUT);
    }

    /** Count a failure in the current phase; at the maximum, turn to the next one. */
    method Count(next: nat)
      requires curPhase < phases.Length
      modifies this`curPhase, phases
      ensures forall i :: 0 <= i < phases.Length && i != old(curPhase) ==> phases[i] == old(phases[i])
      ensures var p := old(phases[curPhase]);
        var full := p.cnt + 1 >= p.max;
        && phases[old(curPhase)] == p.(cnt := if full then 0 else p.cnt + 1)
        && curPhase == if full then next else old(curPhase)
    {
      var i := curPhase;
      phases[i] := phases[i].(cnt := phases[i].cnt + 1);
      if phases[i].cnt >= phases[i].max {
        phases[i] := phases[i].(cnt := 0);
        curPhase := next;
      }
    }

    /** wifi_custom_connect_fail */
    method Fail()
      requires Valid()
      modifies this`connected, this`curPhase, this`timer, this`failures, this`waited, phases
      ensures Valid() && !connected && failures == old(failures) + 1
      ensures timer == Some(Delay(failures)) && waited == old(waited) + Delay(failures)
    {
      connected := false;
      PositionStep(failures);
      PositionStep(failures + 1);
      match curPhase {
        case 0 => Count(1);
        case 1 => Count(2);
        case _ => Count(1);
      }
      timer := Some(phases[curPhase].timeout);
      failures, waited := failures + 1, waited + phases[curPhase].timeout;
    }

    /** wifi_custom_connect_success */
    method Success()
      requires Valid()
      modifies this`connected, this`curPhase, this`timer, this`failures, this`waited, phases
      ensures Valid() && connected && failures == 0 && timer == None
    {
      connected, curPhase := true, 0;
      var i := 0;
      while i < 3
        invariant 0 <= i <= 3 && connected && curPhase == 0
        invariant forall j :: 0 <= j < 3 ==>
          phases[j] == old(phases[j]).(cnt := if j < i then 0 else old(phases[j].cnt))
      {
        phases[i] := phases[i].(cnt := 0);
        i := i + 1;
      }
      timer, failures, waited := None, 0, 0;
    }

    /** Any run of failures (false) and successes (true), and the delays it sets. */
    method Run(outcomes: seq<bool>) returns (delays: seq<nat>)
      requires Valid() && failures == 0
      modifies this`connected, this`curPhase, this`timer, this`failures, this`waited, phases
      ensures Valid() && |delays| == |outcomes| && failures == InARow(outcomes)
      ensures forall i :: 0 <= i < |outcomes| && !outcomes[i] ==> delays[i] == Delay(InARow(outcomes[..i + 1]))
    {
      delays := [];
      var i := 0;
      while i < |outcomes|
        invariant 0 <= i <= |outcomes| && Valid() && |delays| == i && failures == InARow(outcomes[..i])
        invariant forall k :: 0 <= k < i && !outcomes[k] ==> delays[k] == Delay(InARow(outcomes[..k + 1]))
      {
        assert outcomes[..i + 1][..i] == outcomes[..i];
        if outcomes[i] {
          Success();
        } else {
          Fail();
        }
        delays := delays + [if timer.Some? then timer.value else 0];
        i := i + 1;
      }
      assert outcomes[..i] == outcomes;
    }
  }

  /** The failures at the end of a run. */
  function InARow(outcomes: seq<bool>): nat {
    if outcomes == [] || outcomes[|outcomes| - 1] then 0 else InARow(outcomes[..|outcomes| - 1]) + 1
  }
}
