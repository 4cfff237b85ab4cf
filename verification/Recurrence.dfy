/** Timers that are re-armed for the next occurrence each time one is served,
    whatever the rule of occurrence is. */
module Recurrence {

  /** SECONDS_TILL_2020: before this the clock has not been set, and nothing is armed. */
  const TILL_2020 := (2020 - 1970) * 365 * 24 * 3600

  /** u is the first occurrence strictly after t. */
  ghost predicate FirstAfter(occurs: nat -> bool, t: nat, u: nat) {
    u > t && occurs(u) && forall v :: t < v < u ==> !occurs(v)
  }

  /** A rule, and a function that finds the next occurrence. */
  ghost predicate Finds(occurs: nat -> bool, next: nat -> nat) {
    forall t :: FirstAfter(occurs, t, next(t))
  }

  /** The instants for which a run arms the timer: first for the enabling, then
      after each served callback. */
  function Armed(next: nat -> nat, start: nat, served: seq<nat>, i: nat): nat
    requires i <= |served|
  {
    next(if i == 0 then start else served[i - 1])
  }

  /** The triggers are the first armed instants. */
  ghost predicate TriggeredFor(next: nat -> nat, start: nat, served: seq<nat>, triggers: seq<nat>) {
    && |triggers| <= |served|
    && forall i {:trigger triggers[i]} :: 0 <= i < |triggers| ==> triggers[i] == Armed(next, start, served, i)
  }

  lemma TriggeredStep(next: nat -> nat, start: nat, served: seq<nat>, triggers: seq<nat>)
    requires TriggeredFor(next, start, served, triggers) && |triggers| < |served|
    ensures TriggeredFor(next, start, served, triggers + [Armed(next, start, served, |triggers|)])
  {
  }

  /** No callback comes before its timer is due. */
  ghost predicate Possible(next: nat -> nat, start: nat, served: seq<nat>) {
    forall i {:trigger Armed(next, start, served, i)} :: 0 <= i < |served| ==>
      served[i] >= Armed(next, start, served, i)
  }

  /** And each comes before the occurrence after it. */
  ghost predicate Prompt(next: nat -> nat, start: nat, served: seq<nat>) {
    forall i {:trigger Armed(next, start, served, i)} :: 0 <= i < |served| ==>
      served[i] < next(Armed(next, start, served, i))
  }

  /** Serving a callback at s, due at a, arms the timer for the occurrence after a
      if and only if that one has not come yet. */
  lemma NoneMissed(occurs: nat -> bool, next: nat -> nat, a: nat, s: nat)
    requires Finds(occurs, next) && s >= a
    ensures next(s) == next(a) <==> s < next(a)
  {
    assert FirstAfter(occurs, a, next(a)) && FirstAfter(occurs, s, next(s));
  }

  lemma Successive(occurs: nat -> bool, next: nat -> nat, start: nat, served: seq<nat>, i: nat)
    requires Finds(occurs, next) && i < |served| && Possible(next, start, served) && Prompt(next, start, served)
    ensures var a, b := Armed(next, start, served, i), Armed(next, start, served, i + 1);
      a <= served[i] < b && FirstAfter(occurs, a, b)
  {
    var a := Armed(next, start, served, i);
    NoneMissed(occurs, next, a, served[i]);
    assert FirstAfter(occurs, a, next(a));
  }

  ghost predicate IsArmed(next: nat -> nat, start: nat, served: seq<nat>, n: nat, u: nat)
    requires n <= |served|
  {
    exists i :: 0 <= i <= n && u == Armed(next, start, served, i)
  }

  lemma IsArmedStep(next: nat -> nat, start: nat, served: seq<nat>, n: nat, u: nat)
    requires 0 < n <= |served|
    ensures IsArmed(next, start, served, n, u) <==>
      u == Armed(next, start, served, n) || IsArmed(next, start, served, n - 1, u)
  {
  }

  /** With every callback served in time, the instants armed for are exactly the
      occurrences since the start, in order, each once. */
  lemma {:induction false} EachOnce(occurs: nat -> bool, next: nat -> nat, start: nat, served: seq<nat>, n: nat)
    requires Finds(occurs, next) && n <= |served| && Possible(next, start, served) && Prompt(next, start, served)
    ensures Armed(next, start, served, n) > start
    ensures forall u: nat :: IsArmed(next, start, served, n, u) ==> u <= Armed(next, start, served, n)
    ensures forall u :: start < u <= Armed(next, start, served, n) ==>
      (occurs(u) <==> IsArmed(next, start, served, n, u))
  {
    var last := Armed(next, start, served, n);
    if n == 0 {
      assert FirstAfter(occurs, start, last);
      assert IsArmed(next, start, served, 0, last);
    } else {
      EachOnce(occurs, next, start, served, n - 1);
      Successive(occurs, next, start, served, n - 1);
      forall u ensures IsArmed(next, start, served, n, u) <==>
        u == last || IsArmed(next, start, served, n - 1, u)
      {
        IsArmedStep(next, start, served, n, u);
      }
    }
  }

  /** The armed instants ascend. */
  lemma ArmedAscend(occurs: nat -> bool, next: nat -> nat, start: nat, served: seq<nat>, i: nat, j: nat)
    requires Finds(occurs, next) && Possible(next, start, served) && Prompt(next, start, served)
    requires i < j <= |served|
    ensures Armed(next, start, served, i) < Armed(next, start, served, j)
  {
    EachOnce(occurs, next, start, served, j - 1);
    assert IsArmed(next, start, served, j - 1, Armed(next, start, served, i));
    Successive(occurs, next, start, served, j - 1);
  }

  /** The callbacks served, in terms of the occurrences before the armed one. */
  lemma ServedAreOccurrences(occurs: nat -> bool, next: nat -> nat, start: nat, served: seq<nat>, triggers: seq<nat>)
    requires Finds(occurs, next) && Possible(next, start, served) && Prompt(next, start, served)
    requires |triggers| == |served| && TriggeredFor(next, start, served, triggers)
    ensures forall i, j :: 0 <= i < j < |triggers| ==> triggers[i] < triggers[j]
    ensures forall u :: start < u < Armed(next, start, served, |served|) ==> (occurs(u) <==> u in triggers)
  {
    forall i, j | 0 <= i < j < |triggers| ensures triggers[i] < triggers[j] {
      ArmedAscend(occurs, next, start, served, i, j);
    }
    var n := |served|;
    EachOnce(occurs, next, start, served, n);
    forall u | start < u < Armed(next, start, served, n)
      ensures IsArmed(next, start, served, n, u) <==> u in triggers
    {
      if IsArmed(next, start, served, n, u) {
        var i :| 0 <= i <= n && u == Armed(next, start, served, i);
        assert triggers[i] == u;
      }
    }
  }

  /** Every callback comes after the start. */
  lemma ServedLate(occurs: nat -> bool, next: nat -> nat, start: nat, served: seq<nat>, n: nat)
    requires Finds(occurs, next) && n < |served| && Possible(next, start, served)
    ensures served[n] > start && served[n] >= Armed(next, start, served, n)
    decreases n
  {
    assert FirstAfter(occurs, if n == 0 then start else served[n - 1], Armed(next, start, served, n));
    if n > 0 {
      ServedLate(occurs, next, start, served, n - 1);
    }
  }
}
