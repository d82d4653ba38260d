/**
 Runs of the timing wheel: a client that adds timers, removes those that have not fired yet, and
 lets the wheel tick.
 */
module TimeWheelRuns {
  import opened TimeWheel

  /** What a client asks for; `which` is the number of the request that added the timer to be removed. */
  datatype Request = AddFor(timeout: int) | Remove(which: nat) | TickOnce

  /** What the `i`-th request comes to, given the timers added by the requests so far and the countdowns before
   it: a negative timeout, and removing what is not in the wheel, come to nothing. */
  ghost function StepFor(request: Request, added: seq<Timer?>, i: nat, m: map<Timer, int>): Step<Timer>
    requires i < |added|
  {
    match request
    case AddFor(timeout) =>
      if added[i] == null || timeout < 0 then Skip else (var t: Timer := added[i]; Add(t, TicksFor(timeout)))
    case Remove(k) =>
      if k < i && added[k] != null && added[k] in m then (var t: Timer := added[k]; Del(t)) else Skip
    case TickOnce => Tick
  }

  /** The timers added so far are new and different, and there is one for each timeout that is not negative. */
  ghost predicate AllNew(requests: seq<Request>, m0: map<Timer, int>, added: seq<Timer?>) {
    && |added| <= |requests|
    && (forall i :: 0 <= i < |added| ==> (added[i] != null <==> requests[i].AddFor? && requests[i].timeout >= 0))
    && (forall i :: 0 <= i < |added| && added[i] != null ==> added[i] !in m0)
    && (forall i, j :: 0 <= i < j < |added| && added[i] != null ==> added[i] != added[j])
  }

  /** What the `i`-th request fires: a tick the timers at zero, each once, and the others nothing. */
  ghost predicate FiredAt(request: Request, m: map<Timer, int>, fired: seq<Timer>) {
    if request.TickOnce? then Distinct(fired) && Elems(fired) == set t | t in m && m[t] == 0 else fired == []
  }

  ghost predicate TraceAt(requests: seq<Request>, m0: map<Timer, int>, added: seq<Timer?>, steps: seq<Step<Timer>>,
                          fired: seq<seq<Timer>>, i: nat)
    requires i < |fired| == |added| == |steps| <= |requests|
  {
    var m := Run(m0, steps[..i]);
    steps[i] == StepFor(requests[i], added, i, m) && FiredAt(requests[i], m, fired[i])
  }

  /** A record of the first requests: what was added, the step each came to, and what each fired. */
  ghost predicate IsTrace(requests: seq<Request>, m0: map<Timer, int>, added: seq<Timer?>, steps: seq<Step<Timer>>,
                          fired: seq<seq<Timer>>)
  {
    && |fired| == |added| == |steps| <= |requests| && AllNew(requests, m0, added)
    && forall i :: 0 <= i < |steps| ==> TraceAt(requests, m0, added, steps, fired, i)
  }

  lemma {:induction false} TraceMore(requests: seq<Request>, m0: map<Timer, int>, added: seq<Timer?>,
                                     steps: seq<Step<Timer>>, fired: seq<seq<Timer>>, t: Timer?,
                                     step: Step<Timer>, f: seq<Timer>)
    requires IsTrace(requests, m0, added, steps, fired) && |steps| < |requests|
    requires AllNew(requests, m0, added + [t])
    requires var (n, m) := (|steps|, Run(m0, steps));
      step == StepFor(requests[n], added + [t], n, m) && FiredAt(requests[n], m, f)
    ensures IsTrace(requests, m0, added + [t], steps + [step], fired + [f])
    ensures Run(m0, steps + [step]) == After1(Run(m0, steps), step)
  {
    hide FiredAt, AllNew, After1;
    var a, s, g := added + [t], steps + [step], fired + [f];
    assert s[..|steps|] == steps;
    forall i | 0 <= i < |s| ensures TraceAt(requests, m0, a, s, g, i) {
      if i < |steps| {
        assert TraceAt(requests, m0, added, steps, fired, i);
        assert s[..i] == steps[..i];
        StepForSame(requests[i], added, t, i, Run(m0, steps[..i]));
      }
    }
  }

  lemma {:induction false} StepForSame(request: Request, added: seq<Timer?>, t: Timer?, i: nat, m: map<Timer, int>)
    requires i < |added|
    ensures StepFor(request, added + [t], i, m) == StepFor(request, added, i, m)
  {
  }

  lemma {:induction false} AllNewMore(requests: seq<Request>, m0: map<Timer, int>, added: seq<Timer?>, t: Timer?)
    requires AllNew(requests, m0, added) && |added| < |requests|
    requires var r := requests[|added|]; t != null <==> r.AddFor? && r.timeout >= 0
    requires t != null ==> t !in m0 && t !in added
    ensures AllNew(requests, m0, added + [t])
  {
  }

  // ----- When a timer fires

  /** How many of the requests from `from` to `to` are ticks. */
  function TicksIn(requests: seq<Request>, from: nat, to: nat): nat
    requires from <= to <= |requests|
  {
    if from == to then 0 else TicksIn(requests, from, to - 1) + if requests[to - 1].TickOnce? then 1 else 0
  }

  lemma {:induction false} RunJoined<T>(m: map<T, int>, s: seq<Step<T>>, u: seq<Step<T>>)
    ensures Run(m, s + u) == Run(Run(m, s), u)
  {
    hide After1;
    if u == [] {
      assert s + u == s;
    } else {
      var n := |u| - 1;
      assert (s + u)[..|s + u| - 1] == s + u[..n];
      RunJoined(m, s, u[..n]);
    }
  }

  lemma {:induction false} TraceTicks(requests: seq<Request>, m0: map<Timer, int>, added: seq<Timer?>,
                                      steps: seq<Step<Timer>>, fired: seq<seq<Timer>>, from: nat, to: nat)
    requires IsTrace(requests, m0, added, steps, fired) && from <= to <= |steps|
    ensures Ticks(steps[from..to]) == TicksIn(requests, from, to)
  {
    if from < to {
      TraceTicks(requests, m0, added, steps, fired, from, to - 1);
      assert steps[from..to][..to - from - 1] == steps[from..to - 1];
      assert TraceAt(requests, m0, added, steps, fired, to - 1);
    }
  }

  lemma {:induction false} TraceUntouched(requests: seq<Request>, m0: map<Timer, int>, added: seq<Timer?>,
                                          steps: seq<Step<Timer>>, fired: seq<seq<Timer>>, j: nat, i: nat)
    requires IsTrace(requests, m0, added, steps, fired) && j < i <= |steps| && added[j] != null
    requires forall k :: j < k < i ==> requests[k] != Remove(j)
    ensures Untouched(steps[j + 1..i], added[j])
  {
    forall k | j < k < i && (steps[k].Add? || steps[k].Del?) ensures steps[k].timer != added[j] {
      assert TraceAt(requests, m0, added, steps, fired, k);
    }
  }

  /** In every run of the wheel, a timer that is not removed is fired by the tick that comes after as many
   others as the timer was given ticks, and by no other. */
  lemma {:induction false} FiresOnTime(requests: seq<Request>, m0: map<Timer, int>, added: seq<Timer?>,
                                       steps: seq<Step<Timer>>, fired: seq<seq<Timer>>, j: nat, i: nat)
    requires IsTrace(requests, m0, added, steps, fired) && j < i < |steps| && added[j] != null
    requires requests[i].TickOnce? && forall k :: j < k < i ==> requests[k] != Remove(j)
    ensures requests[j].AddFor? && requests[j].timeout >= 0
    ensures added[j] in fired[i] <==> TicksIn(requests, j + 1, i) == TicksFor(requests[j].timeout)
  {
    hide Run, Ticks, Untouched, TicksFor;
    assert TraceAt(requests, m0, added, steps, fired, j);
    assert TraceAt(requests, m0, added, steps, fired, i);
    var t: Timer := added[j];
    TraceTicks(requests, m0, added, steps, fired, j + 1, i);
    TraceUntouched(requests, m0, added, steps, fired, j, i);
    RunOne(m0, steps, j);
    assert steps[..i] == steps[..j + 1] + steps[j + 1..i];
    RunJoined(m0, steps[..j + 1], steps[j + 1..i]);
    FiresOnce(Run(m0, steps[..j]), TicksFor(requests[j].timeout), t, steps[j + 1..i]);
    assert t in fired[i] <==> t in Elems(fired[i]);
  }

  lemma {:induction false} RunOne<T>(m: map<T, int>, steps: seq<Step<T>>, j: nat)
    requires j < |steps|
    ensures Run(m, steps[..j + 1]) == After1(Run(m, steps[..j]), steps[j])
  {
    assert steps[..j + 1][..j] == steps[..j];
  }

  // ----- The client

  /** The client's own note of its timers agrees with the wheel. */
  ghost predicate Noted(added: seq<Timer?>, present: set<Timer>, m: map<Timer, int>) {
    forall t :: t in added && t != null ==> (t in present <==> t in m)
  }

  method Perform(w: Wheel, request: Request, added: seq<Timer?>, present: set<Timer>)
    returns (t: Timer?, ghost step: Step<Timer>, f: seq<Timer>, present': set<Timer>)
    requires w.Valid() && Noted(added, present, w.Countdowns())
    modifies w, w.slots, w.timers
    ensures w.Valid() && Noted(added + [t], present', w.Countdowns())
    ensures t != null <==> request.AddFor? && request.timeout >= 0
    ensures t != null ==> fresh(t)
    ensures w.timers <= old(w.timers) + if t == null then {} else {t}
    ensures step == StepFor(request, added + [t], |added|, old(w.Countdowns()))
    ensures FiredAt(request, old(w.Countdowns()), f)
    ensures w.Countdowns() == After1(old(w.Countdowns()), step)
  {
    hide w.Valid, Distinct;
    t, step, f, present' := null, Skip, [], present;
    match request {
      case AddFor(timeout) =>
        t := w.AddTimer(timeout);
        if t != null {
          step := Add(t, TicksFor(timeout));
          present' := present + {t};
        }
      case Remove(k) =>
        if k < |added| && added[k] != null && added[k] in present {
          w.DelTimer(added[k]);
          step := Del(added[k]);
          present' := present - {added[k]};
        }
      case TickOnce =>
        f := w.Tick();
        step := Step.Tick;
        present' := present - set x | x in f;
    }
  }

  /** Any run of additions, removals and ticks on a wheel: its countdowns are those of the steps the requests
   came to, each tick fires exactly the timers at zero, and each timer fires on time. */
  method Serve(w: Wheel, requests: seq<Request>)
    returns (added: seq<Timer?>, fired: seq<seq<Timer>>, ghost steps: seq<Step<Timer>>)
    requires w.Valid()
    modifies w, w.slots, w.timers
    ensures w.Valid() && |steps| == |requests| && w.Countdowns() == Run(old(w.Countdowns()), steps)
    ensures IsTrace(requests, old(w.Countdowns()), added, steps, fired)
    ensures forall j, i :: 0 <= j < i < |requests| && added[j] != null && requests[i].TickOnce?
                           && (forall k :: j < k < i ==> requests[k] != Remove(j)) ==>
      (added[j] in fired[i] <==> TicksIn(requests, j + 1, i) == TicksFor(requests[j].timeout))
  {
    hide w.Valid, w.Countdowns, FiredAt, After1, StepFor, TraceAt, TicksFor;
    added, fired, steps := [], [], [];
    ghost var m0 := w.Countdowns();
    var present: set<Timer> := {};
    for n := 0 to |requests|
      invariant w.Valid() && |steps| == n && w.Countdowns() == Run(m0, steps)
      invariant forall t :: t in w.timers ==> t in old(w.timers) || fresh(t)
      invariant IsTrace(requests, m0, added, steps, fired) && Noted(added, present, w.Countdowns())
      invariant forall t :: t in m0 || t in added ==> allocated(t)
    {
      var t, f; ghost var step;
      t, step, f, present := Perform(w, requests[n], added, present);
      AllNewMore(requests, m0, added, t);
      TraceMore(requests, m0, added, steps, fired, t, step, f);
      added, steps, fired := added + [t], steps + [step], fired + [f];
    }
    forall j, i | 0 <= j < i < |requests| && added[j] != null && requests[i].TickOnce?
                  && (forall k :: j < k < i ==> requests[k] != Remove(j))
      ensures added[j] in fired[i] <==> TicksIn(requests, j + 1, i) == TicksFor(requests[j].timeout)
    {
      FiresOnTime(requests, m0, added, steps, fired, j, i);
    }
  }
}
