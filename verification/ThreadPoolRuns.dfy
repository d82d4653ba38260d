/**
 What the thread pool has done in a run, seen from the steps of its threads: what `append` answers, where the
 accepted requests come from, which of them are processed, and when a worker leaves.
 */
module ThreadPoolRuns {
  import opened ThreadPool

  // ----- The states of a run

  lemma {:induction false} RunPrefix(s: Pool, steps: seq<Step>, k: nat)
    requires IsRun(s, steps) && k <= |steps|
    ensures IsRun(s, steps[..k])
    decreases |steps|
  {
    hide Next, Enabled;
    if k > 0 {
      RunPrefix(Next(s, steps[0]), steps[1..], k - 1);
      assert steps[..k][1..] == steps[1..][..k - 1];
    }
  }

  /** The state after the first `k` steps. */
  ghost function State(s: Pool, steps: seq<Step>, k: nat): Pool
    requires IsRun(s, steps) && k <= |steps|
  {
    RunPrefix(s, steps, k);
    After(s, steps[..k])
  }

  lemma {:induction false} OneStep(s: Pool, steps: seq<Step>, k: nat)
    requires IsRun(s, steps) && k < |steps|
    ensures Enabled(State(s, steps, k), steps[k])
    ensures State(s, steps, k + 1) == Next(State(s, steps, k), steps[k])
    decreases |steps|
  {
    hide Next, Enabled;
    RunPrefix(s, steps, k);
    RunPrefix(s, steps, k + 1);
    if k == 0 {
      assert steps[..1][0] == steps[0] && steps[..1][1..] == [] && steps[..0] == [];
      assert After(Next(s, steps[0]), []) == Next(s, steps[0]);
    } else {
      assert steps[..k][1..] == steps[1..][..k - 1] && steps[..k + 1][1..] == steps[1..][..k];
      OneStep(Next(s, steps[0]), steps[1..], k - 1);
    }
  }

  lemma {:induction false} FirstAndLast(s: Pool, steps: seq<Step>)
    requires IsRun(s, steps)
    ensures State(s, steps, 0) == s && State(s, steps, |steps|) == After(s, steps)
  {
    hide Next, Enabled;
    assert steps[..0] == [] && steps[..|steps|] == steps;
  }

  // ----- What append answers

  /** Step `m` is one of thread `t` that adds `r` to the accepted requests. */
  ghost predicate Adds(s: Pool, steps: seq<Step>, m: nat, t: nat, r: Request)
    requires IsRun(s, steps) && m < |steps|
  {
    steps[m] == Run(t) && State(s, steps, m + 1).accepted == State(s, steps, m).accepted + [r]
  }

  /** Step `m` is one of thread `t`, in which it finds more requests queued than the limit. */
  ghost predicate FindsFull(s: Pool, steps: seq<Step>, m: nat, t: nat)
    requires IsRun(s, steps) && m < |steps|
  {
    var u := State(s, steps, m);
    steps[m] == Run(t) && t in u.threads && u.threads[t].Checking? && |u.queue| > u.maxRequests
  }

  /** Thread `t` starts to append `r` at step `j` and nothing else before step `k`. */
  ghost predicate Appends(steps: seq<Step>, j: nat, k: nat, t: nat, r: Request) {
    && j < k <= |steps| && steps[j] == Append(t, r)
    && forall m :: j < m < k && steps[m].Append? ==> steps[m].thread != t
  }

  /** `m` is the one step of `t` between `j` and `k` that adds to the accepted requests, and it adds `r`. */
  ghost predicate AddsOnce(s: Pool, steps: seq<Step>, j: nat, k: nat, t: nat, r: Request, m: nat)
    requires IsRun(s, steps) && k <= |steps|
  {
    && j < m < k && Adds(s, steps, m, t, r)
    && forall i :: j < i < k && i != m && steps[i] == Run(t) ==>
         State(s, steps, i + 1).accepted == State(s, steps, i).accepted
  }

  ghost predicate AddsNothing(s: Pool, steps: seq<Step>, j: nat, k: nat, t: nat)
    requires IsRun(s, steps) && k <= |steps|
  {
    forall i :: j < i < k && steps[i] == Run(t) ==> State(s, steps, i + 1).accepted == State(s, steps, i).accepted
  }

  ghost predicate FindsFullBetween(s: Pool, steps: seq<Step>, j: nat, k: nat, t: nat)
    requires IsRun(s, steps) && k <= |steps|
  {
    exists m :: j < m < k && FindsFull(s, steps, m, t)
  }

  ghost predicate AddsOnceBetween(s: Pool, steps: seq<Step>, j: nat, k: nat, t: nat, r: Request)
    requires IsRun(s, steps) && k <= |steps|
  {
    exists m :: AddsOnce(s, steps, j, k, t, r, m)
  }

  /** Where an appending thread can be, and what it has done to get there. */
  ghost predicate Progress(s: Pool, steps: seq<Step>, j: nat, k: nat, t: nat, r: Request, l: Location)
    requires IsRun(s, steps) && k <= |steps|
  {
    match l
    case WantsLock(q) => q == r && AddsNothing(s, steps, j, k, t) && !FindsFullBetween(s, steps, j, k, t)
    case Checking(q) => q == r && AddsNothing(s, steps, j, k, t) && !FindsFullBetween(s, steps, j, k, t)
    case Rejecting => AddsNothing(s, steps, j, k, t) && FindsFullBetween(s, steps, j, k, t)
    case Pushed => AddsOnceBetween(s, steps, j, k, t, r) && !FindsFullBetween(s, steps, j, k, t)
    case Posting => AddsOnceBetween(s, steps, j, k, t, r) && !FindsFullBetween(s, steps, j, k, t)
    case Returned(b) =>
      if b then AddsOnceBetween(s, steps, j, k, t, r) && !FindsFullBetween(s, steps, j, k, t)
      else AddsNothing(s, steps, j, k, t) && FindsFullBetween(s, steps, j, k, t)
    case _ => false
  }

  /** A step that neither adds to the accepted requests nor finds the queue full. */
  lemma {:induction false} Quiet(s: Pool, steps: seq<Step>, j: nat, k: nat, t: nat, r: Request)
    requires IsRun(s, steps) && j < k < |steps|
    requires steps[k] == Run(t) ==> State(s, steps, k + 1).accepted == State(s, steps, k).accepted
    requires !FindsFull(s, steps, k, t)
    ensures AddsNothing(s, steps, j, k, t) ==> AddsNothing(s, steps, j, k + 1, t)
    ensures AddsOnceBetween(s, steps, j, k, t, r) ==> AddsOnceBetween(s, steps, j, k + 1, t, r)
    ensures FindsFullBetween(s, steps, j, k, t) <==> FindsFullBetween(s, steps, j, k + 1, t)
  {
    hide IsRun, State;
    if AddsOnceBetween(s, steps, j, k, t, r) {
      var m :| AddsOnce(s, steps, j, k, t, r, m);
      assert AddsOnce(s, steps, j, k + 1, t, r, m);
    }
    if m :| j < m < k && FindsFull(s, steps, m, t) {
      assert j < m < k + 1 && FindsFull(s, steps, m, t);
    }
  }

  /** The step that tests the size: it adds the request, or finds the queue full. */
  lemma {:induction false} Tests(s: Pool, steps: seq<Step>, j: nat, k: nat, t: nat, r: Request)
    requires IsRun(s, steps) && j < k < |steps| && steps[k] == Run(t)
    requires t in State(s, steps, k).threads && State(s, steps, k).threads[t] == Checking(r)
    requires AddsNothing(s, steps, j, k, t) && !FindsFullBetween(s, steps, j, k, t)
    ensures t in State(s, steps, k + 1).threads
    ensures Progress(s, steps, j, k + 1, t, r, State(s, steps, k + 1).threads[t])
  {
    var u := State(s, steps, k);
    OneStep(s, steps, k);
    hide IsRun, State;
    if |u.queue| > u.maxRequests {
      assert FindsFull(s, steps, k, t);
      assert FindsFullBetween(s, steps, j, k + 1, t);
    } else {
      assert AddsOnce(s, steps, j, k + 1, t, r, k);
    }
  }

  /** Every other step of the appending thread, and the steps of the others. */
  lemma {:induction false} MovesOn(u: Pool, step: Step, t: nat)
    requires Enabled(u, step) && t in u.threads
    requires !(step.Append? && step.thread == t) && !(step == Run(t) && u.threads[t].Checking?)
    ensures var v := Next(u, step);
      && t in v.threads && (step == Run(t) && !IsWorker(u.threads[t]) ==> v.accepted == u.accepted)
      && (step != Run(t) ==> v.threads[t] == u.threads[t])
      && (step == Run(t) ==>
            match u.threads[t]
            case WantsLock(r) => v.threads[t] == Checking(r)
            case Rejecting => v.threads[t] == Returned(false)
            case Pushed => v.threads[t] == Posting
            case Posting => v.threads[t] == Returned(true)
            case _ => IsWorker(u.threads[t]))
  {
  }

  lemma {:induction false} ProgressKept(s: Pool, steps: seq<Step>, j: nat, k: nat, t: nat, r: Request)
    requires IsRun(s, steps) && Appends(steps, j, k, t, r)
    ensures t in State(s, steps, k).threads
    ensures Progress(s, steps, j, k, t, r, State(s, steps, k).threads[t])
    decreases k
  {
    hide IsRun, State, Next, Enabled;
    OneStep(s, steps, k - 1);
    if k == j + 1 {
      Begins(State(s, steps, j), t, r);
    } else {
      ProgressKept(s, steps, j, k - 1, t, r);
      var u := State(s, steps, k - 1);
      if steps[k - 1] == Run(t) && u.threads[t].Checking? {
        Tests(s, steps, j, k - 1, t, r);
      } else {
        MovesOn(u, steps[k - 1], t);
        Quiet(s, steps, j, k - 1, t, r);
      }
    }
  }

  lemma {:induction false} Begins(u: Pool, t: nat, r: Request)
    requires Enabled(u, Append(t, r))
    ensures var v := Next(u, Append(t, r)); t in v.threads && v.threads[t] == WantsLock(r)
  {
  }

  /** Over every run: when `append` has returned, its answer is true exactly if one step of its thread has added the
   request to the accepted ones, and false exactly if its size test found more requests than the limit; and no other
   step of its thread has added anything. */
  lemma {:induction false} AppendAnswers(s: Pool, steps: seq<Step>, j: nat, k: nat, t: nat, r: Request, b: bool)
    requires IsRun(s, steps) && Appends(steps, j, k, t, r)
    requires t in State(s, steps, k).threads && State(s, steps, k).threads[t] == Returned(b)
    ensures b <==> AddsOnceBetween(s, steps, j, k, t, r)
    ensures !b <==> AddsNothing(s, steps, j, k, t)
    ensures !b <==> FindsFullBetween(s, steps, j, k, t)
  {
    hide IsRun, State;
    ProgressKept(s, steps, j, k, t, r);
    if m: nat :| AddsOnce(s, steps, j, k, t, r, m) {
      assert steps[m] == Run(t) && |State(s, steps, m + 1).accepted| != |State(s, steps, m).accepted|;
    }
  }

  // ----- Where the accepted requests come from

  /** The accepted requests come from different `append` calls, whose first steps `origin` lists; and those of the calls
   that have not added theirs yet, listed in `pending` by thread, are not among them. */
  ghost predicate Sourced(steps: seq<Step>, u: Pool, origin: seq<nat>, pending: map<nat, nat>) {
    && |origin| == |u.accepted|
    && (forall i :: 0 <= i < |origin| ==> origin[i] < |steps| && steps[origin[i]].Append?
                                          && steps[origin[i]].request == u.accepted[i])
    && (forall i, j :: 0 <= i < j < |origin| ==> origin[i] != origin[j])
    && (forall t :: t in u.threads && Undecided(u.threads[t]) ==>
          t in pending && pending[t] < |steps| && steps[pending[t]] == Append(t, u.threads[t].request)
          && pending[t] !in origin)
  }

  predicate Undecided(l: Location) {
    l.WantsLock? || l.Checking?
  }

  /** The calls that are undecided after a step were so before it, but for that of thread `t`. */
  ghost predicate StillUndecided(u: Pool, v: Pool, t: nat) {
    forall x :: x in v.threads && Undecided(v.threads[x]) && x != t ==>
      x in u.threads && Undecided(u.threads[x]) && u.threads[x].request == v.threads[x].request
  }

  lemma {:induction false} SourcedSame(steps: seq<Step>, u: Pool, v: Pool, t: nat, origin: seq<nat>,
                                       pending: map<nat, nat>, step: Step)
    requires Sourced(steps, u, origin, pending) && v.accepted == u.accepted && StillUndecided(u, v, t)
    requires t in v.threads && Undecided(v.threads[t]) ==>
               t in u.threads && Undecided(u.threads[t]) && u.threads[t].request == v.threads[t].request
    ensures Sourced(steps + [step], v, origin, pending)
  {
  }

  lemma {:induction false} SourcedAppend(steps: seq<Step>, u: Pool, t: nat, r: Request, origin: seq<nat>,
                                         pending: map<nat, nat>)
    requires Sourced(steps, u, origin, pending)
    ensures Sourced(steps + [Append(t, r)], At(u, t, WantsLock(r)), origin, pending[t := |steps|])
  {
  }

  lemma {:induction false} SourcedPush(steps: seq<Step>, u: Pool, v: Pool, t: nat, r: Request, origin: seq<nat>,
                                       pending: map<nat, nat>)
    requires Sourced(steps, u, origin, pending) && t in u.threads && u.threads[t] == Checking(r)
    requires v.accepted == u.accepted + [r] && StillUndecided(u, v, t)
    requires t in v.threads && !Undecided(v.threads[t])
    ensures t in pending && Sourced(steps + [Run(t)], v, origin + [pending[t]], pending)
  {
    var o := origin + [pending[t]];
    forall x | x in v.threads && Undecided(v.threads[x])
      ensures x in pending && pending[x] !in o
    {
      assert steps[pending[x]].thread == x;
    }
  }

  lemma {:induction false} RunFacts(u: Pool, t: nat)
    requires Enabled(u, Run(t))
    ensures var v, l := Next(u, Run(t)), u.threads[t];
      && t in v.threads && v.threads == u.threads[t := v.threads[t]]
      && (if l.Checking? && |u.queue| <= u.maxRequests
          then v.accepted == u.accepted + [l.request] && !Undecided(v.threads[t])
          else v.accepted == u.accepted
               && (Undecided(v.threads[t]) ==> Undecided(l) && l.request == v.threads[t].request))
  {
  }

  lemma {:induction false} SourcedNext(steps: seq<Step>, u: Pool, origin: seq<nat>, pending: map<nat, nat>, step: Step)
    returns (origin': seq<nat>, pending': map<nat, nat>)
    requires Sourced(steps, u, origin, pending) && Enabled(u, step)
    ensures Sourced(steps + [step], Next(u, step), origin', pending')
  {
    origin', pending' := origin, pending;
    match step {
      case Append(t, r) =>
        pending' := pending[t := |steps|];
        SourcedAppend(steps, u, t, r, origin, pending);
      case Stop =>
        SourcedSame(steps, u, Next(u, step), 0, origin, pending, step);
      case Run(t) =>
        origin' := SourcedRun(steps, u, origin, pending, t);
    }
  }

  lemma {:induction false} SourcedRun(steps: seq<Step>, u: Pool, origin: seq<nat>, pending: map<nat, nat>, t: nat)
    returns (origin': seq<nat>)
    requires Sourced(steps, u, origin, pending) && Enabled(u, Run(t))
    ensures Sourced(steps + [Run(t)], Next(u, Run(t)), origin', pending)
  {
    hide Sourced, Next;
    var v := Next(u, Run(t));
    RunFacts(u, t);
    if u.threads[t].Checking? && |u.queue| <= u.maxRequests {
      SourcedPush(steps, u, v, t, u.threads[t].request, origin, pending);
      origin' := origin + [pending[t]];
    } else {
      SourcedSame(steps, u, v, t, origin, pending, Run(t));
      origin' := origin;
    }
  }

  /** Over every run, each accepted request was passed in by a different call of `append`. */
  lemma {:induction false} AcceptedWerePassedIn(n: nat, maxRequests: nat, steps: seq<Step>)
    returns (origin: seq<nat>, pending: map<nat, nat>)
    requires IsRun(Init(n, maxRequests), steps)
    ensures Sourced(steps, After(Init(n, maxRequests), steps), origin, pending)
    decreases |steps|
  {
    var s := Init(n, maxRequests);
    FirstAndLast(s, steps);
    if steps == [] {
      origin, pending := [], map[];
    } else {
      hide Next, Enabled, Sourced;
      var k := |steps| - 1;
      RunPrefix(s, steps, k);
      OneStep(s, steps, k);
      origin, pending := AcceptedWerePassedIn(n, maxRequests, steps[..k]);
      origin, pending := SourcedNext(steps[..k], State(s, steps, k), origin, pending, steps[k]);
      assert steps[..k] + [steps[k]] == steps;
    }
  }

  // ----- What is processed

  /** Exactly the finished requests that are not null have been processed, each once. */
  ghost predicate Processed(u: Pool) {
    && (forall i, j :: 0 <= i < j < |u.processed| ==> u.processed[i] != u.processed[j])
    && (forall i :: i in u.processed ==> i in u.done && i < |u.taken| && u.taken[i] != NullRequest)
    && (forall i :: i in u.done && i < |u.taken| && u.taken[i] != NullRequest ==> i in u.processed)
  }

  lemma {:induction false} ProcessedNext(u: Pool, step: Step)
    requires Processed(u) && WorkInv(u) && Enabled(u, step)
    ensures Processed(Next(u, step))
  {
    var v := Next(u, step);
    if step.Run? && u.threads[step.thread].Processing? {
      var i := u.threads[step.thread].index;
      assert Held(u.threads[step.thread]) == Some(i);
      assert i !in u.done;
      assert forall k :: k in v.processed <==> k in u.processed || (k == i && u.taken[i] != NullRequest);
    }
  }

  lemma {:induction false} ProcessedRun(u: Pool, steps: seq<Step>)
    requires Processed(u) && Inv(u) && IsRun(u, steps)
    ensures Processed(After(u, steps))
    decreases |steps|
  {
    hide Next, Enabled, Processed;
    if steps != [] {
      WorkOf(u);
      ProcessedNext(u, steps[0]);
      NextInv(u, steps[0]);
      ProcessedRun(Next(u, steps[0]), steps[1..]);
    }
  }

  lemma {:induction false} WorkOf(u: Pool)
    requires Inv(u)
    ensures WorkInv(u)
  {
  }

  /** Over every run, exactly the finished requests that are not null have been processed, each once. */
  lemma {:induction false} ProcessedOnce(n: nat, maxRequests: nat, steps: seq<Step>)
    requires IsRun(Init(n, maxRequests), steps)
    ensures Processed(After(Init(n, maxRequests), steps))
  {
    InitInv(n, maxRequests);
    ProcessedRun(Init(n, maxRequests), steps);
  }

  // ----- When a worker leaves, and when a thread is stuck

  ghost predicate LeavesStopped(u: Pool) {
    forall t :: t in u.threads && u.threads[t].Exited? ==> u.stop
  }

  lemma {:induction false} StoppedRun(u: Pool, steps: seq<Step>)
    requires LeavesStopped(u) && IsRun(u, steps)
    ensures LeavesStopped(After(u, steps)) && (After(u, steps).stop <==> u.stop || Stop in steps)
    decreases |steps|
  {
    hide LeavesStopped;
    if steps != [] {
      var v := Next(u, steps[0]);
      StoppedNext(u, steps[0]);
      StoppedRun(v, steps[1..]);
      assert steps == [steps[0]] + steps[1..];
    }
  }

  lemma {:induction false} StoppedNext(u: Pool, step: Step)
    requires LeavesStopped(u) && Enabled(u, step)
    ensures LeavesStopped(Next(u, step)) && (Next(u, step).stop <==> u.stop || step == Stop)
  {
  }

  /** Over every run, a worker has left its loop only if the pool was stopped. */
  lemma {:induction false} LeavesOnlyWhenStopped(n: nat, maxRequests: nat, steps: seq<Step>, t: nat)
    requires IsRun(Init(n, maxRequests), steps)
    requires var u := After(Init(n, maxRequests), steps); t in u.threads && u.threads[t] == Exited
    ensures Stop in steps
  {
    StoppedRun(Init(n, maxRequests), steps);
  }

  /** As long as a call of `append` has not returned, some thread can move. */
  lemma {:induction false} AppendNotStuck(n: nat, maxRequests: nat, steps: seq<Step>, w: nat) returns (t: nat)
    requires IsRun(Init(n, maxRequests), steps)
    requires var u := After(Init(n, maxRequests), steps);
      w in u.threads && !IsWorker(u.threads[w]) && !u.threads[w].Returned?
    ensures Enabled(After(Init(n, maxRequests), steps), Run(t))
  {
    var u := After(Init(n, maxRequests), steps);
    InitInv(n, maxRequests);
    RunInv(Init(n, maxRequests), steps);
    t := if u.lock.Some? then u.lock.value else w;
  }
}
