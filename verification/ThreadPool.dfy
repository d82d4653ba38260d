/**
 The thread pool: any number of threads appending requests and any number of workers taking
 them, as interleaved atomic steps over one lock, one counting semaphore and one queue.
 */
module ThreadPool {
  datatype Request = NullRequest | Job(id: int)

  datatype Option<T> = None | Some(value: T)

  /** Where a thread is in `append` or in the worker loop. */
  datatype Location =
    // append
    | WantsLock(request: Request)   // about to lock
    | Checking(request: Request)    // locked, about to test the size
    | Rejecting                     // locked, about to unlock and return false
    | Pushed                        // locked, request pushed, about to unlock
    | Posting                       // unlocked, about to post
    | Returned(accepted: bool)
    // the worker loop
    | Testing                       // about to test the stop flag
    | Waiting                       // about to wait for the semaphore
    | Woken                         // past the wait, about to lock
    | Looking                       // locked, about to test for an empty queue
    | FoundEmpty                    // locked, queue was empty, about to unlock
    | Took(index: nat)              // locked, request popped, about to unlock
    | Processing(index: nat)        // unlocked, about to process the request
    | Exited

  /**
   The state of the pool.  `accepted` and `taken` record every request pushed and popped, in
   order; `done` holds the positions in `taken` that a worker has finished with, and `processed`
   those whose request it has processed.
   */
  datatype Pool = Pool(
    maxRequests: nat,
    queue: seq<Request>,
    sem: nat,
    lock: Option<nat>,
    stop: bool,
    threads: map<nat, Location>,
    accepted: seq<Request>,
    taken: seq<Request>,
    done: set<nat>,
    processed: seq<nat>)

  datatype Step =
    | Append(thread: nat, request: Request)
    | Run(thread: nat)
    | Stop

  predicate IsWorker(l: Location) {
    l.Testing? || l.Waiting? || l.Woken? || l.Looking? || l.FoundEmpty? || l.Took? || l.Processing? || l.Exited?
  }

  /** The locations between lock and unlock. */
  predicate Critical(l: Location) {
    l.Checking? || l.Rejecting? || l.Pushed? || l.Looking? || l.FoundEmpty? || l.Took?
  }

  // ----- Steps

  function At(s: Pool, t: nat, l: Location): Pool {
    s.(threads := s.threads[t := l])
  }

  function Locked(s: Pool, t: nat, l: Location): Pool {
    At(s, t, l).(lock := Some(t))
  }

  function Unlocked(s: Pool, t: nat, l: Location): Pool {
    At(s, t, l).(lock := None)
  }

  predicate Enabled(s: Pool, step: Step) {
    match step
    case Append(t, _) => t !in s.threads || s.threads[t].Returned?
    case Stop => true
    case Run(t) =>
      t in s.threads &&
      match s.threads[t]
      case WantsLock(_) => s.lock.None?
      case Waiting => s.sem > 0
      case Woken => s.lock.None?
      case Returned(_) => false
      case Exited => false
      case _ => true
  }

  function Next(s: Pool, step: Step): Pool
    requires Enabled(s, step)
  {
    match step
    case Append(t, r) => At(s, t, WantsLock(r))
    case Stop => s.(stop := true)
    case Run(t) =>
      match s.threads[t]
      case WantsLock(r) => Locked(s, t, Checking(r))
      case Checking(r) =>
        if |s.queue| > s.maxRequests then At(s, t, Rejecting)
        else At(s, t, Pushed).(queue := s.queue + [r], accepted := s.accepted + [r])
      case Rejecting => Unlocked(s, t, Returned(false))
      case Pushed => Unlocked(s, t, Posting)
      case Posting => At(s, t, Returned(true)).(sem := s.sem + 1)
      case Testing => At(s, t, if s.stop then Exited else Waiting)
      case Waiting => At(s, t, Woken).(sem := s.sem - 1)
      case Woken => Locked(s, t, Looking)
      case Looking =>
        if s.queue == [] then At(s, t, FoundEmpty)
        else At(s, t, Took(|s.taken|)).(queue := s.queue[1..], taken := s.taken + [s.queue[0]])
      case FoundEmpty => Unlocked(s, t, Testing)
      case Took(i) => Unlocked(s, t, Processing(i))
      case Processing(i) =>
        At(s, t, Testing).(
          done := s.done + {i},
          processed := if i < |s.taken| && s.taken[i] != NullRequest then s.processed + [i] else s.processed)
  }

  function Workers(n: nat): (threads: map<nat, Location>)
    ensures forall t: nat :: t in threads <==> t < n
    ensures forall t: nat :: t in threads ==> threads[t] == Testing
  {
    if n == 0 then map[] else Workers(n - 1)[n - 1 := Testing]
  }

  /** A pool with `n` workers, before anything has been appended. */
  function Init(n: nat, maxRequests: nat): Pool {
    Pool(maxRequests, [], 0, None, false, Workers(n), [], [], {}, [])
  }

  ghost predicate IsRun(s: Pool, steps: seq<Step>)
    decreases |steps|
  {
    steps == [] || (Enabled(s, steps[0]) && IsRun(Next(s, steps[0]), steps[1..]))
  }

  ghost function After(s: Pool, steps: seq<Step>): Pool
    requires IsRun(s, steps)
    decreases |steps|
  {
    if steps == [] then s else After(Next(s, steps[0]), steps[1..])
  }

  // ----- The invariant

  /** The workers that have passed the wait and not yet popped. */
  predicate HasToken(l: Location) { l.Woken? || l.Looking? || l.FoundEmpty? }

  /** The appenders that have pushed and not yet posted. */
  predicate OwesPost(l: Location) { l.Pushed? || l.Posting? }

  /** The popped request in a worker's hands, if any, by its position in `taken`. */
  function Held(l: Location): Option<nat> {
    if l.Took? || l.Processing? then Some(l.index) else None
  }

  ghost function Tokens(threads: map<nat, Location>): set<nat> {
    set t | t in threads && HasToken(threads[t])
  }

  ghost function Debts(threads: map<nat, Location>): set<nat> {
    set t | t in threads && OwesPost(threads[t])
  }

  ghost predicate LockInv(s: Pool) {
    && (s.lock.Some? ==> s.lock.value in s.threads)
    && forall t :: t in s.threads ==> (Critical(s.threads[t]) <==> s.lock == Some(t))
  }

  /** Every queued request is announced by the semaphore or by a thread that is about to act. */
  ghost predicate CountInv(s: Pool) {
    |s.queue| == s.sem + |Tokens(s.threads)| + |Debts(s.threads)|
  }

  ghost predicate QueueInv(s: Pool) {
    && s.accepted == s.taken + s.queue
    && |s.queue| <= s.maxRequests + 1
    && forall t :: t in s.threads ==>
         && (s.threads[t].Rejecting? ==> |s.queue| == s.maxRequests + 1)
         && !s.threads[t].FoundEmpty?
  }

  /** Every popped request is finished or in the hands of exactly one worker. */
  ghost predicate WorkInv(s: Pool) {
    && (forall i :: i in s.done ==> i < |s.taken|)
    && (forall t :: t in s.threads && Held(s.threads[t]).Some? ==>
          Held(s.threads[t]).value < |s.taken| && Held(s.threads[t]).value !in s.done)
    && (forall i: nat :: i < |s.taken| && i !in s.done ==> InHand(s.threads, i))
    && (forall t, u :: t in s.threads && u in s.threads && Held(s.threads[t]) == Held(s.threads[u]) != None ==> t == u)
  }

  ghost predicate Inv(s: Pool) {
    LockInv(s) && CountInv(s) && QueueInv(s) && WorkInv(s)
  }

  // ----- Every step keeps the invariant

  function One(b: bool): nat { if b then 1 else 0 }

  /** When one thread moves, each of the two counts changes by what that thread contributes. */
  lemma {:induction false} TokensMove(threads: map<nat, Location>, t: nat, l: Location)
    ensures |Tokens(threads[t := l])| ==
            |Tokens(threads)| + One(HasToken(l)) - One(t in threads && HasToken(threads[t]))
  {
    hide HasToken;
    assert Tokens(threads[t := l]) - {t} == Tokens(threads) - {t};
    assert t in Tokens(threads[t := l]) <==> HasToken(l);
    Card(Tokens(threads), t);
    Card(Tokens(threads[t := l]), t);
  }

  lemma {:induction false} DebtsMove(threads: map<nat, Location>, t: nat, l: Location)
    ensures |Debts(threads[t := l])| ==
            |Debts(threads)| + One(OwesPost(l)) - One(t in threads && OwesPost(threads[t]))
  {
    hide OwesPost;
    assert Debts(threads[t := l]) - {t} == Debts(threads) - {t};
    assert t in Debts(threads[t := l]) <==> OwesPost(l);
    Card(Debts(threads), t);
    Card(Debts(threads[t := l]), t);
  }

  lemma {:induction false} Card(s: set<nat>, t: nat)
    ensures |s| == |s - {t}| + One(t in s)
  {
    if t in s {
      assert s == (s - {t}) + {t};
    } else {
      assert s == s - {t};
    }
  }

  lemma {:induction false} NextLock(s: Pool, step: Step)
    requires LockInv(s) && Enabled(s, step)
    ensures LockInv(Next(s, step))
  {
  }

  /** What a thread's step does to the queue and the semaphore, and what the thread contributes to the two counts. */
  lemma {:induction false} NextDelta(s: Pool, t: nat)
    requires Enabled(s, Run(t)) && !s.threads[t].FoundEmpty? && (s.threads[t].Looking? ==> s.queue != [])
    ensures var v, l := Next(s, Run(t)), s.threads[t];
      && t in v.threads && v.threads == s.threads[t := v.threads[t]]
      && |v.queue| - v.sem - One(HasToken(v.threads[t])) - One(OwesPost(v.threads[t]))
         == |s.queue| - s.sem - One(HasToken(l)) - One(OwesPost(l))
  {
  }

  lemma {:induction false} NextCount(s: Pool, step: Step)
    requires CountInv(s) && QueueInv(s) && Enabled(s, step)
    ensures CountInv(Next(s, step))
  {
    match step {
      case Stop =>
      case Append(t, r) =>
        hide Tokens, Debts;
        TokensMove(s.threads, t, WantsLock(r));
        DebtsMove(s.threads, t, WantsLock(r));
      case Run(t) =>
        RunCount(s, t);
    }
  }

  lemma {:induction false} RunCount(s: Pool, t: nat)
    requires CountInv(s) && QueueInv(s) && Enabled(s, Run(t))
    ensures CountInv(Next(s, Run(t)))
  {
    hide Tokens, Debts, Next, HasToken, OwesPost;
    if s.threads[t].Looking? { LookingCounts(s, t); }
    NextDelta(s, t);
    TokensMove(s.threads, t, Next(s, Run(t)).threads[t]);
    DebtsMove(s.threads, t, Next(s, Run(t)).threads[t]);
  }

  lemma {:induction false} LookingCounts(s: Pool, t: nat)
    requires CountInv(s) && t in s.threads && s.threads[t].Looking?
    ensures s.queue != []
  {
    TokenMeansWork(s, t);
  }

  /** A worker past the wait finds a request in the queue. */
  lemma {:induction false} TokenMeansWork(s: Pool, t: nat)
    requires CountInv(s) && t in s.threads && HasToken(s.threads[t])
    ensures s.queue != []
  {
    assert t in Tokens(s.threads);
  }

  lemma {:induction false} NextQueue(s: Pool, step: Step)
    requires LockInv(s) && CountInv(s) && QueueInv(s) && Enabled(s, step)
    ensures QueueInv(Next(s, step))
  {
    if step.Run? && s.threads[step.thread].Looking? {
      TokenMeansWork(s, step.thread);
      QueuePop(s, step.thread);
    } else if step.Run? && s.threads[step.thread].Checking? {
      QueuePush(s, step.thread);
    }
  }

  lemma {:induction false} QueuePop(s: Pool, t: nat)
    requires LockInv(s) && QueueInv(s) && t in s.threads && s.threads[t].Looking? && s.queue != []
    ensures QueueInv(Next(s, Run(t)))
  {
    assert s.queue == [s.queue[0]] + s.queue[1..];
    assert s.lock == Some(t);
  }

  lemma {:induction false} QueuePush(s: Pool, t: nat)
    requires LockInv(s) && QueueInv(s) && t in s.threads && s.threads[t].Checking?
    ensures QueueInv(Next(s, Run(t)))
  {
    assert s.lock == Some(t);
  }

  /** Some thread has the popped request at position `i`. */
  ghost predicate InHand(threads: map<nat, Location>, i: nat) {
    exists t :: t in threads && Held(threads[t]) == Some(i)
  }

  /** A step that is neither a pop nor the end of processing leaves every request where it is. */
  lemma {:induction false} OtherWork(s: Pool, s': Pool, t: nat)
    requires WorkInv(s) && s'.taken == s.taken && s'.done == s.done && t in s'.threads
    requires s'.threads == s.threads[t := s'.threads[t]]
    requires Held(s'.threads[t]) == if t in s.threads then Held(s.threads[t]) else None
    ensures WorkInv(s')
  {
    forall i: nat | i < |s'.taken| && i !in s'.done ensures InHand(s'.threads, i) {
      StillInHand(s.threads, s'.threads, t, i);
    }
  }

  lemma {:induction false} StillInHand(threads: map<nat, Location>, threads': map<nat, Location>, t: nat, i: nat)
    requires InHand(threads, i) && t in threads' && threads' == threads[t := threads'[t]]
    requires t in threads && Held(threads[t]) == Some(i) ==> Held(threads'[t]) == Some(i)
    ensures InHand(threads', i)
  {
    var u :| u in threads && Held(threads[u]) == Some(i);
    assert u in threads' && Held(threads'[u]) == Some(i);
  }

  lemma {:induction false} PopWork(s: Pool, s': Pool, t: nat, r: Request)
    requires WorkInv(s) && t in s.threads && s'.taken == s.taken + [r] && s'.done == s.done
    requires s'.threads == s.threads[t := Took(|s.taken|)] && s.threads[t].Looking?
    ensures WorkInv(s')
  {
    assert Held(s'.threads[t]) == Some(|s.taken|);
    forall i: nat | i < |s'.taken| && i !in s'.done ensures InHand(s'.threads, i) {
      if i < |s.taken| { StillInHand(s.threads, s'.threads, t, i); }
    }
  }

  lemma {:induction false} DoneWork(s: Pool, s': Pool, t: nat)
    requires WorkInv(s) && t in s.threads && s.threads[t].Processing?
    requires s'.taken == s.taken && s'.done == s.done + {s.threads[t].index}
    requires s'.threads == s.threads[t := Testing]
    ensures WorkInv(s')
  {
    assert Held(s.threads[t]) == Some(s.threads[t].index);
    forall i: nat | i < |s'.taken| && i !in s'.done ensures InHand(s'.threads, i) {
      StillInHand(s.threads, s'.threads, t, i);
    }
  }

  lemma {:induction false} NextWork(s: Pool, step: Step)
    requires WorkInv(s) && Enabled(s, step)
    ensures WorkInv(Next(s, step))
  {
    var s' := Next(s, step);
    if step.Run? && s.threads[step.thread].Looking? && s.queue != [] {
      PopWork(s, s', step.thread, s.queue[0]);
    } else if step.Run? && s.threads[step.thread].Processing? {
      DoneWork(s, s', step.thread);
    } else if !step.Stop? {
      OtherWork(s, s', step.thread);
    }
  }

  lemma {:induction false} NextInv(s: Pool, step: Step)
    requires Inv(s) && Enabled(s, step)
    ensures Inv(Next(s, step))
  {
    hide LockInv, CountInv, QueueInv, WorkInv, Next;
    NextLock(s, step);
    NextCount(s, step);
    NextQueue(s, step);
    NextWork(s, step);
  }

  // ----- Whole runs

  lemma {:induction false} InitInv(n: nat, maxRequests: nat)
    ensures Inv(Init(n, maxRequests))
  {
    var threads := Workers(n);
    assert Tokens(threads) == {} && Debts(threads) == {};
  }

  lemma {:induction false} RunInv(s: Pool, steps: seq<Step>)
    requires Inv(s) && IsRun(s, steps)
    ensures Inv(After(s, steps)) && After(s, steps).maxRequests == s.maxRequests
    decreases |steps|
  {
    hide Inv;
    if steps != [] {
      NextInv(s, steps[0]);
      assert Next(s, steps[0]).maxRequests == s.maxRequests;
      RunInv(Next(s, steps[0]), steps[1..]);
    }
  }

  /**
   In every state of every run: requests are taken in the order in which they were accepted and
   each is taken once; the queue never exceeds the limit by more than one; and every queued
   request is announced by the semaphore, by a woken worker or by an appender about to post.
   */
  lemma {:induction false} RunsAreSafe(n: nat, maxRequests: nat, steps: seq<Step>)
    requires IsRun(Init(n, maxRequests), steps)
    ensures var s := After(Init(n, maxRequests), steps);
      && s.accepted == s.taken + s.queue
      && |s.queue| <= maxRequests + 1
      && |s.queue| == s.sem + |Tokens(s.threads)| + |Debts(s.threads)|
  {
    InitInv(n, maxRequests);
    RunInv(Init(n, maxRequests), steps);
  }

  /** At most one thread is between lock and unlock. */
  lemma {:induction false} MutualExclusion(n: nat, maxRequests: nat, steps: seq<Step>, t: nat, u: nat)
    requires IsRun(Init(n, maxRequests), steps)
    requires var s := After(Init(n, maxRequests), steps);
      t in s.threads && u in s.threads && Critical(s.threads[t]) && Critical(s.threads[u])
    ensures t == u
  {
    InitInv(n, maxRequests);
    RunInv(Init(n, maxRequests), steps);
  }

  /** A worker that has passed the wait never finds the queue empty. */
  lemma {:induction false} WokenFindsWork(n: nat, maxRequests: nat, steps: seq<Step>, t: nat)
    requires IsRun(Init(n, maxRequests), steps)
    requires var s := After(Init(n, maxRequests), steps); t in s.threads && HasToken(s.threads[t])
    ensures var s := After(Init(n, maxRequests), steps); s.queue != [] && !s.threads[t].FoundEmpty?
  {
    InitInv(n, maxRequests);
    RunInv(Init(n, maxRequests), steps);
    TokenMeansWork(After(Init(n, maxRequests), steps), t);
  }

  /** Every request taken has been finished, or exactly one worker has it in its hands. */
  lemma {:induction false} TakenExactlyOnce(n: nat, maxRequests: nat, steps: seq<Step>, i: nat)
    requires IsRun(Init(n, maxRequests), steps)
    requires i < |After(Init(n, maxRequests), steps).taken|
    ensures var s := After(Init(n, maxRequests), steps);
      && (i in s.done <==> !InHand(s.threads, i))
      && forall t, u :: t in s.threads && u in s.threads && Held(s.threads[t]) == Some(i) == Held(s.threads[u]) ==>
           t == u
  {
    InitInv(n, maxRequests);
    RunInv(Init(n, maxRequests), steps);
  }

  /** An append is refused only while the queue holds one request more than the limit. */
  lemma {:induction false} RefusedOnlyWhenFull(n: nat, maxRequests: nat, steps: seq<Step>, t: nat)
    requires IsRun(Init(n, maxRequests), steps)
    requires var s := After(Init(n, maxRequests), steps); t in s.threads && s.threads[t].Rejecting?
    ensures |After(Init(n, maxRequests), steps).queue| == maxRequests + 1
  {
    InitInv(n, maxRequests);
    RunInv(Init(n, maxRequests), steps);
  }

  /** With requests queued and a worker that has not left its loop, some thread can always move. */
  lemma {:induction false} NoDeadlock(n: nat, maxRequests: nat, steps: seq<Step>, w: nat) returns (t: nat)
    requires IsRun(Init(n, maxRequests), steps)
    requires var s := After(Init(n, maxRequests), steps);
      s.queue != [] && w in s.threads && IsWorker(s.threads[w]) && !s.threads[w].Exited?
    ensures Enabled(After(Init(n, maxRequests), steps), Run(t))
  {
    var s := After(Init(n, maxRequests), steps);
    InitInv(n, maxRequests);
    RunInv(Init(n, maxRequests), steps);
    if s.lock.Some? {
      t := s.lock.value;
    } else if Tokens(s.threads) != {} {
      t :| t in Tokens(s.threads);
    } else if Debts(s.threads) != {} {
      t :| t in Debts(s.threads);
    } else {
      t := w;
    }
  }
}
