/**
 Runs of the timer list: a client that adds timers, puts them off, removes those that have not
 fired yet, and lets the list tick.
 */
module TimerListRuns {
  import opened TimerList

  // ----- The list as a stable sorted sequence

  datatype Entry = Entry(timer: Timer, expire: int)

  ghost function Entries(l: seq<Timer>): (s: seq<Entry>)
    reads Elems(l)`expire
    ensures |s| == |l| && forall i :: 0 <= i < |l| ==> s[i] == Entry(l[i], l[i].expire)
  {
    if l == [] then [] else Entries(l[..|l| - 1]) + [Entry(l[|l| - 1], l[|l| - 1].expire)]
  }

  ghost function Keys(s: seq<Entry>): (k: seq<int>)
    ensures |k| == |s| && forall i :: 0 <= i < |s| ==> k[i] == s[i].expire
  {
    if s == [] then [] else Keys(s[..|s| - 1]) + [s[|s| - 1].expire]
  }

  /** An entry goes behind all those that expire no later. */
  ghost function Insert(s: seq<Entry>, e: Entry): seq<Entry> {
    var p := Place(Keys(s), e.expire);
    s[..p] + [e] + s[p..]
  }

  ghost function Find(s: seq<Entry>, t: Timer): (p: nat)
    ensures p <= |s| && (p < |s| ==> s[p].timer == t) && forall i :: 0 <= i < p ==> s[i].timer != t
  {
    if s == [] || s[0].timer == t then 0 else 1 + Find(s[1..], t)
  }

  ghost function Cut(s: seq<Entry>, p: nat): seq<Entry>
    requires p < |s|
  {
    s[..p] + s[p + 1..]
  }

  datatype Step = Add(entry: Entry) | PutOff(timer: Timer, expire: int) | Del(timer: Timer) | Tick(now: int) | Skip

  ghost function After(s: seq<Entry>, step: Step): seq<Entry> {
    match step
    case Add(e) => Insert(s, e)
    case PutOff(t, e) => if Find(s, t) < |s| then Insert(Cut(s, Find(s, t)), Entry(t, e)) else s
    case Del(t) => if Find(s, t) < |s| then Cut(s, Find(s, t)) else s
    case Tick(now) => s[Place(Keys(s), now)..]
    case Skip => s
  }

  ghost function Fired(s: seq<Entry>, step: Step): seq<Entry> {
    if step.Tick? then s[..Place(Keys(s), step.now)] else []
  }

  ghost function Run(s: seq<Entry>, steps: seq<Step>): seq<Entry> {
    if steps == [] then s else After(Run(s, steps[..|steps| - 1]), steps[|steps| - 1])
  }

  ghost function TimersOf(s: seq<Entry>): (l: seq<Timer>)
    ensures |l| == |s| && forall i :: 0 <= i < |s| ==> l[i] == s[i].timer
  {
    if s == [] then [] else TimersOf(s[..|s| - 1]) + [s[|s| - 1].timer]
  }

  // ----- The methods of the list, seen that way

  lemma {:induction false} KeysOfEntries(l: seq<Timer>)
    ensures Keys(Entries(l)) == Expiries(l)
  {
    hide Keys, Entries, Expiries;
  }

  lemma {:induction false} EntriesInserted(l: seq<Timer>, t: Timer)
    ensures Entries(Inserted(l, Place(Expiries(l), t.expire), t)) == Insert(Entries(l), Entry(t, t.expire))
  {
    hide Keys, Entries, Expiries, Place;
    KeysOfEntries(l);
  }

  lemma {:induction false} EntriesRemoved(l: seq<Timer>, i: nat)
    requires i < |l|
    ensures Entries(Removed(l, i)) == Cut(Entries(l), i)
  {
    hide Entries;
  }

  lemma {:induction false} FoundAt(l: seq<Timer>, i: nat)
    requires Distinct(l) && i < |l|
    ensures Find(Entries(l), l[i]) == i
  {
    hide Entries, Find;
  }

  lemma {:induction false} FoundIn(l: seq<Timer>, t: Timer)
    ensures Find(Entries(l), t) < |l| <==> t in l
  {
    hide Entries, Find;
    assert forall i :: 0 <= i < |l| ==> Entries(l)[i].timer == l[i];
  }

  lemma {:induction false} EntriesSplit(l: seq<Timer>, p: nat)
    requires p <= |l|
    ensures Entries(l[p..]) == Entries(l)[p..] && TimersOf(Entries(l)[..p]) == l[..p]
  {
    hide Entries, TimersOf;
  }

  // ----- The client

  /** What a client asks for; `which` is the number of the request that added the timer meant. */
  datatype Request = AddAt(expire: int) | PutOffTo(which: nat, expire: int) | Remove(which: nat) | TickAt(now: int)

  /** What the `i`-th request comes to, given the timers made so far and the list before it: putting off or
   removing what is not in the list, and bringing an expiry forward, come to nothing. */
  ghost function StepFor(request: Request, made: seq<Timer?>, i: nat, s: seq<Entry>): Step
    requires i < |made|
  {
    match request
    case AddAt(e) => if made[i] == null then Skip else (var t: Timer := made[i]; Add(Entry(t, e)))
    case PutOffTo(k, e) =>
      if k < i && made[k] != null && Later(s, made[k], e) then (var t: Timer := made[k]; PutOff(t, e)) else Skip
    case Remove(k) =>
      if k < i && made[k] != null && Find(s, made[k]) < |s| then (var t: Timer := made[k]; Del(t)) else Skip
    case TickAt(now) => Tick(now)
  }

  /** The timer is in the list and does not expire after `e`. */
  ghost predicate Later(s: seq<Entry>, t: Timer, e: int) {
    Find(s, t) < |s| && s[Find(s, t)].expire <= e
  }

  ghost predicate TraceAt(requests: seq<Request>, s0: seq<Entry>, made: seq<Timer?>, steps: seq<Step>,
                          fired: seq<seq<Timer>>, i: nat)
    requires i < |fired| == |made| == |steps| <= |requests|
  {
    var s := Run(s0, steps[..i]);
    && (made[i] != null <==> requests[i].AddAt?)
    && steps[i] == StepFor(requests[i], made, i, s) && fired[i] == TimersOf(Fired(s, steps[i]))
  }

  /** A record of the first requests: the timers made, the step each came to, and what each fired. */
  ghost predicate IsTrace(requests: seq<Request>, s0: seq<Entry>, made: seq<Timer?>, steps: seq<Step>,
                          fired: seq<seq<Timer>>)
  {
    && |fired| == |made| == |steps| <= |requests|
    && forall i :: 0 <= i < |steps| ==> TraceAt(requests, s0, made, steps, fired, i)
  }

  lemma {:induction false} StepForSame(request: Request, made: seq<Timer?>, t: Timer?, i: nat, s: seq<Entry>)
    requires i < |made|
    ensures StepFor(request, made + [t], i, s) == StepFor(request, made, i, s)
  {
  }

  lemma {:induction false} TraceMore(requests: seq<Request>, s0: seq<Entry>, made: seq<Timer?>, steps: seq<Step>,
                                     fired: seq<seq<Timer>>, t: Timer?, step: Step, f: seq<Timer>)
    requires IsTrace(requests, s0, made, steps, fired) && |steps| < |requests|
    requires var (n, s) := (|steps|, Run(s0, steps));
      && (t != null <==> requests[n].AddAt?)
      && step == StepFor(requests[n], made + [t], n, s) && f == TimersOf(Fired(s, step))
    ensures IsTrace(requests, s0, made + [t], steps + [step], fired + [f])
    ensures Run(s0, steps + [step]) == After(Run(s0, steps), step)
  {
    hide After, Fired, TimersOf, StepFor;
    var a, u, g := made + [t], steps + [step], fired + [f];
    assert u[..|steps|] == steps;
    forall i | 0 <= i < |u| ensures TraceAt(requests, s0, a, u, g, i) {
      if i < |steps| {
        assert TraceAt(requests, s0, made, steps, fired, i);
        assert u[..i] == steps[..i];
        StepForSame(requests[i], made, t, i, Run(s0, steps[..i]));
      }
    }
  }

  /** The client's own note of its timers agrees with the list. */
  ghost predicate Noted(made: seq<Timer?>, present: set<Timer>, items: set<Timer>) {
    forall t :: t in made && t != null ==> (t in present <==> t in items)
  }

  method AddOne(l: List, expire: int) returns (t: Timer)
    requires l.Valid()
    modifies l, Elems(l.items)`prev, Elems(l.items)`next
    ensures l.Valid() && fresh(t) && t.expire == expire && Elems(l.items) == old(Elems(l.items)) + {t}
    ensures Entries(l.items) == After(old(Entries(l.items)), Add(Entry(t, expire)))
  {
    hide l.Valid, Entries, Insert, Place, Expiries;
    ghost var was, s := l.items, Entries(l.items);
    t := new Timer(expire);
    ghost var k := Expiries(was);
    l.AddTimer(t);
    assert Entries(was) == s;
    EntriesInserted(was, t);
    assert Expiries(was) == k;
  }

  lemma {:induction false} EntriesPutOff(l: seq<Timer>, i: nat, s: seq<Entry>)
    requires Distinct(l) && i < |l| && |s| == |l| && forall j :: 0 <= j < |l| ==> s[j].timer == l[j]
    requires forall j :: 0 <= j < |l| && j != i ==> s[j].expire == l[j].expire
    ensures var rest := Removed(l, i);
      Entries(Inserted(rest, Place(Expiries(rest), l[i].expire), l[i])) == After(s, PutOff(l[i], l[i].expire))
  {
    hide Entries, Insert, Place, Expiries, Find, Inserted;
    var rest := Removed(l, i);
    EntriesInserted(rest, l[i]);
    assert Find(s, l[i]) == i;
    assert Entries(rest) == Cut(s, i);
  }

  method PutOffOne(l: List, t: Timer, expire: int)
    requires l.Valid() && t in l.items && expire >= t.expire
    modifies l, t`expire, Elems(l.items)`prev, Elems(l.items)`next
    ensures l.Valid() && Elems(l.items) == old(Elems(l.items))
    ensures Entries(l.items) == After(old(Entries(l.items)), PutOff(t, expire))
  {
    hide l.Valid, Entries, Insert, Place, Expiries, After;
    ghost var was, s := l.items, Entries(l.items);
    ghost var i :| 0 <= i < |was| && was[i] == t;
    ItemsDistinct(l);
    l.Extend(t, expire, i);
    EntriesPutOff(was, i, s);
    InsertedBack(was, i, Place(Expiries(Removed(was, i)), expire));
  }

  lemma {:induction false} ItemsDistinct(l: List)
    requires l.Valid()
    ensures Distinct(l.items)
  {
  }

  lemma {:induction false} InsertedBack(l: seq<Timer>, i: nat, q: nat)
    requires i < |l| && q < |l|
    ensures Elems(Inserted(Removed(l, i), q, l[i])) == Elems(l)
  {
    var rest := Removed(l, i);
    var m := Inserted(rest, q, l[i]);
    assert m[q] == l[i];
    forall j | 0 <= j < |rest| ensures rest[j] in m {
      assert rest[j] == if j < q then m[j] else m[j + 1];
    }
    forall j | 0 <= j < |l| && j != i ensures l[j] in rest {
      assert l[j] == if j < i then rest[j] else rest[j - 1];
    }
  }

  method RemoveOne(l: List, t: Timer)
    requires l.Valid() && t in l.items
    modifies l, Elems(l.items)`prev, Elems(l.items)`next
    ensures l.Valid() && Elems(l.items) == old(Elems(l.items)) - {t}
    ensures Entries(l.items) == After(old(Entries(l.items)), Del(t))
  {
    hide l.Valid, Entries, Find;
    ghost var was, s := l.items, Entries(l.items);
    ghost var i :| 0 <= i < |was| && was[i] == t;
    ItemsDistinct(l);
    FoundAt(was, i);
    EntriesRemoved(was, i);
    WithoutOne(was, i);
    l.DelTimer(t, i);
    assert Entries(was) == s;
    EntriesRemoved(was, i);
  }

  lemma {:induction false} WithoutOne(l: seq<Timer>, i: nat)
    requires Distinct(l) && i < |l|
    ensures Elems(Removed(l, i)) == Elems(l) - {l[i]}
  {
    var rest := Removed(l, i);
    forall j | 0 <= j < |l| && j != i ensures l[j] in rest {
      assert l[j] == if j < i then rest[j] else rest[j - 1];
    }
  }

  method TickOne(l: List, now: int) returns (fired: seq<Timer>)
    requires l.Valid()
    modifies l, Elems(l.items)`prev
    ensures l.Valid() && Elems(l.items) == old(Elems(l.items)) - Elems(fired)
    ensures Entries(l.items) == After(old(Entries(l.items)), Tick(now))
    ensures fired == TimersOf(Fired(old(Entries(l.items)), Tick(now)))
  {
    hide l.Valid, Entries, Place, Keys, Expiries, TimersOf, Find;
    ghost var was, s := l.items, Entries(l.items);
    KeysOfEntries(was);
    ItemsDistinct(l);
    ghost var p := Place(Expiries(was), now);
    fired := l.Tick(now);
    assert Entries(was) == s;
    EntriesSplit(was, p);
    PartsApart(was, p);
  }

  lemma {:induction false} PartsApart(l: seq<Timer>, p: nat)
    requires Distinct(l) && p <= |l|
    ensures Elems(l[p..]) == Elems(l) - Elems(l[..p])
  {
    assert l == l[..p] + l[p..];
  }

  /** What the abstract list says about a timer, and what the timer itself says. */
  lemma {:induction false} LaterIs(l: seq<Timer>, t: Timer, e: int)
    requires Distinct(l)
    ensures Later(Entries(l), t, e) <==> t in l && t.expire <= e
    ensures Find(Entries(l), t) < |l| <==> t in l
  {
    hide Entries, Find;
    FoundIn(l, t);
    if t in l {
      var i :| 0 <= i < |l| && l[i] == t;
      FoundAt(l, i);
    }
  }

  method Perform(l: List, request: Request, made: seq<Timer?>, present: set<Timer>)
    returns (t: Timer?, ghost step: Step, f: seq<Timer>, present': set<Timer>)
    requires l.Valid() && Noted(made, present, Elems(l.items))
    modifies l, Elems(l.items)
    ensures l.Valid() && Noted(made + [t], present', Elems(l.items))
    ensures t != null <==> request.AddAt?
    ensures t != null ==> fresh(t)
    ensures Elems(l.items) <= old(Elems(l.items)) + if t == null then {} else {t}
    ensures step == StepFor(request, made + [t], |made|, old(Entries(l.items)))
    ensures f == TimersOf(Fired(old(Entries(l.items)), step))
    ensures Entries(l.items) == After(old(Entries(l.items)), step)
  {
    hide l.Valid, Entries, Find, Later, Insert, Cut, Place, Keys;
    t, step, f, present' := null, Skip, [], present;
    ghost var was := l.items;
    ItemsDistinct(l);
    match request {
      case AddAt(e) =>
        t := AddOne(l, e);
        step := Add(Entry(t, e));
        present' := present + {t};
      case PutOffTo(k, e) =>
        if k < |made| && made[k] != null {
          LaterIs(was, made[k], e);
          if made[k] in present && made[k].expire <= e {
            step := PutOff(made[k], e);
            PutOffOne(l, made[k], e);
          }
        }
      case Remove(k) =>
        if k < |made| && made[k] != null {
          LaterIs(was, made[k], 0);
          if made[k] in present {
            step := Del(made[k]);
            RemoveOne(l, made[k]);
            present' := present - {made[k]};
          }
        }
      case TickAt(now) =>
        step := Step.Tick(now);
        f := TickOne(l, now);
        present' := present - set x | x in f;
    }
  }

  /** Any run of additions, extensions, removals and ticks: the list stays well linked and sorted, it is the
   stable sorted sequence that the steps make, and every tick fires exactly the due timers, in order. */
  method Serve(l: List, requests: seq<Request>)
    returns (made: seq<Timer?>, fired: seq<seq<Timer>>, ghost steps: seq<Step>)
    requires l.Valid()
    modifies l, Elems(l.items)
    ensures l.Valid() && |steps| == |requests| && Entries(l.items) == Run(old(Entries(l.items)), steps)
    ensures IsTrace(requests, old(Entries(l.items)), made, steps, fired)
  {
    hide l.Valid, Entries, Fired, After, StepFor, TraceAt, TimersOf;
    made, fired, steps := [], [], [];
    ghost var s0 := Entries(l.items);
    var present: set<Timer> := {};
    for n := 0 to |requests|
      invariant l.Valid() && |steps| == n && Entries(l.items) == Run(s0, steps)
      invariant forall t :: t in Elems(l.items) ==> t in old(Elems(l.items)) || fresh(t)
      invariant IsTrace(requests, s0, made, steps, fired) && Noted(made, present, Elems(l.items))
    {
      var t, f; ghost var step;
      t, step, f, present := Perform(l, requests[n], made, present);
      TraceMore(requests, s0, made, steps, fired, t, step, f);
      made, steps, fired := made + [t], steps + [step], fired + [f];
    }
  }

  // ----- When a timer fires

  /** Every step keeps the order. */
  lemma {:induction false} RunSorted(s: seq<Entry>, steps: seq<Step>)
    requires Sorted(Keys(s))
    ensures Sorted(Keys(Run(s, steps)))
  {
    hide After, Keys, Sorted;
    if steps != [] {
      var n := |steps| - 1;
      RunSorted(s, steps[..n]);
      AfterSorted(Run(s, steps[..n]), steps[n]);
    }
  }

  lemma {:induction false} AfterSorted(s: seq<Entry>, step: Step)
    requires Sorted(Keys(s))
    ensures Sorted(Keys(After(s, step)))
  {
    hide Keys, Sorted, Insert, Cut, Find, Place;
    match step {
      case Add(x) =>
        InsertSorted(s, x);
      case PutOff(t, x) =>
        if Find(s, t) < |s| {
          CutSorted(s, Find(s, t));
          InsertSorted(Cut(s, Find(s, t)), Entry(t, x));
        }
      case Del(t) =>
        if Find(s, t) < |s| {
          CutSorted(s, Find(s, t));
        }
      case Tick(now) =>
        RestSorted(s, Place(Keys(s), now));
      case Skip =>
    }
  }

  lemma {:induction false} InsertSorted(s: seq<Entry>, x: Entry)
    requires Sorted(Keys(s))
    ensures Sorted(Keys(Insert(s, x)))
  {
    hide Keys, Sorted, Place;
    InsertedSorted(Keys(s), x.expire);
    var p := Place(Keys(s), x.expire);
    assert Keys(Insert(s, x)) == Keys(s)[..p] + [x.expire] + Keys(s)[p..];
  }

  lemma {:induction false} CutSorted(s: seq<Entry>, p: nat)
    requires Sorted(Keys(s)) && p < |s|
    ensures Sorted(Keys(Cut(s, p)))
  {
    hide Keys;
    RemovedSorted(Keys(s), p);
    assert Keys(Cut(s, p)) == Keys(s)[..p] + Keys(s)[p + 1..];
  }

  lemma {:induction false} RestSorted(s: seq<Entry>, p: nat)
    requires Sorted(Keys(s)) && p <= |s|
    ensures Sorted(Keys(s[p..]))
  {
    hide Keys;
  }

  ghost predicate Untouched(steps: seq<Step>, e: Entry) {
    forall i :: 0 <= i < |steps| ==>
      match steps[i] {
        case Add(x) => true
        case PutOff(t, _) => t != e.timer
        case Del(t) => t != e.timer
        case Tick(now) => now < e.expire
        case Skip => true
      }
  }

  /** An entry stays in the list as long as it is neither put off nor removed and no tick finds it due. */
  lemma {:induction false} StaysUntilDue(s: seq<Entry>, steps: seq<Step>, e: Entry)
    requires e in s && Untouched(steps, e)
    ensures e in Run(s, steps)
  {
    hide After, Keys;
    if steps != [] {
      var n := |steps| - 1;
      StaysUntilDue(s, steps[..n], e);
      StaysOne(Run(s, steps[..n]), steps[n], e);
    }
  }

  lemma {:induction false} StaysOne(s: seq<Entry>, step: Step, e: Entry)
    requires e in s && Untouched([step], e)
    ensures e in After(s, step)
  {
    hide Keys, Find, Place;
    assert step == [step][0];
    var i :| 0 <= i < |s| && s[i] == e;
    match step {
      case Add(x) =>
        InsertKeeps(s, x, i);
      case PutOff(t, x) =>
        if Find(s, t) < |s| {
          var j := CutKeeps(s, Find(s, t), i);
          InsertKeeps(Cut(s, Find(s, t)), Entry(t, x), j);
        }
      case Del(t) =>
        if Find(s, t) < |s| {
          var j := CutKeeps(s, Find(s, t), i);
        }
      case Tick(now) =>
        var p := Place(Keys(s), now);
        assert s[p..][i - p] == s[i];
      case Skip =>
    }
  }

  lemma {:induction false} InsertKeeps(s: seq<Entry>, x: Entry, i: nat)
    requires i < |s|
    ensures s[i] in Insert(s, x)
  {
    hide Keys, Place;
    var p := Place(Keys(s), x.expire);
    assert s[i] == if i < p then Insert(s, x)[i] else Insert(s, x)[i + 1];
  }

  lemma {:induction false} CutKeeps(s: seq<Entry>, p: nat, i: nat) returns (j: nat)
    requires p < |s| && i < |s| && i != p
    ensures j < |Cut(s, p)| && Cut(s, p)[j] == s[i]
  {
    j := if i < p then i else i - 1;
  }

  /** The first tick that finds an entry due fires it. */
  lemma {:induction false} FiresWhenDue(s: seq<Entry>, steps: seq<Step>, e: Entry, now: int)
    requires e in s && Sorted(Keys(s)) && Untouched(steps, e) && e.expire <= now
    ensures e in Fired(Run(s, steps), Tick(now)) && e !in After(Run(s, steps), Tick(now))
  {
    hide Keys, Run;
    StaysUntilDue(s, steps, e);
    RunSorted(s, steps);
    var u := Run(s, steps);
    var i :| 0 <= i < |u| && u[i] == e;
    DueAreFirst(Keys(u), now, i);
    forall j | Place(Keys(u), now) <= j < |u| ensures u[j] != e {
      DueAreFirst(Keys(u), now, j);
    }
  }
}
