/**
 The timing wheel: a ring of slots, each with a doubly linked list of timers, where a timer
 that is due after more than one turn of the ring counts turns.
 */
module TimeWheel {
  const N := 60
  const TI := 1

  class Timer {
    var rotation: int
    const timeSlot: nat
    var next: Timer?
    var prev: Timer?

    constructor (rot: int, ts: nat)
      ensures rotation == rot && timeSlot == ts && next == null && prev == null
    {
      next, prev, rotation, timeSlot := null, null, rot, ts;
    }
  }

  ghost function Elems(l: seq<Timer>): set<Timer> {
    set t | t in l
  }

  ghost function Before(l: seq<Timer>, i: nat): Timer?
    requires i < |l|
  {
    if i == 0 then null else l[i - 1]
  }

  ghost function After(l: seq<Timer>, i: nat): Timer?
    requires i < |l|
  {
    if i == |l| - 1 then null else l[i + 1]
  }

  /** The timer at position `i`, or null past the end. */
  ghost function At(l: seq<Timer>, i: nat): Timer? {
    if i < |l| then l[i] else null
  }

  /** The timer at position `i` of `l` is linked to its neighbours. */
  ghost predicate LinkedAt(l: seq<Timer>, i: nat, slot: nat)
    requires i < |l|
    reads Elems(l)
  {
    l[i].timeSlot == slot && l[i].rotation >= 0 && l[i].prev == Before(l, i) && l[i].next == After(l, i)
  }

  ghost predicate Distinct(l: seq<Timer>) {
    forall i, j :: 0 <= i < j < |l| ==> l[i] != l[j]
  }

  /** `l` is the doubly linked list that starts at `head`, and its timers belong to slot `slot`. */
  ghost predicate Linked(l: seq<Timer>, head: Timer?, slot: nat)
    reads Elems(l)
  {
    head == At(l, 0) && Distinct(l) && forall i :: 0 <= i < |l| ==> LinkedAt(l, i, slot)
  }

  /** Puts a new timer at the head of a slot. */
  method PushFront(slots: array<Timer?>, ts: nat, timer: Timer, ghost l: seq<Timer>)
    requires ts < slots.Length && Linked(l, slots[ts], ts)
    requires timer !in l && timer.next == null && timer.prev == null && timer.timeSlot == ts && timer.rotation >= 0
    modifies slots, timer, Elems(l)
    ensures Linked([timer] + l, slots[ts], ts)
    ensures forall j :: 0 <= j < slots.Length && j != ts ==> slots[j] == old(slots[j])
    ensures forall t :: t in [timer] + l ==> t.rotation == old(t.rotation)
  {
    ghost var m := [timer] + l;
    if slots[ts] == null {
      slots[ts] := timer;
    } else {
      timer.next := slots[ts];
      slots[ts].prev := timer;
      slots[ts] := timer;
    }
    forall i | 0 <= i < |m| ensures LinkedAt(m, i, ts) {
      if i > 0 {
        assert old(LinkedAt(l, i - 1, ts));
        assert m[i] == l[i - 1] && After(m, i) == After(l, i - 1) && (i > 1 ==> Before(m, i) == Before(l, i - 1));
      }
    }
  }

  ghost function Removed(l: seq<Timer>, i: nat): seq<Timer>
    requires i < |l|
  {
    l[..i] + l[i + 1..]
  }

  /** Takes a timer out of its slot, whether it is at the head or not. */
  method Unlink(slots: array<Timer?>, ts: nat, timer: Timer, ghost l: seq<Timer>, ghost i: nat)
    requires ts < slots.Length && Linked(l, slots[ts], ts) && i < |l| && l[i] == timer
    modifies slots, Elems(l)
    ensures Linked(Removed(l, i), slots[ts], ts)
    ensures timer.next == old(timer.next)
    ensures forall j :: 0 <= j < slots.Length && j != ts ==> slots[j] == old(slots[j])
    ensures forall t :: t in l ==> t.rotation == old(t.rotation)
  {
    ghost var m := Removed(l, i);
    assert LinkedAt(l, i, ts);
    if timer == slots[ts] {
      slots[ts] := slots[ts].next;
      if slots[ts] != null {
        slots[ts].prev := null;
      }
    } else {
      timer.prev.next := timer.next;
      if timer.next != null {
        timer.next.prev := timer.prev;
      }
    }
    forall j | 0 <= j < |m| ensures LinkedAt(m, j, ts) {
      var k := if j < i then j else j + 1;
      assert old(LinkedAt(l, k, ts)) && m[j] == l[k];
      assert After(m, j) == if j == i - 1 then After(l, i) else After(l, k);
      assert Before(m, j) == if j == i then Before(l, i) else Before(l, k);
    }
  }

  // ----- One slot on a tick

  ghost function Rotations(l: seq<Timer>): (r: seq<int>)
    reads Elems(l)
    ensures |r| == |l|
  {
    seq(|l|, i requires 0 <= i < |l| reads Elems(l) => l[i].rotation)
  }

  /** The timers among the first `j` that have turns left. */
  ghost function Kept(l: seq<Timer>, r: seq<int>, j: nat): seq<Timer>
    requires j <= |l| == |r|
  {
    if j == 0 then [] else if r[j - 1] > 0 then Kept(l, r, j - 1) + [l[j - 1]] else Kept(l, r, j - 1)
  }

  /** The timers among the first `j` that have no turns left. */
  ghost function Due(l: seq<Timer>, r: seq<int>, j: nat): seq<Timer>
    requires j <= |l| == |r|
  {
    if j == 0 then [] else if r[j - 1] > 0 then Due(l, r, j - 1) else Due(l, r, j - 1) + [l[j - 1]]
  }

  lemma {:induction false} KeptOrDue(l: seq<Timer>, r: seq<int>, j: nat, t: Timer)
    requires j <= |l| == |r|
    ensures t in Kept(l, r, j) <==> exists i :: 0 <= i < j && l[i] == t && r[i] > 0
    ensures t in Due(l, r, j) <==> exists i :: 0 <= i < j && l[i] == t && r[i] <= 0
  {
    if j > 0 { KeptOrDue(l, r, j - 1, t); }
  }

  /** Takes one turn from a timer that stays in its slot. */
  method DropTurn(timer: Timer, cur: nat, head: Timer?, ghost m: seq<Timer>)
    requires Linked(m, head, cur) && timer in m && timer.rotation > 0
    modifies timer`rotation
    ensures timer.rotation == old(timer.rotation) - 1 && Linked(m, head, cur)
  {
    timer.rotation := timer.rotation - 1;
    forall i | 0 <= i < |m| ensures LinkedAt(m, i, cur) {
      assert old(LinkedAt(m, i, cur));
    }
  }

  /** The first `j` timers of the slot have lost a turn if they had one. */
  ghost predicate Turned(l: seq<Timer>, r: seq<int>, j: nat)
    requires j <= |l| == |r|
    reads Elems(l)
  {
    && (forall i :: 0 <= i < j ==> l[i].rotation == if r[i] > 0 then r[i] - 1 else r[i])
    && (forall i :: j <= i < |l| ==> l[i].rotation == r[i])
  }

  /** The list while the first `j` timers have been handled. */
  ghost function Current(l: seq<Timer>, r: seq<int>, j: nat): seq<Timer>
    requires j <= |l| == |r|
  {
    Kept(l, r, j) + l[j..]
  }

  lemma {:induction false} CurrentStep(l: seq<Timer>, r: seq<int>, j: nat)
    requires j < |l| == |r|
    ensures var (m, k) := (Current(l, r, j), |Kept(l, r, j)|);
      && k < |m| && m[k] == l[j] && After(m, k) == At(l, j + 1)
      && Current(l, r, j + 1) == if r[j] > 0 then m else Removed(m, k)
  {
  }

  lemma {:induction false} CurrentWithin(l: seq<Timer>, r: seq<int>, j: nat)
    requires j <= |l| == |r|
    ensures Elems(Current(l, r, j)) <= Elems(l)
  {
    if j > 0 { CurrentWithin(l, r, j - 1); }
  }

  lemma {:induction false} LinkedView(m: seq<Timer>, head: Timer?, cur: nat, k: nat)
    requires Linked(m, head, cur) && k < |m|
    ensures m[k].next == After(m, k) && m[k].timeSlot == cur && m[k] in m
  {
    assert LinkedAt(m, k, cur);
  }

  lemma {:induction false} DistinctElse(l: seq<Timer>, j: nat)
    requires Distinct(l) && j < |l|
    ensures forall i :: 0 <= i < |l| && i != j ==> l[i] != l[j]
  {
  }

  lemma {:induction false} TickStart(l: seq<Timer>, head: Timer?, cur: nat)
    requires Linked(l, head, cur)
    ensures Distinct(l) && head == At(l, 0)
    ensures var r := Rotations(l);
      Current(l, r, 0) == l && Current(l, r, |l|) == Kept(l, r, |l|) && Turned(l, r, 0)
  {
  }

  /** One turn of the loop over a slot. */
  method TickOne(slots: array<Timer?>, cur: nat, tmp: Timer, ghost l: seq<Timer>, ghost r: seq<int>, ghost j: nat)
    returns (next: Timer?, due: bool)
    requires cur < slots.Length && j < |l| == |r| && tmp == l[j] && Distinct(l)
    requires Linked(Current(l, r, j), slots[cur], cur) && Turned(l, r, j)
    modifies slots, Elems(l)
    ensures next == At(l, j + 1) && (due <==> r[j] <= 0)
    ensures Linked(Current(l, r, j + 1), slots[cur], cur) && Turned(l, r, j + 1)
    ensures forall i :: 0 <= i < slots.Length && i != cur ==> slots[i] == old(slots[i])
  {
    hide Linked, Current, Kept, LinkedAt, At, After, Distinct;
    ghost var m, k := Current(l, r, j), |Kept(l, r, j)|;
    CurrentStep(l, r, j);
    CurrentWithin(l, r, j);
    LinkedView(m, slots[cur], cur, k);
    DistinctElse(l, j);
    next := tmp.next;
    due := tmp.rotation <= 0;
    if !due {
      DropTurn(tmp, cur, slots[cur], m);
    } else {
      Unlink(slots, cur, tmp, m, k);
      assert forall i :: 0 <= i < |l| && l[i] !in m ==> l[i].rotation == old(l[i].rotation);
    }
  }

  method TickSlot(slots: array<Timer?>, cur: nat, ghost l: seq<Timer>) returns (fired: seq<Timer>)
    requires cur < slots.Length && Linked(l, slots[cur], cur)
    modifies slots, Elems(l)
    ensures fired == Due(l, old(Rotations(l)), |l|)
    ensures Linked(Kept(l, old(Rotations(l)), |l|), slots[cur], cur)
    ensures Turned(l, old(Rotations(l)), |l|)
    ensures forall j :: 0 <= j < slots.Length && j != cur ==> slots[j] == old(slots[j])
  {
    hide Linked, Current, Kept, Distinct, Turned, Rotations, Elems;
    ghost var r, j := Rotations(l), 0;
    TickStart(l, slots[cur], cur);
    var tmp := slots[cur];
    fired := [];
    while tmp != null
      invariant j <= |l| && tmp == At(l, j) && fired == Due(l, r, j)
      invariant Linked(Current(l, r, j), slots[cur], cur) && Turned(l, r, j)
      invariant forall i :: 0 <= i < slots.Length && i != cur ==> slots[i] == old(slots[i])
      decreases |l| - j
    {
      var next, due := TickOne(slots, cur, tmp, l, r, j);
      if due {
        fired := fired + [tmp];
      }
      tmp := next;
      j := j + 1;
    }
  }

  lemma {:induction false} DueDistinct(l: seq<Timer>, r: seq<int>, j: nat)
    requires j <= |l| == |r| && Distinct(l)
    ensures Distinct(Due(l, r, j))
  {
    if j > 0 {
      DueDistinct(l, r, j - 1);
      KeptOrDue(l, r, j - 1, l[j - 1]);
    }
  }

  lemma {:induction false} TickedAt(l: seq<Timer>, r: seq<int>, i: nat)
    requires i < |l| == |r| && Distinct(l) && Turned(l, r, |l|)
    ensures l[i] in Due(l, r, |l|) <==> r[i] <= 0
    ensures l[i] in Kept(l, r, |l|) <==> r[i] > 0
    ensures l[i].rotation == if r[i] > 0 then r[i] - 1 else r[i]
  {
    KeptOrDue(l, r, |l|, l[i]);
  }

  lemma {:induction false} TickedWithin(l: seq<Timer>, r: seq<int>, j: nat)
    requires j <= |l| == |r|
    ensures Elems(Due(l, r, j)) <= Elems(l) && Elems(Kept(l, r, j)) <= Elems(l)
  {
    if j > 0 { TickedWithin(l, r, j - 1); }
  }

  ghost function PositionOf(l: seq<Timer>, t: Timer): (i: nat)
    requires t in l
    ensures i < |l| && l[i] == t
  {
    var i :| 0 <= i < |l| && l[i] == t; i
  }

  ghost function Turns(l: seq<Timer>): map<Timer, int>
    reads Elems(l)
  {
    map t | t in l :: t.rotation
  }

  lemma {:induction false} TurnsAt(l: seq<Timer>, head: Timer?, slot: nat)
    requires Linked(l, head, slot)
    ensures forall i :: 0 <= i < |l| ==> Turns(l)[l[i]] == Rotations(l)[i] >= 0
  {
    forall i | 0 <= i < |l| ensures Turns(l)[l[i]] == Rotations(l)[i] >= 0 {
      assert LinkedAt(l, i, slot);
    }
  }

  /** Which timers of a slot fire, which stay, and with how many turns. */
  ghost predicate TickedSlot(before: map<Timer, int>, fired: seq<Timer>, kept: seq<Timer>)
    reads Elems(kept)
  {
    && Elems(fired) == (set t | t in before && before[t] == 0)
    && Elems(kept) == (set t | t in before && before[t] > 0)
    && (forall t :: t in Elems(kept) ==> t.rotation == before[t] - 1)
  }

  lemma {:induction false} TickedTimers(l: seq<Timer>, r: seq<int>, before: map<Timer, int>)
    requires |l| == |r| && Distinct(l) && Turned(l, r, |l|)
    requires before.Keys == Elems(l) && forall i :: 0 <= i < |l| ==> before[l[i]] == r[i] >= 0
    ensures TickedSlot(before, Due(l, r, |l|), Kept(l, r, |l|))
  {
    hide Due, Kept, Turned, Distinct;
    TickedWithin(l, r, |l|);
    forall t | t in Elems(l)
      ensures t in Elems(Due(l, r, |l|)) <==> before[t] == 0
      ensures t in Elems(Kept(l, r, |l|)) <==> before[t] > 0
      ensures t in Elems(Kept(l, r, |l|)) ==> t.rotation == before[t] - 1
    {
      TickedAt(l, r, PositionOf(l, t));
    }
  }

  /** The loop of a tick, in terms of what each timer's turns were before. */
  method TickCurrent(slots: array<Timer?>, cur: nat, ghost l: seq<Timer>)
    returns (fired: seq<Timer>, ghost kept: seq<Timer>)
    requires cur < slots.Length && Linked(l, slots[cur], cur)
    modifies slots, Elems(l)
    ensures Distinct(fired) && Linked(kept, slots[cur], cur) && TickedSlot(old(Turns(l)), fired, kept)
    ensures forall j :: 0 <= j < slots.Length && j != cur ==> slots[j] == old(slots[j])
  {
    hide Linked, Kept, Due, Distinct, Turned, Rotations, TickedSlot;
    ghost var r, before := Rotations(l), Turns(l);
    TickStart(l, slots[cur], cur);
    TurnsAt(l, slots[cur], cur);
    fired := TickSlot(slots, cur, l);
    kept := Kept(l, r, |l|);
    DueDistinct(l, r, |l|);
    TickedTimers(l, r, before);
  }

  // ----- What a timer's slot and turns mean

  /** How many more ticks pass before the tick that fires a timer. */
  function Countdown(rotation: int, timeSlot: int, cur: int): int {
    (timeSlot - cur) % N + N * rotation
  }

  /** A timeout as a number of ticks, at least one. */
  function TicksFor(timeout: int): nat
    requires timeout >= 0
  {
    if timeout < TI then 1 else timeout / TI
  }

  /** As many whole ticks as fit into the timeout, and one if none does. */
  lemma {:induction false} TicksForIs(timeout: int)
    requires timeout >= 0
    ensures timeout >= TI ==> TicksFor(timeout) * TI <= timeout < (TicksFor(timeout) + 1) * TI
    ensures timeout < TI ==> TicksFor(timeout) == 1
    ensures timeout > 0 ==> TicksFor(timeout) == timeout
  {
  }

  lemma {:induction false} CountdownPlaced(ticks: nat, cur: nat)
    requires cur < N
    ensures (cur + ticks % N) % N < N && Countdown(ticks / N, (cur + ticks % N) % N, cur) == ticks
  {
    var d := ticks % N;
    if cur + d < N {
      assert (cur + d) % N == cur + d;
    } else {
      assert (cur + d) % N == cur + d - N;
    }
  }

  lemma {:induction false} CountdownTicked(rotation: int, timeSlot: nat, cur: nat)
    requires timeSlot < N && cur < N && rotation >= 0
    ensures var next := (cur + 1) % N;
      && next < N
      && (timeSlot == cur ==>
        && Countdown(rotation, timeSlot, cur) == N * rotation
        && Countdown(rotation - 1, timeSlot, next) == Countdown(rotation, timeSlot, cur) - 1)
      && (timeSlot != cur ==>
        && Countdown(rotation, timeSlot, cur) > 0
        && Countdown(rotation, timeSlot, next) == Countdown(rotation, timeSlot, cur) - 1)
  {
    var next := (cur + 1) % N;
    assert next == if cur + 1 == N then 0 else cur + 1;
    var d := (timeSlot - cur) % N;
    assert d == if timeSlot >= cur then timeSlot - cur else timeSlot - cur + N;
  }

  /** The effect of a tick on the countdowns: those at zero are gone, the others go down by one. */
  ghost function Ticked<T>(m: map<T, int>): map<T, int> {
    map t | t in m && m[t] != 0 :: m[t] - 1
  }

  // ----- Runs of the wheel, as countdowns

  datatype Step<T> = Add(timer: T, ticks: nat) | Del(timer: T) | Tick | Skip

  /** The effect of each operation on the countdowns, as the methods of the wheel state it. */
  ghost function After1<T>(m: map<T, int>, step: Step<T>): map<T, int> {
    match step
    case Add(t, ticks) => m[t := ticks]
    case Del(t) => m - {t}
    case Tick => Ticked(m)
    case Skip => m
  }

  ghost function Run<T>(m: map<T, int>, steps: seq<Step<T>>): map<T, int> {
    if steps == [] then m else After1(Run(m, steps[..|steps| - 1]), steps[|steps| - 1])
  }

  ghost function Ticks<T>(steps: seq<Step<T>>): nat {
    if steps == [] then 0 else Ticks(steps[..|steps| - 1]) + if steps[|steps| - 1].Tick? then 1 else 0
  }

  ghost predicate Untouched<T>(steps: seq<Step<T>>, t: T) {
    forall i :: 0 <= i < |steps| && (steps[i].Add? || steps[i].Del?) ==> steps[i].timer != t
  }

  /** Whatever happens to the other timers, a timer is still there exactly as long as no more
   ticks have passed than it was given. */
  lemma {:induction false} CountsDown<T>(m: map<T, int>, steps: seq<Step<T>>, t: T)
    requires t in m && m[t] >= 0 && Untouched(steps, t)
    ensures t in Run(m, steps) <==> Ticks(steps) <= m[t]
    ensures t in Run(m, steps) ==> Run(m, steps)[t] == m[t] - Ticks(steps)
  {
    if steps != [] {
      var before := steps[..|steps| - 1];
      CountsDown(m, before, t);
    }
  }

  /** The tick that fires a timer added with `k` ticks is the one after `k` others, and no other. */
  lemma {:induction false} FiresOnce<T>(m: map<T, int>, k: nat, t: T, steps: seq<Step<T>>)
    requires Untouched(steps, t)
    ensures var after := Run(After1(m, Add(t, k)), steps);
      t in after && after[t] == 0 <==> Ticks(steps) == k
  {
    CountsDown(m[t := k], steps, t);
  }

  // ----- The wheel

  /** Every slot holds a list, and the lists together hold exactly `timers`. */
  ghost predicate Ring(lists: seq<seq<Timer>>, heads: seq<Timer?>, timers: set<Timer>)
    reads timers
    ensures Ring(lists, heads, timers) ==> |lists| == |heads| == N
  {
    && |lists| == |heads| == N
    && (forall s :: 0 <= s < N ==> Elems(lists[s]) <= timers && Linked(lists[s], heads[s], s))
    && (forall t :: t in timers ==> t.timeSlot < N && t in lists[t.timeSlot])
  }

  ghost function CountdownsOf(timers: set<Timer>, cur: int): (m: map<Timer, int>)
    reads timers
    ensures m.Keys == timers
  {
    map t | t in timers :: Countdown(t.rotation, t.timeSlot, cur)
  }

  /** The timers in the slots other than `ts`. */
  ghost function Others(lists: seq<seq<Timer>>, ts: nat): set<Timer>
    ensures forall s :: 0 <= s < |lists| && s != ts ==> Elems(lists[s]) <= Others(lists, ts)
  {
    set s, t | 0 <= s < |lists| && s != ts && t in lists[s] :: t
  }

  /** The slots other than `ts` are sound. */
  ghost predicate RingBut(lists: seq<seq<Timer>>, heads: seq<Timer?>, ts: nat)
    reads Others(lists, ts)
    ensures RingBut(lists, heads, ts) ==> |lists| == |heads| == N
  {
    |lists| == |heads| == N && forall s :: 0 <= s < N && s != ts ==> Linked(lists[s], heads[s], s)
  }

  lemma {:induction false} LinkedSlot(l: seq<Timer>, head: Timer?, ts: nat)
    requires Linked(l, head, ts)
    ensures forall t :: t in l ==> t.timeSlot == ts
  {
    forall t | t in l ensures t.timeSlot == ts {
      var i :| 0 <= i < |l| && l[i] == t;
      assert LinkedAt(l, i, ts);
    }
  }

  /** A ring is one slot and the others, which share no timer with it. */
  lemma {:induction false} RingSlot(lists: seq<seq<Timer>>, heads: seq<Timer?>, timers: set<Timer>, ts: nat)
    requires Ring(lists, heads, timers) && ts < N
    ensures Linked(lists[ts], heads[ts], ts) && RingBut(lists, heads, ts)
    ensures timers == Others(lists, ts) + Elems(lists[ts])
    ensures forall t :: t in Others(lists, ts) ==> t.timeSlot != ts
    ensures forall t :: t in Elems(lists[ts]) ==> t.timeSlot == ts
  {
    hide Linked;
    forall s | 0 <= s < N ensures forall t :: t in lists[s] ==> t in Elems(lists[s]) && t.timeSlot == s {
      LinkedSlot(lists[s], heads[s], s);
    }
  }

  lemma {:induction false} RingHas(lists: seq<seq<Timer>>, heads: seq<Timer?>, timers: set<Timer>, t: Timer)
    requires Ring(lists, heads, timers) && t in timers
    ensures t.timeSlot < N && t in lists[t.timeSlot] && t.rotation >= 0
  {
    var l := lists[t.timeSlot];
    assert LinkedAt(l, PositionOf(l, t), t.timeSlot);
  }

  lemma {:induction false} RemovedElems(l: seq<Timer>, i: nat)
    requires Distinct(l) && i < |l|
    ensures Elems(Removed(l, i)) == Elems(l) - {l[i]}
  {
    var m := Removed(l, i);
    forall t | t in Elems(l) && t != l[i] ensures t in Elems(m) {
      var j := PositionOf(l, t);
      assert t == if j < i then m[j] else m[j - 1];
    }
  }

  lemma {:induction false} RingRestored(lists: seq<seq<Timer>>, heads: seq<Timer?>, ts: nat,
                                        l: seq<Timer>, head: Timer?, timers: set<Timer>)
    requires RingBut(lists, heads, ts) && ts < N && Linked(l, head, ts)
    requires timers == Others(lists, ts) + Elems(l)
    ensures Ring(lists[ts := l], heads[ts := head], timers)
  {
    hide Linked;
    LinkedSlot(l, head, ts);
    forall t | t in Others(lists, ts) ensures t.timeSlot < N && t.timeSlot != ts && t in lists[t.timeSlot] {
      var s :| 0 <= s < N && s != ts && t in lists[s];
      LinkedSlot(lists[s], heads[s], s);
    }
  }

  class Wheel {
    const slots: array<Timer?>
    var curSlot: nat
    ghost var lists: seq<seq<Timer>>
    ghost var timers: set<Timer>

    ghost predicate Valid()
      reads this, slots, timers
    {
      slots.Length == N && curSlot < N && Ring(lists, slots[..], timers)
    }

    /** The timers of the wheel, each with its countdown. */
    ghost function Countdowns(): (m: map<Timer, int>)
      reads this, timers
      ensures m.Keys == timers
    {
      CountdownsOf(timers, curSlot)
    }

    constructor ()
      ensures Valid() && fresh(slots) && Countdowns() == map[]
    {
      curSlot := 0;
      slots := new Timer?[N](i => null);
      lists := seq(N, i => []);
      timers := {};
    }

    /** A negative timeout is refused; otherwise the timer counts down its ticks, at least one. */
    method AddTimer(timeout: int) returns (timer: Timer?)
      requires Valid()
      modifies this, slots, timers
      ensures Valid() && curSlot == old(curSlot)
      ensures timeout < 0 <==> timer == null
      ensures timer == null ==> Countdowns() == old(Countdowns())
      ensures timer != null ==> fresh(timer)
      ensures timer != null ==> Countdowns() == old(Countdowns())[timer := TicksFor(timeout)]
    {
      hide Ring, Countdown;
      if timeout < 0 {
        return null;
      }
      var ticks := TicksFor(timeout);
      var rotation := ticks / N;
      var ts := (curSlot + ticks % N) % N;
      CountdownPlaced(ticks, curSlot);
      timer := Place(rotation, ts);
      assert Countdowns() == old(Countdowns())[timer := ticks];
    }

    method Place(rotation: nat, ts: nat) returns (timer: Timer)
      requires Valid() && ts < N
      modifies this, slots, timers
      ensures Valid() && curSlot == old(curSlot) && fresh(timer)
      ensures timers == old(timers) + {timer} && timer.rotation == rotation && timer.timeSlot == ts
      ensures forall t :: t in old(timers) ==> t.rotation == old(t.rotation)
    {
      hide Ring, RingBut, Others, Linked;
      ghost var l, heads := lists[ts], slots[..];
      RingSlot(lists, heads, timers, ts);
      timer := new Timer(rotation, ts);
      PushFront(slots, ts, timer, l);
      RingRestored(lists, heads, ts, [timer] + l, slots[ts], timers + {timer});
      lists := lists[ts := [timer] + l];
      timers := timers + {timer};
      assert slots[..] == heads[ts := slots[ts]];
    }

    method DelTimer(timer: Timer?)
      requires Valid() && (timer != null ==> timer in timers)
      modifies this, slots, timers
      ensures Valid() && curSlot == old(curSlot)
      ensures Countdowns() == if timer == null then old(Countdowns()) else old(Countdowns()) - {timer}
    {
      if timer != null {
        Remove(timer);
        assert Countdowns() == old(Countdowns()) - {timer};
      }
    }

    method Remove(timer: Timer)
      requires Valid() && timer in timers
      modifies this, slots, timers
      ensures Valid() && curSlot == old(curSlot) && timers == old(timers) - {timer}
      ensures forall t :: t in timers ==> t.rotation == old(t.rotation)
    {
      hide Ring, RingBut, Others, Linked, Removed, Distinct, Rotations, Current, Kept, Turned, At;
      var ts := timer.timeSlot;
      RingHas(lists, slots[..], timers, timer);
      ghost var l, heads := lists[ts], slots[..];
      RingSlot(lists, heads, timers, ts);
      ghost var i := PositionOf(l, timer);
      TickStart(l, slots[ts], ts);
      RemovedElems(l, i);
      assert timer in Elems(l);
      Unlink(slots, ts, timer, l, i);
      RingRestored(lists, heads, ts, Removed(l, i), slots[ts], timers - {timer});
      lists := lists[ts := Removed(l, i)];
      timers := timers - {timer};
      assert slots[..] == heads[ts := slots[ts]];
    }

    /** A tick in terms of slots and turns. */
    method Advance() returns (fired: seq<Timer>)
      requires Valid()
      modifies this, slots, timers
      ensures Valid() && curSlot == (old(curSlot) + 1) % N && Distinct(fired)
      ensures forall t :: t in old(timers) ==> t.timeSlot < N && old(t.rotation) >= 0
      ensures Elems(fired) == set t | t in old(timers) && t.timeSlot == old(curSlot) && old(t.rotation) == 0
      ensures timers == old(timers) - Elems(fired)
      ensures forall t :: t in timers ==>
        t.rotation == if t.timeSlot == old(curSlot) then old(t.rotation) - 1 else old(t.rotation)
    {
      hide Ring, RingBut, Others, Linked, Distinct;
      ghost var cur, l, heads := curSlot, lists[curSlot], slots[..];
      RingSlot(lists, heads, timers, cur);
      forall t | t in timers ensures t.timeSlot < N && t.rotation >= 0 {
        RingHas(lists, heads, timers, t);
      }
      ghost var kept;
      fired, kept := TickCurrent(slots, curSlot, l);
      RingRestored(lists, heads, cur, kept, slots[cur], timers - Elems(fired));
      lists := lists[cur := kept];
      timers := timers - Elems(fired);
      assert slots[..] == heads[cur := slots[cur]];
      curSlot := (curSlot + 1) % N;
    }

    /** Fires exactly the timers whose countdown is at zero, each once; the others count down by one. */
    method Tick() returns (fired: seq<Timer>)
      requires Valid()
      modifies this, slots, timers
      ensures Valid() && curSlot == (old(curSlot) + 1) % N
      ensures Distinct(fired)
      ensures Elems(fired) == set t | t in old(Countdowns()) && old(Countdowns())[t] == 0
      ensures Countdowns() == Ticked(old(Countdowns()))
    {
      hide Ring, Distinct, Countdown;
      ghost var cur, before := curSlot, timers;
      fired := Advance();
      forall t | t in before
        ensures t in Elems(fired) <==> old(Countdowns())[t] == 0
        ensures t !in Elems(fired) ==> Countdown(t.rotation, t.timeSlot, curSlot) == old(Countdowns())[t] - 1
      {
        CountdownTicked(old(t.rotation), t.timeSlot, cur);
      }
    }
  }
}
