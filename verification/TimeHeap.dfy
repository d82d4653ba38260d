/**
 The timer heap: an array that holds a binary heap of timers ordered by expiry, where a
 cancelled timer stays in the heap without its callback.
 */
module TimeHeap {
  class HeapTimer {
    const expire: int
    /** The callback is still set. */
    var live: bool

    constructor (e: int)
      ensures expire == e && live
    {
      expire, live := e, true;
    }
  }

  function Parent(i: nat): nat
    requires i > 0
  {
    (i - 1) / 2
  }

  // ----- Heap order

  ghost predicate EdgeOk(v: seq<HeapTimer>, i: nat)
    requires 0 < i < |v|
  {
    v[Parent(i)].expire <= v[i].expire
  }

  /** Every parent at `lo` or later is no later than its children. */
  ghost predicate OrderedFrom(v: seq<HeapTimer>, lo: nat) {
    forall i :: 0 < i < |v| && Parent(i) >= lo ==> EdgeOk(v, i)
  }

  /** As above, except that the timer at `hole` may be later than its children. */
  ghost predicate Sinking(v: seq<HeapTimer>, lo: nat, hole: nat) {
    && hole < |v|
    && (forall i :: 0 < i < |v| && Parent(i) >= lo && Parent(i) != hole ==> EdgeOk(v, i))
    && (hole > 0 && Parent(hole) >= lo ==>
      forall i :: 0 < i < |v| && Parent(i) == hole ==> v[Parent(hole)].expire <= v[i].expire)
  }

  /** The whole is a heap, except that the timer at `hole` may be earlier than its parent. */
  ghost predicate Rising(v: seq<HeapTimer>, hole: nat) {
    && hole < |v|
    && (forall i :: 0 < i < |v| && i != hole ==> EdgeOk(v, i))
    && (hole > 0 ==> forall i :: 0 < i < |v| && Parent(i) == hole ==> v[Parent(hole)].expire <= v[i].expire)
  }

  ghost predicate IsHeap(v: seq<HeapTimer>) {
    OrderedFrom(v, 0)
  }

  lemma {:induction false} FirstIsLeast(v: seq<HeapTimer>, i: nat)
    requires IsHeap(v) && i < |v|
    ensures v[0].expire <= v[i].expire
  {
    if i > 0 {
      FirstIsLeast(v, Parent(i));
      assert EdgeOk(v, i);
    }
  }

  // ----- Rearrangements

  ghost predicate Rearranged(v: seq<HeapTimer>, w: seq<HeapTimer>) {
    |v| == |w| && multiset(v) == multiset(w)
  }

  ghost function Swapped(v: seq<HeapTimer>, i: nat, j: nat): (w: seq<HeapTimer>)
    requires i < |v| && j < |v|
    ensures |w| == |v| && w[i] == v[j] && w[j] == v[i]
    ensures forall k :: 0 <= k < |v| && k != i && k != j ==> w[k] == v[k]
  {
    v[i := v[j]][j := v[i]]
  }

  lemma {:induction false} SwapRearranges(u: seq<HeapTimer>, v: seq<HeapTimer>, i: nat, j: nat)
    requires Rearranged(u, v) && i < |v| && j < |v|
    ensures Rearranged(u, Swapped(v, i, j))
  {
  }

  /** No child of `hole` expires before `e`. */
  ghost predicate ChildrenFrom(v: seq<HeapTimer>, hole: nat, e: int) {
    forall i :: 0 < i < |v| && Parent(i) == hole ==> e <= v[i].expire
  }

  lemma {:induction false} Childless(v: seq<HeapTimer>, hole: nat, e: int)
    requires hole * 2 + 1 >= |v|
    ensures ChildrenFrom(v, hole, e)
  {
  }

  lemma {:induction false} ChildrenLater(v: seq<HeapTimer>, hole: nat, e: int, f: int)
    requires ChildrenFrom(v, hole, e) && f <= e
    ensures ChildrenFrom(v, hole, f)
  {
  }

  lemma {:induction false} SinkStep(v: seq<HeapTimer>, lo: nat, hole: nat, child: nat)
    requires Sinking(v, lo, hole) && lo <= hole && 0 < child < |v| && Parent(child) == hole
    requires v[child].expire < v[hole].expire && ChildrenFrom(v, hole, v[child].expire)
    ensures Sinking(Swapped(v, hole, child), lo, child)
  {
    var w := Swapped(v, hole, child);
    forall i | 0 < i < |w| && Parent(i) >= lo && Parent(i) != child ensures EdgeOk(w, i) {
      if Parent(i) != hole { assert EdgeOk(v, i); }
    }
    forall i | 0 < i < |w| && Parent(i) == child ensures w[hole].expire <= w[i].expire {
      assert EdgeOk(v, i);
    }
  }

  lemma {:induction false} SinkEnd(v: seq<HeapTimer>, lo: nat, hole: nat)
    requires Sinking(v, lo, hole) && ChildrenFrom(v, hole, v[hole].expire)
    ensures OrderedFrom(v, lo)
  {
    forall i | 0 < i < |v| && Parent(i) >= lo ensures EdgeOk(v, i) {
    }
  }

  lemma {:induction false} RiseStep(v: seq<HeapTimer>, hole: nat)
    requires Rising(v, hole) && hole > 0 && v[Parent(hole)].expire > v[hole].expire
    ensures Rising(Swapped(v, hole, Parent(hole)), Parent(hole))
  {
    var p := Parent(hole);
    var w := Swapped(v, hole, p);
    forall i | 0 < i < |w| && i != p ensures EdgeOk(w, i) {
      if i != hole { assert EdgeOk(v, i); }
    }
    if p > 0 {
      assert EdgeOk(v, p);
      forall i | 0 < i < |w| && Parent(i) == p ensures w[Parent(p)].expire <= w[i].expire {
        if i != hole { assert EdgeOk(v, i); }
      }
    }
  }

  lemma {:induction false} RiseEnd(v: seq<HeapTimer>, hole: nat)
    requires Rising(v, hole) && (hole > 0 ==> v[Parent(hole)].expire <= v[hole].expire)
    ensures IsHeap(v)
  {
    forall i | 0 < i < |v| ensures EdgeOk(v, i) {
    }
  }

  // ----- The array

  /** The first slots of `a` hold `v`. */
  ghost predicate Holds(a: array<HeapTimer?>, v: seq<HeapTimer>)
    reads a
  {
    |v| <= a.Length && forall i :: 0 <= i < |v| ==> a[i] == v[i]
  }

  /** The first slots of `a` hold `v`, except perhaps at `hole`. */
  ghost predicate HoldsBut(a: array<HeapTimer?>, v: seq<HeapTimer>, hole: nat)
    reads a
  {
    |v| <= a.Length && forall i :: 0 <= i < |v| && i != hole ==> a[i] == v[i]
  }

  method SmallerChild(a: array<HeapTimer?>, size: nat, hole: nat, ghost v: seq<HeapTimer>) returns (child: nat)
    requires size == |v| && HoldsBut(a, v, hole) && hole * 2 + 1 < size
    ensures hole < child < size && Parent(child) == hole && ChildrenFrom(v, hole, v[child].expire)
  {
    child := hole * 2 + 1;
    if child < size - 1 && a[child + 1].expire < a[child].expire {
      child := child + 1;
    }
  }

  method PercolateDown(a: array<HeapTimer?>, size: nat, start: nat, ghost v: seq<HeapTimer>)
    returns (ghost w: seq<HeapTimer>)
    requires size == |v| && Holds(a, v) && start < size && OrderedFrom(v, start + 1)
    modifies a
    ensures Holds(a, w) && Rearranged(v, w) && OrderedFrom(w, start)
    ensures forall i :: size <= i < a.Length ==> a[i] == old(a[i])
  {
    hide Rearranged, Sinking, OrderedFrom, ChildrenFrom, Parent;
    var temp := a[start];
    var hole := start;
    w := v;
    SinkStart(v, start);
    while hole * 2 + 1 < size
      invariant start <= hole < size == |w| && w[hole] == temp && HoldsBut(a, w, hole)
      invariant Rearranged(v, w) && Sinking(w, start, hole)
      invariant forall i :: size <= i < a.Length ==> a[i] == old(a[i])
      decreases size - hole
    {
      var child := SmallerChild(a, size, hole, w);
      if a[child].expire < temp.expire {
        SinkStep(w, start, hole, child);
        SwapRearranges(v, w, hole, child);
        a[hole] := a[child];
        w := Swapped(w, hole, child);
        hole := child;
      } else {
        ChildrenLater(w, hole, w[child].expire, temp.expire);
        break;
      }
    }
    a[hole] := temp;
    if hole * 2 + 1 >= size {
      Childless(w, hole, temp.expire);
    }
    SinkEnd(w, start, hole);
  }

  lemma {:induction false} SinkStart(v: seq<HeapTimer>, start: nat)
    requires start < |v| && OrderedFrom(v, start + 1)
    ensures Sinking(v, start, start) && Rearranged(v, v)
  {
    forall i | 0 < i < |v| && Parent(i) >= start && Parent(i) != start ensures EdgeOk(v, i) {
    }
  }

  method PercolateUp(a: array<HeapTimer?>, start: nat, timer: HeapTimer, ghost v: seq<HeapTimer>)
    returns (ghost w: seq<HeapTimer>)
    requires Holds(a, v) && IsHeap(v) && start == |v| < a.Length
    modifies a
    ensures Holds(a, w) && Rearranged(v + [timer], w) && IsHeap(w)
  {
    hide Rearranged, Rising, IsHeap;
    var hole := start;
    w := v + [timer];
    RiseStart(v, timer);
    while hole > 0
      invariant 0 <= hole < |w| == |v| + 1 && w[hole] == timer && HoldsBut(a, w, hole)
      invariant Rearranged(v + [timer], w) && Rising(w, hole)
      decreases hole
    {
      var parent := (hole - 1) / 2;
      if a[parent].expire <= timer.expire {
        break;
      }
      RiseStep(w, hole);
      SwapRearranges(v + [timer], w, hole, parent);
      a[hole] := a[parent];
      w := Swapped(w, hole, parent);
      hole := parent;
    }
    a[hole] := timer;
    RiseEnd(w, hole);
  }

  lemma {:induction false} RiseStart(v: seq<HeapTimer>, timer: HeapTimer)
    requires IsHeap(v)
    ensures Rising(v + [timer], |v|) && Rearranged(v + [timer], v + [timer])
  {
    var w := v + [timer];
    forall i | 0 < i < |w| && i != |v| ensures EdgeOk(w, i) {
      assert EdgeOk(v, i);
    }
  }

  // ----- Removing the first timer

  ghost function LastFirst(v: seq<HeapTimer>): (w: seq<HeapTimer>)
    requires |v| > 0
    ensures |w| == |v| - 1 && (forall i :: 0 < i < |w| ==> w[i] == v[i]) && (|w| > 0 ==> w[0] == v[|v| - 1])
  {
    if |v| == 1 then [] else v[..|v| - 1][0 := v[|v| - 1]]
  }

  lemma {:induction false} LastFirstRearranges(v: seq<HeapTimer>)
    requires |v| > 0
    ensures Rearranged(v, [v[0]] + LastFirst(v))
  {
    if |v| > 1 {
      var n := |v| - 1;
      assert v == v[..n] + [v[n]];
      assert v[..n] == [v[0]] + v[1..n] && LastFirst(v) == [v[n]] + v[1..n];
    } else {
      assert v == [v[0]];
    }
  }

  lemma {:induction false} LastFirstOrdered(v: seq<HeapTimer>)
    requires |v| > 0 && IsHeap(v)
    ensures OrderedFrom(LastFirst(v), 1)
  {
    var w := LastFirst(v);
    forall i | 0 < i < |w| && Parent(i) >= 1 ensures EdgeOk(w, i) {
      assert EdgeOk(v, i);
    }
  }

  lemma {:induction false} Prepended(v: seq<HeapTimer>, first: HeapTimer, w: seq<HeapTimer>, x: seq<HeapTimer>)
    requires Rearranged(v, [first] + w) && Rearranged(w, x)
    ensures Rearranged(v, [first] + x)
  {
  }

  // ----- What a tick fires

  ghost predicate Sorted(v: seq<HeapTimer>) {
    forall i, j :: 0 <= i < j < |v| ==> v[i].expire <= v[j].expire
  }

  /** The timers of `v` whose callback is set. */
  ghost function Fireable(v: seq<HeapTimer>): seq<HeapTimer>
    reads v
  {
    if v == [] then []
    else
      var n := |v| - 1;
      if v[n].live then Fireable(v[..n]) + [v[n]] else Fireable(v[..n])
  }

  lemma {:induction false} FireableOf(v: seq<HeapTimer>, t: HeapTimer)
    ensures multiset(Fireable(v))[t] == if t.live then multiset(v)[t] else 0
  {
    if v != [] {
      var n := |v| - 1;
      FireableOf(v[..n], t);
      assert v == v[..n] + [v[n]];
    }
  }

  lemma {:induction false} FireableSorted(v: seq<HeapTimer>, n: nat)
    requires Sorted(v) && n <= |v|
    ensures Sorted(Fireable(v[..n]))
    ensures forall i :: 0 <= i < |Fireable(v[..n])| && n < |v| ==> Fireable(v[..n])[i].expire <= v[n].expire
  {
    if n > 0 {
      FireableSorted(v, n - 1);
      assert v[..n][..n - 1] == v[..n - 1];
    }
  }

  lemma {:induction false} FireableWithin(v: seq<HeapTimer>)
    ensures multiset(Fireable(v)) <= multiset(v)
  {
    if v != [] {
      var n := |v| - 1;
      FireableWithin(v[..n]);
      assert v == v[..n] + [v[n]];
    }
  }

  lemma {:induction false} FireableJoined(u: seq<HeapTimer>, v: seq<HeapTimer>)
    ensures Fireable(u + v) == Fireable(u) + Fireable(v)
  {
    if v == [] {
      assert u + v == u && Fireable(u) + [] == Fireable(u);
    } else {
      var n := |v| - 1;
      assert (u + v)[..|u + v| - 1] == u + v[..n];
      FireableJoined(u, v[..n]);
    }
  }

  lemma {:induction false} FireableRearranged(u: seq<HeapTimer>, v: seq<HeapTimer>)
    requires Rearranged(u, v)
    ensures Rearranged(Fireable(u), Fireable(v))
  {
    forall t: HeapTimer ensures multiset(Fireable(u))[t] == multiset(Fireable(v))[t] {
      FireableOf(u, t);
      FireableOf(v, t);
    }
    FireableWithin(u);
    FireableWithin(v);
    assert multiset(Fireable(u)) == multiset(Fireable(v));
    assert |multiset(Fireable(u))| == |multiset(Fireable(v))|;
  }

  lemma {:induction false} CountOnly(v: seq<HeapTimer>, t: HeapTimer)
    requires t !in v
    ensures multiset(v)[t] == 0
  {
  }

  /** Splitting the timers of a heap at `now` decides how often each one is on either side. */
  lemma {:induction false} SplitAt(before: seq<HeapTimer>, popped: seq<HeapTimer>, after: seq<HeapTimer>, now: int,
                                   t: HeapTimer)
    requires Rearranged(before, popped + after)
    requires forall i :: 0 <= i < |popped| ==> popped[i].expire <= now
    requires forall i :: 0 <= i < |after| ==> after[i].expire > now
    ensures multiset(popped)[t] == if t.expire <= now then multiset(before)[t] else 0
    ensures multiset(after)[t] == if t.expire > now then multiset(before)[t] else 0
  {
    if t.expire <= now { CountOnly(after, t); } else { CountOnly(popped, t); }
  }

  ghost predicate AtMost(v: seq<HeapTimer>, w: seq<HeapTimer>) {
    forall i, j :: 0 <= i < |v| && 0 <= j < |w| ==> v[i].expire <= w[j].expire
  }

  lemma {:induction false} StillIn(v: seq<HeapTimer>, first: HeapTimer, w: seq<HeapTimer>, j: nat)
    requires Rearranged(v, [first] + w) && j < |w|
    ensures exists k :: 0 <= k < |v| && v[k] == w[j]
  {
    assert ([first] + w)[j + 1] == w[j];
    assert w[j] in multiset([first] + w);
    assert w[j] in v;
  }

  /** Part of a tick: `popped` are gone, in order of expiry, all due, and none later than the rest `v`. */
  ghost predicate Popping(before: seq<HeapTimer>, popped: seq<HeapTimer>, v: seq<HeapTimer>, now: int) {
    && Rearranged(before, popped + v) && Sorted(popped) && AtMost(popped, v)
    && forall i :: 0 <= i < |popped| ==> popped[i].expire <= now
  }

  /** One more timer is popped, the earliest of a heap of timers no earlier than those popped before. */
  lemma {:induction false} PoppedOne(before: seq<HeapTimer>, popped: seq<HeapTimer>, v: seq<HeapTimer>,
                                     w: seq<HeapTimer>, now: int)
    requires Popping(before, popped, v, now) && |v| > 0 && IsHeap(v) && v[0].expire <= now
    requires Rearranged(v, [v[0]] + w)
    ensures Popping(before, popped + [v[0]], w, now)
  {
    var more := popped + [v[0]];
    assert popped + ([v[0]] + w) == more + w;
    forall i, j | 0 <= i < |more| && 0 <= j < |w| ensures more[i].expire <= w[j].expire {
      StillIn(v, v[0], w, j);
      var k :| 0 <= k < |v| && v[k] == w[j];
      FirstIsLeast(v, k);
    }
  }

  lemma {:induction false} FireableMore(v: seq<HeapTimer>, t: HeapTimer)
    ensures Fireable(v + [t]) == if t.live then Fireable(v) + [t] else Fireable(v)
  {
    assert (v + [t])[..|v|] == v;
  }

  /** The timers that were due are gone, in order of expiry, and the ones that are not due remain. */
  ghost predicate TickedRight(before: seq<HeapTimer>, popped: seq<HeapTimer>, after: seq<HeapTimer>, now: int) {
    && Rearranged(before, popped + after) && Sorted(popped)
    && (forall i :: 0 <= i < |popped| ==> popped[i].expire <= now)
    && (forall i :: 0 <= i < |after| ==> after[i].expire > now)
  }

  lemma {:induction false} NonePopped(v: seq<HeapTimer>, now: int)
    ensures Popping(v, [], v, now) && Fireable([]) == []
  {
    assert [] + v == v;
  }

  lemma {:induction false} AllPopped(before: seq<HeapTimer>, popped: seq<HeapTimer>, v: seq<HeapTimer>, now: int)
    requires Popping(before, popped, v, now) && IsHeap(v) && (|v| > 0 ==> v[0].expire > now)
    ensures TickedRight(before, popped, v, now)
  {
    forall i | 0 <= i < |v| ensures v[i].expire > now {
      FirstIsLeast(v, i);
    }
  }

  // ----- Growing

  /** The capacity when a timer is added. */
  function Grown(size: nat, capacity: nat): nat {
    if size >= capacity then 2 * capacity else capacity
  }

  /** Doubling makes room for one more timer exactly when there was some capacity to double. */
  lemma {:induction false} GrownHasRoom(size: nat, capacity: nat)
    requires size <= capacity
    ensures size < Grown(size, capacity) <==> capacity > 0
  {
  }

  class Heap {
    var data: array<HeapTimer?>
    var capacity: nat
    var curSize: nat
    ghost var items: seq<HeapTimer>

    ghost predicate Valid()
      reads this, data
    {
      data.Length == capacity && curSize == |items| && Holds(data, items) && IsHeap(items)
    }

    constructor (cap: nat)
      ensures Valid() && capacity == cap && items == [] && fresh(data)
    {
      data := new HeapTimer?[cap](i => null);
      capacity, curSize, items := cap, 0, [];
    }

    /** Builds a heap from the first `size` timers of an array; refused when they do not fit. */
    static method FromArray(init: array<HeapTimer>, size: nat, capacity: nat) returns (h: Heap?)
      requires size <= init.Length
      ensures h == null <==> capacity < size
      ensures h != null ==> fresh(h) && fresh(h.data) && h.Valid() && h.capacity == capacity
      ensures h != null ==> Rearranged(init[..size], h.items)
    {
      hide Rearranged, OrderedFrom;
      if capacity < size {
        return null;
      }
      h := new Heap(capacity);
      if size != 0 {
        for i := 0 to size
          invariant h.data.Length == capacity && fresh(h) && fresh(h.data) && h.capacity == capacity
          invariant forall j :: 0 <= j < i ==> h.data[j] == init[j]
        {
          h.data[i] := init[i];
        }
        ghost var v := init[..size];
        HalfOrdered(v);
        for i := (size - 1) / 2 + 1 downto 0
          invariant h.data.Length == capacity && fresh(h) && fresh(h.data) && h.capacity == capacity
          invariant |v| == size && Holds(h.data, v) && Rearranged(init[..size], v) && OrderedFrom(v, i)
        {
          ghost var w := PercolateDown(h.data, size, i, v);
          RearrangedTrans(init[..size], v, w);
          v := w;
        }
        h.curSize, h.items := size, v;
      } else {
        HalfOrdered([]);
      }
    }

    method Resize()
      requires Valid()
      modifies this
      ensures Valid() && fresh(data) && items == old(items) && capacity == 2 * old(capacity)
    {
      var temp := new HeapTimer?[2 * capacity](i => null);
      capacity := 2 * capacity;
      for i := 0 to curSize
        invariant temp.Length == capacity && curSize == |items| && items == old(items) && data == old(data)
        invariant Holds(data, items)
        invariant forall j :: 0 <= j < i ==> temp[j] == items[j]
      {
        temp[i] := data[i];
      }
      data := temp;
    }

    /** Adds a timer. `overrun` says that the source would write behind its array, which happens exactly for
     a capacity of zero; the heap is then left as it is. */
    method AddTimer(timer: HeapTimer?) returns (overrun: bool)
      requires Valid()
      modifies this, data
      ensures Valid() && (data == old(data) || fresh(data))
      ensures overrun <==> timer != null && old(capacity) == 0
      ensures timer == null || overrun ==> items == old(items) && capacity == old(capacity)
      ensures timer != null && !overrun ==> Rearranged(old(items) + [timer], items)
      ensures timer != null && !overrun ==> capacity == Grown(old(curSize), old(capacity))
    {
      overrun := false;
      if timer == null {
        return;
      }
      GrownHasRoom(curSize, capacity);
      if curSize >= capacity {
        Resize();
      }
      if curSize >= capacity {
        return true;
      }
      ghost var w := PercolateUp(data, curSize, timer, items);
      curSize := curSize + 1;
      items := w;
    }

    /** Cancelling leaves the timer where it is and takes away its callback. */
    method DelTimer(timer: HeapTimer?)
      requires Valid()
      modifies timer
      ensures Valid() && (timer != null ==> !timer.live)
    {
      if timer == null {
        return;
      }
      timer.live := false;
    }

    /** The earliest timer, or null when there is none. */
    method Top() returns (timer: HeapTimer?)
      requires Valid()
      ensures timer == null <==> items == []
      ensures timer != null ==> timer in items && forall t :: t in items ==> timer.expire <= t.expire
    {
      if curSize == 0 {
        return null;
      }
      forall i | 0 <= i < |items| ensures items[0].expire <= items[i].expire {
        FirstIsLeast(items, i);
      }
      return data[0];
    }

    method PopTimer()
      requires Valid()
      modifies this, data
      ensures Valid() && data == old(data) && capacity == old(capacity)
      ensures |old(items)| == 0 ==> |items| == 0
      ensures |old(items)| > 0 ==> |items| == |old(items)| - 1 && Rearranged(old(items), [old(items)[0]] + items)
    {
      hide Rearranged, OrderedFrom, LastFirst;
      if curSize == 0 {
        return;
      }
      ghost var v := LastFirst(items);
      LastFirstRearranges(items);
      LastFirstOrdered(items);
      curSize := curSize - 1;
      data[0] := data[curSize];
      ghost var w := v;
      if curSize == 0 {
        HalfOrdered(w);
      } else {
        w := PercolateDown(data, curSize, 0, v);
        Prepended(items, items[0], v, w);
      }
      items := w;
    }

    /** Fires and drops every timer that is due, and drops the cancelled ones that are due. */
    method PopDue(now: int) returns (fired: seq<HeapTimer>, ghost popped: seq<HeapTimer>)
      requires Valid() && capacity > 0
      modifies this, data
      ensures Valid() && data == old(data) && capacity == old(capacity)
      ensures fired == Fireable(popped) && TickedRight(old(items), popped, items, now)
    {
      hide Rearranged, IsHeap, OrderedFrom, Popping, Fireable, TickedRight;
      var tmp := data[0];
      fired, popped := [], [];
      NonePopped(items, now);
      while curSize != 0
        invariant Valid() && data == old(data) && capacity == old(capacity) && tmp == data[0]
        invariant Popping(old(items), popped, items, now) && fired == Fireable(popped)
        decreases |items|
      {
        if tmp == null || tmp.expire > now {
          break;
        }
        if data[0].live {
          fired := fired + [data[0]];
        }
        ghost var v := items;
        PopTimer();
        PoppedOne(old(items), popped, v, items, now);
        FireableMore(popped, v[0]);
        popped := popped + [v[0]];
        tmp := data[0];
      }
      AllPopped(old(items), popped, items, now);
    }

    /** Fires exactly the timers that are due and not cancelled, in order of expiry, and keeps exactly
     the timers that are not due. `overrun` says that the source would read behind its array. */
    method Tick(now: int) returns (fired: seq<HeapTimer>, overrun: bool)
      requires Valid()
      modifies this, data
      ensures Valid() && data == old(data) && capacity == old(capacity)
      ensures overrun <==> capacity == 0
      ensures Sorted(fired)
      ensures forall t: HeapTimer ::
                multiset(fired)[t] == if t.live && t.expire <= now then multiset(old(items))[t] else 0
      ensures forall t: HeapTimer :: multiset(items)[t] == if t.expire > now then multiset(old(items))[t] else 0
      ensures multiset(fired) <= multiset(old(items)) && multiset(items) <= multiset(old(items))
      ensures Rearranged(old(Fireable(items)), fired + Fireable(items))
    {
      hide Rearranged, IsHeap, Sorted, Fireable, TickedRight;
      fired, overrun := [], capacity == 0;
      if overrun {
        NoTimers(items);
        return;
      }
      ghost var before, popped := items, [];
      fired, popped := PopDue(now);
      TickedTimers(before, popped, items, now);
    }
  }

  lemma {:induction false} NoTimers(v: seq<HeapTimer>)
    requires v == []
    ensures Sorted([]) && Rearranged(Fireable(v), [] + Fireable(v))
  {
  }

  /** What a tick has done to each timer, and to the timers that are not cancelled. */
  lemma {:induction false} TickedTimers(before: seq<HeapTimer>, popped: seq<HeapTimer>, after: seq<HeapTimer>, now: int)
    requires TickedRight(before, popped, after, now)
    ensures var fired := Fireable(popped);
      && Sorted(fired) && multiset(fired) <= multiset(before) && multiset(after) <= multiset(before)
      && (forall t: HeapTimer :: multiset(fired)[t] == if t.live && t.expire <= now then multiset(before)[t] else 0)
      && (forall t: HeapTimer :: multiset(after)[t] == if t.expire > now then multiset(before)[t] else 0)
      && Rearranged(Fireable(before), fired + Fireable(after))
  {
    hide Sorted, Fireable;
    FireableSorted(popped, |popped|);
    assert popped[..|popped|] == popped;
    FireableWithin(popped);
    FireableRearranged(before, popped + after);
    FireableJoined(popped, after);
    forall t: HeapTimer
      ensures multiset(Fireable(popped))[t] == if t.live && t.expire <= now then multiset(before)[t] else 0
      ensures multiset(after)[t] == if t.expire > now then multiset(before)[t] else 0
    {
      FireableOf(popped, t);
      SplitAt(before, popped, after, now, t);
    }
  }

  lemma {:induction false} RearrangedTrans(u: seq<HeapTimer>, v: seq<HeapTimer>, w: seq<HeapTimer>)
    requires Rearranged(u, v) && Rearranged(v, w)
    ensures Rearranged(u, w)
  {
  }

  /** The second half of an array has no children, so it is in order as it stands. */
  lemma {:induction false} HalfOrdered(v: seq<HeapTimer>)
    ensures Rearranged(v, v)
    ensures |v| > 0 ==> OrderedFrom(v, (|v| - 1) / 2 + 1)
    ensures |v| == 0 ==> OrderedFrom(v, 0) && IsHeap(v)
  {
  }

  // ----- Runs

  datatype Op = Add(timer: HeapTimer?) | Cancel(timer: HeapTimer?) | Pop | Tick(now: int)

  ghost function Cancelled(ops: seq<Op>): set<HeapTimer> {
    set op | op in ops && op.Cancel? && op.timer != null :: op.timer
  }

  ghost function CancelledBy(op: Op): set<HeapTimer> {
    if op.Cancel? && op.timer != null then {op.timer} else {}
  }

  /** The operation looks at an entry of the array even if the heap is empty. */
  predicate NeedsEntry(op: Op) {
    (op.Add? && op.timer != null) || op.Tick?
  }

  ghost function AddedBy(op: Op): multiset<HeapTimer> {
    if op.Add? && op.timer != null then multiset{op.timer} else multiset{}
  }

  /** The timers `v` have no timer that expires before `t`. */
  ghost predicate Earliest(t: HeapTimer, v: multiset<HeapTimer>) {
    forall u :: u in v ==> t.expire <= u.expire
  }

  /** What an operation does to the timers in a heap: adding adds, cancelling leaves them, popping takes an
   earliest one, and a tick takes exactly those that are due. */
  ghost predicate Becomes(v: multiset<HeapTimer>, op: Op, w: multiset<HeapTimer>) {
    match op
    case Add(_) => w == v + AddedBy(op)
    case Cancel(_) => w == v
    case Pop => (v == multiset{} && w == v) || exists t :: t in v && Earliest(t, v) && w == v - multiset{t}
    case Tick(now) => w <= v && forall t :: t in v ==> w[t] == if t.expire > now then v[t] else 0
  }

  /** What an operation fires, in which order: a tick the due timers among the `live` ones, as often as they
   are in the heap, and the others nothing. */
  ghost predicate Fires(v: multiset<HeapTimer>, live: set<HeapTimer>, op: Op, fired: seq<HeapTimer>) {
    && Sorted(fired) && multiset(fired) <= v
    && forall t :: t in v ==> multiset(fired)[t] == if op.Tick? && t.expire <= op.now && t in live then v[t] else 0
  }

  /** A run of the first operations, as many as there are in `fired`: `states` are the timers in the heap before each
   of them and at the end, and a timer is live if it was `live` at the start and has not been cancelled. */
  ghost predicate IsRun(states: seq<multiset<HeapTimer>>, live: set<HeapTimer>, ops: seq<Op>,
                        fired: seq<seq<HeapTimer>>)
  {
    |states| == |fired| + 1 <= |ops| + 1 && forall i :: 0 <= i < |fired| ==> RunStep(states, live, ops, fired, i)
  }

  ghost predicate RunStep(states: seq<multiset<HeapTimer>>, live: set<HeapTimer>, ops: seq<Op>,
                          fired: seq<seq<HeapTimer>>, i: nat)
    requires i < |fired| <= |ops| && |states| == |fired| + 1
  {
    Becomes(states[i], ops[i], states[i + 1]) && Fires(states[i], live - Cancelled(ops[..i]), ops[i], fired[i])
  }

  lemma {:induction false} RunMore(states: seq<multiset<HeapTimer>>, live: set<HeapTimer>, ops: seq<Op>,
                                   fired: seq<seq<HeapTimer>>, w: multiset<HeapTimer>, f: seq<HeapTimer>)
    requires IsRun(states, live, ops, fired) && |fired| < |ops|
    requires var n := |fired|; Becomes(states[n], ops[n], w) && Fires(states[n], live - Cancelled(ops[..n]), ops[n], f)
    ensures IsRun(states + [w], live, ops, fired + [f])
  {
    hide Becomes, Fires;
    forall i | 0 <= i < |fired + [f]| ensures RunStep(states + [w], live, ops, fired + [f], i) {
      if i < |fired| { assert RunStep(states, live, ops, fired, i); }
    }
  }

  ghost function LiveAmong(timers: set<HeapTimer>): set<HeapTimer>
    reads timers
  {
    set t | t in timers && t.live
  }

  ghost function Elems(v: seq<HeapTimer>): set<HeapTimer> {
    set t | t in v
  }

  lemma {:induction false} PopBecomes(v: seq<HeapTimer>, w: seq<HeapTimer>)
    requires |v| > 0 && IsHeap(v) && Rearranged(v, [v[0]] + w)
    ensures Becomes(multiset(v), Pop, multiset(w))
  {
    forall u | u in multiset(v) ensures v[0].expire <= u.expire {
      var i :| 0 <= i < |v| && v[i] == u;
      FirstIsLeast(v, i);
    }
    assert Earliest(v[0], multiset(v));
    assert multiset(w) == multiset([v[0]] + w) - multiset{v[0]};
  }

  lemma {:induction false} AddBecomes(v: seq<HeapTimer>, timer: HeapTimer?, w: seq<HeapTimer>)
    requires if timer == null then w == v else Rearranged(v + [timer], w)
    ensures Becomes(multiset(v), Add(timer), multiset(w))
  {
  }

  lemma {:induction false} StillBecomes(v: seq<HeapTimer>, op: Op)
    requires op.Cancel? || (op.Pop? && |v| == 0)
    ensures Becomes(multiset(v), op, multiset(v))
  {
  }

  lemma {:induction false} TickBecomes(v: seq<HeapTimer>, now: int, w: seq<HeapTimer>, fired: seq<HeapTimer>)
    requires Sorted(fired) && multiset(fired) <= multiset(v) && multiset(w) <= multiset(v)
    requires forall t: HeapTimer :: multiset(fired)[t] == if t.live && t.expire <= now then multiset(v)[t] else 0
    requires forall t: HeapTimer :: multiset(w)[t] == if t.expire > now then multiset(v)[t] else 0
    ensures Becomes(multiset(v), Tick(now), multiset(w)) && Fires(multiset(v), LiveAmong(Elems(v)), Tick(now), fired)
  {
    hide Sorted;
  }

  lemma {:induction false} NothingFires(v: seq<HeapTimer>, live: set<HeapTimer>, op: Op)
    requires !op.Tick?
    ensures Fires(multiset(v), live, op, [])
  {
  }

  /** One operation. `overrun` says that the source would leave its array, which happens exactly if the capacity is
   zero and the operation needs an entry; the heap is then empty and stays so. */
  method Perform(h: Heap, op: Op) returns (fired: seq<HeapTimer>, overrun: bool)
    requires h.Valid()
    modifies h, h.data, CancelledBy(op)
    ensures h.Valid() && (h.data == old(h.data) || fresh(h.data)) && (h.capacity == 0 <==> old(h.capacity) == 0)
    ensures overrun <==> old(h.capacity) == 0 && NeedsEntry(op)
    ensures overrun ==> fired == [] && h.items == old(h.items) == []
    ensures !overrun ==> Becomes(multiset(old(h.items)), op, multiset(h.items))
    ensures !overrun ==> Fires(multiset(old(h.items)), old(LiveAmong(Elems(h.items))), op, fired)
    ensures forall t :: t in CancelledBy(op) ==> !t.live
  {
    hide IsHeap, Holds, Sorted, Rearranged, Becomes, Fires, h.Valid;
    fired, overrun := [], false;
    ghost var before := h.items;
    RoomForNone(h);
    if !op.Tick? {
      NothingFires(before, LiveAmong(Elems(before)), op);
    }
    match op {
      case Add(timer) =>
        overrun := h.AddTimer(timer);
        if !overrun { AddBecomes(before, timer, h.items); }
      case Cancel(timer) =>
        h.DelTimer(timer);
        StillBecomes(before, op);
      case Pop =>
        PopOnce(h);
      case Tick(now) =>
        fired, overrun := h.Tick(now);
        TickBecomes(before, now, h.items, fired);
        NoneOfNone(before, h.items, fired);
    }
  }

  lemma {:induction false} RoomForNone(h: Heap)
    requires h.Valid()
    ensures h.capacity == 0 ==> h.items == []
  {
    hide IsHeap;
  }

  lemma {:induction false} NoneOfNone(v: seq<HeapTimer>, w: seq<HeapTimer>, fired: seq<HeapTimer>)
    requires multiset(w) <= multiset(v) && multiset(fired) <= multiset(v)
    ensures v == [] ==> w == [] && fired == []
  {
    assert |w| > 0 ==> w[0] in multiset(w);
    assert |fired| > 0 ==> fired[0] in multiset(fired);
  }

  method PopOnce(h: Heap)
    requires h.Valid()
    modifies h, h.data
    ensures h.Valid() && h.data == old(h.data) && h.capacity == old(h.capacity)
    ensures Becomes(multiset(old(h.items)), Pop, multiset(h.items))
  {
    hide Becomes, Rearranged, OrderedFrom;
    ghost var before := h.items;
    h.PopTimer();
    if |before| > 0 {
      PopBecomes(before, h.items);
    } else {
      StillBecomes(before, Pop);
      assert before == h.items;
    }
  }

  /** The timers of a heap, and those that some operations add to it. */
  ghost function Involved(v: seq<HeapTimer>, ops: seq<Op>): set<HeapTimer> {
    Elems(v) + set op | op in ops && op.Add? && op.timer != null :: op.timer
  }

  lemma {:induction false} BecomesWithin(v: seq<HeapTimer>, op: Op, w: seq<HeapTimer>, all: set<HeapTimer>)
    requires Becomes(multiset(v), op, multiset(w)) && Elems(v) <= all
    requires op.Add? && op.timer != null ==> op.timer in all
    ensures Elems(w) <= all
  {
    forall i | 0 <= i < |w| ensures w[i] in all {
      assert w[i] in multiset(w);
      assert w[i] in multiset(v) || w[i] in AddedBy(op);
    }
  }

  lemma {:induction false} FiresSame(v: seq<HeapTimer>, live: set<HeapTimer>, live': set<HeapTimer>, op: Op,
                                     fired: seq<HeapTimer>)
    requires Fires(multiset(v), live, op, fired) && forall t :: t in v ==> (t in live <==> t in live')
    ensures Fires(multiset(v), live', op, fired)
  {
  }

  lemma {:induction false} CancelledMore(ops: seq<Op>, i: nat)
    requires i < |ops|
    ensures Cancelled(ops[..i + 1]) == Cancelled(ops[..i]) + CancelledBy(ops[i])
    ensures CancelledBy(ops[i]) <= Cancelled(ops)
  {
    assert ops[..i + 1] == ops[..i] + [ops[i]];
    assert ops[i] in ops;
  }

  /** One operation of a run, with the liveness of all timers involved. */
  method PerformNext(h: Heap, ops: seq<Op>, i: nat, ghost all: set<HeapTimer>, ghost live: set<HeapTimer>)
    returns (fired: seq<HeapTimer>, overrun: bool)
    requires h.Valid() && i < |ops| && Elems(h.items) <= all
    requires LiveAmong(all) == live - Cancelled(ops[..i])
    requires ops[i].Add? && ops[i].timer != null ==> ops[i].timer in all
    modifies h, h.data, Cancelled(ops)
    ensures h.Valid() && (h.data == old(h.data) || fresh(h.data)) && (h.capacity == 0 <==> old(h.capacity) == 0)
    ensures overrun <==> old(h.capacity) == 0 && NeedsEntry(ops[i])
    ensures overrun ==> h.items == old(h.items)
    ensures !overrun ==> Elems(h.items) <= all && LiveAmong(all) == live - Cancelled(ops[..i + 1])
    ensures !overrun ==> Becomes(multiset(old(h.items)), ops[i], multiset(h.items))
    ensures !overrun ==> Fires(multiset(old(h.items)), live - Cancelled(ops[..i]), ops[i], fired)
  {
    hide h.Valid, Becomes, Fires, Cancelled;
    ghost var before, alive := h.items, LiveAmong(Elems(h.items));
    CancelledMore(ops, i);
    fired, overrun := Perform(h, ops[i]);
    if !overrun {
      assert forall t :: t in all ==> t.live == (old(t.live) && t !in CancelledBy(ops[i]));
      assert LiveAmong(all) == old(LiveAmong(all)) - CancelledBy(ops[i]);
      BecomesWithin(before, ops[i], h.items, all);
      FiresSame(before, alive, live - Cancelled(ops[..i]), ops[i], fired);
    }
  }

  /** Over any run of additions, cancellations, pops and ticks the heap stays a heap; its timers change from
   one operation to the next exactly as the operation says, and every tick fires exactly the due timers that
   were live at the start and have not been cancelled since, in order of expiry. The run ends early only where
   the source would leave its array: at the first operation that needs an entry of an array without entries. */
  method Run(h: Heap, ops: seq<Op>) returns (fired: seq<seq<HeapTimer>>, ghost states: seq<multiset<HeapTimer>>)
    requires h.Valid()
    modifies h, h.data, Cancelled(ops)
    ensures h.Valid() && IsRun(states, old(LiveAmong(Involved(h.items, ops))), ops, fired)
    ensures states[0] == multiset(old(h.items)) && states[|fired|] == multiset(h.items)
    ensures |fired| < |ops| ==> old(h.capacity) == 0 && NeedsEntry(ops[|fired|])
    ensures old(h.capacity) == 0 ==> forall i :: 0 <= i < |fired| ==> !NeedsEntry(ops[i])
  {
    hide h.Valid, Becomes, Fires, RunStep, LiveAmong;
    ghost var all := Involved(h.items, ops);
    ghost var live := LiveAmong(all);
    fired, states := [], [multiset(h.items)];
    assert ops[..0] == [];
    for i := 0 to |ops|
      invariant h.Valid() && (h.data == old(h.data) || fresh(h.data)) && Elems(h.items) <= all
      invariant (h.capacity == 0 <==> old(h.capacity) == 0) && LiveAmong(all) == live - Cancelled(ops[..i])
      invariant |fired| == i && IsRun(states, live, ops, fired)
      invariant states[0] == multiset(old(h.items)) && states[i] == multiset(h.items)
      invariant old(h.capacity) == 0 ==> forall k :: 0 <= k < i ==> !NeedsEntry(ops[k])
    {
      assert ops[i] in ops;
      var f, overrun := PerformNext(h, ops, i, all, live);
      if overrun {
        return;
      }
      RunMore(states, live, ops, fired, multiset(h.items), f);
      fired, states := fired + [f], states + [multiset(h.items)];
    }
  }

  /** A timer that is in the heap stays there as long as nothing is popped and no tick finds it due. */
  lemma {:induction false} StaysUntilDue(states: seq<multiset<HeapTimer>>, live: set<HeapTimer>, ops: seq<Op>,
                                         fired: seq<seq<HeapTimer>>, t: HeapTimer, i: nat, j: nat)
    requires IsRun(states, live, ops, fired) && i <= j <= |fired|
    requires forall k :: i <= k < j ==> !ops[k].Pop? && (ops[k].Tick? ==> ops[k].now < t.expire)
    ensures states[j][t] >= states[i][t]
    decreases j - i
  {
    if i < j {
      StaysUntilDue(states, live, ops, fired, t, i, j - 1);
      assert RunStep(states, live, ops, fired, j - 1);
    }
  }

  /** The first tick that finds a timer due fires it, unless it was cancelled, and no later operation does. */
  lemma {:induction false} FiresWhenDue(states: seq<multiset<HeapTimer>>, live: set<HeapTimer>, ops: seq<Op>,
                                        fired: seq<seq<HeapTimer>>, t: HeapTimer, i: nat, j: nat)
    requires IsRun(states, live, ops, fired) && i <= j < |fired| && t in states[i]
    requires ops[j].Tick? && ops[j].now >= t.expire
    requires forall k :: i <= k < j ==> !ops[k].Pop? && (ops[k].Tick? ==> ops[k].now < t.expire)
    ensures t in fired[j] <==> t in live && t !in Cancelled(ops[..j])
    ensures states[j + 1][t] == 0
  {
    StaysUntilDue(states, live, ops, fired, t, i, j);
    assert RunStep(states, live, ops, fired, j);
    assert t in states[j] && multiset(fired[j])[t] == if t in live - Cancelled(ops[..j]) then states[j][t] else 0;
    assert t in fired[j] <==> t in multiset(fired[j]);
  }
}
