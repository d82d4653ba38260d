/**
 The timer heap and the timer list agree: on timers with the same expiries, a tick of one fires
 the same expiries in the same order as a tick of the other.
 */
module TimerAgreement {
  import TimeHeap
  import TimerList

  ghost function HeapExpiries(v: seq<TimeHeap.HeapTimer>): (k: seq<int>)
    ensures |k| == |v| && forall i :: 0 <= i < |v| ==> k[i] == v[i].expire
  {
    seq(|v|, i requires 0 <= i < |v| => v[i].expire)
  }

  lemma {:induction false} Cancel<T>(a: multiset<T>, b: multiset<T>, x: T)
    requires a + multiset{x} == b + multiset{x}
    ensures a == b
  {
    assert a == a + multiset{x} - multiset{x};
    assert b == b + multiset{x} - multiset{x};
  }

  ghost function Without<T>(s: seq<T>, j: nat): seq<T>
    requires j < |s|
  {
    s[..j] + s[j + 1..]
  }

  lemma {:induction false} WithoutCounts<T>(s: seq<T>, j: nat)
    requires j < |s|
    ensures multiset(s) == multiset(Without(s, j)) + multiset{s[j]}
  {
    assert s == s[..j] + [s[j]] + s[j + 1..];
  }

  lemma {:induction false} WithoutSame<T>(v: seq<T>, i: nat, w: seq<T>, j: nat)
    requires i < |v| && j < |w| && v[i] == w[j] && multiset(v) == multiset(w)
    ensures multiset(Without(v, i)) == multiset(Without(w, j))
  {
    WithoutCounts(v, i);
    WithoutCounts(w, j);
    Cancel(multiset(Without(v, i)), multiset(Without(w, j)), v[i]);
  }

  lemma {:induction false} InOther<T>(v: seq<T>, i: nat, w: seq<T>) returns (j: nat)
    requires i < |v| && multiset(v) == multiset(w)
    ensures j < |w| && w[j] == v[i]
  {
    assert v[i] in multiset(w);
    j :| 0 <= j < |w| && w[j] == v[i];
  }

  lemma {:induction false} WithoutExpiries(v: seq<TimeHeap.HeapTimer>, j: nat)
    requires j < |v|
    ensures HeapExpiries(Without(v, j)) == Without(HeapExpiries(v), j)
  {
  }

  lemma {:induction false} ExpiriesRearranged(v: seq<TimeHeap.HeapTimer>, w: seq<TimeHeap.HeapTimer>)
    requires |v| == |w| && multiset(v) == multiset(w)
    ensures multiset(HeapExpiries(v)) == multiset(HeapExpiries(w))
    decreases |v|
  {
    hide HeapExpiries;
    if |v| > 0 {
      var j := InOther(v, 0, w);
      WithoutSame(v, 0, w, j);
      ExpiriesRearranged(Without(v, 0), Without(w, j));
      WithoutExpiries(v, 0);
      WithoutExpiries(w, j);
      WithoutCounts(HeapExpiries(v), 0);
      WithoutCounts(HeapExpiries(w), j);
    } else {
      assert HeapExpiries(v) == HeapExpiries(w);
    }
  }

  /** `due` and `later` are the expiries of `k` on either side of `now`. */
  ghost predicate SplitAt(k: multiset<int>, due: seq<int>, later: seq<int>, now: int) {
    && k == multiset(due) + multiset(later) && TimerList.Sorted(due)
    && (forall i :: 0 <= i < |due| ==> due[i] <= now) && (forall i :: 0 <= i < |later| ==> later[i] > now)
  }

  lemma {:induction false} SplitCount(k: multiset<int>, due: seq<int>, later: seq<int>, now: int, e: int)
    requires SplitAt(k, due, later, now)
    ensures multiset(due)[e] == if e <= now then k[e] else 0
    ensures multiset(later)[e] == if e > now then k[e] else 0
  {
    if e <= now {
      assert e !in later;
    } else {
      assert e !in due;
    }
  }

  lemma {:induction false} FirstSame(a: seq<int>, b: seq<int>)
    requires |a| > 0 && |b| > 0 && TimerList.Sorted(a) && TimerList.Sorted(b) && multiset(a) == multiset(b)
    ensures a[0] == b[0]
  {
    var i := InOther(a, 0, b);
    var j := InOther(b, 0, a);
    assert b[0] <= b[i] && a[0] <= a[j];
  }

  lemma {:induction false} SortedSame(a: seq<int>, b: seq<int>)
    requires TimerList.Sorted(a) && TimerList.Sorted(b) && multiset(a) == multiset(b)
    ensures a == b
  {
    if |a| > 0 {
      var i := InOther(a, 0, b);
      FirstSame(a, b);
      WithoutSame(a, 0, b, 0);
      assert Without(a, 0) == a[1..] && Without(b, 0) == b[1..];
      SortedSame(a[1..], b[1..]);
    } else {
      assert |multiset(b)| == |multiset(a)| == 0;
    }
  }

  /** There is one way to split: the due expiries in order, and the others. */
  lemma {:induction false} SplitOnce(k: multiset<int>, due: seq<int>, later: seq<int>, due': seq<int>,
                                     later': seq<int>, now: int)
    requires SplitAt(k, due, later, now) && SplitAt(k, due', later', now)
    ensures due == due' && multiset(later) == multiset(later')
  {
    forall e ensures multiset(due)[e] == multiset(due')[e] && multiset(later)[e] == multiset(later')[e] {
      SplitCount(k, due, later, now, e);
      SplitCount(k, due', later', now, e);
    }
    SortedSame(due, due');
  }

  lemma {:induction false} HeapSplit(v: seq<TimeHeap.HeapTimer>, fired: seq<TimeHeap.HeapTimer>,
                                     rest: seq<TimeHeap.HeapTimer>, now: int)
    requires TimeHeap.Rearranged(v, fired + rest) && TimeHeap.Sorted(fired)
    requires forall t :: t in fired ==> t.expire <= now
    requires forall i :: 0 <= i < |rest| ==> rest[i].expire > now
    ensures SplitAt(multiset(HeapExpiries(v)), HeapExpiries(fired), HeapExpiries(rest), now)
  {
    ExpiriesRearranged(v, fired + rest);
    assert HeapExpiries(fired + rest) == HeapExpiries(fired) + HeapExpiries(rest);
  }

  lemma {:induction false} ExpiriesCut(w: seq<TimerList.Timer>, p: nat)
    requires p <= |w|
    ensures TimerList.Expiries(w[..p]) == TimerList.Expiries(w)[..p]
    ensures TimerList.Expiries(w[p..]) == TimerList.Expiries(w)[p..]
  {
    hide TimerList.Expiries;
  }

  lemma {:induction false} KeysSplit(k: seq<int>, now: int)
    requires TimerList.Sorted(k)
    ensures var p := TimerList.Place(k, now); SplitAt(multiset(k), k[..p], k[p..], now)
  {
    var p := TimerList.Place(k, now);
    forall i | 0 <= i < |k| ensures i < p <==> k[i] <= now {
      TimerList.DueAreFirst(k, now, i);
    }
    assert k == k[..p] + k[p..];
  }

  lemma {:induction false} ListSplit(w: seq<TimerList.Timer>, now: int)
    requires TimerList.Sorted(TimerList.Expiries(w))
    ensures var k := TimerList.Expiries(w);
      var p := TimerList.Place(k, now);
      SplitAt(multiset(k), TimerList.Expiries(w[..p]), TimerList.Expiries(w[p..]), now)
  {
    hide TimerList.Expiries, TimerList.Place, TimerList.Sorted, SplitAt;
    KeysSplit(TimerList.Expiries(w), now);
    ExpiriesCut(w, TimerList.Place(TimerList.Expiries(w), now));
  }

  /** What a tick of the heap fires and what stays live in it are the two sides of the live expiries. */
  lemma {:induction false} LiveSplit(v: seq<TimeHeap.HeapTimer>, before: seq<TimeHeap.HeapTimer>,
                                     fired: seq<TimeHeap.HeapTimer>, rest: seq<TimeHeap.HeapTimer>, now: int)
    requires TimeHeap.Rearranged(v, fired + TimeHeap.Fireable(rest)) && TimeHeap.Sorted(fired)
    requires forall t: TimeHeap.HeapTimer ::
               multiset(fired)[t] == if t.live && t.expire <= now then multiset(before)[t] else 0
    requires forall t: TimeHeap.HeapTimer :: multiset(rest)[t] == if t.expire > now then multiset(before)[t] else 0
    ensures SplitAt(multiset(HeapExpiries(v)), HeapExpiries(fired), HeapExpiries(TimeHeap.Fireable(rest)), now)
  {
    hide TimeHeap.Rearranged, TimeHeap.Sorted, TimeHeap.Fireable, SplitAt, HeapExpiries;
    TimeHeap.FireableWithin(rest);
    forall t | t in fired ensures t.expire <= now {
      assert t in multiset(fired);
    }
    LiveLater(rest, now);
    HeapSplit(v, fired, TimeHeap.Fireable(rest), now);
  }

  lemma {:induction false} LiveLater(rest: seq<TimeHeap.HeapTimer>, now: int)
    requires forall t :: t in multiset(rest) ==> t.expire > now
    ensures forall i :: 0 <= i < |TimeHeap.Fireable(rest)| ==> TimeHeap.Fireable(rest)[i].expire > now
  {
    if rest != [] {
      var n := |rest| - 1;
      assert rest == rest[..n] + [rest[n]];
      LiveLater(rest[..n], now);
      assert rest[n] in multiset(rest);
    }
  }

  /** What a tick has done to each timer of a heap. */
  ghost predicate TickedHeap(before: seq<TimeHeap.HeapTimer>, after: seq<TimeHeap.HeapTimer>,
                             fired: seq<TimeHeap.HeapTimer>, now: int)
    reads before
  {
    && multiset(fired) <= multiset(before) && multiset(after) <= multiset(before)
    && (forall t :: t in before ==> multiset(fired)[t] == if t.live && t.expire <= now then multiset(before)[t] else 0)
    && (forall t :: t in before ==> multiset(after)[t] == if t.expire > now then multiset(before)[t] else 0)
  }

  /** What a tick has done to a list: the leading timers were due, and the others are not. */
  ghost predicate TickedList(before: seq<TimerList.Timer>, after: seq<TimerList.Timer>,
                             fired: seq<TimerList.Timer>, now: int)
    reads TimerList.Elems(before)`expire
  {
    && before == fired + after
    && (forall i :: 0 <= i < |fired| ==> fired[i] in before && fired[i].expire <= now)
    && (forall i :: 0 <= i < |after| ==> after[i] in before && after[i].expire > now)
  }

  lemma {:induction false} ListTicked(w: seq<TimerList.Timer>, now: int)
    requires TimerList.Sorted(TimerList.Expiries(w))
    ensures var p := TimerList.Place(TimerList.Expiries(w), now); TickedList(w, w[p..], w[..p], now)
  {
    hide TimerList.Expiries, TimerList.Place, TimerList.Sorted;
    var k := TimerList.Expiries(w);
    var p := TimerList.Place(k, now);
    forall i | 0 <= i < |w| ensures i < p <==> w[i].expire <= now {
      TimerList.DueAreFirst(k, now, i);
    }
    assert w == w[..p] + w[p..];
  }

  /** On the same live expiries, whatever cancelled timers the heap still holds, a tick of the heap and a tick of
   the list fire the same expiries in the same order, and the same live expiries remain. */
  method TickBoth(h: TimeHeap.Heap, l: TimerList.List, now: int)
    returns (fired: seq<TimeHeap.HeapTimer>, fired': seq<TimerList.Timer>)
    requires h.Valid() && l.Valid()
    requires multiset(HeapExpiries(TimeHeap.Fireable(h.items))) == multiset(TimerList.Expiries(l.items))
    modifies h, h.data, l, TimerList.Elems(l.items)`prev
    ensures h.Valid() && l.Valid()
    ensures HeapExpiries(fired) == TimerList.Expiries(fired')
    ensures multiset(HeapExpiries(TimeHeap.Fireable(h.items))) == multiset(TimerList.Expiries(l.items))
    ensures h.data == old(h.data) && h.capacity == old(h.capacity)
    ensures TickedHeap(old(h.items), h.items, fired, now) && TickedList(old(l.items), l.items, fired', now)
  {
    hide TimerList.Expiries, TimerList.Linked, SplitAt, HeapExpiries, TimeHeap.Fireable, TickedHeap, TickedList,
      h.Valid, l.Valid;
    ghost var k := multiset(TimerList.Expiries(l.items));
    fired := TickHeap(h, now);
    ghost var left := HeapExpiries(TimeHeap.Fireable(h.items));
    fired' := TickList(l, now);
    SplitOnce(k, HeapExpiries(fired), left, TimerList.Expiries(fired'), TimerList.Expiries(l.items), now);
  }

  method TickHeap(h: TimeHeap.Heap, now: int) returns (fired: seq<TimeHeap.HeapTimer>)
    requires h.Valid()
    modifies h, h.data
    ensures h.Valid() && h.data == old(h.data) && h.capacity == old(h.capacity)
    ensures TickedHeap(old(h.items), h.items, fired, now)
    ensures SplitAt(old(multiset(HeapExpiries(TimeHeap.Fireable(h.items)))), HeapExpiries(fired),
                    HeapExpiries(TimeHeap.Fireable(h.items)), now)
  {
    hide SplitAt, HeapExpiries, TimeHeap.Rearranged, TimeHeap.Sorted, TimeHeap.Fireable, h.Valid;
    ghost var v, before := TimeHeap.Fireable(h.items), h.items;
    var overrun;
    fired, overrun := h.Tick(now);
    LiveSplit(v, before, fired, h.items, now);
  }

  method TickList(l: TimerList.List, now: int) returns (fired: seq<TimerList.Timer>)
    requires l.Valid()
    modifies l, TimerList.Elems(l.items)`prev
    ensures l.Valid() && TickedList(old(l.items), l.items, fired, now)
    ensures SplitAt(old(multiset(TimerList.Expiries(l.items))), TimerList.Expiries(fired),
                    TimerList.Expiries(l.items), now)
  {
    hide TimerList.Expiries, TimerList.Place, TimerList.Sorted, TimerList.Linked, SplitAt, TickedList;
    ghost var w := l.items;
    fired := l.Tick(now);
    ListSplit(w, now);
    ListTicked(w, now);
  }
}
