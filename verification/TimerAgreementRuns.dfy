/**
 The timer heap and the timer list agree over whole runs: whatever timers are added and cancelled, and whenever
 time passes, both fire the same timers at every tick, at the same expiries in the same order. The heap cancels a
 timer by taking away its callback, and the list by taking it out.
 */
module TimerAgreementRuns {
  import TimeHeap
  import TimerList
  import TimerListRuns
  import opened TimerAgreement

  // ----- What the requests mean

  /** Timers are numbered in the order in which they are added. */
  datatype Request = AddAt(expire: int) | Cancel(which: nat) | TickAt(now: int)

  /** The expiries of the timers added so far. */
  function Added(requests: seq<Request>): seq<int> {
    if requests == [] then []
    else
      var n := |requests| - 1;
      Added(requests[..n]) + if requests[n].AddAt? then [requests[n].expire] else []
  }

  /** The timers that were neither cancelled nor due so far. */
  function Waiting(requests: seq<Request>): (w: set<nat>)
    ensures forall j :: j in w ==> j < |Added(requests)|
  {
    if requests == [] then {}
    else
      var n := |requests| - 1;
      var (w, added) := (Waiting(requests[..n]), Added(requests[..n]));
      match requests[n]
      case AddAt(_) => w + {|added|}
      case Cancel(k) => w - {k}
      case TickAt(now) => set j | j in w && added[j] > now
  }

  /** The timers that a tick at `now` is to fire. */
  function DueAt(requests: seq<Request>, now: int): set<nat> {
    set j | j in Waiting(requests) && Added(requests)[j] <= now
  }

  lemma {:induction false} OneMore(requests: seq<Request>, q: Request)
    ensures Added(requests + [q]) == Added(requests) + if q.AddAt? then [q.expire] else []
    ensures Waiting(requests + [q]) ==
      match q
      case AddAt(_) => Waiting(requests) + {|Added(requests)|}
      case Cancel(k) => Waiting(requests) - {k}
      case TickAt(now) => Waiting(requests) - DueAt(requests, now)
  {
    assert (requests + [q])[..|requests|] == requests;
  }

  // ----- Two containers with the same timers

  ghost predicate Once<T>(s: seq<T>) {
    forall i, j :: 0 <= i < j < |s| ==> s[i] != s[j]
  }

  /** Of the timers `made`, exactly those in `which` are in `s`, each once. */
  ghost predicate Exactly<T>(made: seq<T>, which: set<nat>, s: seq<T>) {
    && Once(s) && (forall i :: 0 <= i < |s| ==> s[i] in made)
    && forall j :: 0 <= j < |made| ==> (made[j] in s <==> j in which)
  }

  ghost predicate SamePrices(made: seq<TimeHeap.HeapTimer>, made': seq<TimerList.Timer>, added: seq<int>)
    reads TimerList.Elems(made')`expire
  {
    && |made| == |made'| == |added|
    && forall j :: 0 <= j < |added| ==> made[j].expire == added[j] && made'[j].expire == added[j]
  }

  /** The heap's live timers are those in `which`; cancelled ones may be left in it. */
  ghost predicate HeapHolds(items: seq<TimeHeap.HeapTimer>, made: seq<TimeHeap.HeapTimer>, which: set<nat>)
    reads made
  {
    && Once(items) && (forall i :: 0 <= i < |items| ==> items[i] in made)
    && forall j :: 0 <= j < |made| ==> (made[j] in items && made[j].live <==> j in which)
  }

  /** Both containers are sound and hold the timers that are waiting after the requests. */
  ghost predicate Both(h: TimeHeap.Heap, l: TimerList.List, made: seq<TimeHeap.HeapTimer>,
                       made': seq<TimerList.Timer>, requests: seq<Request>)
    reads h, h.data, l, TimerList.Elems(l.items), made, made'
  {
    && h.Valid() && l.Valid()
    && Once(made) && Once(made') && SamePrices(made, made', Added(requests))
    && HeapHolds(h.items, made, Waiting(requests)) && Exactly(made', Waiting(requests), l.items)
  }

  // ----- Counting

  lemma {:induction false} OnceCounts<T>(s: seq<T>, x: T)
    requires Once(s)
    ensures multiset(s)[x] <= 1
  {
    if s != [] {
      var n := |s| - 1;
      OnceCounts(s[..n], x);
      assert s == s[..n] + [s[n]];
    }
  }

  lemma {:induction false} TwiceCounts<T>(s: seq<T>, i: nat, j: nat)
    requires i < j < |s| && s[i] == s[j]
    ensures multiset(s)[s[i]] >= 2
  {
    assert s == s[..j] + [s[j]] + s[j + 1..];
    assert s[i] == s[..j][i];
  }

  lemma {:induction false} OnceWithin<T>(s: seq<T>, v: seq<T>)
    requires Once(v) && multiset(s) <= multiset(v)
    ensures Once(s) && forall i :: 0 <= i < |s| ==> s[i] in v
  {
    forall i, j | 0 <= i < j < |s| ensures s[i] != s[j] {
      if s[i] == s[j] {
        TwiceCounts(s, i, j);
        OnceCounts(v, s[i]);
      }
    }
    forall i | 0 <= i < |s| ensures s[i] in v {
      assert s[i] in multiset(s);
    }
  }

  lemma {:induction false} OnceWithout<T>(s: seq<T>, k: nat)
    requires Once(s) && k < |s|
    ensures Once(Without(s, k)) && s[k] !in Without(s, k)
    ensures forall x :: x in s && x != s[k] ==> x in Without(s, k)
    ensures forall i :: 0 <= i < |s| - 1 ==> Without(s, k)[i] in s
  {
    var t := Without(s, k);
    forall x | x in s && x != s[k] ensures x in t {
      var i :| 0 <= i < |s| && s[i] == x;
      assert t[if i < k then i else i - 1] == x;
    }
  }

  lemma {:induction false} ExactlyWithout<T>(made: seq<T>, which: set<nat>, s: seq<T>, k: nat, j: nat)
    requires Once(made) && Exactly(made, which, s) && k < |s| && j < |made| && s[k] == made[j]
    ensures j in which && Exactly(made, which - {j}, Without(s, k))
  {
    var t := Without(s, k);
    OnceWithout(s, k);
    forall i | 0 <= i < |made| ensures made[i] in t <==> i in which - {j} {
      if i == j {
        assert made[i] !in t;
      } else {
        assert made[i] != made[j];
        assert made[i] in t <==> made[i] in s by { if made[i] in t { assert made[i] in s; } }
      }
    }
  }

  /** The same timers have the same expiries, in whatever order. */
  lemma {:induction false} SameExpiries(v: seq<TimeHeap.HeapTimer>, w: seq<TimerList.Timer>,
                                        made: seq<TimeHeap.HeapTimer>, made': seq<TimerList.Timer>,
                                        added: seq<int>, which: set<nat>)
    requires Once(made) && Once(made') && SamePrices(made, made', added)
    requires Exactly(made, which, v) && Exactly(made', which, w)
    ensures multiset(HeapExpiries(v)) == multiset(TimerList.Expiries(w))
    decreases |v|
  {
    hide Exactly, Once, TimerList.Expiries;
    if v == [] {
      NoneLeft(v, w, made, made', which);
    } else {
      var j := MadeAt(made, which, v, 0);
      ExactlyWithout(made, which, v, 0, j);
      var k := FoundAt(made', which, w, j);
      ExactlyWithout(made', which, w, k, j);
      SameExpiries(Without(v, 0), Without(w, k), made, made', added, which - {j});
      WithoutExpiries(v, 0);
      ListWithout(w, k);
      WithoutCounts(HeapExpiries(v), 0);
      WithoutCounts(TimerList.Expiries(w), k);
    }
  }

  lemma {:induction false} MadeAt<T>(made: seq<T>, which: set<nat>, s: seq<T>, i: nat) returns (j: nat)
    requires Exactly(made, which, s) && i < |s|
    ensures j < |made| && made[j] == s[i]
  {
    assert s[i] in made;
    j :| 0 <= j < |made| && made[j] == s[i];
  }

  lemma {:induction false} FoundAt<T>(made: seq<T>, which: set<nat>, s: seq<T>, j: nat) returns (k: nat)
    requires Exactly(made, which, s) && j in which && j < |made|
    ensures k < |s| && s[k] == made[j]
  {
    assert made[j] in s;
    k :| 0 <= k < |s| && s[k] == made[j];
  }

  lemma {:induction false} NoneLeft(v: seq<TimeHeap.HeapTimer>, w: seq<TimerList.Timer>,
                                    made: seq<TimeHeap.HeapTimer>, made': seq<TimerList.Timer>, which: set<nat>)
    requires |made| == |made'| && Exactly(made, which, v) && Exactly(made', which, w) && v == []
    ensures w == []
  {
    if w != [] {
      var j := MadeAt(made', which, w, 0);
    }
  }

  lemma {:induction false} ListWithout(w: seq<TimerList.Timer>, k: nat)
    requires k < |w|
    ensures TimerList.Expiries(Without(w, k)) == Without(TimerList.Expiries(w), k)
  {
    hide TimerList.Expiries;
  }

  /** The live timers of the heap. */
  lemma {:induction false} LiveExactly(items: seq<TimeHeap.HeapTimer>, made: seq<TimeHeap.HeapTimer>, which: set<nat>)
    requires HeapHolds(items, made, which)
    ensures Exactly(made, which, TimeHeap.Fireable(items))
  {
    hide TimeHeap.Fireable, Once;
    var v := TimeHeap.Fireable(items);
    TimeHeap.FireableWithin(items);
    OnceWithin(v, items);
    forall j | 0 <= j < |made| ensures made[j] in v <==> j in which {
      TimeHeap.FireableOf(items, made[j]);
      assert made[j] in v <==> made[j] in multiset(v);
      assert made[j] in items <==> made[j] in multiset(items);
    }
  }

  // ----- One request

  lemma {:induction false} ListAdded(items: seq<TimerList.Timer>, made: seq<TimerList.Timer>, which: set<nat>,
                                     t: TimerList.Timer, items': seq<TimerList.Timer>)
    requires Exactly(made, which, items) && t !in made && Once(items')
    requires TimerList.Elems(items') == TimerList.Elems(items) + {t} && forall j :: j in which ==> j < |made|
    ensures Exactly(made + [t], which + {|made|}, items')
  {
    var m := made + [t];
    assert forall x :: x in items' <==> x in TimerList.Elems(items');
    forall i | 0 <= i < |items'| ensures items'[i] in m {
      assert items'[i] in TimerList.Elems(items');
      if items'[i] in items { assert items'[i] in made; }
      assert m[|made|] == t;
    }
    forall j | 0 <= j < |m| ensures m[j] in items' <==> j in which + {|made|} {
      assert m[j] in items' <==> m[j] in TimerList.Elems(items) + {t};
    }
  }

  lemma {:induction false} HeapAdded(items: seq<TimeHeap.HeapTimer>, made: seq<TimeHeap.HeapTimer>, which: set<nat>,
                                     t: TimeHeap.HeapTimer, items': seq<TimeHeap.HeapTimer>)
    requires HeapHolds(items, made, which) && t !in made && t.live && TimeHeap.Rearranged(items + [t], items')
    requires forall j :: j in which ==> j < |made|
    ensures HeapHolds(items', made + [t], which + {|made|})
  {
    var m, v := made + [t], items + [t];
    assert Once(v);
    OnceWithin(items', v);
    assert m[|made|] == t && v[|items|] == t;
    forall i | 0 <= i < |items'| ensures items'[i] in m {
      if items'[i] in items { assert items'[i] in made; }
    }
    forall j | 0 <= j < |m| ensures m[j] in items' <==> m[j] in v {
      assert m[j] in multiset(items') <==> m[j] in multiset(v);
    }
  }

  method AddToHeap(h: TimeHeap.Heap, ghost made: seq<TimeHeap.HeapTimer>, ghost which: set<nat>, expire: int)
    returns (t: TimeHeap.HeapTimer)
    requires h.Valid() && h.capacity > 0 && HeapHolds(h.items, made, which) && Once(made)
    requires forall j :: j in which ==> j < |made|
    modifies h, h.data
    ensures h.Valid() && h.capacity > 0 && (h.data == old(h.data) || fresh(h.data))
    ensures fresh(t) && t.expire == expire && Once(made + [t]) && HeapHolds(h.items, made + [t], which + {|made|})
  {
    hide h.Valid, HeapHolds, Once, TimeHeap.Rearranged;
    ghost var v := h.items;
    t := new TimeHeap.HeapTimer(expire);
    var overrun := h.AddTimer(t);
    HeapAdded(v, made, which, t, h.items);
    OnceMore(made, t);
  }

  method AddToList(l: TimerList.List, ghost made: seq<TimerList.Timer>, ghost which: set<nat>, expire: int)
    returns (t: TimerList.Timer)
    requires l.Valid() && Exactly(made, which, l.items) && Once(made)
    requires forall j :: j in which ==> j < |made|
    modifies l, TimerList.Elems(l.items)`prev, TimerList.Elems(l.items)`next
    ensures l.Valid() && TimerList.Elems(l.items) == old(TimerList.Elems(l.items)) + {t}
    ensures fresh(t) && t.expire == expire && Once(made + [t]) && Exactly(made + [t], which + {|made|}, l.items)
  {
    hide l.Valid, Exactly, Once, TimerListRuns.Entries;
    ghost var w := l.items;
    t := TimerListRuns.AddOne(l, expire);
    ListOnce(l);
    ListAdded(w, made, which, t, l.items);
    OnceMore(made, t);
  }

  method AddBoth(h: TimeHeap.Heap, l: TimerList.List, ghost made: seq<TimeHeap.HeapTimer>,
                 ghost made': seq<TimerList.Timer>, ghost requests: seq<Request>, expire: int)
    returns (t: TimeHeap.HeapTimer, t': TimerList.Timer)
    requires Both(h, l, made, made', requests) && h.capacity > 0
    modifies h, h.data, l, TimerList.Elems(l.items)`prev, TimerList.Elems(l.items)`next
    ensures fresh(t) && fresh(t') && (h.data == old(h.data) || fresh(h.data)) && h.capacity > 0
    ensures Both(h, l, made + [t], made' + [t'], requests + [AddAt(expire)])
    ensures TimerList.Elems(l.items) == old(TimerList.Elems(l.items)) + {t'}
  {
    hide h.Valid, l.Valid, Waiting, Added, HeapHolds, Exactly, Once;
    OneMore(requests, AddAt(expire));
    t := AddToHeap(h, made, Waiting(requests), expire);
    t' := AddToList(l, made', Waiting(requests), expire);
  }

  lemma {:induction false} OnceMore<T>(made: seq<T>, t: T)
    requires Once(made) && t !in made
    ensures Once(made + [t])
  {
  }

  lemma {:induction false} ListOnce(l: TimerList.List)
    requires l.Valid()
    ensures Once(l.items)
  {
    TimerListRuns.ItemsDistinct(l);
  }

  lemma {:induction false} ListRemoved(items: seq<TimerList.Timer>, made: seq<TimerList.Timer>, which: set<nat>,
                                       k: nat, items': seq<TimerList.Timer>)
    requires Once(made) && Exactly(made, which, items) && k < |made| && Once(items')
    requires TimerList.Elems(items') == TimerList.Elems(items) - {made[k]}
    ensures Exactly(made, which - {k}, items')
  {
    forall i | 0 <= i < |items'| ensures items'[i] in made {
      assert items'[i] in TimerList.Elems(items');
    }
    forall j | 0 <= j < |made| ensures made[j] in items' <==> j in which - {k} {
      assert made[j] in items' <==> made[j] in TimerList.Elems(items) - {made[k]};
    }
  }

  method CancelBoth(h: TimeHeap.Heap, l: TimerList.List, made: seq<TimeHeap.HeapTimer>,
                    made': seq<TimerList.Timer>, ghost requests: seq<Request>, k: nat)
    requires Both(h, l, made, made', requests) && k in Waiting(requests)
    modifies made[k], l, TimerList.Elems(l.items)`prev, TimerList.Elems(l.items)`next
    ensures Both(h, l, made, made', requests + [Cancel(k)])
    ensures TimerList.Elems(l.items) <= old(TimerList.Elems(l.items))
  {
    hide h.Valid, l.Valid, Waiting, Added, Exactly, TimerListRuns.Entries;
    ghost var w := l.items;
    OneMore(requests, Cancel(k));
    h.DelTimer(made[k]);
    ghost var i := FoundAt(made', Waiting(requests), w, k);
    TimerListRuns.RemoveOne(l, made'[k]);
    ListOnce(l);
    ListRemoved(w, made', Waiting(requests), k, l.items);
  }

  lemma {:induction false} HeapTicked(items: seq<TimeHeap.HeapTimer>, made: seq<TimeHeap.HeapTimer>,
                                      requests: seq<Request>, now: int,
                                      fired: seq<TimeHeap.HeapTimer>, items': seq<TimeHeap.HeapTimer>)
    requires HeapHolds(items, made, Waiting(requests)) && TickedHeap(items, items', fired, now)
    requires |made| == |Added(requests)| && forall j :: 0 <= j < |made| ==> made[j].expire == Added(requests)[j]
    ensures Exactly(made, DueAt(requests, now), fired)
    ensures HeapHolds(items', made, Waiting(requests) - DueAt(requests, now))
  {
    hide Waiting, Added, Once;
    OnceWithin(fired, items);
    OnceWithin(items', items);
    forall j | 0 <= j < |made|
      ensures made[j] in fired <==> j in DueAt(requests, now)
      ensures made[j] in items' <==> made[j] in items && made[j].expire > now
    {
      var t := made[j];
      assert t in fired <==> t in multiset(fired);
      assert t in items' <==> t in multiset(items');
      assert t in items <==> t in multiset(items);
      assert t in fired ==> t in items;
      assert t in items' ==> t in items;
    }
  }

  lemma {:induction false} ListTickedBoth(items: seq<TimerList.Timer>, made: seq<TimerList.Timer>,
                                          requests: seq<Request>, now: int,
                                          fired: seq<TimerList.Timer>, items': seq<TimerList.Timer>)
    requires Exactly(made, Waiting(requests), items) && TickedList(items, items', fired, now)
    requires |made| == |Added(requests)| && forall j :: 0 <= j < |made| ==> made[j].expire == Added(requests)[j]
    ensures Exactly(made, DueAt(requests, now), fired)
    ensures Exactly(made, Waiting(requests) - DueAt(requests, now), items')
  {
    hide Waiting, Added;
    assert forall i :: 0 <= i < |fired| ==> items[i] == fired[i];
    assert forall i :: 0 <= i < |items'| ==> items[i + |fired|] == items'[i];
    forall j | 0 <= j < |made|
      ensures made[j] in fired <==> j in DueAt(requests, now)
      ensures made[j] in items' <==> j in Waiting(requests) - DueAt(requests, now)
    {
      var t := made[j];
      assert t in items <==> t in fired || t in items';
    }
  }

  method FireBoth(h: TimeHeap.Heap, l: TimerList.List, ghost made: seq<TimeHeap.HeapTimer>,
                  ghost made': seq<TimerList.Timer>, ghost requests: seq<Request>, now: int)
    returns (fired: seq<TimeHeap.HeapTimer>, fired': seq<TimerList.Timer>)
    requires Both(h, l, made, made', requests)
    modifies h, h.data, l, TimerList.Elems(l.items)`prev
    ensures Both(h, l, made, made', requests + [TickAt(now)])
    ensures h.data == old(h.data) && h.capacity == old(h.capacity)
    ensures TimerList.Elems(l.items) <= old(TimerList.Elems(l.items))
    ensures Exactly(made, DueAt(requests, now), fired) && Exactly(made', DueAt(requests, now), fired')
    ensures HeapExpiries(fired) == TimerList.Expiries(fired')
  {
    hide h.Valid, l.Valid, Waiting, Added, HeapHolds, Exactly, Once, TickedHeap, TimeHeap.Fireable,
      TimerList.Expiries, DueAt;
    ghost var v, w := h.items, l.items;
    OneMore(requests, TickAt(now));
    LiveExactly(v, made, Waiting(requests));
    SameExpiries(TimeHeap.Fireable(v), w, made, made', Added(requests), Waiting(requests));
    fired, fired' := TickBoth(h, l, now);
    HeapTicked(v, made, requests, now, fired, h.items);
    ListTickedBoth(w, made', requests, now, fired', l.items);
  }

  // ----- Any run

  /** What a request fires after the earlier ones: nothing, or, for a tick, exactly the timers that are due, each
   once, in both containers at the same expiries in the same order. */
  ghost predicate Fires(earlier: seq<Request>, q: Request, made: seq<TimeHeap.HeapTimer>, made': seq<TimerList.Timer>,
                        fired: seq<TimeHeap.HeapTimer>, fired': seq<TimerList.Timer>)
    reads TimerList.Elems(fired')`expire
  {
    if q.TickAt? then
      && Exactly(made, DueAt(earlier, q.now), fired) && Exactly(made', DueAt(earlier, q.now), fired')
      && HeapExpiries(fired) == TimerList.Expiries(fired')
    else fired == [] && fired' == []
  }

  lemma {:induction false} ExactlyStill<T>(made: seq<T>, which: set<nat>, s: seq<T>, t: T)
    requires Exactly(made, which, s) && t !in made && forall j :: j in which ==> j < |made|
    ensures Exactly(made + [t], which, s)
  {
    forall i | 0 <= i < |s| ensures s[i] in made + [t] {
      assert s[i] in made;
    }
  }

  /** Timers that are added later do not change what has been fired. */
  lemma {:induction false} FiresStill(earlier: seq<Request>, q: Request, made: seq<TimeHeap.HeapTimer>,
                                      made': seq<TimerList.Timer>, fired: seq<TimeHeap.HeapTimer>,
                                      fired': seq<TimerList.Timer>, t: TimeHeap.HeapTimer, t': TimerList.Timer)
    requires Fires(earlier, q, made, made', fired, fired') && t !in made && t' !in made'
    requires |Added(earlier)| <= |made| == |made'|
    ensures Fires(earlier, q, made + [t], made' + [t'], fired, fired')
  {
    hide Exactly, TimerList.Expiries;
    if q.TickAt? {
      ExactlyStill(made, DueAt(earlier, q.now), fired, t);
      ExactlyStill(made', DueAt(earlier, q.now), fired', t');
    }
  }

  /** The timers are numbered as they are added, so there are never fewer. */
  lemma {:induction false} AddedGrows(requests: seq<Request>, i: nat)
    requires i <= |requests|
    ensures |Added(requests[..i])| <= |Added(requests)|
  {
    if i < |requests| {
      AddedGrows(requests[..|requests| - 1], i);
      assert requests[..|requests| - 1][..i] == requests[..i];
    } else {
      assert requests[..i] == requests;
    }
  }

  lemma {:induction false} MadeAll(h: TimeHeap.Heap, l: TimerList.List, made: seq<TimeHeap.HeapTimer>,
                                   made': seq<TimerList.Timer>, requests: seq<Request>)
    requires Both(h, l, made, made', requests)
    ensures |made| == |made'| == |Added(requests)| && forall j :: j in Waiting(requests) ==> j < |made|
    ensures forall now :: Waiting(requests) - DueAt(requests, now)
                            == set j | j in Waiting(requests) && made[j].expire > now
  {
    hide Added, Waiting, h.Valid, l.Valid;
  }

  /** Cancelling a timer that is not waiting changes nothing. */
  lemma {:induction false} StillBoth(h: TimeHeap.Heap, l: TimerList.List, made: seq<TimeHeap.HeapTimer>,
                                     made': seq<TimerList.Timer>, requests: seq<Request>, k: nat)
    requires Both(h, l, made, made', requests) && k !in Waiting(requests)
    ensures Both(h, l, made, made', requests + [Cancel(k)])
  {
    hide Added, Waiting, HeapHolds, Exactly, Once, h.Valid, l.Valid;
    OneMore(requests, Cancel(k));
    assert Waiting(requests) - {k} == Waiting(requests);
  }

  ghost predicate GrownBy<T>(made: seq<T>, more: seq<T>, n: nat) {
    |more| == |made| + n && forall j :: 0 <= j < |made| ==> more[j] == made[j]
  }

  /** One request to both, with what it fires. `waiting` is the client's own note of the timers it may cancel. */
  method Perform(h: TimeHeap.Heap, l: TimerList.List, made: seq<TimeHeap.HeapTimer>, made': seq<TimerList.Timer>,
                 ghost requests: seq<Request>, q: Request, waiting: set<nat>)
    returns (more: seq<TimeHeap.HeapTimer>, more': seq<TimerList.Timer>,
             fired: seq<TimeHeap.HeapTimer>, fired': seq<TimerList.Timer>, waiting': set<nat>)
    requires Both(h, l, made, made', requests) && waiting == Waiting(requests) && (h.capacity > 0 || q.Cancel?)
    modifies h, h.data, l, TimerList.Elems(l.items)`prev, TimerList.Elems(l.items)`next, made
    ensures (h.data == old(h.data) || fresh(h.data)) && (h.capacity == 0 <==> old(h.capacity) == 0)
    ensures Both(h, l, more, more', requests + [q])
    ensures waiting' == Waiting(requests + [q])
    ensures GrownBy(made, more, if q.AddAt? then 1 else 0) && GrownBy(made', more', if q.AddAt? then 1 else 0)
    ensures q.AddAt? ==> fresh(more[|made|]) && more[|made|] !in made && more'[|made'|] !in made'
    ensures forall t :: t in TimerList.Elems(l.items) ==> t in old(TimerList.Elems(l.items)) || fresh(t)
    ensures Fires(requests, q, more, more', fired, fired')
  {
    hide Both, Waiting, Added, Exactly, TimerList.Expiries, DueAt;
    OneMore(requests, q);
    MadeAll(h, l, made, made', requests);
    more, more', fired, fired', waiting' := made, made', [], [], waiting;
    match q {
      case AddAt(e) =>
        var t, t' := AddBoth(h, l, made, made', requests, e);
        more, more', waiting' := made + [t], made' + [t'], waiting + {|made|};
      case Cancel(k) =>
        if k in waiting {
          CancelBoth(h, l, made, made', requests, k);
          waiting' := waiting - {k};
        } else {
          StillBoth(h, l, made, made', requests, k);
        }
      case TickAt(now) =>
        fired, fired' := FireBoth(h, l, made, made', requests, now);
        waiting' := set j | j in waiting && made[j].expire > now;
    }
  }

  lemma {:induction false} FiresLater(requests: seq<Request>, n: nat, i: nat, made: seq<TimeHeap.HeapTimer>,
                                      made': seq<TimerList.Timer>, more: seq<TimeHeap.HeapTimer>,
                                      more': seq<TimerList.Timer>, fired: seq<TimeHeap.HeapTimer>,
                                      fired': seq<TimerList.Timer>)
    requires i < n < |requests| && Fires(requests[..i], requests[i], made, made', fired, fired')
    requires |made| == |made'| == |Added(requests[..n])|
    requires var k := if requests[n].AddAt? then 1 else 0; GrownBy(made, more, k) && GrownBy(made', more', k)
    requires requests[n].AddAt? ==> more[|made|] !in made && more'[|made'|] !in made'
    ensures Fires(requests[..i], requests[i], more, more', fired, fired')
  {
    hide Fires, Added;
    AddedGrows(requests[..n], i);
    assert requests[..n][..i] == requests[..i];
    if requests[n].AddAt? {
      FiresStill(requests[..i], requests[i], made, made', fired, fired', more[|made|], more'[|made'|]);
      assert more == made + [more[|made|]] && more' == made' + [more'[|made'|]];
    } else {
      assert more == made && more' == made';
    }
  }

  lemma {:induction false} NothingYet(h: TimeHeap.Heap, l: TimerList.List)
    requires h.Valid() && h.items == [] && l.Valid() && l.items == []
    ensures Both(h, l, [], [], []) && Waiting([]) == {}
  {
  }

  /** From an empty heap and an empty list, over any run of additions, cancellations and ticks: both hold the timers
   that are waiting, and every tick fires exactly the due ones, in both at the same expiries in the same order. The
   run ends early only at the first request that needs an entry of a heap without entries. */
  method ServeBoth(capacity: nat, requests: seq<Request>)
    returns (h: TimeHeap.Heap, l: TimerList.List, made: seq<TimeHeap.HeapTimer>, made': seq<TimerList.Timer>,
             fired: seq<seq<TimeHeap.HeapTimer>>, fired': seq<seq<TimerList.Timer>>)
    ensures |fired| == |fired'| <= |requests| && Both(h, l, made, made', requests[..|fired|])
    ensures forall i :: 0 <= i < |fired| ==> Fires(requests[..i], requests[i], made, made', fired[i], fired'[i])
    ensures |fired| < |requests| ==> capacity == 0 && !requests[|fired|].Cancel?
    ensures capacity == 0 ==> forall i :: 0 <= i < |fired| ==> requests[i].Cancel?
  {
    hide Both, Waiting, Added, Exactly, TimerList.Expiries, Fires;
    h := new TimeHeap.Heap(capacity);
    l := new TimerList.List();
    made, made', fired, fired' := [], [], [], [];
    var waiting: set<nat> := {};
    NothingYet(h, l);
    assert requests[..0] == [];
    for n := 0 to |requests|
      invariant fresh(h) && fresh(h.data) && fresh(l) && (forall t :: t in TimerList.Elems(l.items) ==> fresh(t))
      invariant (forall j :: 0 <= j < |made| ==> fresh(made[j])) && waiting == Waiting(requests[..n])
      invariant Both(h, l, made, made', requests[..n]) && |fired| == |fired'| == n
      invariant (h.capacity == 0 <==> capacity == 0)
      invariant capacity == 0 ==> forall i :: 0 <= i < n ==> requests[i].Cancel?
      invariant forall i :: 0 <= i < n ==> Fires(requests[..i], requests[i], made, made', fired[i], fired'[i])
    {
      if h.capacity == 0 && !requests[n].Cancel? {
        return;
      }
      var more, more', f, f';
      MadeAll(h, l, made, made', requests[..n]);
      label before:
      more, more', f, f', waiting := Perform(h, l, made, made', requests[..n], requests[n], waiting);
      assert requests[..n] + [requests[n]] == requests[..n + 1];
      forall i | 0 <= i < n ensures Fires(requests[..i], requests[i], more, more', fired[i], fired'[i]) {
        assert old@before(Fires(requests[..i], requests[i], made, made', fired[i], fired'[i]));
        assert forall t: TimerList.Timer :: t in TimerList.Elems(fired'[i]) ==> t.expire == old@before(t.expire);
        FiresLater(requests, n, i, made, made', more, more', fired[i], fired'[i]);
      }
      made, made', fired, fired' := more, more', fired + [f], fired' + [f'];
    }
  }
}
