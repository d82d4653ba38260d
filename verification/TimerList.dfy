/**
 The timer list: a doubly linked list of timers in order of expiry, with a head and a tail.
 */
module TimerList {
  class Timer {
    var expire: int
    var prev: Timer?
    var next: Timer?

    constructor (e: int)
      ensures expire == e && prev == null && next == null
    {
      expire, prev, next := e, null, null;
    }
  }

  ghost function Elems(l: seq<Timer>): set<Timer> {
    set t | t in l
  }

  // ----- Links

  /** The timer at position `i`, or null outside the list. */
  ghost function At(l: seq<Timer>, i: int): Timer? {
    if 0 <= i < |l| then l[i] else null
  }

  ghost predicate LinkedAt(l: seq<Timer>, i: nat)
    requires i < |l|
    reads Elems(l)`prev, Elems(l)`next
  {
    l[i].prev == At(l, i - 1) && l[i].next == At(l, i + 1)
  }

  ghost predicate Distinct(l: seq<Timer>) {
    forall i, j :: 0 <= i < j < |l| ==> l[i] != l[j]
  }

  /** `l` is the list from `head` to `tail`; an empty list has no head, and its tail is not looked at. */
  ghost predicate Linked(l: seq<Timer>, head: Timer?, tail: Timer?)
    reads Elems(l)`prev, Elems(l)`next
  {
    && head == At(l, 0) && (|l| > 0 ==> tail == l[|l| - 1])
    && Distinct(l) && forall i :: 0 <= i < |l| ==> LinkedAt(l, i)
  }

  ghost function Inserted(l: seq<Timer>, q: nat, t: Timer): seq<Timer>
    requires q <= |l|
  {
    l[..q] + [t] + l[q..]
  }

  ghost function Removed(l: seq<Timer>, i: nat): seq<Timer>
    requires i < |l|
  {
    l[..i] + l[i + 1..]
  }

  /** Links a timer in between two neighbours, or at the end. */
  method Splice(timer: Timer, before: Timer, after: Timer?, head: Timer?, tail: Timer?, ghost l: seq<Timer>,
                ghost q: nat)
    returns (newTail: Timer?)
    requires Linked(l, head, tail) && 0 < q <= |l| && before == l[q - 1] && after == At(l, q) && timer !in l
    modifies timer`prev, timer`next, Elems(l)`prev, Elems(l)`next
    ensures Linked(Inserted(l, q, timer), head, newTail)
    ensures newTail == if after == null then timer else tail
  {
    ghost var m := Inserted(l, q, timer);
    before.next := timer;
    timer.next := after;
    timer.prev := before;
    newTail := tail;
    if after != null {
      after.prev := timer;
    } else {
      newTail := timer;
    }
    forall i | 0 <= i < |m| ensures LinkedAt(m, i) {
      if i != q {
        var k := if i < q then i else i - 1;
        assert old(LinkedAt(l, k)) && m[i] == l[k];
        assert At(m, i + 1) == if i == q - 1 then timer else At(l, k + 1);
        assert At(m, i - 1) == if i == q + 1 then timer else At(l, k - 1);
      }
    }
  }

  method PushFront(timer: Timer, head: Timer?, tail: Timer?, ghost l: seq<Timer>)
    requires Linked(l, head, tail) && head != null && timer !in l && timer.prev == null
    modifies timer`next, Elems(l)`prev
    ensures Linked([timer] + l, timer, tail)
  {
    ghost var m := [timer] + l;
    timer.next := head;
    head.prev := timer;
    forall i | 0 <= i < |m| ensures LinkedAt(m, i) {
      if i > 0 {
        assert old(LinkedAt(l, i - 1)) && m[i] == l[i - 1];
        assert At(m, i + 1) == At(l, i) && (i > 1 ==> At(m, i - 1) == At(l, i - 2));
      }
    }
  }

  /** Takes a timer out of the list. */
  method Unlink(timer: Timer, head: Timer?, tail: Timer?, ghost l: seq<Timer>, ghost i: nat)
    returns (newHead: Timer?, newTail: Timer?)
    requires Linked(l, head, tail) && i < |l| && timer == l[i]
    modifies Elems(l)`prev, Elems(l)`next
    ensures Linked(Removed(l, i), newHead, newTail)
    ensures timer.prev == old(timer.prev) && timer.next == old(timer.next)
  {
    ghost var m := Removed(l, i);
    assert LinkedAt(l, i);
    newHead, newTail := head, tail;
    if timer == head && timer == tail {
      newHead, newTail := null, null;
    } else if timer == head {
      newHead := head.next;
      newHead.prev := null;
    } else if timer == tail {
      newTail := tail.prev;
      newTail.next := null;
    } else {
      timer.prev.next := timer.next;
      timer.next.prev := timer.prev;
    }
    forall j | 0 <= j < |m| ensures LinkedAt(m, j) {
      var k := if j < i then j else j + 1;
      assert old(LinkedAt(l, k)) && m[j] == l[k];
      assert At(m, j + 1) == if j == i - 1 then At(l, i + 1) else At(l, k + 1);
      assert At(m, j - 1) == if j == i then At(l, i - 1) else At(l, k - 1);
    }
  }

  // ----- Order

  ghost function Expiries(l: seq<Timer>): (k: seq<int>)
    reads Elems(l)`expire
    ensures |k| == |l| && forall i :: 0 <= i < |l| ==> k[i] == l[i].expire
  {
    if l == [] then [] else Expiries(l[..|l| - 1]) + [l[|l| - 1].expire]
  }

  ghost predicate Sorted(k: seq<int>) {
    forall i, j :: 0 <= i < j < |k| ==> k[i] <= k[j]
  }

  /** How many of the leading expiries are no later than `e`. */
  ghost function Place(k: seq<int>, e: int): (p: nat)
    ensures p <= |k| && (forall i :: 0 <= i < p ==> k[i] <= e) && (p < |k| ==> k[p] > e)
  {
    if k == [] || k[0] > e then 0 else 1 + Place(k[1..], e)
  }

  lemma {:induction false} PlaceIs(k: seq<int>, e: int, p: nat)
    requires p <= |k| && (forall i :: 0 <= i < p ==> k[i] <= e) && (p < |k| ==> k[p] > e)
    ensures p == Place(k, e)
  {
  }

  /** Inserting there keeps the order, and puts the new timer behind those that expire at the same time. */
  lemma {:induction false} InsertedSorted(k: seq<int>, e: int)
    requires Sorted(k)
    ensures Sorted(k[..Place(k, e)] + [e] + k[Place(k, e)..])
  {
    var p := Place(k, e);
    forall j | p <= j < |k| ensures k[j] > e {
    }
  }

  lemma {:induction false} InsertedExpiries(l: seq<Timer>, q: nat, t: Timer)
    requires q <= |l|
    ensures Expiries(Inserted(l, q, t)) == Expiries(l)[..q] + [t.expire] + Expiries(l)[q..]
  {
  }

  lemma {:induction false} RemovedExpiries(l: seq<Timer>, i: nat)
    requires i < |l|
    ensures Expiries(Removed(l, i)) == Expiries(l)[..i] + Expiries(l)[i + 1..]
  {
  }

  lemma {:induction false} LinkedView(l: seq<Timer>, head: Timer?, tail: Timer?, i: nat)
    requires Linked(l, head, tail) && i < |l|
    ensures Distinct(l) && l[i].next == At(l, i + 1) && l[i].prev == At(l, i - 1)
  {
    assert LinkedAt(l, i);
  }

  lemma {:induction false} PlaceFrom(k: seq<int>, e: int, i: nat, q: nat)
    requires Sorted(k) && i < q <= |k| && k[i] <= e
    requires (forall j :: i < j < q ==> k[j] <= e) && (q < |k| ==> k[q] > e)
    ensures q == Place(k, e)
  {
    hide Place;
    forall j | 0 <= j < q ensures k[j] <= e {
    }
    PlaceIs(k, e, q);
  }

  lemma {:induction false} RemovedElems(l: seq<Timer>, i: nat)
    requires Distinct(l) && i < |l|
    ensures |Removed(l, i)| == |l| - 1 && l[i] !in Removed(l, i) && Elems(Removed(l, i)) <= Elems(l)
    ensures i + 1 < |l| ==> Removed(l, i)[i] == l[i + 1]
  {
  }

  /** A timer that expires before the next one stays where it is. */
  lemma {:induction false} StayPut(l: seq<Timer>, i: nat)
    requires i < |l| && Sorted(Expiries(l)[..i] + Expiries(l)[i + 1..])
    requires i + 1 < |l| ==> l[i].expire < l[i + 1].expire
    ensures Sorted(Expiries(l)) <==> i == 0 || l[i - 1].expire <= l[i].expire
    ensures var rest := Removed(l, i);
      Sorted(Expiries(l)) ==> l == Inserted(rest, Place(Expiries(rest), l[i].expire), l[i])
  {
    hide Place, Sorted, Expiries;
    var k, rest := Expiries(l), Removed(l, i);
    SortedAround(k, i);
    RemovedExpiries(l, i);
    if Sorted(k) {
      SortedStep(k, i);
      PlaceIs(Expiries(rest), l[i].expire, i);
      assert l == l[..i] + [l[i]] + l[i + 1..];
    }
  }

  /** A timer that expires no earlier than the next one moves to its place among the others. */
  lemma {:induction false} Requeued(l: seq<Timer>, i: nat, q: nat)
    requires i + 1 < |l| && Sorted(Expiries(l)[..i] + Expiries(l)[i + 1..]) && l[i + 1].expire <= l[i].expire
    requires var rest := Removed(l, i);
      && i < q <= |rest|
      && (forall j :: i < j < q ==> rest[j].expire <= l[i].expire)
      && (q < |rest| ==> rest[q].expire > l[i].expire)
    ensures i == 0 || l[i - 1].expire <= l[i].expire
    ensures var rest := Removed(l, i);
      q == Place(Expiries(rest), l[i].expire) && Sorted(Expiries(Inserted(rest, q, l[i])))
  {
    hide Sorted, Place, Inserted, Removed;
    var rest := Removed(l, i);
    RemovedExpiries(l, i);
    NextAfterPrev(Expiries(l), i);
    PlaceFrom(Expiries(rest), l[i].expire, i, q);
    InsertedSorted(Expiries(rest), l[i].expire);
    InsertedExpiries(rest, q, l[i]);
  }

  lemma {:induction false} NextAfterPrev(k: seq<int>, i: nat)
    requires i + 1 < |k| && Sorted(k[..i] + k[i + 1..])
    ensures i > 0 ==> k[i - 1] <= k[i + 1]
    ensures (k[..i] + k[i + 1..])[i] == k[i + 1]
  {
    var rest := k[..i] + k[i + 1..];
    assert i > 0 ==> rest[i - 1] == k[i - 1] && rest[i] == k[i + 1];
  }

  /** Only the expiry at `i` is no longer as it was in `k`. */
  lemma {:induction false} ChangedOne(l: seq<Timer>, k: seq<int>, i: nat)
    requires |k| == |l| && i < |l| && forall j :: 0 <= j < |l| && j != i ==> l[j].expire == k[j]
    ensures Expiries(l)[..i] + Expiries(l)[i + 1..] == k[..i] + k[i + 1..]
  {
    hide Expiries;
    var e := Expiries(l);
    assert e[..i] == k[..i] && e[i + 1..] == k[i + 1..];
  }

  lemma {:induction false} RemovedSorted(k: seq<int>, i: nat)
    requires i < |k| && Sorted(k)
    ensures Sorted(k[..i] + k[i + 1..])
  {
  }

  lemma {:induction false} Cuts(l: seq<Timer>, p: nat)
    requires p <= |l|
    ensures p == 0 ==> l[..p] == [] && l[p..] == l
    ensures p < |l| ==> l[p..][0] == l[p] && l[p..][1..] == l[p + 1..] && l[..p + 1] == l[..p] + [l[p]]
  {
  }

  lemma {:induction false} TickEnd(l: seq<Timer>, p: nat, head: Timer?, tail: Timer?, now: int)
    requires p <= |l| && Linked(l[p..], head, tail) && (head != null ==> head.expire > now)
    requires forall i :: 0 <= i < p ==> Expiries(l)[i] <= now
    ensures p == Place(Expiries(l), now)
    ensures Sorted(Expiries(l)) ==> Sorted(Expiries(l[p..]))
  {
    hide Place, Expiries;
    assert p < |l| ==> l[p..][0] == l[p];
    PlaceIs(Expiries(l), now, p);
    if Sorted(Expiries(l)) { SplitSorted(l, p); }
  }

  /** In a sorted list the timers that are due are exactly the leading ones. */
  lemma {:induction false} DueAreFirst(k: seq<int>, now: int, i: nat)
    requires Sorted(k) && i < |k|
    ensures i < Place(k, now) <==> k[i] <= now
  {
  }

  lemma {:induction false} SplitSorted(l: seq<Timer>, p: nat)
    requires p <= |l| && Sorted(Expiries(l))
    ensures Sorted(Expiries(l[p..]))
  {
    assert Expiries(l[p..]) == Expiries(l)[p..];
  }

  lemma {:induction false} SortedStep(k: seq<int>, i: nat)
    requires i < |k| && Sorted(k)
    ensures forall j :: 0 <= j < i ==> k[j] <= k[i]
  {
  }

  lemma {:induction false} SortedAround(k: seq<int>, i: nat)
    requires i < |k| && Sorted(k[..i] + k[i + 1..]) && (i + 1 < |k| ==> k[i] < k[i + 1])
    ensures Sorted(k) <==> i == 0 || k[i - 1] <= k[i]
  {
    var rest := k[..i] + k[i + 1..];
    if i == 0 || k[i - 1] <= k[i] {
      forall a, b | 0 <= a < b < |k| ensures k[a] <= k[b] {
        assert a < i ==> rest[a] == k[a] && (i > 0 ==> rest[i - 1] == k[i - 1]);
        assert b > i ==> rest[b - 1] == k[b] && rest[i] == k[i + 1];
        assert a > i ==> rest[a - 1] == k[a];
        assert b < i ==> rest[b] == k[b];
      }
    }
  }

  class List {
    var head: Timer?
    var tail: Timer?
    ghost var items: seq<Timer>

    ghost predicate Valid()
      reads this, Elems(items)
    {
      Linked(items, head, tail) && Sorted(Expiries(items))
    }

    constructor ()
      ensures Valid() && items == []
    {
      head, tail, items := null, null, [];
    }

    method Anchor(newHead: Timer?, newTail: Timer?, ghost l: seq<Timer>)
      requires Linked(l, newHead, newTail)
      modifies this
      ensures head == newHead && tail == newTail && items == l && Linked(items, head, tail)
      ensures Expiries(l) == old(Expiries(l))
    {
      hide Linked;
      head, tail, items := newHead, newTail, l;
    }

    /** Walks on from a timer of the list to the first later one, and puts `timer` before it. */
    method AddAfter(timer: Timer, lstHead: Timer, ghost k: nat) returns (ghost q: nat)
      requires Linked(items, head, tail) && k < |items| && lstHead == items[k] && timer !in items
      modifies this, timer`prev, timer`next, Elems(items)`prev, Elems(items)`next
      ensures k < q <= |old(items)| && items == Inserted(old(items), q, timer) && Linked(items, head, tail)
      ensures head == old(head)
      ensures forall j :: k < j < q ==> old(items)[j].expire <= timer.expire
      ensures q < |old(items)| ==> old(items)[q].expire > timer.expire
    {
      hide Linked, Distinct, Inserted;
      ghost var l := items;
      q := k + 1;
      LinkedView(l, head, tail, k);
      var prev := lstHead;
      var tmp := prev.next;
      while tmp != null
        invariant items == l && k < q <= |l| && prev == l[q - 1] && tmp == At(l, q)
        invariant Linked(l, head, tail) && tail == old(tail) && head == old(head)
        invariant forall j :: k < j < q ==> l[j].expire <= timer.expire
        invariant forall t :: t in l ==> t.next == old(t.next) && t.prev == old(t.prev)
        decreases |l| - q
      {
        if timer.expire < tmp.expire {
          break;
        }
        LinkedView(l, head, tail, q);
        prev := tmp;
        tmp := tmp.next;
        q := q + 1;
      }
      var newTail := Splice(timer, prev, tmp, head, tail, l, q);
      Anchor(head, newTail, Inserted(l, q, timer));
    }

    /** A new timer goes behind all those that expire no later, so the list stays sorted and stable. */
    method AddTimer(timer: Timer?)
      requires Valid()
      requires timer != null ==> timer !in items && timer.prev == null && timer.next == null
      modifies this, Some(timer)`prev, Some(timer)`next, Elems(items)`prev, Elems(items)`next
      ensures Valid()
      ensures timer == null ==> items == old(items)
      ensures timer != null ==> items == Inserted(old(items), Place(old(Expiries(items)), timer.expire), timer)
    {
      hide Linked, Sorted, Place, Inserted;
      if timer == null {
        return;
      }
      ghost var l, k := items, Expiries(items);
      InsertedSorted(k, timer.expire);
      ghost var q := Add(timer);
      PlaceIs(k, timer.expire, q);
      InsertedExpiries(l, q, timer);
    }

    method Add(timer: Timer) returns (ghost q: nat)
      requires Linked(items, head, tail) && timer !in items && timer.prev == null && timer.next == null
      modifies this, timer`prev, timer`next, Elems(items)`prev, Elems(items)`next
      ensures q <= |old(items)| && items == Inserted(old(items), q, timer) && Linked(items, head, tail)
      ensures forall j :: 0 <= j < q ==> old(items)[j].expire <= timer.expire
      ensures q < |old(items)| ==> old(items)[q].expire > timer.expire
    {
      hide Linked;
      ghost var l := items;
      q := 0;
      if head == null {
        EmptyView(l, head, tail);
        LinkedAlone(timer);
        Anchor(timer, timer, [timer]);
      } else {
        LinkedFirst(l, head, tail);
        if timer.expire < head.expire {
          PushFront(timer, head, tail, l);
          Anchor(timer, tail, [timer] + l);
        } else {
          q := AddAfter(timer, head, 0);
        }
      }
      assert q == 0 ==> Inserted(l, q, timer) == [timer] + l;
    }

    /** The order of all timers but the one whose expiry was changed. */
    ghost predicate SortedBut(i: nat)
      requires i < |items|
      reads this, Elems(items)`expire
    {
      Sorted(Expiries(items)[..i] + Expiries(items)[i + 1..])
    }

    method Requeue(timer: Timer, ghost i: nat) returns (ghost q: nat)
      requires Linked(items, head, tail) && i + 1 < |items| && items[i] == timer
      modifies this, Elems(items)`prev, Elems(items)`next
      ensures var rest := Removed(old(items), i);
        && i < q <= |rest| && items == Inserted(rest, q, timer) && Linked(items, head, tail)
        && (forall j :: i < j < q ==> rest[j].expire <= timer.expire)
        && (q < |rest| ==> rest[q].expire > timer.expire)
    {
      hide Linked, Distinct;
      ghost var l := items;
      LinkedView(l, head, tail, i);
      RemovedElems(l, i);
      var next := timer.next;
      var newHead, newTail := Unlink(timer, head, tail, l, i);
      Anchor(newHead, newTail, Removed(l, i));
      q := AddAfter(timer, next, i);
    }

    /** After the expiry of one timer was changed. The timer moves towards the end only, so the list is
     sorted again exactly when the timer does not expire before the one in front of it, and then it is
     where adding it anew would put it. */
    method AdjustTimer(timer: Timer?, ghost i: nat)
      requires Linked(items, head, tail)
      requires timer != null ==> i < |items| && items[i] == timer && SortedBut(i)
      modifies this, Elems(items)`prev, Elems(items)`next
      ensures Linked(items, head, tail)
      ensures timer == null ==> items == old(items)
      ensures timer != null ==> (Valid() <==> i == 0 || old(items)[i - 1].expire <= timer.expire)
      ensures timer != null && Valid() ==>
        var rest := Removed(old(items), i);
        items == Inserted(rest, Place(Expiries(rest), timer.expire), timer)
      ensures timer != null && !Valid() ==> items == old(items)
    {
      hide Linked, Sorted, Place, Inserted, Removed;
      if timer == null {
        return;
      }
      ghost var l := items;
      LinkedView(l, head, tail, i);
      var tmp := timer.next;
      if tmp == null || timer.expire < tmp.expire {
        StayPut(l, i);
        return;
      }
      ghost var q := Requeue(timer, i);
      Requeued(l, i, q);
    }

    /** Putting off a timer and adjusting it: the list is sorted again, and the timer is where adding it
     anew would put it, behind those that expire at the same time. */
    method Extend(timer: Timer, expire: int, ghost i: nat)
      requires Valid() && i < |items| && items[i] == timer && expire >= timer.expire
      modifies this, timer`expire, Elems(items)`prev, Elems(items)`next
      ensures Valid() && timer.expire == expire
      ensures var rest := Removed(old(items), i);
        items == Inserted(rest, Place(Expiries(rest), expire), timer)
    {
      hide Linked, Sorted, Place, Inserted, Removed, Expiries;
      ghost var l, k := items, Expiries(items);
      LinkedView(l, head, tail, i);
      RemovedSorted(k, i);
      SortedStep(k, i);
      timer.expire := expire;
      ChangedOne(l, k, i);
      AdjustTimer(timer, i);
    }

    method DelTimer(timer: Timer?, ghost i: nat)
      requires Valid() && (timer != null ==> i < |items| && items[i] == timer)
      modifies this, Elems(items)`prev, Elems(items)`next
      ensures Valid() && items == if timer == null then old(items) else Removed(old(items), i)
    {
      hide Linked, Sorted, Removed, Expiries;
      if timer == null {
        return;
      }
      ghost var l, k := items, Expiries(items);
      RemovedSorted(k, i);
      var newHead, newTail := Unlink(timer, head, tail, l, i);
      Anchor(newHead, newTail, Removed(l, i));
      RemovedExpiries(l, i);
      assert Expiries(l) == k;
    }

    /** Fires, in order of expiry, exactly the timers that are due, and keeps exactly the others. */
    method Tick(now: int) returns (fired: seq<Timer>)
      requires Valid()
      modifies this, Elems(items)`prev
      ensures Valid()
      ensures var p := Place(old(Expiries(items)), now);
        fired == old(items)[..p] && items == old(items)[p..]
      ensures Expiries(old(items)) == old(Expiries(items))
    {
      hide Linked, Sorted, Place, Expiries;
      ghost var l, k, p := items, Expiries(items), 0;
      fired := [];
      Cuts(l, 0);
      if head == null {
        EmptyView(l, head, tail);
        PlaceIs(k, now, 0);
        return;
      }
      var tmp := head;
      while tmp != null
        invariant tmp == head && p <= |l| && items == l[p..] && fired == l[..p] && Linked(items, head, tail)
        invariant Expiries(l) == k && forall i :: 0 <= i < p ==> k[i] <= now
        decreases |l| - p
      {
        LinkedFirst(items, head, tail);
        Cuts(l, p);
        if now < tmp.expire {
          break;
        }
        fired := fired + [tmp];
        DropFirst();
        assert Expiries(l) == k;
        p := p + 1;
        tmp := head;
      }
      TickEnd(l, p, head, tail, now);
    }

    method DropFirst()
      requires Linked(items, head, tail) && head != null
      modifies this, Elems(items)`prev
      ensures |old(items)| > 0 && items == old(items)[1..] && Linked(items, head, tail)
    {
      ghost var l := items;
      assert LinkedAt(l, 0);
      var newHead := head.next;
      if newHead != null {
        newHead.prev := null;
      }
      forall i | 0 <= i < |l[1..]| ensures LinkedAt(l[1..], i) {
        assert old(LinkedAt(l, i + 1));
        assert At(l[1..], i + 1) == At(l, i + 2) && (i > 0 ==> At(l[1..], i - 1) == At(l, i));
      }
      Anchor(newHead, tail, l[1..]);
    }
  }

  /** Three timers of which the last is brought forward before the second: adjusting it leaves it where it is, and
   the list is no longer sorted. */
  method EarlierStaysBehind() returns (l: List, a: Timer, b: Timer, c: Timer)
    ensures fresh(l) && l.items == [a, b, c] && Linked(l.items, l.head, l.tail)
    ensures a.expire == 1 && b.expire == 5 && c.expire == 3 && !l.Valid()
  {
    hide Linked, Place, Inserted, Removed, Expiries, Sorted;
    l, a, b, c := ThreeTimers();
    ghost var k := Expiries(l.items);
    c.expire := 3;
    ThirdChanged(l.items, k);
    l.AdjustTimer(c, 2);
  }

  method ThreeTimers() returns (l: List, a: Timer, b: Timer, c: Timer)
    ensures fresh({l}) && fresh({a, b, c}) && a != b && b != c && a != c
    ensures l.Valid() && l.items == [a, b, c] && a.expire == 1 && b.expire == 5 && c.expire == 7
  {
    hide Linked, Sorted, Expiries, List.Valid;
    l := new List();
    a := new Timer(1);
    AppendLast(l, a);
    b := new Timer(5);
    assert l.items == [a];
    AppendLast(l, b);
    assert l.items == [a, b];
    c := new Timer(7);
    AppendLast(l, c);
  }

  /** Adding a timer that expires no earlier than any in the list. */
  method AppendLast(l: List, timer: Timer)
    requires l.Valid() && timer !in l.items && timer.prev == null && timer.next == null
    requires forall t :: t in l.items ==> t.expire <= timer.expire
    modifies l, timer`prev, timer`next, Elems(l.items)`prev, Elems(l.items)`next
    ensures l.Valid() && l.items == old(l.items) + [timer]
  {
    hide Linked, Sorted, Place, Expiries;
    PlaceIs(Expiries(l.items), timer.expire, |l.items|);
    l.AddTimer(timer);
  }

  lemma {:induction false} ThirdChanged(l: seq<Timer>, k: seq<int>)
    requires |l| == 3 && Sorted(k) && |k| == 3 && k[0] == l[0].expire && k[1] == l[1].expire
    ensures Sorted(Expiries(l)[..2] + Expiries(l)[3..])
  {
    hide Expiries;
  }

  ghost function Some(timer: Timer?): set<Timer> {
    if timer == null then {} else {timer}
  }

  lemma {:induction false} EmptyView(l: seq<Timer>, head: Timer?, tail: Timer?)
    requires Linked(l, head, tail) && head == null
    ensures l == []
  {
  }

  lemma {:induction false} LinkedFirst(l: seq<Timer>, head: Timer?, tail: Timer?)
    requires Linked(l, head, tail) && head != null
    ensures |l| > 0 && l[0] == head
  {
  }

  lemma {:induction false} LinkedAlone(timer: Timer)
    requires timer.prev == null && timer.next == null
    ensures Linked([timer], timer, timer)
  {
  }
}
