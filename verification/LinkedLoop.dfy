/**
 Two ways to find out whether a linked list runs into a loop: comparing positions, and two
 pointers of different speed.
 */
module LinkedLoop {
  class Node {
    var next: Node?

    constructor ()
      ensures next == null
    {
      next := null;
    }
  }

  /** Every node that can be reached from `head` is in `nodes`. */
  ghost predicate Closed(nodes: set<Node>, head: Node?)
    reads nodes
  {
    (head != null ==> head in nodes) && forall n :: n in nodes && n.next != null ==> n.next in nodes
  }

  /** The node after `k` steps, or null if the list is over before that. */
  ghost function Walk(nodes: set<Node>, head: Node?, k: nat): (n: Node?)
    requires Closed(nodes, head)
    reads nodes
    ensures n != null ==> n in nodes
  {
    if k == 0 then head
    else
      var p := Walk(nodes, head, k - 1);
      if p == null then null else p.next
  }

  /** The list never ends. */
  ghost predicate Loops(nodes: set<Node>, head: Node?)
    requires Closed(nodes, head)
    reads nodes
  {
    forall k: nat :: Walk(nodes, head, k) != null
  }

  lemma {:induction false} NullStays(nodes: set<Node>, head: Node?, k: nat, m: nat)
    requires Closed(nodes, head) && Walk(nodes, head, k) == null && k <= m
    ensures Walk(nodes, head, m) == null
    decreases m
  {
    if k < m { NullStays(nodes, head, k, m - 1); }
  }

  /** From a place that is seen twice on, the walk repeats. */
  lemma {:induction false} Repeats(nodes: set<Node>, head: Node?, i: nat, j: nat, m: nat)
    requires Closed(nodes, head) && i <= j && Walk(nodes, head, i) == Walk(nodes, head, j)
    ensures Walk(nodes, head, i + m) == Walk(nodes, head, j + m)
  {
    if m > 0 { Repeats(nodes, head, i, j, m - 1); }
  }

  /** A node at two places means that the list never ends. */
  lemma {:induction false} TwiceLoops(nodes: set<Node>, head: Node?, i: nat, j: nat)
    requires Closed(nodes, head) && i < j && Walk(nodes, head, i) == Walk(nodes, head, j) != null
    ensures Loops(nodes, head)
  {
    forall k: nat ensures Walk(nodes, head, k) != null {
      TwiceAt(nodes, head, i, j, k);
    }
  }

  lemma {:induction false} TwiceAt(nodes: set<Node>, head: Node?, i: nat, j: nat, k: nat)
    requires Closed(nodes, head) && i < j && Walk(nodes, head, i) == Walk(nodes, head, j) != null
    ensures Walk(nodes, head, k) != null
    decreases k
  {
    if k <= j {
      if Walk(nodes, head, k) == null { NullStays(nodes, head, k, j); }
    } else {
      TwiceAt(nodes, head, i, j, k - (j - i));
      Repeats(nodes, head, i, j, k - j);
    }
  }

  // ----- A walk through few nodes meets one twice

  ghost predicate DistinctUpTo(nodes: set<Node>, head: Node?, n: nat)
    requires Closed(nodes, head)
    reads nodes
  {
    forall i, j :: 0 <= i < j < n ==> Walk(nodes, head, i) != Walk(nodes, head, j)
  }

  ghost function Seen(nodes: set<Node>, head: Node?, n: nat): set<Node?>
    requires Closed(nodes, head)
    reads nodes
  {
    set i | 0 <= i < n :: Walk(nodes, head, i)
  }

  lemma {:induction false} SeenNext(nodes: set<Node>, head: Node?, n: nat)
    requires Closed(nodes, head)
    ensures Seen(nodes, head, n + 1) == Seen(nodes, head, n) + {Walk(nodes, head, n)}
  {
    hide Walk, Closed;
    forall p: Node? ensures p in Seen(nodes, head, n + 1) <==> p in Seen(nodes, head, n) + {Walk(nodes, head, n)} {
      if p == Walk(nodes, head, n) { assert p in Seen(nodes, head, n + 1); }
    }
  }

  lemma {:induction false} NotSeen(nodes: set<Node>, head: Node?, n: nat)
    requires Closed(nodes, head) && DistinctUpTo(nodes, head, n + 1)
    ensures Walk(nodes, head, n) !in Seen(nodes, head, n) && DistinctUpTo(nodes, head, n)
  {
    hide Walk, Closed;
  }

  lemma {:induction false} SeenSize(nodes: set<Node>, head: Node?, n: nat)
    requires Closed(nodes, head) && DistinctUpTo(nodes, head, n)
    ensures |Seen(nodes, head, n)| == n
  {
    hide Walk, Closed, DistinctUpTo;
    if n > 0 {
      NotSeen(nodes, head, n - 1);
      SeenNext(nodes, head, n - 1);
      SeenSize(nodes, head, n - 1);
    }
  }

  lemma {:induction false} AtMostAll(nodes: set<Node>, head: Node?, n: nat)
    requires Closed(nodes, head) && DistinctUpTo(nodes, head, n) && (n > 0 ==> Walk(nodes, head, n - 1) != null)
    ensures n <= |nodes|
  {
    SeenSize(nodes, head, n);
    forall i | 0 <= i < n ensures Walk(nodes, head, i) != null {
      if Walk(nodes, head, i) == null { NullStays(nodes, head, i, n - 1); }
    }
    Smaller(Seen(nodes, head, n), nodes);
  }

  lemma {:induction false} Smaller(a: set<Node?>, b: set<Node?>)
    requires a <= b
    ensures |a| <= |b|
  {
    if a != {} {
      var x :| x in a;
      Smaller(a - {x}, b - {x});
    }
  }

  /** Comparing, for every node, the place where the walk is with the place where it was first seen. */
  method HasLoop(head: Node?, ghost nodes: set<Node>) returns (r: bool)
    requires Closed(nodes, head)
    ensures r <==> Loops(nodes, head)
  {
    var cur1 := head;
    var pos1: nat := 0;
    AtMostAll(nodes, head, 0);
    while cur1 != null
      invariant cur1 == Walk(nodes, head, pos1) && DistinctUpTo(nodes, head, pos1) && pos1 <= |nodes|
      decreases |nodes| - pos1
    {
      var cur2 := head;
      var pos2: nat := 0;
      pos1 := pos1 + 1;
      while cur2 != null
        invariant pos2 < pos1 && cur2 == Walk(nodes, head, pos2)
        invariant forall i :: 0 <= i < pos2 ==> Walk(nodes, head, i) != cur1
        decreases pos1 - pos2
      {
        pos2 := pos2 + 1;
        if cur2 == cur1 {
          if pos1 == pos2 {
            break;
          } else {
            TwiceLoops(nodes, head, pos2 - 1, pos1 - 1);
            return true;
          }
        }
        cur2 := cur2.next;
      }
      if cur2 == null {
        NullStays(nodes, head, pos2, pos1 - 1);
      }
      AtMostAll(nodes, head, pos1);
      cur1 := cur1.next;
    }
    return false;
  }

  // ----- Two speeds

  lemma {:induction false} RepeatsMany(nodes: set<Node>, head: Node?, i: nat, step: nat, m: nat, t: nat)
    requires Closed(nodes, head) && Walk(nodes, head, i) == Walk(nodes, head, i + step) && m >= i
    ensures Walk(nodes, head, m + step * t) == Walk(nodes, head, m)
  {
    if t > 0 {
      RepeatsMany(nodes, head, i, step, m, t - 1);
      assert step * t == step * (t - 1) + step;
      var n := m + step * (t - 1);
      Repeats(nodes, head, i, i + step, n - i);
    }
  }

  lemma {:induction false} Meets(nodes: set<Node>, head: Node?, i: nat, step: nat) returns (k: nat)
    requires Closed(nodes, head) && step > 0 && Walk(nodes, head, i) == Walk(nodes, head, i + step)
    ensures k > 0 && Walk(nodes, head, k) == Walk(nodes, head, 2 * k)
  {
    k := step * (i + 1);
    assert k >= i + 1 by { AtLeast(step, i + 1); }
    RepeatsMany(nodes, head, i, step, k, i + 1);
  }

  lemma {:induction false} AtLeast(step: nat, n: nat)
    requires step > 0
    ensures step * n >= n
  {
    assert step * n == n + (step - 1) * n;
  }

  /** After some number of steps the walk is over, or is where it is again after twice as many. */
  lemma {:induction false} Settles(nodes: set<Node>, head: Node?) returns (k: nat)
    requires Closed(nodes, head)
    ensures k > 0 && (Walk(nodes, head, k) == null || Walk(nodes, head, k) == Walk(nodes, head, 2 * k))
  {
    var n := |nodes| + 1;
    if Walk(nodes, head, n) == null {
      k := n;
    } else {
      if DistinctUpTo(nodes, head, n + 1) {
        AtMostAll(nodes, head, n + 1);
      }
      var i, j :| 0 <= i < j < n + 1 && Walk(nodes, head, i) == Walk(nodes, head, j);
      assert i + (j - i) == j;
      k := Meets(nodes, head, i, j - i);
    }
  }

  method HasLoop2(head: Node?, ghost nodes: set<Node>) returns (r: bool)
    requires Closed(nodes, head)
    ensures r <==> Loops(nodes, head)
  {
    var p, q := head, head;
    ghost var k: nat := 0;
    ghost var end := Settles(nodes, head);
    while p != null && q != null
      invariant p == Walk(nodes, head, k) && q == Walk(nodes, head, 2 * k) && k <= end
      invariant k == end ==> p == null
      decreases end - k
    {
      p := p.next;
      q := q.next;
      assert q == Walk(nodes, head, 2 * k + 1);
      if q != null {
        q := q.next;
      }
      k := k + 1;
      assert q == Walk(nodes, head, 2 * k);
      if p != null && p == q {
        TwiceLoops(nodes, head, k, 2 * k);
        return true;
      }
    }
    return false;
  }

  /** The two ways agree on every list. */
  method BothWays(head: Node?, ghost nodes: set<Node>) returns (r: bool, r2: bool)
    requires Closed(nodes, head)
    ensures r == r2
  {
    r := HasLoop(head, nodes);
    r2 := HasLoop2(head, nodes);
  }
}
