/**
 The Huffman builder: an array of trees with holes, in which each round merges the two
 trees of smallest weight.
 */
module Huffman {
  import opened HuffmanTrees

  /** An entry of the work array: a tree, or null. */
  datatype Slot = Null | Full(tree: Tree)

  /** The node field that holds a weight is a signed 8-bit `char`. */
  function Stored(x: int): int {
    (x + 128) % 256 - 128
  }

  // ----- Sums over the work array

  function Root(s: Slot): multiset<int> {
    if s.Null? then multiset{} else multiset{s.tree.data}
  }

  function SlotLeaves(s: Slot): multiset<int> {
    if s.Null? then multiset{} else multiset(Leaves(s.tree))
  }

  function SlotCost(s: Slot): int {
    if s.Null? then 0 else PathLength(s.tree, 0)
  }

  function SlotCount(s: Slot): nat {
    if s.Null? then 0 else 1
  }

  /** How many trees are left in the array. */
  function Count(b: seq<Slot>): nat {
    if b == [] then 0 else Count(b[..|b| - 1]) + SlotCount(b[|b| - 1])
  }

  /** The weights of the trees in the array. */
  function Roots(b: seq<Slot>): multiset<int> {
    if b == [] then multiset{} else Roots(b[..|b| - 1]) + Root(b[|b| - 1])
  }

  /** All leaves of all trees in the array. */
  function AllLeaves(b: seq<Slot>): multiset<int> {
    if b == [] then multiset{} else AllLeaves(b[..|b| - 1]) + SlotLeaves(b[|b| - 1])
  }

  /** The path lengths of all trees in the array together. */
  function Cost(b: seq<Slot>): int {
    if b == [] then 0 else Cost(b[..|b| - 1]) + SlotCost(b[|b| - 1])
  }

  /** Overwriting one slot changes each sum by the difference of the two slots. */
  lemma {:induction false} CountsOverwritten(b: seq<Slot>, k: nat, s: Slot, x: int)
    requires k < |b|
    ensures Roots(b[k := s])[x] + Root(b[k])[x] == Roots(b)[x] + Root(s)[x]
    ensures AllLeaves(b[k := s])[x] + SlotLeaves(b[k])[x] == AllLeaves(b)[x] + SlotLeaves(s)[x]
  {
    var n := |b| - 1;
    hide SlotLeaves, Root;
    if k == n {
      assert b[k := s][..n] == b[..n];
    } else {
      CountsOverwritten(b[..n], k, s, x);
      assert b[k := s][..n] == b[..n][k := s];
    }
  }

  lemma {:induction false} SumsOverwritten(b: seq<Slot>, k: nat, s: Slot)
    requires k < |b|
    ensures Count(b[k := s]) + SlotCount(b[k]) == Count(b) + SlotCount(s)
    ensures Cost(b[k := s]) + SlotCost(b[k]) == Cost(b) + SlotCost(s)
  {
    var n := |b| - 1;
    if k == n {
      assert b[k := s][..n] == b[..n];
    } else {
      SumsOverwritten(b[..n], k, s);
      assert b[k := s][..n] == b[..n][k := s];
    }
  }

  // ----- Choosing two trees

  /** The first occupied slot at or after `j`. */
  function FirstFull(b: seq<Slot>, j: nat): (k: nat)
    requires j <= |b|
    ensures j <= k <= |b| && (k < |b| ==> b[k].Full?)
    ensures forall i :: j <= i < k ==> b[i].Null?
    decreases |b| - j
  {
    if j == |b| || b[j].Full? then j else FirstFull(b, j + 1)
  }

  /** The scan that keeps the two smallest weights seen so far in `k1` and `k2`. */
  function Scan(b: seq<Slot>, j: nat, k1: nat, k2: nat): (nat, nat)
    requires j <= |b| && k1 < |b| && k2 < |b| && b[k1].Full? && b[k2].Full?
    decreases |b| - j
  {
    if j == |b| then (k1, k2)
    else if b[j].Full? && b[j].tree.data < b[k1].tree.data then Scan(b, j + 1, j, k1)
    else if b[j].Full? && b[j].tree.data < b[k2].tree.data then Scan(b, j + 1, k1, j)
    else Scan(b, j + 1, k1, k2)
  }

  /** `k1` and `k2` are two different slots before `j`, or `k2` is `j`, with the smallest weights seen. */
  ghost predicate Smallest(b: seq<Slot>, j: nat, k1: nat, k2: nat)
    requires j <= |b|
  {
    && k1 < |b| && k2 < |b| && k1 != k2 && b[k1].Full? && b[k2].Full?
    && b[k1].tree.data <= b[k2].tree.data
    && forall i :: 0 <= i < j && i != k1 && b[i].Full? ==> b[k2].tree.data <= b[i].tree.data
  }

  lemma {:induction false} ScanSmallest(b: seq<Slot>, j: nat, k1: nat, k2: nat)
    requires j <= |b| && k1 < j && k2 < j && Smallest(b, j, k1, k2)
    ensures var (m1, m2) := Scan(b, j, k1, k2); Smallest(b, |b|, m1, m2)
    decreases |b| - j
  {
    if j == |b| {
    } else if b[j].Full? && b[j].tree.data < b[k1].tree.data {
      ScanSmallest(b, j + 1, j, k1);
    } else if b[j].Full? && b[j].tree.data < b[k2].tree.data {
      ScanSmallest(b, j + 1, k1, j);
    } else {
      ScanSmallest(b, j + 1, k1, k2);
    }
  }

  lemma {:induction false} NoRoots(b: seq<Slot>)
    requires forall i :: 0 <= i < |b| ==> b[i].Null?
    ensures Roots(b) == AllLeaves(b) == multiset{} && Cost(b) == Count(b) == 0
  {
    if b != [] { NoRoots(b[..|b| - 1]); }
  }

  lemma {:induction false} OneRoot(b: seq<Slot>, k: nat)
    requires k < |b| && b[k].Full? && forall i :: 0 <= i < |b| && i != k ==> b[i].Null?
    ensures Roots(b) == Root(b[k]) && AllLeaves(b) == SlotLeaves(b[k]) && Cost(b) == SlotCost(b[k])
  {
    hide Roots, AllLeaves, Cost, SlotLeaves, Root;
    NoRoots(b[k := Null]);
    SumsOverwritten(b, k, Null);
    forall x ensures Roots(b)[x] == Root(b[k])[x] && AllLeaves(b)[x] == SlotLeaves(b[k])[x] {
      OneCount(b, k, x);
    }
  }

  lemma {:induction false} OneCount(b: seq<Slot>, k: nat, x: int)
    requires k < |b| && Roots(b[k := Null]) == AllLeaves(b[k := Null]) == multiset{}
    ensures Roots(b)[x] == Root(b[k])[x] && AllLeaves(b)[x] == SlotLeaves(b[k])[x]
  {
    CountsOverwritten(b, k, Null, x);
  }

  /** With at least two trees, the first two occupied slots exist. */
  lemma {:induction false} TwoFull(b: seq<Slot>)
    requires Count(b) >= 2
    ensures FirstFull(b, 0) < |b| && FirstFull(b, FirstFull(b, 0) + 1) < |b|
  {
    var k := FirstFull(b, 0);
    if k == |b| {
      NoRoots(b);
    } else if FirstFull(b, k + 1) == |b| {
      SumsOverwritten(b, k, Null);
      NoRoots(b[k := Null]);
    }
  }

  /** The two slots a round merges. */
  function Chosen(b: seq<Slot>): (nat, nat)
    requires Count(b) >= 2
  {
    TwoFull(b);
    var k1 := FirstFull(b, 0);
    var k2 := FirstFull(b, k1 + 1);
    Scan(b, k2, k1, k2)
  }

  /** A round chooses two different trees; no third tree is lighter than either of them. */
  lemma {:induction false} ChosenSmallest(b: seq<Slot>)
    requires Count(b) >= 2
    ensures Smallest(b, |b|, Chosen(b).0, Chosen(b).1)
  {
    TwoFull(b);
    var k1 := FirstFull(b, 0);
    var k2 := FirstFull(b, k1 + 1);
    if b[k2].tree.data < b[k1].tree.data {
      ScanSmallest(b, k2 + 1, k2, k1);
    } else {
      ScanSmallest(b, k2 + 1, k1, k2);
    }
  }

  // ----- Rounds

  function MergedTree(b: seq<Slot>): (m: Tree)
    requires Count(b) >= 2
    ensures m.Node?
  {
    ChosenSmallest(b);
    var (k1, k2) := Chosen(b);
    Node(Stored(b[k1].tree.data + b[k2].tree.data), b[k1].tree, b[k2].tree)
  }

  /** One round: the merged tree goes to the first chosen slot and the second becomes null. */
  function Round(b: seq<Slot>): (c: seq<Slot>)
    requires Count(b) >= 2
    ensures |c| == |b|
  {
    ChosenSmallest(b);
    b[Chosen(b).0 := Full(MergedTree(b))][Chosen(b).1 := Null]
  }

  function LeafSum(t: Tree): int {
    match t
    case Leaf(w) => w
    case Node(_, l, r) => LeafSum(l) + LeafSum(r)
  }

  lemma {:induction false} Deeper(t: Tree, d: nat)
    ensures PathLength(t, d + 1) == PathLength(t, d) + LeafSum(t)
  {
    if t.Node? {
      Deeper(t.left, d + 1);
      Deeper(t.right, d + 1);
    } else {
      assert (d + 1) * t.data == d * t.data + t.data;
    }
  }

  lemma {:induction false} RoundIs(b: seq<Slot>) returns (k1: nat, k2: nat)
    requires Count(b) >= 2
    ensures Smallest(b, |b|, k1, k2) && Chosen(b) == (k1, k2)
    ensures MergedTree(b) == Node(Stored(b[k1].tree.data + b[k2].tree.data), b[k1].tree, b[k2].tree)
    ensures Round(b) == b[k1 := Full(MergedTree(b))][k2 := Null]
  {
    ChosenSmallest(b);
    k1, k2 := Chosen(b).0, Chosen(b).1;
  }

  lemma {:induction false} RoundAt(b: seq<Slot>) returns (k1: nat, k2: nat)
    requires Count(b) >= 2
    ensures k1 < |b| && k2 < |b| && k1 != k2 && b[k1].Full? && b[k2].Full? && b[k1].tree.data <= b[k2].tree.data
    ensures MergedTree(b) == Node(Stored(b[k1].tree.data + b[k2].tree.data), b[k1].tree, b[k2].tree)
    ensures Round(b) == b[k1 := Full(MergedTree(b))][k2 := Null]
  {
    hide Round, MergedTree, Chosen, Count;
    k1, k2 := RoundIs(b);
  }

  lemma {:induction false} LeavesOfNode(m: Tree, x: int)
    requires m.Node?
    ensures multiset(Leaves(m))[x] == multiset(Leaves(m.left))[x] + multiset(Leaves(m.right))[x]
  {
  }

  /** A round replaces two weights by their stored sum and keeps all leaves. */
  lemma {:induction false} RoundCounts(b: seq<Slot>, x: int)
    requires Count(b) >= 2
    ensures var m := MergedTree(b);
      && Roots(Round(b))[x] + multiset{m.left.data, m.right.data}[x] == Roots(b)[x] + multiset{m.data}[x]
      && AllLeaves(Round(b))[x] == AllLeaves(b)[x]
  {
    hide Roots, AllLeaves, Chosen, MergedTree, Round, Count, Leaves, Smallest;
    var k1, k2 := RoundAt(b);
    var m := MergedTree(b);
    var c := b[k1 := Full(m)];
    CountsOverwritten(b, k1, Full(m), x);
    CountsOverwritten(c, k2, Null, x);
    LeavesOfNode(m, x);
  }

  lemma {:induction false} RoundRoots(b: seq<Slot>)
    requires Count(b) >= 2
    ensures var m := MergedTree(b);
      && Roots(Round(b)) + multiset{m.left.data, m.right.data} == Roots(b) + multiset{m.data}
      && AllLeaves(Round(b)) == AllLeaves(b)
  {
    hide Roots, AllLeaves, Chosen, Round, MergedTree;
    forall x { RoundCounts(b, x); }
  }

  lemma {:induction false} RoundCount(b: seq<Slot>)
    requires Count(b) >= 2
    ensures Count(Round(b)) == Count(b) - 1
  {
    ChosenSmallest(b);
    var (k1, k2) := Chosen(b);
    SumsOverwritten(b, k1, Full(MergedTree(b)));
    SumsOverwritten(b[k1 := Full(MergedTree(b))], k2, Null);
  }

  /** The array after `n` rounds. */
  function Rounds(b: seq<Slot>, n: nat): (c: seq<Slot>)
    requires Count(b) > n
    ensures Count(c) == Count(b) - n && |c| == |b|
  {
    if n == 0 then b
    else
      var c := Rounds(b, n - 1);
      RoundCount(c);
      Round(c)
  }

  lemma {:induction false} RoundFirst(b: seq<Slot>, n: nat)
    requires Count(b) > n > 0
    ensures Count(Round(b)) > n - 1
    ensures Rounds(b, n) == Rounds(Round(b), n - 1)
  {
    RoundCount(b);
    if n > 1 {
      RoundFirst(b, n - 1);
    } else {
      assert Rounds(b, 1) == Round(Rounds(b, 0));
    }
  }

  lemma {:induction false} NodeSums(m: Tree)
    requires m.Node?
    ensures LeafSum(m) == LeafSum(m.left) + LeafSum(m.right)
    ensures PathLength(m, 0) == PathLength(m.left, 1) + PathLength(m.right, 1)
  {
  }

  lemma {:induction false} CountRoots(b: seq<Slot>)
    ensures |Roots(b)| == Count(b)
  {
    if b != [] { CountRoots(b[..|b| - 1]); }
  }

  lemma {:induction false} SingleLeaf(t: Tree)
    requires |multiset(Leaves(t))| == 1
    ensures t.Leaf? && PathLength(t, 0) == 0
  {
    assert |multiset(Leaves(t))| == |Leaves(t)|;
    if t.Node? {
      SameLength(t.left, 0);
      SameLength(t.right, 0);
    }
  }

  /** The weights a round leaves alone are at least as large as the two it merges. */
  lemma {:induction false} RestHeavier(b: seq<Slot>) returns (rest: multiset<int>)
    requires Count(b) >= 2
    ensures var m := MergedTree(b);
      && Roots(b) == rest + multiset{m.left.data, m.right.data}
      && Roots(Round(b)) == rest + multiset{m.data}
      && forall x :: x in rest ==> m.right.data <= x
  {
    var m := MergedTree(b);
    rest := RestRoots(b);
    RoundRoots(b);
    hide Roots, Round, MergedTree;
    Cancel(Roots(Round(b)), rest + multiset{m.data}, multiset{m.left.data, m.right.data});
  }

  lemma {:induction false} RestRoots(b: seq<Slot>) returns (rest: multiset<int>)
    requires Count(b) >= 2
    ensures var m := MergedTree(b);
      && Roots(b) == rest + multiset{m.left.data, m.right.data}
      && forall x :: x in rest ==> m.right.data <= x
  {
    hide Roots, Chosen, MergedTree, Round, Count;
    var k1, k2 := RoundIs(b);
    var m := MergedTree(b);
    var c := b[k1 := Null][k2 := Null];
    rest := Roots(c);
    TakenRoots(b, k1, k2);
    forall x | x in rest ensures m.right.data <= x {
      var i := RootIndex(c, x);
    }
  }

  lemma {:induction false} TakenRoots(b: seq<Slot>, k1: nat, k2: nat)
    requires k1 < |b| && k2 < |b| && k1 != k2 && b[k1].Full? && b[k2].Full?
    ensures Roots(b) == Roots(b[k1 := Null][k2 := Null]) + multiset{b[k1].tree.data, b[k2].tree.data}
  {
    hide Roots;
    var rest, two := Roots(b[k1 := Null][k2 := Null]), multiset{b[k1].tree.data, b[k2].tree.data};
    forall x ensures Roots(b)[x] == rest[x] + two[x] {
      CountsOverwritten(b, k1, Null, x);
      CountsOverwritten(b[k1 := Null], k2, Null, x);
    }
  }

  lemma {:induction false} RootIndex(b: seq<Slot>, x: int) returns (i: nat)
    requires x in Roots(b)
    ensures i < |b| && b[i].Full? && b[i].tree.data == x
  {
    var n := |b| - 1;
    if x in Roots(b[..n]) {
      i := RootIndex(b[..n], x);
    } else {
      i := n;
    }
  }

  // ----- The builder

  function StoredAll(a: seq<int>): seq<int> {
    seq(|a|, i requires 0 <= i < |a| => Stored(a[i]))
  }

  function Initial(a: seq<int>): seq<Slot> {
    seq(|a|, i requires 0 <= i < |a| => Full(Leaf(Stored(a[i]))))
  }

  lemma {:induction false} InitialViews(a: seq<int>)
    ensures Count(Initial(a)) == |a| && Cost(Initial(a)) == 0
    ensures Roots(Initial(a)) == AllLeaves(Initial(a)) == multiset(StoredAll(a))
  {
    if a != [] {
      hide Initial, StoredAll, Stored;
      var n := |a| - 1;
      InitialViews(a[..n]);
      InitialLast(a);
    } else {
      assert Initial(a) == [] && StoredAll(a) == [];
    }
  }

  lemma {:induction false} InitialLast(a: seq<int>)
    requires |a| > 0
    ensures var n, w := |a| - 1, Stored(a[|a| - 1]);
      && |Initial(a)| == |a| && Initial(a)[..n] == Initial(a[..n]) && Initial(a)[n] == Full(Leaf(w))
      && StoredAll(a) == StoredAll(a[..n]) + [w]
      && Leaves(Leaf(w)) == [w] && PathLength(Leaf(w), 0) == 0
  {
    hide Stored;
  }

  /** The tree that the last round makes. */
  function Built(a: seq<int>): Tree
    requires |a| >= 2
  {
    InitialViews(a);
    MergedTree(Rounds(Initial(a), |a| - 2))
  }

  lemma {:induction false} OnlyOne(b: seq<Slot>, k: nat)
    requires k < |b| && b[k].Full? && Count(b) == 1
    ensures forall i :: 0 <= i < |b| && i != k ==> b[i].Null?
  {
    SumsOverwritten(b, k, Null);
    forall i | 0 <= i < |b| && i != k ensures b[i].Null? {
      if b[i].Full? { SumsOverwritten(b[k := Null], i, Null); }
    }
  }

  lemma {:induction false} RoundsLeaves(b: seq<Slot>, n: nat)
    requires Count(b) > n
    ensures AllLeaves(Rounds(b, n)) == AllLeaves(b)
  {
    hide Roots, AllLeaves, Round, MergedTree, Count;
    if n > 0 {
      RoundsLeaves(b, n - 1);
      RoundRoots(Rounds(b, n - 1));
    }
  }

  /** After the last round the built tree is alone in the array. */
  lemma {:induction false} BuiltAlone(a: seq<int>)
    requires |a| >= 2
    ensures Count(Initial(a)) == |a|
    ensures var b := Rounds(Initial(a), |a| - 1);
      Cost(b) == PathLength(Built(a), 0) && AllLeaves(b) == multiset(Leaves(Built(a)))
  {
    InitialViews(a);
    var c := Rounds(Initial(a), |a| - 2);
    ChosenSmallest(c);
    var b := Rounds(Initial(a), |a| - 1);
    var k := Chosen(c).0;
    assert b == Round(c) && b[k] == Full(Built(a));
    OnlyOne(b, k);
    OneRoot(b, k);
  }

  /** The leaves of the built tree are the stored weights, whatever they are. */
  lemma {:induction false} BuiltLeaves(a: seq<int>)
    requires |a| >= 2
    ensures multiset(Leaves(Built(a))) == multiset(StoredAll(a))
  {
    BuiltAlone(a);
    InitialViews(a);
    RoundsLeaves(Initial(a), |a| - 1);
  }

  // ----- The weight at the root

  function SlotWeight(s: Slot): int {
    if s.Null? then 0 else s.tree.data
  }

  /** The weights of the trees in the array together. */
  function Total(b: seq<Slot>): int {
    if b == [] then 0 else Total(b[..|b| - 1]) + SlotWeight(b[|b| - 1])
  }

  function SumAll(a: seq<int>): int {
    if a == [] then 0 else SumAll(a[..|a| - 1]) + a[|a| - 1]
  }

  lemma {:induction false} TotalOverwritten(b: seq<Slot>, k: nat, s: Slot)
    requires k < |b|
    ensures Total(b[k := s]) + SlotWeight(b[k]) == Total(b) + SlotWeight(s)
  {
    var n := |b| - 1;
    if k == n {
      assert b[k := s][..n] == b[..n];
    } else {
      TotalOverwritten(b[..n], k, s);
      assert b[k := s][..n] == b[..n][k := s];
    }
  }

  /** Storing part of a sum earlier does not change what is stored in the end. */
  lemma {:induction false} StoredEarlier(x: int, y: int)
    ensures Stored(x + Stored(y)) == Stored(x + y)
  {
    assert (y + 128) % 256 == y + 128 - 256 * ((y + 128) / 256);
  }

  lemma {:induction false} RoundTotal(b: seq<Slot>)
    requires Count(b) >= 2
    ensures Stored(Total(Round(b))) == Stored(Total(b))
  {
    hide Total, Chosen, MergedTree, Round, Count, Stored;
    var k1, k2 := RoundAt(b);
    var m := MergedTree(b);
    TotalOverwritten(b, k1, Full(m));
    TotalOverwritten(b[k1 := Full(m)], k2, Null);
    StoredEarlier(Total(b) - m.left.data - m.right.data, m.left.data + m.right.data);
  }

  lemma {:induction false} RoundsTotal(b: seq<Slot>, n: nat)
    requires Count(b) > n
    ensures Stored(Total(Rounds(b, n))) == Stored(Total(b))
  {
    hide Total, Round, Count, Stored;
    if n > 0 {
      RoundsTotal(b, n - 1);
      RoundTotal(Rounds(b, n - 1));
    }
  }

  lemma {:induction false} InitialTotal(a: seq<int>)
    ensures Stored(Total(Initial(a))) == Stored(SumAll(a))
  {
    if a != [] {
      hide Stored;
      var n := |a| - 1;
      InitialTotal(a[..n]);
      assert Initial(a)[..n] == Initial(a[..n]);
      StoredEarlier(Total(Initial(a[..n])), a[n]);
      StoredEarlier(a[n], Total(Initial(a[..n])));
      StoredEarlier(a[n], SumAll(a[..n]));
    }
  }

  lemma {:induction false} NoTotal(b: seq<Slot>)
    requires forall i :: 0 <= i < |b| ==> b[i].Null?
    ensures Total(b) == 0
  {
    if b != [] { NoTotal(b[..|b| - 1]); }
  }

  /** Whatever the weights, the root holds what a `char` keeps of their sum. */
  lemma {:induction false} BuiltWeight(a: seq<int>)
    requires |a| >= 2
    ensures Built(a).data == Stored(SumAll(a))
    ensures Built(a).data == SumAll(a) <==> -128 <= SumAll(a) <= 127
  {
    hide Total, Count, Chosen, Initial;
    InitialViews(a);
    InitialTotal(a);
    RoundsTotal(Initial(a), |a| - 1);
    var c := Rounds(Initial(a), |a| - 2);
    var k1, k2 := RoundAt(c);
    var b := Rounds(Initial(a), |a| - 1);
    OnlyOne(b, k1);
    TotalOverwritten(b, k1, Null);
    NoTotal(b[k1 := Null]);
  }

  /** The two loops of a round that choose what to merge. */
  method Choose(b: array<Slot>) returns (k1: nat, k2: nat)
    requires Count(b[..]) >= 2
    ensures (k1, k2) == Chosen(b[..])
    ensures k1 < b.Length && k2 < b.Length && k1 != k2 && b[k1].Full? && b[k2].Full?
  {
    hide Count, Chosen, Smallest;
    ghost var s := b[..];
    TwoFull(s);
    var first, second, j := -1, -1, 0;
    while j < b.Length
      invariant 0 <= j <= b.Length && second == -1
      invariant if first == -1 then FirstFull(s, j) == FirstFull(s, 0)
                else first == FirstFull(s, 0) && first < j && FirstFull(s, j) == FirstFull(s, first + 1)
    {
      if b[j].Full? && first == -1 {
        first, j := j, j + 1;
        continue;
      }
      if b[j].Full? {
        second := j;
        break;
      }
      j := j + 1;
    }
    k1, k2 := first, second;
    ChosenIs(s);
    j := k2;
    while j < b.Length
      invariant 0 <= j <= b.Length && k1 < b.Length && k2 < b.Length && b[k1].Full? && b[k2].Full?
      invariant Scan(s, j, k1, k2) == Chosen(s)
    {
      if b[j].Full? {
        if b[j].tree.data < b[k1].tree.data {
          k2 := k1;
          k1 := j;
        } else if b[j].tree.data < b[k2].tree.data {
          k2 := j;
        }
      }
      j := j + 1;
    }
  }

  lemma {:induction false} ChosenIs(b: seq<Slot>)
    requires Count(b) >= 2
    ensures FirstFull(b, 0) < |b| && FirstFull(b, FirstFull(b, 0) + 1) < |b|
    ensures var k1 := FirstFull(b, 0);
      var k2 := FirstFull(b, k1 + 1);
      Chosen(b) == Scan(b, k2, k1, k2)
    ensures var (k1, k2) := Chosen(b); k1 < |b| && k2 < |b| && k1 != k2 && b[k1].Full? && b[k2].Full?
  {
    hide Count;
    TwoFull(b);
    ChosenSmallest(b);
  }

  /** One turn of the outer loop. */
  method MergeRound(b: array<Slot>) returns (q: Tree)
    requires Count(b[..]) >= 2
    modifies b
    ensures q == MergedTree(old(b[..])) && b[..] == Round(old(b[..]))
  {
    var k1, k2 := Choose(b);
    hide Count, Chosen;
    q := Node(Stored(b[k1].tree.data + b[k2].tree.data), b[k1].tree, b[k2].tree);
    b[k1] := Full(q);
    b[k2] := Null;
  }

  method MakeLeaves(a: seq<int>) returns (b: array<Slot>)
    ensures fresh(b) && b[..] == Initial(a)
  {
    b := new Slot[|a|];
    for i := 0 to |a|
      invariant forall j :: 0 <= j < i ==> b[j] == Full(Leaf(Stored(a[j])))
    {
      b[i] := Full(Leaf(Stored(a[i])));
    }
  }

  /** The builder. For fewer than two weights nothing is merged, and what is returned was never assigned. */
  method CreateHuffman(a: seq<int>) returns (q: Tree)
    ensures |a| >= 2 ==> q == Built(a)
  {
    var n := |a|;
    var b := MakeLeaves(a);
    ghost var start := b[..];
    InitialViews(a);
    hide Count, Round, MergedTree, Initial, Roots, AllLeaves, Cost;
    q := Leaf(0);
    var i := 1;
    while i < n
      invariant 1 <= i && (i <= n || n == 0)
      invariant n >= 1 ==> b[..] == Rounds(start, i - 1)
      invariant i > 1 ==> n >= i && q == MergedTree(Rounds(start, i - 2))
    {
      q := MergeRound(b);
      i := i + 1;
    }
  }
}
