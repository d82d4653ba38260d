/**
 When the built tree is optimal. Merging may overflow the `char` that holds a weight; what decides is
 whether a merge overflows while at least four trees are left.
 */
module HuffmanOptimal {
  import opened HuffmanTrees
  import opened Huffman

  // ----- Sorted weights

  function Inserted(v: seq<int>, s: int): (r: seq<int>)
    ensures |r| == |v| + 1
  {
    if v == [] || s <= v[0] then [s] + v else [v[0]] + Inserted(v[1..], s)
  }

  function SortedOf(a: seq<int>): (r: seq<int>)
    ensures |r| == |a|
  {
    if a == [] then [] else Inserted(SortedOf(a[1..]), a[0])
  }

  ghost predicate Ascending(v: seq<int>) {
    forall i, j :: 0 <= i < j < |v| ==> v[i] <= v[j]
  }

  lemma {:induction false} InsertedSame(v: seq<int>, s: int)
    ensures multiset(Inserted(v, s)) == multiset(v) + multiset{s}
  {
    if v != [] && s > v[0] {
      InsertedSame(v[1..], s);
      assert v == [v[0]] + v[1..];
    }
  }

  lemma {:induction false} InsertedAscending(v: seq<int>, s: int)
    requires Ascending(v)
    ensures Ascending(Inserted(v, s)) && Inserted(v, s)[0] == if v == [] || s <= v[0] then s else v[0]
  {
    if v != [] && s > v[0] {
      InsertedAscending(v[1..], s);
      var r := Inserted(v[1..], s);
      forall j | 0 <= j < |r| ensures v[0] <= r[j] {
        assert v[0] <= r[0] <= r[j];
      }
    }
  }

  lemma {:induction false} SortedViews(a: seq<int>)
    ensures Ascending(SortedOf(a)) && multiset(SortedOf(a)) == multiset(a)
  {
    if a != [] {
      SortedViews(a[1..]);
      InsertedSame(SortedOf(a[1..]), a[0]);
      InsertedAscending(SortedOf(a[1..]), a[0]);
      assert a == [a[0]] + a[1..];
    }
  }

  /** The least weight comes first. */
  lemma {:induction false} LeastFirst(v: seq<int>, rest: multiset<int>, l: int)
    requires Ascending(v) && multiset(v) == rest + multiset{l} && forall x :: x in rest ==> l <= x
    ensures |v| > 0 && v[0] == l && multiset(v[1..]) == rest && Ascending(v[1..])
  {
    assert l in multiset(v);
    assert v == [v[0]] + v[1..];
    assert v[0] in multiset(v);
    Cancel(multiset(v[1..]), rest, multiset{l});
  }

  lemma {:induction false} LeastTwo(v: seq<int>, rest: multiset<int>, l: int, r: int)
    requires Ascending(v) && multiset(v) == rest + multiset{l, r} && l <= r && forall x :: x in rest ==> r <= x
    ensures |v| >= 2 && v[0] == l && v[1] == r && multiset(v[2..]) == rest && Ascending(v[2..])
  {
    LeastFirst(v, rest + multiset{r}, l);
    LeastFirst(v[1..], rest, r);
    assert v[1..][1..] == v[2..];
  }

  // ----- The condition

  /** Merging the two least of the sorted weights again and again, no sum overflows while four or more are left. */
  predicate FitsRounds(ws: seq<int>)
    decreases |ws|
  {
    |ws| < 4 || (-128 <= ws[0] + ws[1] <= 127 && FitsRounds(Inserted(ws[2..], ws[0] + ws[1])))
  }

  /** Every weight fits a `char`, and so do the sums of all merges before the last two. */
  predicate Fits(a: seq<int>) {
    (forall i :: 0 <= i < |a| ==> -128 <= a[i] <= 127) && FitsRounds(SortedOf(a))
  }

  /** No tree with the weights `a` at its leaves has a smaller weighted path length than `t`. */
  ghost predicate Optimal(t: Tree, a: seq<int>) {
    && multiset(Leaves(t)) == multiset(a)
    && forall s :: multiset(Leaves(s)) == multiset(a) ==> PathLength(t, 0) <= PathLength(s, 0)
  }

  // ----- What a round costs

  /** Every tree's stored weight is the sum of its leaves. */
  ghost predicate Weighed(b: seq<Slot>) {
    forall i :: 0 <= i < |b| && b[i].Full? ==> b[i].tree.data == LeafSum(b[i].tree)
  }

  /** A round adds the weights of all leaves it moves down, whatever is stored. */
  lemma {:induction false} RoundCost(b: seq<Slot>)
    requires Count(b) >= 2
    ensures Cost(Round(b)) == Cost(b) + LeafSum(MergedTree(b))
  {
    hide Chosen, MergedTree, Round, Count, Cost, LeafSum, PathLength;
    var k1, k2 := RoundAt(b);
    var m := MergedTree(b);
    NodeSums(m);
    SumsOverwritten(b, k1, Full(m));
    SumsOverwritten(b[k1 := Full(m)], k2, Null);
    Deeper(m.left, 0);
    Deeper(m.right, 0);
  }

  lemma {:induction false} RoundWeighed(b: seq<Slot>)
    requires Count(b) >= 2 && Weighed(b)
    ensures var m := MergedTree(b);
      && m.left.data <= m.right.data && LeafSum(m) == m.left.data + m.right.data
      && m.data == Stored(LeafSum(m)) && (m.data == LeafSum(m) ==> Weighed(Round(b)))
  {
    hide Chosen, MergedTree, Round, Count, LeafSum;
    var k1, k2 := RoundAt(b);
    NodeSums(MergedTree(b));
  }

  // ----- Few trees: what is stored no longer matters

  function SlotLeafSum(s: Slot): int {
    if s.Null? then 0 else LeafSum(s.tree)
  }

  /** The sum of all leaves of all trees in the array. */
  function LeafTotal(b: seq<Slot>): int {
    if b == [] then 0 else LeafTotal(b[..|b| - 1]) + SlotLeafSum(b[|b| - 1])
  }

  lemma {:induction false} LeafTotalOverwritten(b: seq<Slot>, k: nat, s: Slot)
    requires k < |b|
    ensures LeafTotal(b[k := s]) + SlotLeafSum(b[k]) == LeafTotal(b) + SlotLeafSum(s)
  {
    hide SlotLeafSum;
    var n := |b| - 1;
    if k == n {
      assert b[k := s][..n] == b[..n];
    } else {
      LeafTotalOverwritten(b[..n], k, s);
      assert b[k := s][..n] == b[..n][k := s];
    }
  }

  lemma {:induction false} LeafTotalOne(b: seq<Slot>, k: nat)
    requires k < |b| && forall i :: 0 <= i < |b| && i != k ==> b[i].Null?
    ensures LeafTotal(b) == SlotLeafSum(b[k])
  {
    hide SlotLeafSum;
    var n := |b| - 1;
    if k == n {
      LeafTotalNone(b[..n]);
    } else {
      LeafTotalOne(b[..n], k);
      assert SlotLeafSum(b[n]) == 0 by { LeafTotalNone([b[n]]); assert [b[n]][..0] == []; }
    }
  }

  lemma {:induction false} LeafTotalNone(b: seq<Slot>)
    requires forall i :: 0 <= i < |b| ==> b[i].Null?
    ensures LeafTotal(b) == 0
  {
    if b != [] { LeafTotalNone(b[..|b| - 1]); }
  }

  lemma {:induction false} RoundLeafTotal(b: seq<Slot>)
    requires Count(b) >= 2
    ensures LeafTotal(Round(b)) == LeafTotal(b)
  {
    hide Chosen, MergedTree, Round, Count, LeafTotal, LeafSum;
    var k1, k2 := RoundAt(b);
    var m := MergedTree(b);
    NodeSums(m);
    LeafTotalOverwritten(b, k1, Full(m));
    LeafTotalOverwritten(b[k1 := Full(m)], k2, Null);
  }

  /** The last round adds the sum of all leaves. */
  lemma {:induction false} LastRound(b: seq<Slot>)
    requires Count(b) == 2
    ensures Cost(Round(b)) == Cost(b) + LeafTotal(b)
  {
    hide Chosen, MergedTree, Round, Count, Cost, LeafTotal, LeafSum;
    RoundCost(b);
    RoundCount(b);
    RoundLeafTotal(b);
    var k1, k2 := RoundAt(b);
    OnlyOne(Round(b), k1);
    LeafTotalOne(Round(b), k1);
  }

  lemma {:induction false} ThreeTotal(b: seq<Slot>, z: int)
    requires Count(b) == 3 && Weighed(b)
    requires var m := MergedTree(b); Roots(b) == multiset{z} + multiset{m.left.data, m.right.data}
    ensures LeafTotal(b) == LeafSum(MergedTree(b)) + z
  {
    hide Chosen, Round, MergedTree, Count, LeafTotal, LeafSum, Roots;
    var k1, k2 := RoundAt(b);
    var c := b[k1 := Null][k2 := Null];
    TakenRoots(b, k1, k2);
    NodeSums(MergedTree(b));
    Cancel(Roots(c), multiset{z}, multiset{b[k1].tree.data, b[k2].tree.data});
    assert z in Roots(c);
    var k := RootIndex(c, z);
    SumsOverwritten(b, k1, Null);
    SumsOverwritten(b[k1 := Null], k2, Null);
    OnlyOne(c, k);
    LeafTotalOne(c, k);
    LeafTotalOverwritten(b, k1, Null);
    LeafTotalOverwritten(b[k1 := Null], k2, Null);
  }

  // ----- If the sums fit, the tree is optimal

  /** With three trees left, the two rounds that remain are as good as any. */
  lemma {:induction false} LastTwo(b: seq<Slot>, t: Tree)
    requires Weighed(b) && Count(b) == 3 && multiset(Leaves(t)) == Roots(b)
    ensures Count(Round(b)) == 2 && Cost(Round(Round(b))) - Cost(b) <= PathLength(t, 0)
  {
    hide Weighed, Roots, Round, MergedTree, Leaves, Cost, PathLength, Count, LeafSum, LeafTotal;
    RoundCount(b);
    RoundCost(b);
    RoundWeighed(b);
    RoundLeafTotal(b);
    LastRound(Round(b));
    var m := MergedTree(b);
    var rest := RestHeavier(b);
    CountRoots(b);
    var z := TheOne(rest);
    ThreeTotal(b, z);
    var s := MergeTwoSmallest(t, m.left.data, m.right.data, rest);
    PairLength(s, LeafSum(m), z);
  }

  lemma {:induction false} TheOne(s: multiset<int>) returns (z: int)
    requires |s| == 1
    ensures s == multiset{z}
  {
    assert (forall x :: x !in s) ==> s == multiset{};
    z :| z in s;
    assert |s - multiset{z}| == 0;
    assert s == (s - multiset{z}) + multiset{z};
  }

  lemma {:induction false} PairLength(s: Tree, x: int, y: int)
    requires multiset(Leaves(s)) == multiset{y} + multiset{x}
    ensures PathLength(s, 0) >= x + y
  {
    hide Leaves, PathLength;
    var l, r := if x <= y then x else y, if x <= y then y else x;
    var u := MergeTwoSmallest(s, l, r, multiset{});
    SingleLeaf(u);
  }

  /** A round merges the two least of the sorted weights. */
  lemma {:induction false} SortedStep(b: seq<Slot>, ws: seq<int>) returns (rest: multiset<int>)
    requires Weighed(b) && Count(b) >= 2 && Ascending(ws) && multiset(ws) == Roots(b)
    ensures |ws| == Count(b) == |rest| + 2 && Count(Round(b)) == Count(b) - 1
    ensures var m := MergedTree(b);
      && LeafSum(m) == m.left.data + m.right.data == ws[0] + ws[1] && m.data == Stored(LeafSum(m))
      && Roots(b) == rest + multiset{m.left.data, m.right.data} && Roots(Round(b)) == rest + multiset{m.data}
      && m.left.data <= m.right.data && (forall x :: x in rest ==> m.right.data <= x)
      && (m.data == LeafSum(m) ==> Weighed(Round(b)))
    ensures var vs := Inserted(ws[2..], ws[0] + ws[1]);
      Ascending(vs) && multiset(vs) == rest + multiset{LeafSum(MergedTree(b))}
  {
    hide Weighed, Roots, Round, MergedTree, Count, LeafSum, Ascending, Inserted;
    CountRoots(b);
    RoundCount(b);
    RoundWeighed(b);
    var m := MergedTree(b);
    rest := RestHeavier(b);
    LeastTwo(ws, rest, m.left.data, m.right.data);
    InsertedSame(ws[2..], LeafSum(m));
    InsertedAscending(ws[2..], LeafSum(m));
  }

  /** What remains to be checked after a merge. */
  lemma {:induction false} FitsNext(ws: seq<int>)
    requires |ws| >= 4
    ensures FitsRounds(ws) <==>
              -128 <= ws[0] + ws[1] <= 127 && FitsRounds(Inserted(ws[2..], ws[0] + ws[1]))
    ensures FitsRounds(ws) ==> Stored(ws[0] + ws[1]) == ws[0] + ws[1]
  {
    hide Inserted;
  }

  /** The rounds add no more to the cost than any tree over the same weights would. */
  lemma {:induction false} RoundsOptimal(b: seq<Slot>, n: nat, ws: seq<int>, t: Tree)
    requires Weighed(b) && Count(b) == n + 1 && multiset(Leaves(t)) == Roots(b)
    requires Ascending(ws) && multiset(ws) == Roots(b) && FitsRounds(ws)
    ensures Cost(Rounds(b, n)) - Cost(b) <= PathLength(t, 0)
    decreases n
  {
    hide Weighed, Roots, Round, Rounds, MergedTree, Leaves, Cost, PathLength, Count, LeafSum;
    hide Ascending, FitsRounds, Inserted, Stored;
    if n == 0 {
      CountRoots(b);
      SingleLeaf(t);
      NoRounds(b);
    } else if n == 2 {
      LastTwo(b, t);
      TwoRounds(b);
    } else {
      var rest := SortedStep(b, ws);
      var m := MergedTree(b);
      RoundFirst(b, n);
      RoundCost(b);
      var s := MergeTwoSmallest(t, m.left.data, m.right.data, rest);
      if n == 1 {
        SingleLeaf(s);
        NoRounds(Round(b));
      } else {
        FitsNext(ws);
        RoundsOptimal(Round(b), n - 1, Inserted(ws[2..], ws[0] + ws[1]), s);
      }
    }
  }

  lemma {:induction false} NoRounds(b: seq<Slot>)
    requires Count(b) > 0
    ensures Rounds(b, 0) == b
  {
  }

  lemma {:induction false} TwoRounds(b: seq<Slot>)
    requires Count(b) == 3
    ensures Count(Round(b)) == 2 && Rounds(b, 2) == Round(Round(b))
  {
    hide Round, Count;
    RoundCount(b);
    assert Rounds(b, 1) == Round(Rounds(b, 0));
  }

  /** Weights in the range of a `char` are stored as they are. */
  lemma {:induction false} StoredAsIs(a: seq<int>)
    requires forall i :: 0 <= i < |a| ==> -128 <= a[i] <= 127
    ensures StoredAll(a) == a && Weighed(Initial(a))
  {
  }

  lemma {:induction false} BuiltOptimal(a: seq<int>)
    requires |a| >= 2 && Fits(a)
    ensures Optimal(Built(a), a)
  {
    hide Roots, AllLeaves, Count, Cost, Leaves, PathLength, Rounds, Built, Weighed, SortedOf, FitsRounds;
    InitialViews(a);
    StoredAsIs(a);
    BuiltLeaves(a);
    BuiltAlone(a);
    SortedViews(a);
    forall t | multiset(Leaves(t)) == multiset(a) ensures PathLength(Built(a), 0) <= PathLength(t, 0) {
      RoundsOptimal(Initial(a), |a| - 1, SortedOf(a), t);
    }
  }

  // ----- Trees that the rounds cannot tell apart

  ghost predicate Alike(b: seq<Slot>, c: seq<Slot>) {
    && |b| == |c|
    && forall i :: 0 <= i < |b| ==>
         && (b[i].Null? <==> c[i].Null?)
         && (b[i].Full? ==> b[i].tree.data == c[i].tree.data && LeafSum(b[i].tree) == LeafSum(c[i].tree))
  }

  lemma {:induction false} AlikeCount(b: seq<Slot>, c: seq<Slot>)
    requires Alike(b, c)
    ensures Count(b) == Count(c)
  {
    hide LeafSum;
    if b != [] { AlikeCount(b[..|b| - 1], c[..|c| - 1]); }
  }

  lemma {:induction false} AlikeFirst(b: seq<Slot>, c: seq<Slot>, j: nat)
    requires Alike(b, c) && j <= |b|
    ensures FirstFull(b, j) == FirstFull(c, j)
  {
    hide LeafSum;
  }

  lemma {:induction false} AlikeScan(b: seq<Slot>, c: seq<Slot>, j: nat, k1: nat, k2: nat)
    requires Alike(b, c) && j <= |b| && k1 < |b| && k2 < |b| && b[k1].Full? && b[k2].Full?
    ensures Scan(b, j, k1, k2) == Scan(c, j, k1, k2)
    decreases |b| - j
  {
    hide LeafSum;
    if j < |b| {
      if b[j].Full? && b[j].tree.data < b[k1].tree.data {
        AlikeScan(b, c, j + 1, j, k1);
      } else if b[j].Full? && b[j].tree.data < b[k2].tree.data {
        AlikeScan(b, c, j + 1, k1, j);
      } else {
        AlikeScan(b, c, j + 1, k1, k2);
      }
    }
  }

  lemma {:induction false} AlikeChosen(b: seq<Slot>, c: seq<Slot>)
    requires Alike(b, c) && Count(b) >= 2
    ensures Count(c) >= 2 && Chosen(b) == Chosen(c)
  {
    hide Alike, Chosen, Scan, Count;
    AlikeCount(b, c);
    ChosenIs(b);
    ChosenIs(c);
    AlikeFirst(b, c, 0);
    AlikeFirst(b, c, FirstFull(b, 0) + 1);
    assert |b| == |c| by { AlikeLength(b, c); }
    AlikeScan(b, c, FirstFull(b, FirstFull(b, 0) + 1), FirstFull(b, 0), FirstFull(b, FirstFull(b, 0) + 1));
  }

  lemma {:induction false} AlikeLength(b: seq<Slot>, c: seq<Slot>)
    requires Alike(b, c)
    ensures |b| == |c|
  {
  }

  /** A round treats them alike, and adds the same to the cost. */
  lemma {:induction false} AlikeRound(b: seq<Slot>, c: seq<Slot>)
    requires Alike(b, c) && Count(b) >= 2
    ensures Count(c) >= 2 && Alike(Round(b), Round(c)) && Cost(Round(b)) - Cost(b) == Cost(Round(c)) - Cost(c)
  {
    hide Chosen, MergedTree, Round, Count, Cost, LeafSum, Smallest;
    AlikeChosen(b, c);
    RoundCost(b);
    RoundCost(c);
    var k1, k2 := RoundIs(b);
    var j1, j2 := RoundIs(c);
    SmallestBounds(b, k1, k2);
    SmallestBounds(c, k1, k2);
    NodeSums(MergedTree(b));
    NodeSums(MergedTree(c));
  }

  lemma {:induction false} SmallestBounds(b: seq<Slot>, k1: nat, k2: nat)
    requires Smallest(b, |b|, k1, k2)
    ensures k1 < |b| && k2 < |b| && k1 != k2 && b[k1].Full? && b[k2].Full?
  {
  }

  lemma {:induction false} AlikeRounds(b: seq<Slot>, c: seq<Slot>, n: nat)
    requires Alike(b, c) && Count(b) > n
    ensures Count(c) > n && Alike(Rounds(b, n), Rounds(c, n))
    ensures Cost(Rounds(b, n)) - Cost(b) == Cost(Rounds(c, n)) - Cost(c)
  {
    hide Alike, Round, Count, Cost;
    AlikeCount(b, c);
    if n > 0 {
      AlikeRounds(b, c, n - 1);
      AlikeRound(Rounds(b, n - 1), Rounds(c, n - 1));
    }
  }

  // ----- If a sum overflows early, there is a better tree

  /** A tree that is lighter than every other is chosen first. */
  lemma {:induction false} LightestFirst(b: seq<Slot>, k: nat) returns (j: nat)
    requires Count(b) >= 2 && k < |b| && b[k].Full?
    requires forall i :: 0 <= i < |b| && i != k && b[i].Full? ==> b[k].tree.data < b[i].tree.data
    ensures j < |b| && j != k && b[j].Full?
    ensures forall i :: 0 <= i < |b| && i != k && b[i].Full? ==> b[j].tree.data <= b[i].tree.data
    ensures var m := Node(Stored(b[k].tree.data + b[j].tree.data), b[k].tree, b[j].tree);
      MergedTree(b) == m && Round(b) == b[k := Full(m)][j := Null]
  {
    hide Count, Chosen, MergedTree, Round;
    var k1, k2 := RoundIs(b);
    j := k2;
  }

  /** The tree at `k` is heavier than any other, but its weight is stored as a negative number. */
  ghost predicate Overflown(b: seq<Slot>, k: nat) {
    && k < |b| && b[k].Full? && -128 <= b[k].tree.data < 0 && LeafSum(b[k].tree) > 127
    && forall i :: 0 <= i < |b| && i != k && b[i].Full? ==> 0 <= b[i].tree.data == LeafSum(b[i].tree) <= 127
  }

  /** The tree at `k` has the heaviest tree for its left child, and will be chosen next. */
  ghost predicate TooDeep(b: seq<Slot>, k: nat) {
    && k < |b| && b[k].Full? && b[k].tree.Node? && LeafSum(b[k].tree.left) > 127
    && forall i :: 0 <= i < |b| && i != k && b[i].Full? ==>
         b[k].tree.data < b[i].tree.data == LeafSum(b[i].tree) <= 127
  }

  /** No tree's weight is negative or too large for a `char`. */
  ghost predicate Natural(b: seq<Slot>) {
    forall i :: 0 <= i < |b| && b[i].Full? ==> 0 <= b[i].tree.data <= 127
  }

  lemma {:induction false} FirstOverflow(b: seq<Slot>) returns (k: nat)
    requires Count(b) >= 2 && Weighed(b) && Natural(b) && LeafSum(MergedTree(b)) > 127
    ensures Overflown(Round(b), k)
  {
    hide Count, Chosen, MergedTree, Round, LeafSum;
    var k1, k2 := RoundAt(b);
    NodeSums(MergedTree(b));
    k := k1;
  }

  lemma {:induction false} SecondOverflow(b: seq<Slot>, k: nat)
    requires Count(b) >= 2 && Overflown(b, k)
    ensures TooDeep(Round(b), k)
  {
    hide Count, Chosen, MergedTree, Round, LeafSum;
    var j := LightestFirst(b, k);
  }

  lemma {:induction false} ThirdOverflow(b: seq<Slot>, k: nat)
    requires Count(b) >= 2 && TooDeep(b, k)
    ensures Round(b)[k].Full?
    ensures var q := Round(b)[k].tree; q.Node? && q.left.Node? && LeafSum(q.right) < LeafSum(q.left.left)
  {
    hide Count, Chosen, MergedTree, Round, LeafSum;
    var j := LightestFirst(b, k);
  }

  /** Two trees change places: the heavier one moves up. */
  function Exchanged(q: Tree): Tree
    requires q.Node? && q.left.Node?
  {
    Node(q.data, Node(q.left.data, q.right, q.left.right), q.left.left)
  }

  lemma {:induction false} ExchangedViews(q: Tree)
    requires q.Node? && q.left.Node? && LeafSum(q.right) < LeafSum(q.left.left)
    ensures Exchanged(q).data == q.data && LeafSum(Exchanged(q)) == LeafSum(q)
    ensures PathLength(Exchanged(q), 0) < PathLength(q, 0)
    ensures multiset(Leaves(Exchanged(q))) == multiset(Leaves(q))
  {
    Deeper(q.left.left, 1);
    Deeper(q.right, 1);
  }

  lemma {:induction false} ExchangedSlot(b: seq<Slot>, k: nat) returns (c: seq<Slot>)
    requires k < |b| && b[k].Full?
    requires var q := b[k].tree; q.Node? && q.left.Node? && LeafSum(q.right) < LeafSum(q.left.left)
    ensures Alike(b, c) && Cost(c) < Cost(b) && AllLeaves(c) == AllLeaves(b)
  {
    hide Cost, AllLeaves, LeafSum, PathLength, Leaves, Exchanged;
    var s := Full(Exchanged(b[k].tree));
    c := b[k := s];
    ExchangedViews(b[k].tree);
    SumsOverwritten(b, k, s);
    SameLeaves(b, k, s);
  }

  lemma {:induction false} SameLeaves(b: seq<Slot>, k: nat, s: Slot)
    requires k < |b| && SlotLeaves(s) == SlotLeaves(b[k])
    ensures AllLeaves(b[k := s]) == AllLeaves(b)
  {
    hide AllLeaves, SlotLeaves, Root, Roots;
    forall x ensures AllLeaves(b[k := s])[x] == AllLeaves(b)[x] {
      CountsOverwritten(b, k, s, x);
    }
  }

  /** After an overflow with four trees or more, a third round makes a tree that can be improved. */
  lemma {:induction false} ThreeRounds(b: seq<Slot>) returns (c: seq<Slot>)
    requires Count(b) >= 4 && Weighed(b) && Natural(b) && LeafSum(MergedTree(b)) > 127
    ensures var d := Rounds(b, 3); Alike(d, c) && Cost(c) < Cost(d) && AllLeaves(c) == AllLeaves(d)
  {
    hide Count, Round, MergedTree, LeafSum, Overflown, TooDeep, Natural, Weighed, Cost, AllLeaves, Alike;
    assert Rounds(b, 1) == Round(Rounds(b, 0)) && Rounds(b, 2) == Round(Rounds(b, 1));
    assert Rounds(b, 3) == Round(Rounds(b, 2));
    var k := FirstOverflow(b);
    SecondOverflow(Rounds(b, 1), k);
    assert k < |Rounds(b, 2)| by { TooDeepBounds(Rounds(b, 2), k); }
    ThirdOverflow(Rounds(b, 2), k);
    c := ExchangedSlot(Rounds(b, 3), k);
  }

  lemma {:induction false} TooDeepBounds(b: seq<Slot>, k: nat)
    requires TooDeep(b, k)
    ensures k < |b|
  {
  }

  lemma {:induction false} RoundsSplit(b: seq<Slot>, n: nat, k: nat)
    requires Count(b) > n >= k
    ensures Rounds(b, n) == Rounds(Rounds(b, k), n - k)
  {
    hide Count, Round;
    if n > k { RoundsSplit(b, n - 1, k); }
  }

  /** If a sum overflows before the last two rounds, some array with the same leaves costs less in the end. */
  lemma {:induction false} RoundsImproved(b: seq<Slot>, n: nat, ws: seq<int>) returns (c: seq<Slot>)
    requires Weighed(b) && Natural(b) && Count(b) == n + 1
    requires Ascending(ws) && multiset(ws) == Roots(b) && !FitsRounds(ws)
    ensures Count(c) == 1 && AllLeaves(c) == AllLeaves(b) && Cost(c) < Cost(Rounds(b, n))
    decreases n
  {
    hide Weighed, Natural, Roots, Round, Rounds, MergedTree, Cost, Count, LeafSum, AllLeaves;
    hide Ascending, FitsRounds, Inserted, Stored;
    CountRoots(b);
    FitsShort(ws);
    FitsNext(ws);
    var rest := SortedStep(b, ws);
    RoundNatural(b);
    if ws[0] + ws[1] > 127 {
      c := ImprovedNow(b, n);
    } else {
      RoundFirst(b, n);
      RoundRoots(b);
      c := RoundsImproved(Round(b), n - 1, Inserted(ws[2..], ws[0] + ws[1]));
    }
  }

  lemma {:induction false} FitsShort(ws: seq<int>)
    requires !FitsRounds(ws)
    ensures |ws| >= 4
  {
  }

  lemma {:induction false} ImprovedNow(b: seq<Slot>, n: nat) returns (c: seq<Slot>)
    requires Count(b) == n + 1 >= 4 && Weighed(b) && Natural(b) && LeafSum(MergedTree(b)) > 127
    ensures Count(c) == 1 && AllLeaves(c) == AllLeaves(b) && Cost(c) < Cost(Rounds(b, n))
  {
    hide Weighed, Natural, Rounds, MergedTree, Cost, Count, LeafSum, AllLeaves, Alike;
    var d := ThreeRounds(b);
    RoundsSplit(b, n, 3);
    AlikeCount(Rounds(b, 3), d);
    AlikeRounds(Rounds(b, 3), d, n - 3);
    RoundsLeaves(b, 3);
    RoundsLeaves(d, n - 3);
    c := Rounds(d, n - 3);
  }

  lemma {:induction false} RoundNatural(b: seq<Slot>)
    requires Count(b) >= 2 && Weighed(b) && Natural(b)
    ensures var x := LeafSum(MergedTree(b)); x >= 0 && (x <= 127 ==> Natural(Round(b)) && Stored(x) == x)
  {
    hide Count, Chosen, MergedTree, Round, LeafSum;
    var k1, k2 := RoundAt(b);
    RoundWeighed(b);
  }

  lemma {:induction false} TheTree(b: seq<Slot>) returns (t: Tree)
    requires Count(b) == 1
    ensures multiset(Leaves(t)) == AllLeaves(b) && PathLength(t, 0) == Cost(b)
  {
    hide AllLeaves, Cost, Leaves, PathLength, Count;
    var k := FirstFull(b, 0);
    if k == |b| { NoRoots(b); }
    OnlyOne(b, k);
    OneRoot(b, k);
    t := b[k].tree;
  }

  lemma {:induction false} BuiltImproved(a: seq<int>)
    requires |a| >= 2 && (forall i :: 0 <= i < |a| ==> 0 <= a[i] <= 127) && !Fits(a)
    ensures !Optimal(Built(a), a)
  {
    hide Roots, AllLeaves, Count, Cost, Leaves, PathLength, Rounds, Built, Weighed, SortedOf, FitsRounds;
    InitialViews(a);
    StoredAsIs(a);
    BuiltAlone(a);
    SortedViews(a);
    var c := RoundsImproved(Initial(a), |a| - 1, SortedOf(a));
    var t := TheTree(c);
  }

  /** For weights that are not negative, the built tree is an optimal tree over them exactly if they fit. */
  lemma {:induction false} OptimalExactly(a: seq<int>)
    requires |a| >= 2 && forall i :: 0 <= i < |a| ==> 0 <= a[i]
    ensures Optimal(Built(a), a) <==> Fits(a)
  {
    hide Built, PathLength, FitsRounds, SortedOf, Leaves;
    if Fits(a) {
      BuiltOptimal(a);
    } else if forall i :: 0 <= i < |a| ==> a[i] <= 127 {
      BuiltImproved(a);
    } else {
      var i :| 0 <= i < |a| && a[i] > 127;
      BuiltLeaves(a);
      assert a[i] in multiset(a);
      StoredBelow(a, a[i]);
    }
  }

  lemma {:induction false} StoredBelow(a: seq<int>, x: int)
    requires x > 127
    ensures x !in multiset(StoredAll(a))
  {
  }

  // ----- A simple condition

  function Positive(x: int): int {
    if x > 0 then x else 0
  }

  /** The sum of the positive weights, or minus the sum of the negative ones. */
  function SumAbove(a: seq<int>, negated: bool): (r: int)
    ensures r >= 0
  {
    if a == [] then 0 else Positive(if negated then -a[0] else a[0]) + SumAbove(a[1..], negated)
  }

  /** All weights but the two largest add up to at most 127, and the negative ones to at least -128. */
  predicate InRange(a: seq<int>) {
    var n, ws := |a|, SortedOf(a);
    n >= 2 && ws[n - 1] <= 127 && SumAbove(ws[..n - 2], false) <= 127 && SumAbove(a, true) <= 128
  }

  lemma {:induction false} SumAboveConcat(v: seq<int>, w: seq<int>, negated: bool)
    ensures SumAbove(v + w, negated) == SumAbove(v, negated) + SumAbove(w, negated)
  {
    if v == [] {
      assert v + w == w;
    } else {
      SumAboveConcat(v[1..], w, negated);
      assert (v + w)[1..] == v[1..] + w;
    }
  }

  lemma {:induction false} SumAboveInserted(v: seq<int>, s: int, negated: bool)
    ensures SumAbove(Inserted(v, s), negated) == SumAbove(v, negated) + Positive(if negated then -s else s)
  {
    if v == [] || s <= v[0] {
      assert ([s] + v)[1..] == v;
    } else {
      SumAboveInserted(v[1..], s, negated);
      assert ([v[0]] + Inserted(v[1..], s))[1..] == Inserted(v[1..], s);
    }
  }

  lemma {:induction false} SumAboveSorted(a: seq<int>, negated: bool)
    ensures SumAbove(SortedOf(a), negated) == SumAbove(a, negated)
  {
    hide Inserted;
    if a != [] {
      SumAboveSorted(a[1..], negated);
      SumAboveInserted(SortedOf(a[1..]), a[0], negated);
    }
  }

  /** Inserting a weight pushes the others up. */
  lemma {:induction false} InsertedAbove(v: seq<int>, s: int, i: nat)
    requires Ascending(v) && i < |v|
    ensures v[i] <= Inserted(v, s)[i + 1]
  {
    if s > v[0] {
      if i > 0 {
        InsertedAbove(v[1..], s, i - 1);
      } else {
        InsertedAscending(v[1..], s);
      }
    }
  }

  lemma {:induction false} TopTwo(ws: seq<int>)
    requires |ws| >= 2
    ensures var n := |ws|;
      SumAbove(ws, false) == SumAbove(ws[..n - 2], false) + Positive(ws[n - 2]) + Positive(ws[n - 1])
  {
    var n := |ws|;
    var w := ws[n - 2..];
    SumAboveConcat(ws[..n - 2], w, false);
    assert ws[..n - 2] + w == ws;
    assert w[1..][1..] == [] && w[1..][0] == ws[n - 1];
    assert SumAbove(w[1..], false) == Positive(ws[n - 1]);
  }

  lemma {:induction false} BottomTwo(ws: seq<int>, negated: bool)
    requires |ws| >= 2
    ensures SumAbove(ws, negated) ==
              Positive(if negated then -ws[0] else ws[0]) + Positive(if negated then -ws[1] else ws[1])
              + SumAbove(ws[2..], negated)
  {
    assert ws[1..][1..] == ws[2..];
  }

  lemma {:induction false} SmallSumsFit(ws: seq<int>)
    requires Ascending(ws) && |ws| >= 2
    requires SumAbove(ws[..|ws| - 2], false) <= 127 && SumAbove(ws, true) <= 128
    ensures FitsRounds(ws)
    decreases |ws|
  {
    hide SumAbove, Inserted;
    var n := |ws|;
    if n >= 4 {
      var s := ws[0] + ws[1];
      var vs := Inserted(ws[2..], s);
      BottomTwo(ws[..n - 2], false);
      BottomTwo(ws, true);
      BottomTwo(ws, false);
      SumAboveInserted(ws[2..], s, false);
      SumAboveInserted(ws[2..], s, true);
      TopTwo(ws);
      TopTwo(vs);
      InsertedAscending(ws[2..], s);
      InsertedAbove(ws[2..], s, n - 3);
      InsertedAbove(ws[2..], s, n - 4);
      SmallSumsFit(vs);
    }
  }

  lemma {:induction false} SumAboveBounds(a: seq<int>, i: nat)
    requires i < |a|
    ensures -a[i] <= SumAbove(a, true)
  {
    if i > 0 { SumAboveBounds(a[1..], i - 1); }
  }

  lemma {:induction false} InRangeFits(a: seq<int>)
    requires InRange(a)
    ensures Fits(a)
  {
    hide SumAbove, SortedOf, FitsRounds;
    SortedViews(a);
    SumAboveSorted(a, true);
    SmallSumsFit(SortedOf(a));
    forall i | 0 <= i < |a| ensures -128 <= a[i] <= 127 {
      SumAboveBounds(a, i);
      assert a[i] in multiset(SortedOf(a));
    }
  }

  // ----- Overflow

  lemma {:induction false} CountFull(b: seq<Slot>)
    requires |b| == 4
    ensures Count(b) == SlotCount(b[0]) + SlotCount(b[1]) + SlotCount(b[2]) + SlotCount(b[3])
  {
    assert b[..3][..2] == b[..2] && b[..2][..1] == b[..1] && b[..1][..0] == [];
    assert Count(b[..1]) == SlotCount(b[0]) && Count(b[..2]) == Count(b[..1]) + SlotCount(b[1]);
    assert Count(b[..3]) == Count(b[..2]) + SlotCount(b[2]);
  }

  /** Four weights of 100 overflow the `char` field, and the built tree is not optimal. */
  lemma {:induction false} OverflowNotOptimal()
    ensures var a := [100, 100, 100, 100];
      var t := Node(0, Node(0, Leaf(100), Leaf(100)), Node(0, Leaf(100), Leaf(100)));
      !Fits(a) && multiset(Leaves(t)) == multiset(a) && PathLength(t, 0) < PathLength(Built(a), 0)
  {
    OverflowSorted();
    OverflowRounds();
    hide Built, SortedOf;
    var x := Hundred;
    var y := Node(0, x, x);
    assert Leaves(x) == [100] && Leaves(y) == [100, 100] && Leaves(Node(0, y, y)) == [100, 100] + [100, 100];
    assert PathLength(y, 1) == 400 && PathLength(Node(-56, x, x), 2) == 600;
  }

  lemma {:induction false} OverflowSorted()
    ensures SortedOf([100, 100, 100, 100]) == [100, 100, 100, 100]
  {
    var a := [100, 100, 100, 100];
    assert a[1..] == [100, 100, 100] && a[2..] == [100, 100] && a[3..] == [100];
    assert SortedOf([100]) == [100];
    assert SortedOf([100, 100]) == Inserted(SortedOf([100]), 100) == [100, 100];
    assert SortedOf([100, 100, 100]) == Inserted([100, 100], 100) == [100, 100, 100];
  }

  const Hundred := Leaf(100)
  const Merged1 := Node(-56, Hundred, Hundred)
  const Merged2 := Node(44, Merged1, Hundred)
  const Array0 := [Full(Hundred), Full(Hundred), Full(Hundred), Full(Hundred)]
  const Array1 := [Full(Merged1), Null, Full(Hundred), Full(Hundred)]
  const Array2 := [Full(Merged2), Null, Null, Full(Hundred)]

  lemma {:induction false} OverflowRound0()
    ensures Count(Array0) == 4 && Round(Array0) == Array1
  {
    CountFull(Array0);
    hide Count, Chosen;
    ForcedRound(Array0, 0, 1);
  }

  lemma {:induction false} OverflowRound1()
    ensures Count(Array1) == 3 && Round(Array1) == Array2
  {
    CountFull(Array1);
    hide Count, Chosen;
    ForcedRound(Array1, 0, 2);
  }

  lemma {:induction false} OverflowRound2()
    ensures Count(Array2) == 2 && MergedTree(Array2) == Node(-112, Merged2, Hundred)
  {
    CountFull(Array2);
    hide Count, Chosen;
    ForcedRound(Array2, 0, 3);
  }

  lemma {:induction false} OverflowRounds()
    ensures Built([100, 100, 100, 100]) == Node(-112, Merged2, Hundred)
  {
    var a := [100, 100, 100, 100];
    assert Initial(a) == Array0;
    hide Count, Chosen, Round, MergedTree, Initial;
    OverflowRound0();
    OverflowRound1();
    OverflowRound2();
    assert Rounds(Array0, 1) == Round(Rounds(Array0, 0));
    assert Rounds(Array0, 2) == Round(Rounds(Array0, 1));
  }

  lemma {:induction false} ForcedRound(b: seq<Slot>, k1: nat, k2: nat)
    requires |b| == 4 && Count(b) >= 2 && k1 < k2 < 4 && b[k1].Full? && b[k2].Full?
    requires forall i :: 0 <= i < k2 && i != k1 ==> b[i].Null?
    requires b[k1].tree.data <= b[k2].tree.data
    requires forall i :: k2 < i < 4 ==> b[i].Full? ==> b[k2].tree.data <= b[i].tree.data
    ensures var m := Node(Stored(b[k1].tree.data + b[k2].tree.data), b[k1].tree, b[k2].tree);
      MergedTree(b) == m && Round(b) == b[k1 := Full(m)][k2 := Null]
  {
    assert FirstFull(b, 0) == k1 && FirstFull(b, k1 + 1) == k2;
    ScanStays(b, k2, k1, k2);
  }

  lemma {:induction false} ScanStays(b: seq<Slot>, j: nat, k1: nat, k2: nat)
    requires j <= |b| && k1 < |b| && k2 < |b| && b[k1].Full? && b[k2].Full? && b[k1].tree.data <= b[k2].tree.data
    requires forall i :: j <= i < |b| && b[i].Full? ==> b[k2].tree.data <= b[i].tree.data
    ensures Scan(b, j, k1, k2) == (k1, k2)
    decreases |b| - j
  {
    if j < |b| { ScanStays(b, j + 1, k1, k2); }
  }
}
