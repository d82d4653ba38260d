/**
 Binary trees with weighted leaves, their weighted path length, and the exchange argument:
 from any tree, the two smallest weights can be merged into one leaf, and that saves at
 least their sum.
 */
module HuffmanTrees {
  /** A node of the tree; a leaf is a node whose two children are null. */
  datatype Tree = Leaf(data: int) | Node(data: int, left: Tree, right: Tree)

  function Leaves(t: Tree): seq<int> {
    match t
    case Leaf(w) => [w]
    case Node(_, l, r) => Leaves(l) + Leaves(r)
  }

  function Depths(t: Tree, d: nat): seq<nat> {
    match t
    case Leaf(_) => [d]
    case Node(_, l, r) => Depths(l, d + 1) + Depths(r, d + 1)
  }

  /** The sum over all leaves of weight times depth, for a tree whose root is at depth `d`. */
  function PathLength(t: Tree, d: nat): int {
    match t
    case Leaf(w) => d * w
    case Node(_, l, r) => PathLength(l, d + 1) + PathLength(r, d + 1)
  }

  function Dot(ds: seq<nat>, ws: seq<int>): int
    requires |ds| == |ws|
  {
    if ds == [] then 0 else ds[0] * ws[0] + Dot(ds[1..], ws[1..])
  }

  lemma {:induction false} SameLength(t: Tree, d: nat)
    ensures |Depths(t, d)| == |Leaves(t)| >= 1
  {
    if t.Node? {
      SameLength(t.left, d + 1);
      SameLength(t.right, d + 1);
    }
  }

  lemma {:induction false} DotConcat(ds: seq<nat>, ws: seq<int>, ds': seq<nat>, ws': seq<int>)
    requires |ds| == |ws| && |ds'| == |ws'|
    ensures Dot(ds + ds', ws + ws') == Dot(ds, ws) + Dot(ds', ws')
  {
    if ds == [] {
      assert ds + ds' == ds' && ws + ws' == ws';
    } else {
      DotConcat(ds[1..], ws[1..], ds', ws');
      assert (ds + ds')[1..] == ds[1..] + ds' && (ws + ws')[1..] == ws[1..] + ws';
    }
  }

  lemma {:induction false} PathLengthIsDot(t: Tree, d: nat)
    ensures |Depths(t, d)| == |Leaves(t)|
    ensures PathLength(t, d) == Dot(Depths(t, d), Leaves(t))
  {
    SameLength(t, d);
    if t.Node? {
      PathLengthIsDot(t.left, d + 1);
      PathLengthIsDot(t.right, d + 1);
      DotConcat(Depths(t.left, d + 1), Leaves(t.left), Depths(t.right, d + 1), Leaves(t.right));
    }
  }

  lemma {:induction false} DotUpdate(ds: seq<nat>, ws: seq<int>, i: nat, w: int)
    requires |ds| == |ws| && i < |ws|
    ensures Dot(ds, ws[i := w]) == Dot(ds, ws) + ds[i] * (w - ws[i])
  {
    if i == 0 {
      assert ws[0 := w][1..] == ws[1..];
      assert ds[0] * w == ds[0] * ws[0] + ds[0] * (w - ws[0]);
    } else {
      assert ws[i := w][1..] == ws[1..][i - 1 := w];
      DotUpdate(ds[1..], ws[1..], i - 1, w);
    }
  }

  // ----- The same shape with other weights

  function Relabel(t: Tree, ws: seq<int>): Tree
    requires |ws| == |Leaves(t)|
  {
    match t
    case Leaf(_) => Leaf(ws[0])
    case Node(w, l, r) => Node(w, Relabel(l, ws[..|Leaves(l)|]), Relabel(r, ws[|Leaves(l)|..]))
  }

  lemma {:induction false} Relabeled(t: Tree, ws: seq<int>, d: nat)
    requires |ws| == |Leaves(t)|
    ensures Leaves(Relabel(t, ws)) == ws && Depths(Relabel(t, ws), d) == Depths(t, d)
    ensures t.Node? <==> Relabel(t, ws).Node?
  {
    if t.Node? {
      var n := |Leaves(t.left)|;
      Relabeled(t.left, ws[..n], d + 1);
      Relabeled(t.right, ws[n..], d + 1);
    }
  }

  // ----- The deepest pair of sibling leaves

  /** Leaves `i` and `i + 1` are the two children of one node. */
  predicate Siblings(t: Tree, i: nat)
    ensures Siblings(t, i) ==> t.Node?
  {
    t.Node? &&
    var n := |Leaves(t.left)|;
    || (t.left.Leaf? && t.right.Leaf? && i == 0)
    || (i + 1 < n && Siblings(t.left, i))
    || (n <= i && Siblings(t.right, i - n))
  }

  /** The tree with the sibling leaves `i` and `i + 1` merged into one leaf of weight `w`. */
  function Merged(t: Tree, i: nat, w: int): Tree
    requires Siblings(t, i)
  {
    var n := |Leaves(t.left)|;
    if t.left.Leaf? && t.right.Leaf? && i == 0 then Leaf(w)
    else if i + 1 < n && Siblings(t.left, i) then Node(t.data, Merged(t.left, i, w), t.right)
    else Node(t.data, t.left, Merged(t.right, i - n, w))
  }

  ghost predicate Deepest(ds: seq<nat>, i: nat) {
    i < |ds| && forall j :: 0 <= j < |ds| ==> ds[j] <= ds[i]
  }

  lemma {:induction false} DeepestSiblings(t: Tree, d: nat) returns (i: nat)
    requires t.Node?
    ensures Siblings(t, i) && Deepest(Depths(t, d), i)
  {
    SameLength(t.left, d + 1);
    SameLength(t.right, d + 1);
    var ls, rs, n := Depths(t.left, d + 1), Depths(t.right, d + 1), |Leaves(t.left)|;
    if t.left.Leaf? && t.right.Leaf? {
      i := 0;
    } else if t.left.Leaf? {
      var j := DeepestSiblings(t.right, d + 1);
      DepthsBelow(t.right, d + 1, j);
      i := j + n;
      assert Siblings(t, i);
    } else if t.right.Leaf? {
      i := DeepestSiblings(t.left, d + 1);
      DepthsBelow(t.left, d + 1, i);
      SiblingsInside(t.left, i);
    } else {
      var j := DeepestSiblings(t.left, d + 1);
      var k := DeepestSiblings(t.right, d + 1);
      SiblingsInside(t.left, j);
      i := if ls[j] >= rs[k] then j else k + n;
      assert (ls + rs)[j] == ls[j] && (ls + rs)[k + n] == rs[k];
    }
  }

  lemma {:induction false} SiblingsInside(t: Tree, i: nat)
    requires Siblings(t, i)
    ensures i + 1 < |Leaves(t)|
  {
    SameLength(t.left, 0);
    SameLength(t.right, 0);
    if |Leaves(t.left)| <= i { SiblingsInside(t.right, i - |Leaves(t.left)|); }
  }

  lemma {:induction false} DepthsBelow(t: Tree, d: nat, i: nat)
    requires i < |Depths(t, d)|
    ensures Depths(t, d)[i] >= d && (t.Node? ==> Depths(t, d)[i] > d)
  {
    if t.Node? {
      var n := |Depths(t.left, d + 1)|;
      if i < n { DepthsBelow(t.left, d + 1, i); } else { DepthsBelow(t.right, d + 1, i - n); }
    }
  }

  lemma {:induction false} NodeViews(t: Tree, d: nat)
    requires t.Node?
    ensures Leaves(t) == Leaves(t.left) + Leaves(t.right)
    ensures Depths(t, d) == Depths(t.left, d + 1) + Depths(t.right, d + 1)
  {
  }

  lemma {:induction false} MergedIs(t: Tree, i: nat, w: int)
    requires Siblings(t, i)
    ensures var n, m := |Leaves(t.left)|, Merged(t, i, w);
      || (t.left.Leaf? && t.right.Leaf? && i == 0 && m == Leaf(w))
      || (i + 1 < n && Siblings(t.left, i) && m == Node(t.data, Merged(t.left, i, w), t.right))
      || (n <= i && Siblings(t.right, i - n) && m == Node(t.data, t.left, Merged(t.right, i - n, w)))
  {
  }

  lemma {:induction false} LeafViews(a: int, b: int, data: int, w: int, d: nat)
    ensures var t := Node(data, Leaf(a), Leaf(b));
      && Leaves(t) == [a, b] && Depths(t, d) == [d + 1, d + 1] && Leaves(Leaf(w)) == [w] && Depths(Leaf(w), d) == [d]
      && [w] == Leaves(t)[..0] + [w] + Leaves(t)[2..] && [d] == Depths(t, d)[..0] + [d] + Depths(t, d)[2..]
  {
  }

  /** Merging two sibling leaves replaces two equal depths by one that is one less. */
  lemma {:induction false} MergedViews(t: Tree, i: nat, w: int, d: nat)
    requires Siblings(t, i)
    ensures i + 1 < |Leaves(t)| == |Depths(t, d)|
    ensures Depths(t, d)[i] == Depths(t, d)[i + 1] > d
    ensures Leaves(Merged(t, i, w)) == Leaves(t)[..i] + [w] + Leaves(t)[i + 2..]
    ensures Depths(Merged(t, i, w), d) == Depths(t, d)[..i] + [Depths(t, d)[i] - 1] + Depths(t, d)[i + 2..]
  {
    hide Leaves, Depths, Merged, Siblings;
    SiblingsInside(t, i);
    SameLength(t, d);
    SameLength(t.left, d + 1);
    NodeViews(t, d);
    MergedIs(t, i, w);
    var n, m := |Leaves(t.left)|, Merged(t, i, w);
    var ls, rs, ds, es := Leaves(t.left), Leaves(t.right), Depths(t.left, d + 1), Depths(t.right, d + 1);
    if t.left.Leaf? && t.right.Leaf? && i == 0 && m == Leaf(w) {
      LeafViews(t.left.data, t.right.data, t.data, w, d);
    } else if i + 1 < n && Siblings(t.left, i) && m == Node(t.data, Merged(t.left, i, w), t.right) {
      MergedViews(t.left, i, w, d + 1);
      NodeViews(m, d);
      CutLeft(ls, rs, i, w);
      CutLeft(ds, es, i, ds[i] - 1);
    } else {
      MergedViews(t.right, i - n, w, d + 1);
      NodeViews(m, d);
      CutRight(ls, rs, i, w);
      CutRight(ds, es, i, es[i - n] - 1);
    }
  }

  lemma {:induction false} CutLeft<T>(l: seq<T>, r: seq<T>, i: nat, x: T)
    requires i + 1 < |l|
    ensures (l + r)[i] == l[i] && (l + r)[i + 1] == l[i + 1]
    ensures (l[..i] + [x] + l[i + 2..]) + r == (l + r)[..i] + [x] + (l + r)[i + 2..]
  {
  }

  lemma {:induction false} CutRight<T>(l: seq<T>, r: seq<T>, i: nat, x: T)
    requires |l| <= i && i + 1 < |l| + |r|
    ensures var j := i - |l|;
      && (l + r)[i] == r[j] && (l + r)[i + 1] == r[j + 1]
      && l + (r[..j] + [x] + r[j + 2..]) == (l + r)[..i] + [x] + (l + r)[i + 2..]
  {
  }

  lemma {:induction false} DotMerge(ds: seq<nat>, ws: seq<int>, i: nat)
    requires |ds| == |ws| && i + 1 < |ds| && ds[i] == ds[i + 1] > 0
    ensures Dot(ds[..i] + [ds[i] - 1] + ds[i + 2..], MergedPair(ws, i))
            == Dot(ds, ws) - ws[i] - ws[i + 1]
  {
    hide Dot, MergedPair;
    var (d, a, b) := (ds[i], ws[i], ws[i + 1]);
    DotParts(ds[..i], ws[..i], [d - 1], [a + b], ds[i + 2..], ws[i + 2..]);
    DotParts(ds[..i], ws[..i], [d, d], [a, b], ds[i + 2..], ws[i + 2..]);
    DotPair(d, a, b);
    PairOf(ds, i);
    PairOf(ws, i);
    MergedPairIs(ws, i);
  }

  lemma {:induction false} MergedPairIs(ws: seq<int>, i: nat)
    requires i + 1 < |ws|
    ensures MergedPair(ws, i) == ws[..i] + [ws[i] + ws[i + 1]] + ws[i + 2..]
  {
  }

  lemma {:induction false} DotParts(ds: seq<nat>, ws: seq<int>, ds1: seq<nat>, ws1: seq<int>, ds2: seq<nat>,
                                    ws2: seq<int>)
    requires |ds| == |ws| && |ds1| == |ws1| && |ds2| == |ws2|
    ensures Dot(ds + ds1 + ds2, ws + ws1 + ws2) == Dot(ds, ws) + Dot(ds1, ws1) + Dot(ds2, ws2)
  {
    hide Dot;
    DotConcat(ds + ds1, ws + ws1, ds2, ws2);
    DotConcat(ds, ws, ds1, ws1);
  }

  lemma {:induction false} DotPair(d: nat, a: int, b: int)
    requires d > 0
    ensures Dot([d, d], [a, b]) - a - b == Dot([d - 1], [a + b])
  {
    assert [d, d][1..] == [d] && [a, b][1..] == [b] && Dot([d], [b]) == d * b;
    assert (d - 1) * (a + b) == d * a + d * b - a - b;
  }

  lemma {:induction false} PairOf<T>(s: seq<T>, i: nat)
    requires i + 1 < |s|
    ensures s == s[..i] + [s[i], s[i + 1]] + s[i + 2..]
  {
  }

  // ----- Exchanging weights

  function Swapped(ws: seq<int>, i: nat, j: nat): seq<int>
    requires i < |ws| && j < |ws|
  {
    ws[i := ws[j]][j := ws[i]]
  }

  lemma {:induction false} SwapSame(ws: seq<int>, i: nat, j: nat)
    requires i < |ws| && j < |ws|
    ensures multiset(Swapped(ws, i, j)) == multiset(ws)
  {
  }

  lemma {:induction false} Exchange(d: nat, e: nat, u: int, w: int)
    requires d <= e && u <= w
    ensures d * (w - u) + e * (u - w) <= 0
  {
    assert d * (w - u) + e * (u - w) == (d - e) * (w - u);
  }

  /** Moving a smaller weight to a deeper leaf does not lengthen the paths. */
  lemma {:induction false} SwapShorter(ds: seq<nat>, ws: seq<int>, i: nat, j: nat)
    requires |ds| == |ws| && i < |ws| && j < |ws|
    requires ds[i] <= ds[j] && ws[i] <= ws[j]
    ensures Dot(ds, Swapped(ws, i, j)) <= Dot(ds, ws)
  {
    hide Dot;
    DotUpdate(ds, ws, i, ws[j]);
    DotUpdate(ds, ws[i := ws[j]], j, ws[i]);
    if i == j {
      assert Swapped(ws, i, j) == ws;
    } else {
      Exchange(ds[i], ds[j], ws[i], ws[j]);
    }
  }

  lemma {:induction false} Cancel(a: multiset<int>, b: multiset<int>, c: multiset<int>)
    requires a + c == b + c
    ensures a == b
  {
    forall x ensures a[x] == b[x] {
      assert (a + c)[x] == a[x] + c[x] && (b + c)[x] == b[x] + c[x];
    }
  }

  function Without(ws: seq<int>, i: nat): seq<int>
    requires i < |ws|
  {
    ws[..i] + ws[i + 1..]
  }

  lemma {:induction false} WithoutOne(ws: seq<int>, i: nat, rest: multiset<int>)
    requires i < |ws| && multiset(ws) == rest + multiset{ws[i]}
    ensures multiset(Without(ws, i)) == rest
  {
    assert ws == ws[..i] + [ws[i]] + ws[i + 1..];
    Cancel(multiset(Without(ws, i)), rest, multiset{ws[i]});
  }

  /** The elements other than the one at `i`. */
  lemma {:induction false} Others(ws: seq<int>, i: nat, rest: multiset<int>)
    requires i < |ws| && multiset(ws) == rest + multiset{ws[i]}
    ensures forall j :: 0 <= j < |ws| && j != i ==> ws[j] in rest
  {
    WithoutOne(ws, i, rest);
    forall j | 0 <= j < |ws| && j != i ensures ws[j] in rest {
      assert ws[j] == Without(ws, i)[if j < i then j else j - 1];
    }
  }

  lemma {:induction false} Elsewhere(ws: seq<int>, i: nat, rest: multiset<int>, w: int) returns (j: nat)
    requires i < |ws| && multiset(ws) == rest + multiset{ws[i]} && w in rest
    ensures j < |ws| && j != i && ws[j] == w
  {
    WithoutOne(ws, i, rest);
    assert w in Without(ws, i);
    var k :| 0 <= k < |Without(ws, i)| && Without(ws, i)[k] == w;
    j := if k < i then k else k + 1;
  }

  /** The smallest weight can be moved to a deepest leaf. */
  lemma {:induction false} SinkFirst(ds: seq<nat>, ws: seq<int>, i: nat, a: int, rest: multiset<int>)
    returns (us: seq<int>)
    requires |ds| == |ws| && Deepest(ds, i)
    requires multiset(ws) == rest + multiset{a} && forall x :: x in rest ==> a <= x
    ensures |us| == |ws| && multiset(us) == multiset(ws) && us[i] == a && Dot(ds, us) <= Dot(ds, ws)
  {
    assert a in multiset(ws);
    var p :| 0 <= p < |ws| && ws[p] == a;
    Others(ws, p, rest);
    us := Swapped(ws, p, i);
    SwapSame(ws, p, i);
    SwapShorter(ds, ws, p, i);
  }

  /** The next one can be moved to another deepest leaf. */
  lemma {:induction false} SinkSecond(ds: seq<nat>, us: seq<int>, i: nat, k: nat, b: int, rest: multiset<int>)
    returns (vs: seq<int>)
    requires |ds| == |us| && i < |ds| && Deepest(ds, k) && k != i
    requires multiset(us) == rest + multiset{us[i]} && b in rest && forall x :: x in rest ==> b <= x
    ensures |vs| == |us| && multiset(vs) == multiset(us) && vs[i] == us[i] && vs[k] == b
    ensures Dot(ds, vs) <= Dot(ds, us)
  {
    Others(us, i, rest);
    var q := Elsewhere(us, i, rest, b);
    vs := Swapped(us, q, k);
    SwapSame(us, q, k);
    SwapShorter(ds, us, q, k);
  }

  lemma {:induction false} SinkBoth(ds: seq<nat>, ws: seq<int>, i: nat, a: int, b: int, rest: multiset<int>)
    returns (vs: seq<int>)
    requires |ds| == |ws| && i + 1 < |ds| && Deepest(ds, i) && ds[i] == ds[i + 1]
    requires multiset(ws) == rest + multiset{a, b} && a <= b && forall x :: x in rest ==> b <= x
    ensures |vs| == |ws| && vs[i] == a && vs[i + 1] == b && multiset(vs) == rest + multiset{vs[i], vs[i + 1]}
    ensures Dot(ds, vs) <= Dot(ds, ws)
  {
    hide Dot;
    var others := rest + multiset{b};
    assert rest + multiset{a, b} == others + multiset{a};
    var us := SinkFirst(ds, ws, i, a, others);
    vs := SinkSecond(ds, us, i, i + 1, b, others);
  }

  /**
   From any tree, merging its two smallest weights gives a tree whose paths are shorter by
   at least the sum of the two.
   */
  lemma {:induction false} MergeTwoSmallest(t: Tree, a: int, b: int, rest: multiset<int>) returns (s: Tree)
    requires multiset(Leaves(t)) == rest + multiset{a, b} && a <= b && forall x :: x in rest ==> b <= x
    ensures multiset(Leaves(s)) == rest + multiset{a + b}
    ensures PathLength(s, 0) + a + b <= PathLength(t, 0)
  {
    hide Leaves, Depths, PathLength, Dot, Siblings, MergedPair, Deepest;
    TwoLeaves(t, rest, a, b);
    var i := DeepestLevel(t);
    PathLengthIsDot(t, 0);
    var vs := SinkBoth(Depths(t, 0), Leaves(t), i, a, b, rest);
    s := MergeRelabeled(t, i, vs);
    MergedPairSame(vs, i, rest);
  }

  lemma {:induction false} TwoLeaves(t: Tree, rest: multiset<int>, a: int, b: int)
    requires multiset(Leaves(t)) == rest + multiset{a, b}
    ensures t.Node?
  {
    assert |multiset(Leaves(t))| == |Leaves(t)|;
    assert |rest + multiset{a, b}| == |rest| + 2;
  }

  lemma {:induction false} DeepestLevel(t: Tree) returns (i: nat)
    requires t.Node?
    ensures Siblings(t, i) && Deepest(Depths(t, 0), i)
    ensures i + 1 < |Depths(t, 0)| && Depths(t, 0)[i] == Depths(t, 0)[i + 1]
  {
    i := DeepestSiblings(t, 0);
    MergedViews(t, i, 0, 0);
  }

  /** The path length after new weights `ws` are given to the leaves and two siblings are merged. */
  lemma {:induction false} MergeRelabeled(t: Tree, i: nat, ws: seq<int>) returns (s: Tree)
    requires Siblings(t, i) && |ws| == |Depths(t, 0)| && i + 1 < |ws|
    ensures Leaves(s) == MergedPair(ws, i)
    ensures PathLength(s, 0) == Dot(Depths(t, 0), ws) - ws[i] - ws[i + 1]
  {
    hide Leaves, Depths, PathLength, Dot, Merged, Siblings, Relabel, MergedPair;
    var m := Merged(t, i, 0);
    MergedViews(t, i, 0, 0);
    s := Relabel(m, MergedPair(ws, i));
    Relabeled(m, MergedPair(ws, i), 0);
    PathLengthIsDot(s, 0);
    DotMerge(Depths(t, 0), ws, i);
  }

  function MergedPair(ws: seq<int>, i: nat): (vs: seq<int>)
    requires i + 1 < |ws|
    ensures |vs| == |ws| - 1
  {
    ws[..i] + [ws[i] + ws[i + 1]] + ws[i + 2..]
  }

  lemma {:induction false} MergedPairSame(ws: seq<int>, i: nat, rest: multiset<int>)
    requires i + 1 < |ws| && multiset(ws) == rest + multiset{ws[i], ws[i + 1]}
    ensures multiset(MergedPair(ws, i)) == rest + multiset{ws[i] + ws[i + 1]}
  {
    var others := multiset(ws[..i]) + multiset(ws[i + 2..]);
    assert ws == ws[..i] + [ws[i], ws[i + 1]] + ws[i + 2..];
    Cancel(others, rest, multiset{ws[i], ws[i + 1]});
    assert multiset(MergedPair(ws, i)) == others + multiset{ws[i] + ws[i + 1]};
  }
}
