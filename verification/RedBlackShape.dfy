/**
 The mathematical side of the red-black tree: shapes, one-hole paths, order and colour.

 A `Tree` is a snapshot of a subtree of heap nodes and a `Path` is the rest of the tree
 around it, from the subtree's parent up to the root.  The rebalancing loops work at a
 focus inside the tree, so their invariants speak about a `Path` and a `Tree` together.
 */
module RedBlackShape {
  datatype Color = Red | Black

  class Node {
    var left: Node?
    var right: Node?
    var parent: Node?
    const key: int
    const data: int
    var color: Color

    constructor (key: int, data: int)
      ensures this.key == key && this.data == data
    {
      this.key, this.data := key, data;
    }
  }

  datatype Tree = Nil | Bin(left: Tree, node: Node, color: Color, right: Tree)

  datatype Path =
    | Top
    | InLeft(up: Path, node: Node, color: Color, right: Tree)
    | InRight(up: Path, node: Node, color: Color, left: Tree)

  // ----- Nodes and pointers

  ghost function Nodes(t: Tree): set<Node> {
    match t
    case Nil => {}
    case Bin(l, n, _, r) => Nodes(l) + {n} + Nodes(r)
  }

  ghost function PathNodes(p: Path): set<Node> {
    match p
    case Top => {}
    case InLeft(up, n, _, r) => PathNodes(up) + {n} + Nodes(r)
    case InRight(up, n, _, l) => PathNodes(up) + {n} + Nodes(l)
  }

  ghost function Ptr(t: Tree): Node? {
    if t.Nil? then null else t.node
  }

  ghost function ParentPtr(p: Path): Node? {
    if p.Top? then null else p.node
  }

  ghost function RootPtr(p: Path, focus: Node?): (root: Node?)
    ensures !p.Top? ==> root in PathNodes(p)
  {
    match p
    case Top => focus
    case InLeft(up, n, _, _) => RootPtr(up, n)
    case InRight(up, n, _, _) => RootPtr(up, n)
  }

  ghost function Plug(p: Path, t: Tree): Tree {
    match p
    case Top => t
    case InLeft(up, n, c, r) => Plug(up, Bin(t, n, c, r))
    case InRight(up, n, c, l) => Plug(up, Bin(l, n, c, t))
  }

  ghost function Length(p: Path): nat {
    if p.Top? then 0 else 1 + Length(p.up)
  }

  /** The path that goes down `base` and then down `rel`. */
  ghost function Compose(base: Path, rel: Path): Path {
    match rel
    case Top => base
    case InLeft(up, n, c, r) => InLeft(Compose(base, up), n, c, r)
    case InRight(up, n, c, l) => InRight(Compose(base, up), n, c, l)
  }

  // ----- Disjointness

  ghost predicate Distinct(t: Tree) {
    t.Bin? ==>
      && t.node !in Nodes(t.left) && t.node !in Nodes(t.right)
      && Nodes(t.left) !! Nodes(t.right)
      && Distinct(t.left) && Distinct(t.right)
  }

  ghost predicate PathDistinct(p: Path) {
    match p
    case Top => true
    case InLeft(up, n, _, r) =>
      && n !in PathNodes(up) && n !in Nodes(r) && PathNodes(up) !! Nodes(r)
      && Distinct(r) && PathDistinct(up)
    case InRight(up, n, _, l) =>
      && n !in PathNodes(up) && n !in Nodes(l) && PathNodes(up) !! Nodes(l)
      && Distinct(l) && PathDistinct(up)
  }

  ghost predicate Apart(p: Path, t: Tree) {
    PathDistinct(p) && Distinct(t) && PathNodes(p) !! Nodes(t)
  }

  // ----- Order

  ghost function Inorder(t: Tree): seq<Node> {
    match t
    case Nil => []
    case Bin(l, n, _, r) => Inorder(l) + [n] + Inorder(r)
  }

  ghost function Before(p: Path): seq<Node> {
    match p
    case Top => []
    case InLeft(up, _, _, _) => Before(up)
    case InRight(up, n, _, l) => Before(up) + Inorder(l) + [n]
  }

  ghost function After(p: Path): seq<Node> {
    match p
    case Top => []
    case InLeft(up, n, _, r) => [n] + Inorder(r) + After(up)
    case InRight(up, _, _, _) => After(up)
  }

  ghost function Sequence(p: Path, t: Tree): seq<Node> {
    Before(p) + Inorder(t) + After(p)
  }

  // ----- Colour

  ghost predicate IsRed(t: Tree) {
    t.Bin? && t.color == Red
  }

  ghost function Weight(c: Color): nat {
    if c == Black then 1 else 0
  }

  ghost function BlackHeight(t: Tree): nat {
    if t.Nil? then 0 else BlackHeight(t.left) + Weight(t.color)
  }

  ghost predicate RedBlack(t: Tree) {
    t.Bin? ==>
      && RedBlack(t.left) && RedBlack(t.right)
      && BlackHeight(t.left) == BlackHeight(t.right)
      && (t.color == Red ==> !IsRed(t.left) && !IsRed(t.right))
  }

  ghost predicate UnderBlack(p: Path) {
    !p.Top? && p.color == Black
  }

  /** `p` is a red-black tree around a hole that expects black height `h`. */
  ghost predicate PathRedBlack(p: Path, h: nat) {
    match p
    case Top => true
    case InLeft(up, _, c, r) =>
      && RedBlack(r) && BlackHeight(r) == h
      && (c == Red ==> !IsRed(r) && UnderBlack(up))
      && PathRedBlack(up, h + Weight(c))
    case InRight(up, _, c, l) =>
      && RedBlack(l) && BlackHeight(l) == h
      && (c == Red ==> !IsRed(l) && UnderBlack(up))
      && PathRedBlack(up, h + Weight(c))
  }

  /** `Plug(p, t)` is a red-black tree with a black root. */
  ghost predicate Fits(p: Path, t: Tree) {
    RedBlack(t) && PathRedBlack(p, BlackHeight(t)) && (IsRed(t) ==> UnderBlack(p))
  }

  // ----- Moving the focus

  /** The tree around the hole of `p`, one level up, when the hole is filled by `t`. */
  ghost function Around(p: Path, t: Tree): Tree
    requires !p.Top?
  {
    if p.InLeft? then Bin(t, p.node, p.color, p.right) else Bin(p.left, p.node, p.color, t)
  }

  lemma {:induction false} UpColors(p: Path, t: Tree)
    requires !p.Top?
    ensures Fits(p, t) <==> Fits(p.up, Around(p, t))
  {
  }

  lemma {:induction false} UpSequence(p: Path, t: Tree)
    requires !p.Top?
    ensures Sequence(p, t) == Sequence(p.up, Around(p, t))
  {
    if p.InLeft? {
      assert After(p) == [p.node] + Inorder(p.right) + After(p.up);
    }
  }

  lemma {:induction false} UpNodes(p: Path, t: Tree)
    requires !p.Top?
    ensures PathNodes(p) + Nodes(t) == PathNodes(p.up) + Nodes(Around(p, t))
    ensures RootPtr(p, Ptr(t)) == RootPtr(p.up, Ptr(Around(p, t)))
  {
  }

  lemma {:induction false} UpFits(p: Path, t: Tree)
    requires !p.Top?
    ensures Fits(p, t) <==> Fits(p.up, Around(p, t))
    ensures Sequence(p, t) == Sequence(p.up, Around(p, t))
    ensures PathNodes(p) + Nodes(t) == PathNodes(p.up) + Nodes(Around(p, t))
    ensures RootPtr(p, Ptr(t)) == RootPtr(p.up, Ptr(Around(p, t)))
  {
    hide Fits, Sequence, PathNodes, Nodes, RootPtr, Around;
    UpColors(p, t);
    UpSequence(p, t);
    UpNodes(p, t);
  }

  /** The whole tree seen from the top is the tree seen from the focus. */
  lemma {:induction false} ZipFits(p: Path, t: Tree)
    ensures Fits(p, t) <==> Fits(Top, Plug(p, t))
    ensures Sequence(p, t) == Inorder(Plug(p, t))
    ensures PathNodes(p) + Nodes(t) == Nodes(Plug(p, t))
    decreases Length(p)
  {
    if p.Top? {
      assert Sequence(p, t) == Inorder(t);
    } else {
      UpFits(p, t);
      ZipFits(p.up, Around(p, t));
    }
  }

  // ----- The stored map

  ghost predicate Sorted(s: seq<Node>) {
    forall i, j :: 0 <= i < j < |s| ==> s[i].key < s[j].key
  }

  ghost predicate AllBelow(s: seq<Node>, key: int) {
    forall i :: 0 <= i < |s| ==> s[i].key < key
  }

  ghost predicate AllAbove(s: seq<Node>, key: int) {
    forall i :: 0 <= i < |s| ==> key < s[i].key
  }

  lemma {:induction false} SortedSplit(s: seq<Node>, a: seq<Node>, n: Node, b: seq<Node>)
    requires Sorted(s) && s == a + [n] + b
    ensures AllBelow(a, n.key) && AllAbove(b, n.key)
  {
    assert s[|a|] == n && s[..|a|] == a && s[|a| + 1..] == b;
  }

  lemma {:induction false} SortedJoin(a: seq<Node>, n: Node, b: seq<Node>)
    requires Sorted(a + b) && AllBelow(a, n.key) && AllAbove(b, n.key)
    ensures Sorted(a + [n] + b)
  {
    var s := a + [n] + b;
    forall i, j | 0 <= i < j < |s| ensures s[i].key < s[j].key {
      var i', j' := if i < |a| then i else i - 1, if j <= |a| then j else j - 1;
      assert i != |a| ==> s[i] == (a + b)[i'];
      assert j != |a| ==> s[j] == if j < |a| then (a + b)[j] else (a + b)[j'];
    }
  }

  lemma {:induction false} SortedCut(a: seq<Node>, n: Node, b: seq<Node>)
    requires Sorted(a + [n] + b)
    ensures Sorted(a + b)
  {
    var s := a + [n] + b;
    forall i, j | 0 <= i < j < |a + b| ensures (a + b)[i].key < (a + b)[j].key {
      var i', j' := if i < |a| then i else i + 1, if j < |a| then j else j + 1;
      assert (a + b)[i] == s[i'] && (a + b)[j] == s[j'];
    }
  }

  /** The sequence at a non-empty focus, split at the focus node. */
  lemma {:induction false} SequenceSplit(p: Path, t: Tree)
    requires t.Bin?
    ensures Sequence(p, t) == (Before(p) + Inorder(t.left)) + [t.node] + (Inorder(t.right) + After(p))
  {
  }

  ghost function MapOf(s: seq<Node>): map<int, int> {
    if s == [] then map[] else MapOf(s[..|s| - 1])[s[|s| - 1].key := s[|s| - 1].data]
  }

  lemma {:induction false} MapOfConcat(a: seq<Node>, b: seq<Node>)
    ensures MapOf(a + b) == MapOf(a) + MapOf(b)
  {
    if b == [] {
      assert a + b == a;
    } else {
      var n := |b| - 1;
      MapOfConcat(a, b[..n]);
      assert (a + b)[..|a + b| - 1] == a + b[..n] && (a + b)[|a + b| - 1] == b[n];
    }
  }

  lemma {:induction false} MapOfKeys(s: seq<Node>, key: int)
    ensures AllBelow(s, key) || AllAbove(s, key) ==> key !in MapOf(s)
  {
    if s != [] { MapOfKeys(s[..|s| - 1], key); }
  }

  /** A node between smaller and larger keys contributes exactly its own binding. */
  lemma {:induction false} MapOfSplit(a: seq<Node>, n: Node, b: seq<Node>)
    requires AllBelow(a, n.key) && AllAbove(b, n.key)
    ensures MapOf(a + [n] + b) == MapOf(a + b)[n.key := n.data]
    ensures MapOf(a + b) == MapOf(a + [n] + b) - {n.key}
    ensures n.key !in MapOf(a + b)
  {
    MapOfConcat(a + [n], b);
    MapOfConcat(a, [n]);
    MapOfConcat(a, b);
    MapOfKeys(a, n.key);
    MapOfKeys(b, n.key);
    assert MapOf([n]) == map[n.key := n.data];
  }
}
