/**
 Unlinking a key's node from the red-black tree, before the tree is rebalanced.
 */
module RedBlackRemove {
  import opened RedBlackShape
  import opened RedBlackLinks
  import opened RedBlackErase
  import opened RedBlackSplice

  // ----- Paths below paths

  lemma {:induction false} ZipBelow(base: Path, rel: Path, t: Tree, root: Node?)
    ensures Heap(Compose(base, rel), t, root) <==> Heap(base, Plug(rel, t), root)
    ensures Fits(Compose(base, rel), t) <==> Fits(base, Plug(rel, t))
    ensures PathNodes(Compose(base, rel)) + Nodes(t) == PathNodes(base) + Nodes(Plug(rel, t))
    decreases rel
  {
    if !rel.Top? {
      Up(Compose(base, rel), t, root);
      ZipBelow(base, rel.up, Around(rel, t), root);
    }
  }

  lemma {:induction false} ComposeOrder(base: Path, rel: Path)
    ensures Before(Compose(base, rel)) == Before(base) + Before(rel)
    ensures After(Compose(base, rel)) == After(rel) + After(base)
  {
    if !rel.Top? { ComposeOrder(base, rel.up); }
  }

  /** Replacing a node of a path by another node of the same colour. */
  lemma {:induction false} ComposeColors(p: Path, q: Path, rel: Path, h: nat)
    requires p.InRight? && q.InRight? && p.up == q.up && p.color == q.color && p.left == q.left
    ensures PathRedBlack(Compose(p, rel), h) <==> PathRedBlack(Compose(q, rel), h)
    ensures UnderBlack(Compose(p, rel)) <==> UnderBlack(Compose(q, rel))
    decreases rel
  {
    if !rel.Top? { ComposeColors(p, q, rel.up, h + Weight(rel.color)); }
  }

  // ----- The successor

  /** A path that only goes left. */
  ghost predicate LeftSpine(rel: Path) {
    rel.Top? || (rel.InLeft? && LeftSpine(rel.up))
  }

  lemma {:induction false} LeftSpineBefore(rel: Path)
    requires LeftSpine(rel)
    ensures Before(rel) == []
  {
    if !rel.Top? { LeftSpineBefore(rel.up); }
  }

  method Successor(gone: Node, root: Node?, ghost base: Path, ghost t: Tree)
    returns (node: Node, ghost rel: Path, ghost f: Tree)
    requires base.InRight? && base.node == gone && t.Bin? && Heap(base, t, root)
    ensures Heap(Compose(base, rel), f, root) && Plug(rel, f) == t && LeftSpine(rel)
    ensures f.Bin? && f.left.Nil? && f.node == node
  {
    Up(base, t, root);
    AtFocus(base.up, Around(base, t), root);
    node := gone.right;
    rel, f := Top, t;
    AtFocus(base, t, root);
    while node.left != null
      invariant Heap(Compose(base, rel), f, root) && Plug(rel, f) == t && LeftSpine(rel)
      invariant f.Bin? && f.node == node && node.left == Ptr(f.left)
      decreases f
    {
      node := node.left;
      rel, f := InLeft(rel, f.node, f.color, f.right), f.left;
      Up(Compose(base, rel), f, root);
      AtFocus(Compose(base, rel), f, root);
    }
  }

  // ----- Unlinking

  /** What is left for the rebalancing loop once `t`'s root node is unlinked. */
  ghost predicate Unlinked(p: Path, t: Tree, color: Color, q: Path, x: Tree)
    requires t.Bin?
  {
    && (if color == Black then TooLight(q, x) else Fits(q, x))
    && Sequence(q, x) == (Before(p) + Inorder(t.left)) + (Inorder(t.right) + After(p))
    && PathNodes(q) + Nodes(x) == PathNodes(p) + Nodes(t) - {t.node}
  }

  lemma {:induction false} UnlinkedOnly(p: Path, t: Tree)
    requires t.Bin? && (t.left.Nil? || t.right.Nil?) && Fits(p, t) && Apart(p, t)
    ensures Unlinked(p, t, t.color, p, OnlyChild(t))
  {
    UnlinkedOnlyColors(p, t);
    var x := OnlyChild(t);
    hide Fits, TooLight;
    assert Before(p) + Inorder(x) + After(p) == (Before(p) + Inorder(t.left)) + (Inorder(t.right) + After(p));
  }

  lemma {:induction false} UnlinkedOnlyColors(p: Path, t: Tree)
    requires t.Bin? && (t.left.Nil? || t.right.Nil?) && Fits(p, t)
    ensures if t.color == Black then TooLight(p, OnlyChild(t)) else Fits(p, OnlyChild(t))
  {
    var x := OnlyChild(t);
    assert RedBlack(x) && RedBlack(Rooted(x)) && BlackHeight(x) + Weight(t.color) == BlackHeight(t);
  }

  method UnlinkOnly(node: Node, root: Node?, ghost p: Path, ghost t: Tree)
    returns (child: Node?, parent: Node?, color: Color, newRoot: Node?, ghost x: Tree)
    requires Heap(p, t, root) && Fits(p, t) && t.Bin? && (t.left.Nil? || t.right.Nil?) && t.node == node
    modifies PathNodes(p), Nodes(t)
    ensures Heap(p, x, newRoot) && child == Ptr(x) && parent == ParentPtr(p) && Unlinked(p, t, color, p, x)
  {
    UnlinkedOnly(p, t);
    AtFocus(p, t, root);
    hide Heap, Fits, Unlinked;
    if node.left == null {
      child := node.right;
    } else {
      child := node.left;
    }
    parent := node.parent;
    color := node.color;
    x := OnlyChild(t);
    newRoot := SpliceAt(node, child, parent, root, p, t);
  }

  lemma {:induction false} UnlinkedTwoColors(p: Path, t: Tree, rel: Path, f: Tree)
    requires t.Bin? && Fits(p, t)
    requires f.Bin? && f.left.Nil? && Plug(rel, f) == t.right
    ensures var q := Compose(InRight(p, f.node, t.color, t.left), rel);
      if f.color == Black then TooLight(q, f.right) else Fits(q, f.right)
  {
    hide Sequence, PathNodes, Nodes, RootPtr, Plug, Compose;
    var base := InRight(p, t.node, t.color, t.left);
    UpFits(base, t.right);
    BelowFits(base, rel, f);
    ComposeColors(base, InRight(p, f.node, t.color, t.left), rel, BlackHeight(f));
    assert BlackHeight(f.right) == 0 && RedBlack(f.right) && RedBlack(Rooted(f.right));
  }

  lemma {:induction false} BelowFits(base: Path, rel: Path, t: Tree)
    ensures Fits(Compose(base, rel), t) <==> Fits(base, Plug(rel, t))
    ensures Sequence(Compose(base, rel), t) == Sequence(base, Plug(rel, t))
    ensures PathNodes(Compose(base, rel)) + Nodes(t) == PathNodes(base) + Nodes(Plug(rel, t))
    decreases rel
  {
    if !rel.Top? {
      UpFits(Compose(base, rel), t);
      BelowFits(base, rel.up, Around(rel, t));
    }
  }

  lemma {:induction false} PlugOrder(rel: Path, f: Tree)
    requires f.Bin? && f.left.Nil? && LeftSpine(rel)
    ensures Inorder(Plug(rel, f)) == [f.node] + Inorder(f.right) + After(rel)
  {
    ZipFits(rel, f);
    LeftSpineBefore(rel);
    assert Inorder(f) == [f.node] + Inorder(f.right);
  }

  lemma {:induction false} ComposeNodes(base: Path, rel: Path)
    ensures PathNodes(Compose(base, rel)) == PathNodes(base) + PathNodes(rel)
  {
    if !rel.Top? { ComposeNodes(base, rel.up); }
  }

  lemma {:induction false} UnlinkedTwoNodes(p: Path, t: Tree, rel: Path, f: Tree)
    requires t.Bin? && Apart(p, t) && f.Bin? && f.left.Nil? && Plug(rel, f) == t.right
    ensures PathNodes(Compose(InRight(p, f.node, t.color, t.left), rel)) + Nodes(f.right) ==
            PathNodes(p) + Nodes(t) - {t.node}
  {
    ComposeNodes(InRight(p, f.node, t.color, t.left), rel);
    ZipFits(rel, f);
  }

  lemma {:induction false} UnlinkedTwoOrder(p: Path, t: Tree, rel: Path, f: Tree)
    requires t.Bin? && f.Bin? && f.left.Nil? && Plug(rel, f) == t.right && LeftSpine(rel)
    ensures Sequence(Compose(InRight(p, f.node, t.color, t.left), rel), f.right) ==
            (Before(p) + Inorder(t.left)) + (Inorder(t.right) + After(p))
  {
    var q := InRight(p, f.node, t.color, t.left);
    ComposeOrder(q, rel);
    LeftSpineBefore(rel);
    PlugOrder(rel, f);
    assert Before(q) == Before(p) + Inorder(t.left) + [f.node] && After(q) == After(p);
    hide Inorder, Before, After, Plug, Compose;
    Regroup(Before(p) + Inorder(t.left), f.node, Inorder(f.right), After(rel), After(p));
  }

  lemma {:induction false} Regroup(a: seq<Node>, n: Node, b: seq<Node>, c: seq<Node>, d: seq<Node>)
    ensures (a + [n]) + [] + b + (c + d) == a + (([n] + b + c) + d)
  {
  }

  lemma {:induction false} UnlinkedTwo(p: Path, t: Tree, rel: Path, f: Tree)
    requires t.Bin? && t.right.Bin? && Fits(p, t) && Apart(p, t)
    requires f.Bin? && f.left.Nil? && Plug(rel, f) == t.right && LeftSpine(rel)
    ensures Unlinked(p, t, f.color, Compose(InRight(p, f.node, t.color, t.left), rel), f.right)
  {
    UnlinkedTwoColors(p, t, rel, f);
    UnlinkedTwoOrder(p, t, rel, f);
    UnlinkedTwoNodes(p, t, rel, f);
  }

  method UnlinkTwo(gone: Node, root: Node?, ghost p: Path, ghost t: Tree)
    returns (child: Node?, parent: Node?, color: Color, newRoot: Node?, ghost q: Path, ghost x: Tree)
    requires Heap(p, t, root) && Fits(p, t) && t.Bin? && t.left.Bin? && t.right.Bin? && t.node == gone
    modifies PathNodes(p), Nodes(t)
    ensures Heap(q, x, newRoot) && child == Ptr(x) && parent == ParentPtr(q) && Unlinked(p, t, color, q, x)
  {
    assert Apart(p, t);
    hide Heap, Fits, Unlinked, Inorder, Sequence, Apart;
    ghost var base := InRight(p, gone, t.color, t.left);
    Up(base, t.right, root);
    var node;
    ghost var rel, f;
    node, rel, f := Successor(gone, root, base, t.right);
    UnlinkedTwo(p, t, rel, f);
    ZipBelow(base, rel, f, root);
    AtFocus(Compose(base, rel), f, root);
    child := node.right;
    parent := node.parent;
    color := node.color;
    newRoot := SpliceAt(node, child, parent, root, Compose(base, rel), f);
    if node.parent == gone {
      parent := node;
    }
    x := f.right;
    ghost var rest := Bin(t.left, gone, t.color, Plug(rel, x));
    ZipBelow(base, rel, x, newRoot);
    Up(base, Plug(rel, x), newRoot);
    newRoot := TakeOverAt(node, gone, newRoot, p, rest);
    q := Compose(InRight(p, node, t.color, t.left), rel);
    Up(InRight(p, node, t.color, t.left), Plug(rel, x), newRoot);
    ZipBelow(InRight(p, node, t.color, t.left), rel, x, newRoot);
  }
}
