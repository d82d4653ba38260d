/**
 The rebalancing loop after an insertion.
 */
module RedBlackInsert {
  import opened RedBlackShape
  import opened RedBlackLinks
  import opened RedBlackRelink

  /**
   Everything is in order except that the red root of `t` may be the root of the whole tree
   or the child of a red node.
   */
  ghost predicate TooRed(p: Path, t: Tree) {
    IsRed(t) && RedBlack(t) && PathRedBlack(p, BlackHeight(t))
  }

  lemma {:induction false} RedParent(p: Path, t: Tree)
    requires TooRed(p, t) && !p.Top? && p.color == Red
    ensures UnderBlack(p.up)
  {
  }

  lemma {:induction false} FlippedColors(p: Path, t: Tree)
    requires !p.Top? && !p.up.Top? && TooRed(p, t) && p.color == Red
    requires var g := Around(p.up, Around(p, t)); IsRed(g.left) && IsRed(g.right)
    ensures TooRed(p.up.up, Flipped(Around(p.up, Around(p, t))))
  {
    var g, h := Around(p.up, Around(p, t)), BlackHeight(t);
    var l, r := Blackened(g.left), Blackened(g.right);
    assert PathRedBlack(p.up, h) && PathRedBlack(p.up.up, h + 1);
    assert BlackHeight(l) == h + 1 && RedBlack(l);
    assert BlackHeight(r) == h + 1 && RedBlack(r);
  }

  lemma {:induction false} FlippedNodes(p: Path, t: Tree)
    requires !p.Top? && !p.up.Top?
    requires var g := Around(p.up, Around(p, t)); g.left.Bin? && g.right.Bin?
    ensures SameNodes(p, t, p.up.up, Flipped(Around(p.up, Around(p, t))))
  {
    var s := Around(p, t);
    var g := Around(p.up, s);
    UpFits(p, t);
    UpFits(p.up, s);
    FlippedSame(g);
  }

  lemma {:induction false} FlippedSame(g: Tree)
    requires g.Bin? && g.left.Bin? && g.right.Bin?
    ensures Inorder(Flipped(g)) == Inorder(g) && Nodes(Flipped(g)) == Nodes(g)
  {
    BlackenedSame(g.left);
    BlackenedSame(g.right);
  }

  lemma {:induction false} BlackenedSame(t: Tree)
    requires t.Bin?
    ensures Inorder(Blackened(t)) == Inorder(t) && Nodes(Blackened(t)) == Nodes(t)
  {
  }

  /** The left-leaning parent subtree once a right-leaning one has been straightened. */
  ghost function StraightLeft(p: Path, t: Tree): Tree
    requires !p.Top? && t.Bin?
  {
    if p.InLeft? then Around(p, t) else RotatedLeft(Around(p, t))
  }

  lemma {:induction false} RightRotationFits(p: Path, t: Tree)
    requires !p.Top? && p.up.InLeft? && TooRed(p, t) && p.color == Red && !IsRed(p.up.right)
    ensures var s, g := StraightLeft(p, t), p.up;
      && s.Bin? && s.left.Bin?
      && var q := InLeft(g.up, s.node, Black, Bin(s.right, g.node, Red, g.right));
      && RotatedRight(Bin(Blackened(s), g.node, Red, g.right)) == Around(q, s.left)
      && TooRed(q, s.left)
  {
    var s, g, h := StraightLeft(p, t), p.up, BlackHeight(t);
    assert PathRedBlack(g, h) && PathRedBlack(g.up, h + 1);
    assert RedBlack(s.left) && BlackHeight(s.left) == h && RedBlack(s.right) && BlackHeight(s.right) == h;
    assert RedBlack(Bin(s.right, g.node, Red, g.right));
  }

  lemma {:induction false} RightRotationNodes(p: Path, t: Tree)
    requires !p.Top? && p.up.InLeft? && t.Bin?
    requires StraightLeft(p, t).left.Bin?
    ensures var s, g := StraightLeft(p, t), p.up;
      SameNodes(p, t, g.up, RotatedRight(Bin(Blackened(s), g.node, Red, g.right)))
  {
    var s, g, a := StraightLeft(p, t), p.up, Around(p, t);
    UpFits(p, t);
    UpFits(g, a);
    if p.InRight? { RotatedLeftOrder(a); }
    RotatedRightOrder(Bin(Blackened(s), g.node, Red, g.right));
    assert Inorder(Blackened(s)) == Inorder(a) && Nodes(Blackened(s)) == Nodes(a);
  }

  /** The right-leaning parent subtree once a left-leaning one has been straightened. */
  ghost function StraightRight(p: Path, t: Tree): Tree
    requires !p.Top? && t.Bin?
  {
    if p.InRight? then Around(p, t) else RotatedRight(Around(p, t))
  }

  lemma {:induction false} LeftRotationFits(p: Path, t: Tree)
    requires !p.Top? && p.up.InRight? && TooRed(p, t) && p.color == Red && !IsRed(p.up.left)
    ensures var s, g := StraightRight(p, t), p.up;
      && s.Bin? && s.right.Bin?
      && var q := InRight(g.up, s.node, Black, Bin(g.left, g.node, Red, s.left));
      && RotatedLeft(Bin(g.left, g.node, Red, Blackened(s))) == Around(q, s.right)
      && TooRed(q, s.right)
  {
    var s, g, h := StraightRight(p, t), p.up, BlackHeight(t);
    assert PathRedBlack(g, h) && PathRedBlack(g.up, h + 1);
    assert RedBlack(s.left) && BlackHeight(s.left) == h && RedBlack(s.right) && BlackHeight(s.right) == h;
    assert RedBlack(Bin(g.left, g.node, Red, s.left));
  }

  lemma {:induction false} LeftRotationNodes(p: Path, t: Tree)
    requires !p.Top? && p.up.InRight? && t.Bin?
    requires StraightRight(p, t).right.Bin?
    ensures var s, g := StraightRight(p, t), p.up;
      SameNodes(p, t, g.up, RotatedLeft(Bin(g.left, g.node, Red, Blackened(s))))
  {
    var s, g, a := StraightRight(p, t), p.up, Around(p, t);
    UpFits(p, t);
    UpFits(g, a);
    if p.InLeft? { RotatedRightOrder(a); }
    RotatedLeftOrder(Bin(g.left, g.node, Red, Blackened(s)));
    assert Inorder(Blackened(s)) == Inorder(a) && Nodes(Blackened(s)) == Nodes(a);
  }

  /** One turn of the loop when the parent is a left child. */
  method InsertStepLeft(node: Node, parent: Node, gparent: Node, root: Node?, ghost p: Path, ghost t: Tree)
    returns (newNode: Node, newRoot: Node?, ghost q: Path, ghost s: Tree)
    requires Heap(p, t, root) && TooRed(p, t) && t.node == node
    requires !p.Top? && p.node == parent && p.color == Red && p.up.InLeft? && p.up.node == gparent
    modifies PathNodes(p), Nodes(t)
    ensures Heap(q, s, newRoot) && TooRed(q, s) && s.node == newNode
    ensures SameNodes(p, t, q, s) && Length(q) < Length(p)
  {
    ParentView(p, t, root);
    newNode, newRoot := node, root;
    ghost var gp, u, a := p.up.up, p.up.right, Around(p, t);
    Up(p, t, root);
    Up(p.up, a, root);
    AtFocus(gp, Around(p.up, a), root);
    var uncle := gparent.right;
    if uncle != null {
      Up(InRight(gp, gparent, Black, a), u, root);
      AtFocus(InRight(gp, gparent, Black, a), u, root);
    }
    hide Heap, TooRed, Sequence, Apart, Inorder;
    if uncle != null && uncle.color == Red {
      q, s := gp, Flipped(Around(p.up, a));
      FlippedColors(p, t);
      FlippedNodes(p, t);
      FlipColorsAt(parent, gparent, uncle, root, gp, Around(p.up, a));
      newNode := gparent;
    } else {
      newNode, newRoot, q, s := InsertRotateRight(node, parent, gparent, root, p, t);
    }
  }

  method InsertRotateRight(node: Node, parent: Node, gparent: Node, root: Node?, ghost p: Path, ghost t: Tree)
    returns (newNode: Node, newRoot: Node?, ghost q: Path, ghost s: Tree)
    requires Heap(p, t, root) && TooRed(p, t) && t.node == node
    requires !p.Top? && p.node == parent && p.color == Red && p.up.InLeft? && p.up.node == gparent
    requires !IsRed(p.up.right)
    modifies PathNodes(p), Nodes(t)
    ensures Heap(q, s, newRoot) && TooRed(q, s) && s.node == newNode
    ensures SameNodes(p, t, q, s) && Length(q) < Length(p)
  {
    ParentView(p, t, root);
    newNode, newRoot := node, root;
    ghost var gp, u, straight := p.up.up, p.up.right, StraightLeft(p, t);
    ghost var g := Bin(Blackened(straight), gparent, Black, u);
    q, s := InLeft(gp, straight.node, Black, Bin(straight.right, gparent, Red, u)), straight.left;
    RightRotationFits(p, t);
    RightRotationNodes(p, t);
    Up(p, t, root);
    UpFits(q, s);
    hide Heap, TooRed, Sequence, Apart, Inorder;
    var y := parent;
    if parent.right == node {
      newRoot := RotateLeftAt(parent, newRoot, p.up, Around(p, t));
      newNode, y := parent, node;
    }
    PaintAt(y, Black, newRoot, p.up, straight);
    Up(p.up, Blackened(straight), newRoot);
    PaintAt(gparent, Red, newRoot, gp, g);
    newRoot := RotateRightAt(gparent, newRoot, gp, g.(color := Red));
    Up(q, s, newRoot);
  }

  /** One turn of the loop when the parent is a right child. */
  method InsertStepRight(node: Node, parent: Node, gparent: Node, root: Node?, ghost p: Path, ghost t: Tree)
    returns (newNode: Node, newRoot: Node?, ghost q: Path, ghost s: Tree)
    requires Heap(p, t, root) && TooRed(p, t) && t.node == node
    requires !p.Top? && p.node == parent && p.color == Red && p.up.InRight? && p.up.node == gparent
    modifies PathNodes(p), Nodes(t)
    ensures Heap(q, s, newRoot) && TooRed(q, s) && s.node == newNode
    ensures SameNodes(p, t, q, s) && Length(q) < Length(p)
  {
    ParentView(p, t, root);
    newNode, newRoot := node, root;
    ghost var gp, u, a := p.up.up, p.up.left, Around(p, t);
    Up(p, t, root);
    Up(p.up, a, root);
    AtFocus(gp, Around(p.up, a), root);
    var uncle := gparent.left;
    if uncle != null {
      Up(InLeft(gp, gparent, Black, a), u, root);
      AtFocus(InLeft(gp, gparent, Black, a), u, root);
    }
    hide Heap, TooRed, Sequence, Apart, Inorder;
    if uncle != null && uncle.color == Red {
      q, s := gp, Flipped(Around(p.up, a));
      FlippedColors(p, t);
      FlippedNodes(p, t);
      FlipColorsAt(parent, gparent, uncle, root, gp, Around(p.up, a));
      newNode := gparent;
    } else {
      newNode, newRoot, q, s := InsertRotateLeft(node, parent, gparent, root, p, t);
    }
  }

  method InsertRotateLeft(node: Node, parent: Node, gparent: Node, root: Node?, ghost p: Path, ghost t: Tree)
    returns (newNode: Node, newRoot: Node?, ghost q: Path, ghost s: Tree)
    requires Heap(p, t, root) && TooRed(p, t) && t.node == node
    requires !p.Top? && p.node == parent && p.color == Red && p.up.InRight? && p.up.node == gparent
    requires !IsRed(p.up.left)
    modifies PathNodes(p), Nodes(t)
    ensures Heap(q, s, newRoot) && TooRed(q, s) && s.node == newNode
    ensures SameNodes(p, t, q, s) && Length(q) < Length(p)
  {
    ParentView(p, t, root);
    newNode, newRoot := node, root;
    ghost var gp, u, straight := p.up.up, p.up.left, StraightRight(p, t);
    ghost var g := Bin(u, gparent, Black, Blackened(straight));
    q, s := InRight(gp, straight.node, Black, Bin(u, gparent, Red, straight.left)), straight.right;
    LeftRotationFits(p, t);
    LeftRotationNodes(p, t);
    Up(p, t, root);
    UpFits(q, s);
    hide Heap, TooRed, Sequence, Apart, Inorder;
    var y := parent;
    if parent.left == node {
      newRoot := RotateRightAt(parent, newRoot, p.up, Around(p, t));
      newNode, y := parent, node;
    }
    PaintAt(y, Black, newRoot, p.up, straight);
    Up(p.up, Blackened(straight), newRoot);
    PaintAt(gparent, Red, newRoot, gp, g);
    newRoot := RotateLeftAt(gparent, newRoot, gp, g.(color := Red));
    Up(q, s, newRoot);
  }

  method InsertRebalance(start: Node, oldRoot: Node, ghost p0: Path, ghost t0: Tree)
    returns (root: Node?, ghost t: Tree)
    requires Heap(p0, t0, oldRoot) && TooRed(p0, t0) && t0.node == start
    modifies PathNodes(p0), Nodes(t0)
    ensures Heap(Top, t, root) && Fits(Top, t)
    ensures Inorder(t) == Sequence(p0, t0) && Nodes(t) == PathNodes(p0) + Nodes(t0)
  {
    hide Heap, Apart, Sequence, RedBlack, PathRedBlack, BlackHeight;
    var node := start;
    root := oldRoot;
    ghost var p;
    p, t := p0, t0;
    ParentView(p, t, root);
    while node.parent != null && node.parent.color == Red
      invariant Heap(p, t, root) && TooRed(p, t) && t.node == node
      invariant root != null && node.parent == ParentPtr(p) && (!p.Top? ==> p.node.color == p.color)
      invariant SameNodes(p0, t0, p, t)
      decreases Length(p)
    {
      var parent := node.parent;
      var gparent := parent.parent;
      RedParent(p, t);
      ParentView(p, t, root);
      Up(p, t, root);
      ParentView(p.up, Around(p, t), root);
      if parent == gparent.left {
        node, root, p, t := InsertStepLeft(node, parent, gparent, root, p, t);
      } else {
        node, root, p, t := InsertStepRight(node, parent, gparent, root, p, t);
      }
      ParentView(p, t, root);
    }
    ParentView(p, t, root);
    assert p.Top? || Fits(p, t);
    t := BlackenRoot(root, p, t);
  }
}
