/**
 The rebalancing loop after a removal.
 */
module RedBlackErase {
  import opened RedBlackShape
  import opened RedBlackLinks
  import opened RedBlackRelink

  /** The tree with its root painted black. */
  ghost function Rooted(t: Tree): Tree {
    if t.Nil? then t else Blackened(t)
  }

  /**
   `t` is a red-black tree, up to the colour of its root, and everything around it is in
   order except that its black height is one too small.
   */
  ghost predicate TooLight(p: Path, t: Tree) {
    RedBlack(Rooted(t)) && PathRedBlack(p, BlackHeight(t) + 1)
  }

  // ----- The sibling of the focus

  ghost function Sibling(p: Path): Tree
    requires !p.Top?
  {
    if p.InLeft? then p.right else p.left
  }

  /** The path to the sibling, when the focus holds `t`. */
  ghost function Sideways(p: Path, t: Tree): Path
    requires !p.Top?
  {
    if p.InLeft? then InRight(p.up, p.node, p.color, t) else InLeft(p.up, p.node, p.color, t)
  }

  lemma {:induction false} Across(p: Path, t: Tree, root: Node?)
    requires !p.Top?
    ensures Heap(p, t, root) <==> Heap(Sideways(p, t), Sibling(p), root)
    ensures PathNodes(p) + Nodes(t) == PathNodes(Sideways(p, t)) + Nodes(Sibling(p))
  {
    Up(p, t, root);
    Up(Sideways(p, t), Sibling(p), root);
  }

  /** Repainting the sibling keeps the nodes and their order. */
  lemma {:induction false} SiblingPaint(p: Path, t: Tree, c: Color)
    requires !p.Top? && Sibling(p).Bin?
    ensures var s := Sibling(p).(color := c);
      var g := Around(Sideways(p, t), s);
      Inorder(g) == Inorder(Around(p, t)) && Nodes(g) == Nodes(Around(p, t))
  {
  }

  /** The pointers and colours around the sibling. */
  lemma {:induction false} SiblingView(p: Path, t: Tree, root: Node?)
    requires Heap(p, t, root) && !p.Top? && Sibling(p).Bin?
    ensures var o := Sibling(p);
      && CellOf(p.node) == Cell(if p.InLeft? then Ptr(t) else o.node, if p.InLeft? then o.node else Ptr(t),
                                ParentPtr(p.up), p.color)
      && CellOf(o.node) == Cell(Ptr(o.left), Ptr(o.right), p.node, o.color)
      && (o.left.Bin? ==> o.left.node.color == o.left.color)
      && (o.right.Bin? ==> o.right.node.color == o.right.color)
  {
    var o, side := Sibling(p), Sideways(p, t);
    Up(p, t, root);
    AtFocus(p.up, Around(p, t), root);
    Across(p, t, root);
    AtFocus(side, o, root);
    if o.left.Bin? {
      Up(InLeft(side, o.node, o.color, o.right), o.left, root);
      AtFocus(InLeft(side, o.node, o.color, o.right), o.left, root);
    }
    if o.right.Bin? {
      Up(InRight(side, o.node, o.color, o.left), o.right, root);
      AtFocus(InRight(side, o.node, o.color, o.left), o.right, root);
    }
  }

  /** Replacing the sibling by a tree with the same nodes in the same order. */
  lemma {:induction false} SiblingSwap(p: Path, t: Tree, q: Path)
    requires !p.Top? && !q.Top? && p.up == q.up && p.node == q.node && (p.InLeft? <==> q.InLeft?)
    requires Inorder(Sibling(p)) == Inorder(Sibling(q)) && Nodes(Sibling(p)) == Nodes(Sibling(q))
    ensures SameNodes(p, t, q, t)
  {
  }

  lemma {:induction false} HasSibling(p: Path, t: Tree)
    requires !p.Top? && TooLight(p, t)
    ensures Sibling(p).Bin?
  {
  }

  lemma {:induction false} BlackNephewsColors(p: Path, t: Tree)
    requires TooLight(p, t) && !IsRed(t) && !p.Top? && Sibling(p).Bin?
    requires !IsRed(Sibling(p)) && !IsRed(Sibling(p).left) && !IsRed(Sibling(p).right)
    ensures TooLight(p.up, Around(Sideways(p, t), Sibling(p).(color := Red)))
  {
    var o, s := Sibling(p).(color := Red), Around(Sideways(p, t), Sibling(p).(color := Red));
    assert Rooted(t) == t && RedBlack(o) && BlackHeight(o) == BlackHeight(t);
    assert RedBlack(Blackened(s)) && BlackHeight(s) == BlackHeight(t) + Weight(p.color);
    assert PathRedBlack(p.up, BlackHeight(s) + 1);
  }

  /** A black sibling with black children turns red and the focus moves up. */
  method BlackNephews(parent: Node, other: Node, root: Node?, ghost p: Path, ghost t: Tree)
    returns (newNode: Node, newParent: Node?, ghost s: Tree)
    requires Heap(p, t, root) && TooLight(p, t) && !IsRed(t) && !p.Top? && Sibling(p).Bin?
    requires parent == p.node && other == Sibling(p).node
    requires !IsRed(Sibling(p)) && !IsRed(Sibling(p).left) && !IsRed(Sibling(p).right)
    modifies PathNodes(p), Nodes(t)
    ensures s.Bin? && s.color == p.color && Heap(p.up, s, root) && TooLight(p.up, s) && SameNodes(p, t, p.up, s)
    ensures newNode == s.node && newParent == ParentPtr(p.up)
  {
    ghost var o := Sibling(p).(color := Red);
    s := Around(Sideways(p, t), o);
    Across(p, t, root);
    SiblingPaint(p, t, Red);
    UpFits(p, t);
    assert SameNodes(p, t, p.up, s);
    BlackNephewsColors(p, t);
    hide Heap, TooLight, SameNodes, Inorder;
    PaintAt(other, Red, root, Sideways(p, t), Sibling(p));
    Up(Sideways(p, t), o, root);
    AtFocus(p.up, s, root);
    newNode := parent;
    newParent := newNode.parent;
  }

  /** A red sibling of a left child: after one rotation the sibling is black. */
  lemma {:induction false} RedSiblingLeftColors(p: Path, t: Tree)
    requires p.InLeft? && TooLight(p, t) && !IsRed(t) && IsRed(p.right)
    ensures var q := InLeft(InLeft(p.up, p.right.node, Black, p.right.right), p.node, Red, p.right.left);
      && TooLight(q, t) && !IsRed(q.right)
      && RotatedLeft(Bin(t, p.node, Red, Blackened(p.right))) == Around(q.up, Around(q, t))
  {
    assert PathRedBlack(p.up, BlackHeight(t) + 2) && RedBlack(p.right.left) && RedBlack(p.right.right);
  }

  method RedSiblingLeft(parent: Node, other: Node, root: Node?, ghost p: Path, ghost t: Tree)
    returns (newRoot: Node?, ghost q: Path)
    requires Heap(p, t, root) && TooLight(p, t) && !IsRed(t) && p.InLeft? && IsRed(p.right)
    requires parent == p.node && other == p.right.node
    modifies PathNodes(p), Nodes(t)
    ensures q.InLeft? && q.node == parent && q.color == Red && !IsRed(q.right)
    ensures Heap(q, t, newRoot) && TooLight(q, t) && SameNodes(p, t, q, t) && Length(q) == Length(p) + 1
  {
    ghost var g, o := Bin(t, parent, p.color, Blackened(p.right)), p.right;
    q := InLeft(InLeft(p.up, other, Black, o.right), parent, Red, o.left);
    RedSiblingLeftColors(p, t);
    SiblingPaint(p, t, Black);
    RotatedLeftOrder(g.(color := Red));
    UpFits(p, t);
    UpFits(q, t);
    UpFits(q.up, Around(q, t));
    Across(p, t, root);
    assert SameNodes(p, t, q, t) by {
      assert Inorder(g.(color := Red)) == Inorder(g) && Nodes(g.(color := Red)) == Nodes(g);
    }
    hide Heap, TooLight, Sequence, Inorder, SameNodes;
    PaintAt(other, Black, root, InRight(p.up, parent, p.color, t), o);
    Up(InRight(p.up, parent, p.color, t), Blackened(o), root);
    PaintAt(parent, Red, root, p.up, g);
    newRoot := RotateLeftAt(parent, root, p.up, g.(color := Red));
    Up(q.up, Around(q, t), newRoot);
    Up(q, t, newRoot);
  }

  /** A black sibling of a left child whose outer child is black and inner child is red. */
  lemma {:induction false} InnerLeftColors(p: Path, t: Tree)
    requires p.InLeft? && TooLight(p, t) && p.right.Bin? && !IsRed(p.right) && IsRed(p.right.left)
    requires !IsRed(p.right.right)
    ensures var o := RotatedRight(Bin(Blackened(p.right.left), p.right.node, Red, p.right.right));
      TooLight(InLeft(p.up, p.node, p.color, o), t) && o.color == Black && IsRed(o.right)
  {
    var o := p.right;
    assert RedBlack(o.left) && RedBlack(Bin(o.left.right, o.node, Red, o.right));
    assert BlackHeight(o.left.left) == BlackHeight(Bin(o.left.right, o.node, Red, o.right)) == BlackHeight(t);
  }

  method InnerLeft(parent: Node, other: Node, root: Node?, ghost p: Path, ghost t: Tree)
    returns (newRoot: Node?, ghost q: Path)
    requires Heap(p, t, root) && TooLight(p, t) && p.InLeft? && p.right.Bin? && parent == p.node
    requires other == p.right.node
    requires !IsRed(p.right) && IsRed(p.right.left) && !IsRed(p.right.right)
    modifies PathNodes(p), Nodes(t)
    ensures q.InLeft? && q.up == p.up && q.node == parent && q.color == p.color
    ensures q.right.Bin? && !IsRed(q.right) && IsRed(q.right.right)
    ensures Heap(q, t, newRoot) && TooLight(q, t) && SameNodes(p, t, q, t)
  {
    ghost var o, side := p.right, Sideways(p, t);
    ghost var o' := Bin(Blackened(o.left), other, Red, o.right);
    q := InLeft(p.up, parent, p.color, RotatedRight(o'));
    InnerLeftColors(p, t);
    RotatedRightOrder(o');
    SiblingView(p, t, root);
    SiblingSwap(p, t, q);
    Across(p, t, root);
    hide Heap, TooLight, Sequence, Inorder, SameNodes;
    Up(InLeft(side, other, Black, o.right), o.left, root);
    var oLeft := other.left;
    if oLeft != null {
      PaintAt(oLeft, Black, root, InLeft(side, other, Black, o.right), o.left);
    }
    Up(InLeft(side, other, Black, o.right), Blackened(o.left), root);
    PaintAt(other, Red, root, side, Bin(Blackened(o.left), other, Black, o.right));
    newRoot := RotateRightAt(other, root, side, o');
    Across(q, t, newRoot);
  }

  /** A black sibling of a left child whose outer child is red. */
  lemma {:induction false} OuterLeftColors(p: Path, t: Tree)
    requires p.InLeft? && TooLight(p, t) && !IsRed(t) && p.right.Bin? && !IsRed(p.right) && IsRed(p.right.right)
    ensures var r := p.right.(color := p.color, right := Blackened(p.right.right));
      Fits(p.up, RotatedLeft(Bin(t, p.node, Black, r)))
  {
    var o := p.right;
    assert RedBlack(o.right) && RedBlack(Blackened(o.right)) && RedBlack(Bin(t, p.node, Black, o.left));
    assert PathRedBlack(p.up, BlackHeight(t) + 1 + Weight(p.color));
  }

  lemma {:induction false} OuterLeftNodes(p: Path, t: Tree)
    requires p.InLeft? && p.right.Bin? && p.right.right.Bin?
    ensures SameNodes(p, t, p.up,
                      RotatedLeft(Bin(t, p.node, Black, p.right.(color := p.color, right := Blackened(p.right.right)))))
  {
    var o := p.right.(color := p.color, right := Blackened(p.right.right));
    UpFits(p, t);
    RotatedLeftOrder(Bin(t, p.node, Black, o));
    assert Inorder(o) == Inorder(p.right) && Nodes(o) == Nodes(p.right);
  }

  method OuterLeft(parent: Node, other: Node, root: Node?, ghost p: Path, ghost t: Tree)
    returns (newRoot: Node?, ghost s: Tree)
    requires Heap(p, t, root) && TooLight(p, t) && !IsRed(t) && p.InLeft? && p.right.Bin?
    requires parent == p.node && other == p.right.node && !IsRed(p.right) && IsRed(p.right.right)
    modifies PathNodes(p), Nodes(t)
    ensures s.Bin? && Heap(p.up, s, newRoot) && Fits(p.up, s) && SameNodes(p, t, p.up, s)
  {
    ghost var o, side := p.right, Sideways(p, t);
    ghost var o1 := o.(color := p.color);
    ghost var o2 := o1.(right := Blackened(o.right));
    ghost var side1 := InRight(p.up, parent, Black, t);
    ghost var inner := InRight(side1, other, p.color, o.left);
    s := RotatedLeft(Bin(t, parent, Black, o2));
    OuterLeftColors(p, t);
    OuterLeftNodes(p, t);
    SiblingView(p, t, root);
    Across(p, t, root);
    hide Heap, TooLight, Sequence, Inorder, SameNodes, Fits;
    PaintAt(other, parent.color, root, side, o);
    Up(side, o1, root);
    PaintAt(parent, Black, root, p.up, Bin(t, parent, p.color, o1));
    Up(side1, o1, root);
    Up(inner, o.right, root);
    if other.right != null {
      PaintAt(other.right, Black, root, inner, o.right);
    }
    Up(inner, Blackened(o.right), root);
    Up(side1, o2, root);
    newRoot := RotateLeftAt(parent, root, p.up, Bin(t, parent, Black, o2));
  }

  /** One turn of the loop when the light node is a left child. */
  method EraseStepLeft(node: Node?, parent: Node, root: Node?, ghost p: Path, ghost t: Tree)
    returns (newNode: Node?, newParent: Node?, newRoot: Node?, done: bool, ghost q: Path, ghost s: Tree)
    requires Heap(p, t, root) && TooLight(p, t) && !IsRed(t) && p.InLeft?
    requires node == Ptr(t) && parent == p.node
    modifies PathNodes(p), Nodes(t)
    ensures s.Bin? && Heap(q, s, newRoot) && SameNodes(p, t, q, s)
    ensures done ==> newNode == newRoot != null && Fits(q, s)
    ensures !done ==> newNode == s.node && newParent == ParentPtr(q) && TooLight(q, s)
    ensures !done ==> Length(q) < Length(p) || (Length(q) == Length(p) && IsRed(s))
  {
    hide Heap, Sequence, PathRedBlack, RedBlack, BlackHeight;
    newNode, newParent, newRoot, done, q, s := node, parent, root, false, p, t;
    HasSibling(p, t);
    SiblingView(p, t, root);
    var other := parent.right;
    if other.color == Red {
      newRoot, q := RedSiblingLeft(parent, other, root, p, t);
      HasSibling(q, t);
      SiblingView(q, t, newRoot);
      other := parent.right;
    }
    if (other.left == null || other.left.color == Black) && (other.right == null || other.right.color == Black) {
      newNode, newParent, s := BlackNephews(parent, other, newRoot, q, t);
      q := q.up;
    } else {
      if other.right == null || other.right.color == Black {
        newRoot, q := InnerLeft(parent, other, newRoot, q, t);
        HasSibling(q, t);
        SiblingView(q, t, newRoot);
        other := parent.right;
      }
      newRoot, s := OuterLeft(parent, other, newRoot, q, t);
      q, newNode, done := q.up, newRoot, true;
      ParentView(q, s, newRoot);
    }
  }

  /** A red sibling of a right child: after one rotation the sibling is black. */
  lemma {:induction false} RedSiblingRightColors(p: Path, t: Tree)
    requires p.InRight? && TooLight(p, t) && !IsRed(t) && IsRed(p.left)
    ensures var q := InRight(InRight(p.up, p.left.node, Black, p.left.left), p.node, Red, p.left.right);
      && TooLight(q, t) && !IsRed(q.left)
      && RotatedRight(Bin(Blackened(p.left), p.node, Red, t)) == Around(q.up, Around(q, t))
  {
    assert PathRedBlack(p.up, BlackHeight(t) + 2) && RedBlack(p.left.right) && RedBlack(p.left.left);
  }

  method RedSiblingRight(parent: Node, other: Node, root: Node?, ghost p: Path, ghost t: Tree)
    returns (newRoot: Node?, ghost q: Path)
    requires Heap(p, t, root) && TooLight(p, t) && !IsRed(t) && p.InRight? && IsRed(p.left)
    requires parent == p.node && other == p.left.node
    modifies PathNodes(p), Nodes(t)
    ensures q.InRight? && q.node == parent && q.color == Red && !IsRed(q.left)
    ensures Heap(q, t, newRoot) && TooLight(q, t) && SameNodes(p, t, q, t) && Length(q) == Length(p) + 1
  {
    ghost var g, o := Bin(Blackened(p.left), parent, p.color, t), p.left;
    q := InRight(InRight(p.up, other, Black, o.left), parent, Red, o.right);
    RedSiblingRightColors(p, t);
    SiblingPaint(p, t, Black);
    RotatedRightOrder(g.(color := Red));
    UpFits(p, t);
    UpFits(q, t);
    UpFits(q.up, Around(q, t));
    Across(p, t, root);
    assert SameNodes(p, t, q, t) by {
      assert Inorder(g.(color := Red)) == Inorder(g) && Nodes(g.(color := Red)) == Nodes(g);
    }
    hide Heap, TooLight, Sequence, Inorder, SameNodes;
    PaintAt(other, Black, root, InLeft(p.up, parent, p.color, t), o);
    Up(InLeft(p.up, parent, p.color, t), Blackened(o), root);
    PaintAt(parent, Red, root, p.up, g);
    newRoot := RotateRightAt(parent, root, p.up, g.(color := Red));
    Up(q.up, Around(q, t), newRoot);
    Up(q, t, newRoot);
  }

  /** A black sibling of a right child whose outer child is black and inner child is red. */
  lemma {:induction false} InnerRightColors(p: Path, t: Tree)
    requires p.InRight? && TooLight(p, t) && p.left.Bin? && !IsRed(p.left) && IsRed(p.left.right) && !IsRed(p.left.left)
    ensures var o := RotatedLeft(Bin(p.left.left, p.left.node, Red, Blackened(p.left.right)));
      TooLight(InRight(p.up, p.node, p.color, o), t) && o.color == Black && IsRed(o.left)
  {
    var o := p.left;
    assert RedBlack(o.right) && RedBlack(Bin(o.left, o.node, Red, o.right.left));
    assert BlackHeight(o.right.right) == BlackHeight(Bin(o.left, o.node, Red, o.right.left)) == BlackHeight(t);
  }

  method InnerRight(parent: Node, other: Node, root: Node?, ghost p: Path, ghost t: Tree)
    returns (newRoot: Node?, ghost q: Path)
    requires Heap(p, t, root) && TooLight(p, t) && p.InRight? && p.left.Bin? && parent == p.node && other == p.left.node
    requires !IsRed(p.left) && IsRed(p.left.right) && !IsRed(p.left.left)
    modifies PathNodes(p), Nodes(t)
    ensures q.InRight? && q.up == p.up && q.node == parent && q.color == p.color
    ensures q.left.Bin? && !IsRed(q.left) && IsRed(q.left.left)
    ensures Heap(q, t, newRoot) && TooLight(q, t) && SameNodes(p, t, q, t)
  {
    ghost var o, side := p.left, Sideways(p, t);
    ghost var o' := Bin(o.left, other, Red, Blackened(o.right));
    q := InRight(p.up, parent, p.color, RotatedLeft(o'));
    InnerRightColors(p, t);
    RotatedLeftOrder(o');
    SiblingView(p, t, root);
    SiblingSwap(p, t, q);
    Across(p, t, root);
    hide Heap, TooLight, Sequence, Inorder, SameNodes;
    Up(InRight(side, other, Black, o.left), o.right, root);
    var oRight := other.right;
    if oRight != null {
      PaintAt(oRight, Black, root, InRight(side, other, Black, o.left), o.right);
    }
    Up(InRight(side, other, Black, o.left), Blackened(o.right), root);
    PaintAt(other, Red, root, side, Bin(o.left, other, Black, Blackened(o.right)));
    newRoot := RotateLeftAt(other, root, side, o');
    Across(q, t, newRoot);
  }

  /** A black sibling of a right child whose outer child is red. */
  lemma {:induction false} OuterRightColors(p: Path, t: Tree)
    requires p.InRight? && TooLight(p, t) && !IsRed(t) && p.left.Bin? && !IsRed(p.left) && IsRed(p.left.left)
    ensures Fits(p.up, RotatedRight(Bin(p.left.(color := p.color, left := Blackened(p.left.left)), p.node, Black, t)))
  {
    var o := p.left;
    assert RedBlack(o.left) && RedBlack(Blackened(o.left)) && RedBlack(Bin(o.right, p.node, Black, t));
    assert PathRedBlack(p.up, BlackHeight(t) + 1 + Weight(p.color));
  }

  lemma {:induction false} OuterRightNodes(p: Path, t: Tree)
    requires p.InRight? && p.left.Bin? && p.left.left.Bin?
    ensures SameNodes(p, t, p.up,
                      RotatedRight(Bin(p.left.(color := p.color, left := Blackened(p.left.left)), p.node, Black, t)))
  {
    var o := p.left.(color := p.color, left := Blackened(p.left.left));
    UpFits(p, t);
    RotatedRightOrder(Bin(o, p.node, Black, t));
    assert Inorder(o) == Inorder(p.left) && Nodes(o) == Nodes(p.left);
  }

  method OuterRight(parent: Node, other: Node, root: Node?, ghost p: Path, ghost t: Tree)
    returns (newRoot: Node?, ghost s: Tree)
    requires Heap(p, t, root) && TooLight(p, t) && !IsRed(t) && p.InRight? && p.left.Bin?
    requires parent == p.node && other == p.left.node && !IsRed(p.left) && IsRed(p.left.left)
    modifies PathNodes(p), Nodes(t)
    ensures s.Bin? && Heap(p.up, s, newRoot) && Fits(p.up, s) && SameNodes(p, t, p.up, s)
  {
    ghost var o, side := p.left, Sideways(p, t);
    ghost var o1 := o.(color := p.color);
    ghost var o2 := o1.(left := Blackened(o.left));
    ghost var side1 := InLeft(p.up, parent, Black, t);
    ghost var inner := InLeft(side1, other, p.color, o.right);
    s := RotatedRight(Bin(o2, parent, Black, t));
    OuterRightColors(p, t);
    OuterRightNodes(p, t);
    SiblingView(p, t, root);
    Across(p, t, root);
    hide Heap, TooLight, Sequence, Inorder, SameNodes, Fits;
    PaintAt(other, parent.color, root, side, o);
    Up(side, o1, root);
    PaintAt(parent, Black, root, p.up, Bin(o1, parent, p.color, t));
    Up(side1, o1, root);
    Up(inner, o.left, root);
    if other.left != null {
      PaintAt(other.left, Black, root, inner, o.left);
    }
    Up(inner, Blackened(o.left), root);
    Up(side1, o2, root);
    newRoot := RotateRightAt(parent, root, p.up, Bin(o2, parent, Black, t));
  }

  /** One turn of the loop when the light node is a right child. */
  method EraseStepRight(node: Node?, parent: Node, root: Node?, ghost p: Path, ghost t: Tree)
    returns (newNode: Node?, newParent: Node?, newRoot: Node?, done: bool, ghost q: Path, ghost s: Tree)
    requires Heap(p, t, root) && TooLight(p, t) && !IsRed(t) && p.InRight?
    requires node == Ptr(t) && parent == p.node
    modifies PathNodes(p), Nodes(t)
    ensures s.Bin? && Heap(q, s, newRoot) && SameNodes(p, t, q, s)
    ensures done ==> newNode == newRoot != null && Fits(q, s)
    ensures !done ==> newNode == s.node && newParent == ParentPtr(q) && TooLight(q, s)
    ensures !done ==> Length(q) < Length(p) || (Length(q) == Length(p) && IsRed(s))
  {
    hide Heap, Sequence, PathRedBlack, RedBlack, BlackHeight;
    newNode, newParent, newRoot, done, q, s := node, parent, root, false, p, t;
    HasSibling(p, t);
    SiblingView(p, t, root);
    var other := parent.left;
    if other.color == Red {
      newRoot, q := RedSiblingRight(parent, other, root, p, t);
      HasSibling(q, t);
      SiblingView(q, t, newRoot);
      other := parent.left;
    }
    if (other.right == null || other.right.color == Black) && (other.left == null || other.left.color == Black) {
      newNode, newParent, s := BlackNephews(parent, other, newRoot, q, t);
      q := q.up;
    } else {
      if other.left == null || other.left.color == Black {
        newRoot, q := InnerRight(parent, other, newRoot, q, t);
        HasSibling(q, t);
        SiblingView(q, t, newRoot);
        other := parent.left;
      }
      newRoot, s := OuterRight(parent, other, newRoot, q, t);
      q, newNode, done := q.up, newRoot, true;
      ParentView(q, s, newRoot);
    }
  }

  /** What the loop reads at the focus. */
  lemma {:induction false} FocusView(p: Path, t: Tree, root: Node?)
    requires Heap(p, t, root) && TooLight(p, t)
    ensures t.Bin? ==> t.node.color == t.color
    ensures root == Ptr(t) <==> p.Top?
    ensures !p.Top? ==> (p.node.left == Ptr(t) <==> p.InLeft?)
  {
    if t.Bin? { AtFocus(p, t, root); }
    if !p.Top? {
      HasSibling(p, t);
      SiblingView(p, t, root);
    }
  }

  lemma {:induction false} RedFits(p: Path, t: Tree)
    requires TooLight(p, t) && (IsRed(t) || p.Top?)
    ensures Fits(p, Rooted(t)) && SameNodes(p, t, p, Rooted(t))
  {
  }

  /** The closing `node->color = BLACK`. */
  method BlackenLight(node: Node, root: Node?, done: bool, ghost p: Path, ghost t: Tree) returns (ghost s: Tree)
    requires Heap(p, t, root) && t.Bin?
    requires if done then node == root && Fits(p, t) else node == t.node && TooLight(p, t) && (IsRed(t) || p.Top?)
    modifies PathNodes(p), Nodes(t)
    ensures Heap(Top, s, root) && Fits(Top, s)
    ensures Inorder(s) == Sequence(p, t) && Nodes(s) == PathNodes(p) + Nodes(t)
  {
    if done {
      ParentView(p, t, root);
      s := BlackenRoot(node, p, t);
    } else {
      RedFits(p, t);
      hide Heap, Fits, TooLight, Sequence;
      PaintAt(node, Black, root, p, t);
      Zip(p, Blackened(t), root);
      s := Plug(p, Blackened(t));
    }
  }

  method EraseRebalance(light: Node?, lightParent: Node?, oldRoot: Node?, ghost p0: Path, ghost t0: Tree)
    returns (root: Node?, ghost t: Tree)
    requires Heap(p0, t0, oldRoot) && TooLight(p0, t0) && light == Ptr(t0) && lightParent == ParentPtr(p0)
    modifies PathNodes(p0), Nodes(t0)
    ensures Heap(Top, t, root) && Fits(Top, t)
    ensures Inorder(t) == Sequence(p0, t0) && Nodes(t) == PathNodes(p0) + Nodes(t0)
  {
    hide Heap, Sequence, PathRedBlack, RedBlack, BlackHeight;
    var node, parent := light, lightParent;
    root := oldRoot;
    ghost var p;
    p, t := p0, t0;
    var done := false;
    FocusView(p, t, root);
    while !done && (node == null || node.color == Black) && node != root
      invariant Heap(p, t, root) && SameNodes(p0, t0, p, t)
      invariant done ==> t.Bin? && node != null && node == root && Fits(p, t)
      invariant !done ==> node == Ptr(t) && parent == ParentPtr(p) && TooLight(p, t)
      decreases !done, Length(p), !IsRed(t)
    {
      FocusView(p, t, root);
      if parent.left == node {
        node, parent, root, done, p, t := EraseStepLeft(node, parent, root, p, t);
      } else {
        node, parent, root, done, p, t := EraseStepRight(node, parent, root, p, t);
      }
    }
    if !done { FocusView(p, t, root); }
    if node != null {
      t := BlackenLight(node, root, done, p, t);
    } else {
      RedFits(p, t);
      Zip(p, t, root);
    }
  }
}
