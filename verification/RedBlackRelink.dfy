/**
 The pointer surgery of the red-black tree: rotations and repainting, on nodes with parent
 pointers that are relinked in place.
 */
module RedBlackRelink {
  import opened RedBlackShape
  import opened RedBlackLinks

  // ----- Rotations

  method RotateLeft(node: Node, root: Node?, ghost m: map<Node, Cell>) returns (newRoot: Node?)
    requires CanRotateLeft(m, node) && Holds(m)
    modifies m.Keys
    ensures forall n :: n in m ==> CellOf(n) == LeftRotation(m, node, n)
    ensures newRoot == if m[node].parent == null then m[node].right else root
  {
    newRoot := root;
    var right := node.right;
    assert right == m[node].right && right.left == m[right].left && node.parent == m[node].parent;
    node.right := right.left;
    if node.right != null {
      right.left.parent := node;
    }
    right.left := node;
    right.parent := node.parent;
    if right.parent != null {
      if node == node.parent.right {
        node.parent.right := right;
      } else {
        node.parent.left := right;
      }
    } else {
      newRoot := right;
    }
    node.parent := right;
  }

  method RotateRight(node: Node, root: Node?, ghost m: map<Node, Cell>) returns (newRoot: Node?)
    requires CanRotateRight(m, node) && Holds(m)
    modifies m.Keys
    ensures forall n :: n in m ==> CellOf(n) == RightRotation(m, node, n)
    ensures newRoot == if m[node].parent == null then m[node].left else root
  {
    newRoot := root;
    var left := node.left;
    assert left == m[node].left && left.right == m[left].right && node.parent == m[node].parent;
    node.left := left.right;
    if node.left != null {
      left.right.parent := node;
    }
    left.right := node;
    left.parent := node.parent;
    if left.parent != null {
      if node == node.parent.right {
        node.parent.right := left;
      } else {
        node.parent.left := left;
      }
    } else {
      newRoot := left;
    }
    node.parent := left;
  }

  /** `RotateLeft` at the focus of a tree. */
  method RotateLeftAt(node: Node, root: Node?, ghost p: Path, ghost t: Tree) returns (newRoot: Node?)
    requires t.Bin? && t.node == node && t.right.Bin? && Heap(p, t, root)
    modifies PathNodes(p), Nodes(t)
    ensures Heap(p, RotatedLeft(t), newRoot)
  {
    RotatedLeftCells(p, t);
    newRoot := RotateLeft(node, root, AllCells(p, t));
  }

  method RotateRightAt(node: Node, root: Node?, ghost p: Path, ghost t: Tree) returns (newRoot: Node?)
    requires t.Bin? && t.node == node && t.left.Bin? && Heap(p, t, root)
    modifies PathNodes(p), Nodes(t)
    ensures Heap(p, RotatedRight(t), newRoot)
  {
    RotatedRightCells(p, t);
    newRoot := RotateRight(node, root, AllCells(p, t));
  }

  method PaintAt(x: Node, c: Color, root: Node?, ghost p: Path, ghost t: Tree)
    requires t.Bin? && t.node == x && Heap(p, t, root)
    modifies x
    ensures Heap(p, t.(color := c), root)
  {
    Painted(p, t, c);
    hide Apart, AllCells;
    x.color := c;
  }

  /** Repaints a red parent, its red sibling and their parent, on either side. */
  method FlipColors(parent: Node, gparent: Node, uncle: Node, ghost m: map<Node, Cell>)
    requires Holds(m) && {parent, gparent, uncle} <= m.Keys && gparent !in {parent, uncle}
    modifies m.Keys
    ensures forall n :: n in m ==>
              CellOf(n) == if n == gparent then m[n].(color := Red)
                           else if n == parent || n == uncle then m[n].(color := Black)
                           else m[n]
  {
    uncle.color := Black;
    parent.color := Black;
    gparent.color := Red;
  }

  method FlipColorsAt(parent: Node, gparent: Node, uncle: Node, root: Node?, ghost p: Path, ghost t: Tree)
    requires Heap(p, t, root) && t.Bin? && t.left.Bin? && t.right.Bin? && t.node == gparent
    requires (parent == t.left.node && uncle == t.right.node) || (parent == t.right.node && uncle == t.left.node)
    modifies PathNodes(p), Nodes(t)
    ensures Heap(p, Flipped(t), root)
  {
    hide Apart, AllCells;
    FlippedCells(p, t);
    FlipColors(parent, gparent, uncle, AllCells(p, t));
  }

  // ----- Views of the focus

  /** The focus moved, but the tree still has the same nodes in the same order. */
  ghost predicate SameNodes(p: Path, t: Tree, q: Path, s: Tree) {
    Sequence(p, t) == Sequence(q, s) && PathNodes(p) + Nodes(t) == PathNodes(q) + Nodes(s)
  }

  ghost function Blackened(t: Tree): Tree
    requires t.Bin?
  {
    t.(color := Black)
  }

  /** The pointers above the focus. */
  lemma {:induction false} ParentView(p: Path, t: Tree, root: Node?)
    requires Heap(p, t, root) && t.Bin?
    ensures root != null && root in PathNodes(p) + Nodes(t) && t.node.parent == ParentPtr(p)
    ensures !p.Top? ==>
              && p.node.color == p.color && p.node.parent == ParentPtr(p.up)
              && (p.node.left == t.node <==> p.InLeft?) && (p.node.right == t.node <==> p.InRight?)
  {
    AtFocus(p, t, root);
    Zip(p, t, root);
    if !p.Top? {
      Up(p, t, root);
      AtFocus(p.up, Around(p, t), root);
    }
  }

  lemma {:induction false} RootIsBlack(p: Path, t: Tree, root: Node?)
    requires Heap(p, t, root) && Fits(p, t) && root != null
    ensures root.color == Black && root in PathNodes(p) + Nodes(t)
  {
    Zip(p, t, root);
    AtFocus(Top, Plug(p, t), root);
  }

  /** The closing `root->color = BLACK` repairs a red root and changes nothing else. */
  method BlackenRoot(root: Node, ghost p: Path, ghost t: Tree) returns (ghost s: Tree)
    requires Heap(p, t, root) && t.Bin?
    requires if p.Top? then RedBlack(t) else Fits(p, t)
    modifies root
    ensures Heap(Top, s, root) && Fits(Top, s)
    ensures Inorder(s) == Sequence(p, t) && Nodes(s) == PathNodes(p) + Nodes(t)
  {
    if p.Top? {
      s := Blackened(t);
      Painted(p, t, Black);
    } else {
      s := Plug(p, t);
      RootIsBlack(p, t, root);
    }
    Zip(p, t, root);
    hide Apart, AllCells, SameNodes;
    root.color := Black;
  }
}
