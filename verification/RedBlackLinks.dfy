/**
 The heap side of the red-black tree: which links the nodes of a tree must hold, and which
 of them change when the focus moves, is repainted or is rotated.
 */
module RedBlackLinks {
  import opened RedBlackShape

  /** The four links of a node. */
  datatype Cell = Cell(left: Node?, right: Node?, parent: Node?, color: Color)

  ghost function CellOf(n: Node): Cell
    reads n
  {
    Cell(n.left, n.right, n.parent, n.color)
  }

  /** What node `n` of a subtree must hold when the parent of the subtree's root is `parent`. */
  ghost function TreeCell(t: Tree, parent: Node?, n: Node): Cell
    requires n in Nodes(t)
  {
    if n == t.node then Cell(Ptr(t.left), Ptr(t.right), parent, t.color)
    else if n in Nodes(t.left) then TreeCell(t.left, t.node, n)
    else TreeCell(t.right, t.node, n)
  }

  /** What node `n` of a path must hold when the hole of the path is filled by `focus`. */
  ghost function PathCell(p: Path, focus: Node?, n: Node): Cell
    requires n in PathNodes(p)
  {
    match p
    case InLeft(up, x, c, r) =>
      if n == x then Cell(focus, Ptr(r), ParentPtr(up), c)
      else if n in Nodes(r) then TreeCell(r, x, n)
      else PathCell(up, x, n)
    case InRight(up, x, c, l) =>
      if n == x then Cell(Ptr(l), focus, ParentPtr(up), c)
      else if n in Nodes(l) then TreeCell(l, x, n)
      else PathCell(up, x, n)
  }

  ghost function CellAt(p: Path, t: Tree, n: Node): Cell
    requires n in PathNodes(p) + Nodes(t)
  {
    if n in Nodes(t) then TreeCell(t, ParentPtr(p), n) else PathCell(p, Ptr(t), n)
  }

  ghost function AllCells(p: Path, t: Tree): (m: map<Node, Cell>)
    ensures m.Keys == PathNodes(p) + Nodes(t)
  {
    map n | n in PathNodes(p) + Nodes(t) :: CellAt(p, t, n)
  }

  ghost predicate Holds(m: map<Node, Cell>)
    reads m.Keys
  {
    forall n :: n in m ==> CellOf(n) == m[n]
  }

  /** The heap holds exactly the tree `Plug(p, t)`, with all its links, and `root` points to it. */
  ghost predicate Heap(p: Path, t: Tree, root: Node?)
    reads PathNodes(p), Nodes(t)
  {
    Apart(p, t) && Holds(AllCells(p, t)) && root == RootPtr(p, Ptr(t))
  }

  // ----- Moving the focus

  lemma {:induction false} UpApart(p: Path, t: Tree)
    requires !p.Top?
    ensures Apart(p, t) <==> Apart(p.up, Around(p, t))
  {
  }

  lemma {:induction false} UpCell(p: Path, t: Tree, n: Node)
    requires !p.Top? && Apart(p, t) && n in PathNodes(p) + Nodes(t)
    ensures n in PathNodes(p.up) + Nodes(Around(p, t))
    ensures CellAt(p, t, n) == CellAt(p.up, Around(p, t), n)
  {
  }

  lemma {:induction false} UpCells(p: Path, t: Tree)
    requires !p.Top?
    ensures Apart(p, t) <==> Apart(p.up, Around(p, t))
    ensures Apart(p, t) ==> AllCells(p, t) == AllCells(p.up, Around(p, t))
  {
    UpApart(p, t);
    UpFits(p, t);
    if Apart(p, t) {
      forall n | n in PathNodes(p) + Nodes(t) { UpCell(p, t, n); }
      assert AllCells(p, t).Keys == AllCells(p.up, Around(p, t)).Keys;
    }
  }

  /** Moving the focus one level up changes neither the cells nor any view of the tree. */
  lemma {:induction false} Up(p: Path, t: Tree, root: Node?)
    requires !p.Top?
    ensures Heap(p, t, root) <==> Heap(p.up, Around(p, t), root)
    ensures Fits(p, t) <==> Fits(p.up, Around(p, t))
    ensures Sequence(p, t) == Sequence(p.up, Around(p, t))
    ensures PathNodes(p) + Nodes(t) == PathNodes(p.up) + Nodes(Around(p, t))
  {
    UpCells(p, t);
    UpFits(p, t);
  }

  lemma {:induction false} Zip(p: Path, t: Tree, root: Node?)
    ensures Heap(p, t, root) <==> Heap(Top, Plug(p, t), root)
    ensures Fits(p, t) <==> Fits(Top, Plug(p, t))
    ensures Sequence(p, t) == Inorder(Plug(p, t))
    ensures PathNodes(p) + Nodes(t) == Nodes(Plug(p, t))
    decreases Length(p)
  {
    ZipFits(p, t);
    if !p.Top? {
      Up(p, t, root);
      Zip(p.up, Around(p, t), root);
    }
  }

  /** What the node at the focus holds. */
  lemma {:induction false} AtFocus(p: Path, t: Tree, root: Node?)
    requires t.Bin? && Heap(p, t, root)
    ensures t.node in AllCells(p, t)
    ensures CellOf(t.node) == Cell(Ptr(t.left), Ptr(t.right), ParentPtr(p), t.color)
    ensures t.node !in PathNodes(p) + Nodes(t.left) + Nodes(t.right)
  {
    assert t.node in AllCells(p, t);
  }

  // ----- Replacing the focus

  ghost function Rehung(p: Path, cell: Cell, focus: Node?): Cell {
    if p.InLeft? then cell.(left := focus) else cell.(right := focus)
  }

  /** Putting another tree at the focus rewrites one link of the path. */
  lemma {:induction false} RehungCell(p: Path, t: Tree, s: Tree, n: Node)
    requires Apart(p, t) && Apart(p, s) && n in PathNodes(p)
    ensures CellAt(p, s, n) ==
            if n == p.node then Rehung(p, CellAt(p, t, n), Ptr(s)) else CellAt(p, t, n)
  {
  }

  // ----- Repainting the focus

  lemma {:induction false} Painted(p: Path, t: Tree, c: Color)
    requires t.Bin? && Apart(p, t)
    ensures t.node in AllCells(p, t)
    ensures AllCells(p, t)[t.node] == Cell(Ptr(t.left), Ptr(t.right), ParentPtr(p), t.color)
    ensures Apart(p, t.(color := c))
    ensures AllCells(p, t.(color := c)) == AllCells(p, t)[t.node := AllCells(p, t)[t.node].(color := c)]
  {
  }

  /** A red parent and a red uncle turn black, and the grandparent turns red. */
  ghost function Flipped(t: Tree): Tree
    requires t.Bin? && t.left.Bin? && t.right.Bin?
  {
    Bin(t.left.(color := Black), t.node, Red, t.right.(color := Black))
  }

  /** The cell of `n` after `Flipped`. */
  ghost function FlippedCell(t: Tree, n: Node, cell: Cell): Cell
    requires t.Bin? && t.left.Bin? && t.right.Bin?
  {
    if n == t.node then cell.(color := Red)
    else if n == t.left.node || n == t.right.node then cell.(color := Black)
    else cell
  }

  lemma {:induction false} FlippedCellAt(p: Path, t: Tree, n: Node)
    requires t.Bin? && t.left.Bin? && t.right.Bin? && Apart(p, t) && n in AllCells(p, t)
    ensures Apart(p, Flipped(t)) && n in AllCells(p, Flipped(t))
    ensures AllCells(p, Flipped(t))[n] == FlippedCell(t, n, AllCells(p, t)[n])
  {
    assert Distinct(t.left) && Distinct(t.right);
    var l, r := t.left.(color := Black), t.right.(color := Black);
    assert Nodes(l) == Nodes(t.left) && Nodes(r) == Nodes(t.right);
    if n in Nodes(l) {
      assert CellAt(p, Flipped(t), n) == TreeCell(l, t.node, n) && CellAt(p, t, n) == TreeCell(t.left, t.node, n);
    } else if n in Nodes(r) {
      assert CellAt(p, Flipped(t), n) == TreeCell(r, t.node, n) && CellAt(p, t, n) == TreeCell(t.right, t.node, n);
    }
  }

  lemma {:induction false} FlippedCells(p: Path, t: Tree)
    requires t.Bin? && t.left.Bin? && t.right.Bin? && Apart(p, t)
    ensures {t.node, t.left.node, t.right.node} <= AllCells(p, t).Keys
    ensures t.node !in {t.left.node, t.right.node}
    ensures Apart(p, Flipped(t)) && AllCells(p, Flipped(t)).Keys == AllCells(p, t).Keys
    ensures forall n :: n in AllCells(p, t) ==>
              AllCells(p, Flipped(t))[n] == FlippedCell(t, n, AllCells(p, t)[n])
  {
    assert {t.node, t.left.node, t.right.node} <= AllCells(p, t).Keys;
    forall n | n in AllCells(p, t) { FlippedCellAt(p, t, n); }
  }

  // ----- Rotating the focus

  ghost function RotatedLeft(t: Tree): Tree
    requires t.Bin? && t.right.Bin?
  {
    Bin(Bin(t.left, t.node, t.color, t.right.left), t.right.node, t.right.color, t.right.right)
  }

  ghost function RotatedRight(t: Tree): Tree
    requires t.Bin? && t.left.Bin?
  {
    Bin(t.left.left, t.left.node, t.left.color, Bin(t.left.right, t.node, t.color, t.right))
  }

  /** `n`'s cell after `x` took the place of `was` below `n`. */
  ghost function Swapped(cell: Cell, was: Node, x: Node?): Cell {
    if cell.right == was then cell.(right := x) else cell.(left := x)
  }

  /** `node` and its right child are linked to each other and to what is around them. */
  ghost predicate CanRotateLeft(m: map<Node, Cell>, node: Node) {
    && node in m && m[node].right != null && m[node].right in m
    && var (right, parent) := (m[node].right, m[node].parent);
    var b := m[right].left;
    && (b != null ==> b in m) && (parent != null ==> parent in m)
    && node != right && b !in {node, right} && parent !in {node, right}
    && (b != null ==> b != parent)
  }

  /** The cell of `n` after a left rotation at `node`. */
  ghost function LeftRotation(m: map<Node, Cell>, node: Node, n: Node): Cell
    requires CanRotateLeft(m, node) && n in m
  {
    var (right, parent) := (m[node].right, m[node].parent);
    var b := m[right].left;
    if n == node then m[n].(right := b, parent := right)
    else if n == right then m[n].(left := node, parent := parent)
    else if n == b then m[n].(parent := node)
    else if n == parent then Swapped(m[n], node, right)
    else m[n]
  }

  ghost predicate CanRotateRight(m: map<Node, Cell>, node: Node) {
    && node in m && m[node].left != null && m[node].left in m
    && var (left, parent) := (m[node].left, m[node].parent);
    var b := m[left].right;
    && (b != null ==> b in m) && (parent != null ==> parent in m)
    && node != left && b !in {node, left} && parent !in {node, left}
    && (b != null ==> b != parent)
  }

  /** The cell of `n` after a right rotation at `node`. */
  ghost function RightRotation(m: map<Node, Cell>, node: Node, n: Node): Cell
    requires CanRotateRight(m, node) && n in m
  {
    var (left, parent) := (m[node].left, m[node].parent);
    var b := m[left].right;
    if n == node then m[n].(left := b, parent := left)
    else if n == left then m[n].(right := node, parent := parent)
    else if n == b then m[n].(parent := node)
    else if n == parent then Swapped(m[n], node, left)
    else m[n]
  }

  /** The cell of a node below the root is its cell in the subtree that holds it. */
  lemma {:induction false} CellBelow(t: Tree, parent: Node?, n: Node)
    requires t.Bin? && Distinct(t) && n in Nodes(t.left) + Nodes(t.right)
    ensures TreeCell(t, parent, n) == TreeCell(if n in Nodes(t.left) then t.left else t.right, t.node, n)
  {
  }

  lemma {:induction false} RotateLeftApplies(p: Path, t: Tree)
    requires t.Bin? && t.right.Bin? && Apart(p, t)
    ensures CanRotateLeft(AllCells(p, t), t.node)
    ensures AllCells(p, t)[t.node] == Cell(Ptr(t.left), t.right.node, ParentPtr(p), t.color)
    ensures AllCells(p, t)[t.right.node] == Cell(Ptr(t.right.left), Ptr(t.right.right), t.node, t.right.color)
  {
    assert Distinct(t.right) && Distinct(t.right.left);
    assert TreeCell(t, ParentPtr(p), t.right.node) == TreeCell(t.right, t.node, t.right.node);
  }

  lemma {:induction false} RotatedLeftCell(p: Path, t: Tree, n: Node)
    requires t.Bin? && t.right.Bin? && Apart(p, t) && n in AllCells(p, t)
    requires CanRotateLeft(AllCells(p, t), t.node)
    ensures Apart(p, RotatedLeft(t)) && n in AllCells(p, RotatedLeft(t))
    ensures AllCells(p, RotatedLeft(t))[n] == LeftRotation(AllCells(p, t), t.node, n)
  {
    RotateLeftApplies(p, t);
    var inner, b := RotatedLeft(t).left, t.right.left;
    assert Distinct(t.right) && Distinct(inner) && Distinct(b);
    if n in Nodes(b) {
      CellBelow(t, ParentPtr(p), n);
      CellBelow(t.right, t.node, n);
      CellBelow(RotatedLeft(t), ParentPtr(p), n);
      CellBelow(inner, t.right.node, n);
    } else if n in Nodes(inner) {
      assert CellAt(p, RotatedLeft(t), n) == TreeCell(inner, t.right.node, n);
    } else if n in Nodes(t.right) {
      assert CellAt(p, t, n) == TreeCell(t.right, t.node, n);
    }
  }

  /** A left rotation of the focus rewrites exactly the cells of `LeftRotation`. */
  lemma {:induction false} RotatedLeftCells(p: Path, t: Tree)
    requires t.Bin? && t.right.Bin? && Apart(p, t)
    ensures CanRotateLeft(AllCells(p, t), t.node)
    ensures AllCells(p, t)[t.node] == Cell(Ptr(t.left), t.right.node, ParentPtr(p), t.color)
    ensures Apart(p, RotatedLeft(t)) && AllCells(p, RotatedLeft(t)).Keys == AllCells(p, t).Keys
    ensures forall n :: n in AllCells(p, t) ==>
              AllCells(p, RotatedLeft(t))[n] == LeftRotation(AllCells(p, t), t.node, n)
  {
    RotateLeftApplies(p, t);
    forall n | n in AllCells(p, t) { RotatedLeftCell(p, t, n); }
  }

  lemma {:induction false} RotateRightApplies(p: Path, t: Tree)
    requires t.Bin? && t.left.Bin? && Apart(p, t)
    ensures CanRotateRight(AllCells(p, t), t.node)
    ensures AllCells(p, t)[t.node] == Cell(t.left.node, Ptr(t.right), ParentPtr(p), t.color)
    ensures AllCells(p, t)[t.left.node] == Cell(Ptr(t.left.left), Ptr(t.left.right), t.node, t.left.color)
  {
    assert Distinct(t.left) && Distinct(t.left.right);
    assert TreeCell(t, ParentPtr(p), t.left.node) == TreeCell(t.left, t.node, t.left.node);
  }

  lemma {:induction false} RotatedRightCell(p: Path, t: Tree, n: Node)
    requires t.Bin? && t.left.Bin? && Apart(p, t) && n in AllCells(p, t)
    requires CanRotateRight(AllCells(p, t), t.node)
    ensures Apart(p, RotatedRight(t)) && n in AllCells(p, RotatedRight(t))
    ensures AllCells(p, RotatedRight(t))[n] == RightRotation(AllCells(p, t), t.node, n)
  {
    RotateRightApplies(p, t);
    var inner, b := RotatedRight(t).right, t.left.right;
    assert Distinct(t.left) && Distinct(inner) && Distinct(b);
    if n in Nodes(b) {
      CellBelow(t, ParentPtr(p), n);
      CellBelow(t.left, t.node, n);
      CellBelow(RotatedRight(t), ParentPtr(p), n);
      CellBelow(inner, t.left.node, n);
    } else if n in Nodes(inner) {
      assert CellAt(p, RotatedRight(t), n) == TreeCell(inner, t.left.node, n);
    } else if n in Nodes(t.left) {
      assert CellAt(p, t, n) == TreeCell(t.left, t.node, n);
    }
  }

  /** A right rotation of the focus rewrites exactly the cells of `RightRotation`. */
  lemma {:induction false} RotatedRightCells(p: Path, t: Tree)
    requires t.Bin? && t.left.Bin? && Apart(p, t)
    ensures CanRotateRight(AllCells(p, t), t.node)
    ensures AllCells(p, t)[t.node] == Cell(t.left.node, Ptr(t.right), ParentPtr(p), t.color)
    ensures Apart(p, RotatedRight(t)) && AllCells(p, RotatedRight(t)).Keys == AllCells(p, t).Keys
    ensures forall n :: n in AllCells(p, t) ==>
              AllCells(p, RotatedRight(t))[n] == RightRotation(AllCells(p, t), t.node, n)
  {
    RotateRightApplies(p, t);
    forall n | n in AllCells(p, t) { RotatedRightCell(p, t, n); }
  }

  /** Rotations keep the nodes and their order. */
  lemma {:induction false} RotatedLeftOrder(t: Tree)
    requires t.Bin? && t.right.Bin?
    ensures Inorder(RotatedLeft(t)) == Inorder(t) && Nodes(RotatedLeft(t)) == Nodes(t)
  {
    var (a, b, c) := (Inorder(t.left), Inorder(t.right.left), Inorder(t.right.right));
    assert a + [t.node] + (b + [t.right.node] + c) == (a + [t.node] + b) + [t.right.node] + c;
  }

  lemma {:induction false} RotatedRightOrder(t: Tree)
    requires t.Bin? && t.left.Bin?
    ensures Inorder(RotatedRight(t)) == Inorder(t) && Nodes(RotatedRight(t)) == Nodes(t)
  {
    var (a, b, c) := (Inorder(t.left.left), Inorder(t.left.right), Inorder(t.right));
    assert a + [t.left.node] + (b + [t.node] + c) == (a + [t.left.node] + b) + [t.node] + c;
  }
}
