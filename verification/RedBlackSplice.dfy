/**
 Taking a node out of the tree: splicing out a node with at most one child, and letting
 the successor of a node with two children take its place.
 */
module RedBlackSplice {
  import opened RedBlackShape
  import opened RedBlackLinks

  // ----- Splicing out a node with at most one child

  /** The only child of a node that has at most one. */
  ghost function OnlyChild(t: Tree): Tree
    requires t.Bin? && (t.left.Nil? || t.right.Nil?)
  {
    if t.left.Nil? then t.right else t.left
  }

  /** The cell of `n` once `child` replaces `node` below `parent`. */
  ghost function SplicedCell(n: Node, cell: Cell, node: Node, child: Node?, parent: Node?): Cell {
    if n == parent then if cell.left == node then cell.(left := child) else cell.(right := child)
    else if n == child then cell.(parent := parent)
    else cell
  }

  /** `parent`, `node` and `child` are three different nodes, as far as they exist. */
  ghost predicate InLine(m: map<Node, Cell>, node: Node, child: Node?, parent: Node?) {
    && node in m && node != child && node != parent
    && (child != null ==> child in m && child != parent)
    && (parent != null ==> parent in m)
  }

  lemma {:induction false} SplicedInLine(p: Path, t: Tree)
    requires t.Bin? && (t.left.Nil? || t.right.Nil?) && Apart(p, t)
    ensures InLine(AllCells(p, t), t.node, Ptr(OnlyChild(t)), ParentPtr(p))
    ensures AllCells(p, t)[t.node] == Cell(Ptr(t.left), Ptr(t.right), ParentPtr(p), t.color)
    ensures !p.Top? ==> (p.InLeft? <==> AllCells(p, t)[p.node].left == t.node)
  {
    assert t.node in AllCells(p, t);
    if !p.Top? {
      assert p.node in AllCells(p, t);
      assert CellAt(p, t, p.node) == PathCell(p, t.node, p.node);
    }
  }

  lemma {:induction false} SplicedCellAt(p: Path, t: Tree, n: Node)
    requires t.Bin? && (t.left.Nil? || t.right.Nil?) && Apart(p, t) && n in AllCells(p, t) && n != t.node
    ensures Apart(p, OnlyChild(t)) && n in AllCells(p, OnlyChild(t))
    ensures AllCells(p, OnlyChild(t))[n] ==
            SplicedCell(n, AllCells(p, t)[n], t.node, Ptr(OnlyChild(t)), ParentPtr(p))
  {
    var x := OnlyChild(t);
    assert Distinct(x);
    SplicedInLine(p, t);
    if n in PathNodes(p) {
      RehungCell(p, t, x, n);
    } else {
      assert CellAt(p, t, n) == TreeCell(x, t.node, n);
    }
  }

  lemma {:induction false} SplicedCells(p: Path, t: Tree)
    requires t.Bin? && (t.left.Nil? || t.right.Nil?) && Apart(p, t)
    ensures InLine(AllCells(p, t), t.node, Ptr(OnlyChild(t)), ParentPtr(p))
    ensures Apart(p, OnlyChild(t)) && AllCells(p, OnlyChild(t)).Keys == AllCells(p, t).Keys - {t.node}
    ensures forall n :: n in AllCells(p, t) && n != t.node ==>
              AllCells(p, OnlyChild(t))[n] ==
              SplicedCell(n, AllCells(p, t)[n], t.node, Ptr(OnlyChild(t)), ParentPtr(p))
  {
    SplicedInLine(p, t);
    forall n | n in AllCells(p, t) && n != t.node { SplicedCellAt(p, t, n); }
  }

  method Splice(node: Node, child: Node?, parent: Node?, root: Node?, ghost m: map<Node, Cell>)
    returns (newRoot: Node?)
    requires Holds(m) && InLine(m, node, child, parent)
    modifies m.Keys
    ensures forall n :: n in m ==> CellOf(n) == SplicedCell(n, m[n], node, child, parent)
    ensures newRoot == if parent == null then child else root
  {
    newRoot := root;
    if child != null {
      child.parent := parent;
    }
    if parent != null {
      if parent.left == node {
        parent.left := child;
      } else {
        parent.right := child;
      }
    } else {
      newRoot := child;
    }
  }

  method SpliceAt(node: Node, child: Node?, parent: Node?, root: Node?, ghost p: Path, ghost t: Tree)
    returns (newRoot: Node?)
    requires Heap(p, t, root) && t.Bin? && (t.left.Nil? || t.right.Nil?)
    requires node == t.node && child == Ptr(OnlyChild(t)) && parent == ParentPtr(p)
    modifies PathNodes(p), Nodes(t)
    ensures Heap(p, OnlyChild(t), newRoot)
    ensures CellOf(node) == old(CellOf(node))
  {
    hide Apart, AllCells;
    SplicedCells(p, t);
    newRoot := Splice(node, child, parent, root, AllCells(p, t));
  }

  // ----- A node takes the place of another

  /** The cell of `n` once `x` takes the place of `node`, which holds `cell`. */
  ghost function TakenOver(n: Node, was: Cell, node: Node, cell: Cell, x: Node): Cell {
    if n == x then cell
    else if n == cell.parent then if was.left == node then was.(left := x) else was.(right := x)
    else if n == cell.left || n == cell.right then was.(parent := x)
    else was
  }

  ghost predicate Surrounded(m: map<Node, Cell>, node: Node, x: Node) {
    && node in m && x !in m
    && m[node].left != null && m[node].left in m && node != m[node].left
    && (m[node].right != null ==> m[node].right in m && m[node].right !in {node, m[node].left})
    && (m[node].parent != null ==>
          m[node].parent in m && m[node].parent !in {node, m[node].left, m[node].right})
  }

  lemma {:induction false} TakenOverAt(p: Path, t: Tree, x: Node, n: Node)
    requires t.Bin? && t.left.Bin? && Apart(p, t) && x !in PathNodes(p) + Nodes(t)
    requires n in PathNodes(p) + Nodes(t) && n != t.node
    ensures Apart(p, t.(node := x)) && n in PathNodes(p) + Nodes(t.(node := x))
    ensures CellAt(p, t.(node := x), n) ==
            TakenOver(n, CellAt(p, t, n), t.node, Cell(Ptr(t.left), Ptr(t.right), ParentPtr(p), t.color), x)
  {
    var s := t.(node := x);
    assert Distinct(t.left) && Distinct(t.right);
    if n in PathNodes(p) {
      RehungCell(p, t, s, n);
    } else if n in Nodes(t.left) {
      assert CellAt(p, t, n) == TreeCell(t.left, t.node, n) && CellAt(p, s, n) == TreeCell(t.left, x, n);
    } else {
      assert CellAt(p, t, n) == TreeCell(t.right, t.node, n) && CellAt(p, s, n) == TreeCell(t.right, x, n);
    }
  }

  lemma {:induction false} TakenOverCells(p: Path, t: Tree, x: Node)
    requires t.Bin? && t.left.Bin? && Apart(p, t) && x !in AllCells(p, t)
    ensures Surrounded(AllCells(p, t), t.node, x)
    ensures Apart(p, t.(node := x)) && AllCells(p, t.(node := x)).Keys == AllCells(p, t).Keys - {t.node} + {x}
    ensures AllCells(p, t.(node := x))[x] == AllCells(p, t)[t.node]
    ensures AllCells(p, t)[t.node] == Cell(Ptr(t.left), Ptr(t.right), ParentPtr(p), t.color)
    ensures forall n :: n in AllCells(p, t) && n != t.node ==>
              AllCells(p, t.(node := x))[n] == TakenOver(n, AllCells(p, t)[n], t.node, AllCells(p, t)[t.node], x)
  {
    assert t.node in AllCells(p, t);
    forall n | n in AllCells(p, t) && n != t.node { TakenOverAt(p, t, x, n); }
  }

  /** `node` takes over the links and the colour of `gone`. */
  method TakeOver(node: Node, gone: Node, root: Node?, ghost m: map<Node, Cell>) returns (newRoot: Node?)
    requires Holds(m) && Surrounded(m, gone, node)
    modifies m.Keys, node
    ensures CellOf(node) == m[gone]
    ensures forall n :: n in m && n != gone ==> CellOf(n) == TakenOver(n, m[n], gone, m[gone], node)
    ensures newRoot == if m[gone].parent == null then node else root
  {
    newRoot := root;
    node.parent := gone.parent;
    node.color := gone.color;
    node.right := gone.right;
    node.left := gone.left;
    if gone.parent != null {
      if gone.parent.left == gone {
        gone.parent.left := node;
      } else {
        gone.parent.right := node;
      }
    } else {
      newRoot := node;
    }
    gone.left.parent := node;
    if gone.right != null {
      gone.right.parent := node;
    }
  }

  method TakeOverAt(node: Node, gone: Node, root: Node?, ghost p: Path, ghost t: Tree) returns (newRoot: Node?)
    requires Heap(p, t, root) && t.Bin? && t.left.Bin? && t.node == gone && node !in PathNodes(p) + Nodes(t)
    modifies PathNodes(p), Nodes(t), node
    ensures Heap(p, t.(node := node), newRoot)
  {
    hide Apart, AllCells;
    TakenOverCells(p, t, node);
    newRoot := TakeOver(node, gone, root, AllCells(p, t));
  }
}
