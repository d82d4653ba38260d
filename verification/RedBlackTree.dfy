/**
 The public operations of the red-black tree: search, insertion and removal.
 */
module RedBlackTree {
  import opened RedBlackShape
  import opened RedBlackLinks
  import opened RedBlackInsert
  import opened RedBlackErase
  import opened RedBlackRemove

  /** `root` points to a red-black search tree of shape `t`. */
  ghost predicate Valid(t: Tree, root: Node?)
    reads Nodes(t)
  {
    Heap(Top, t, root) && Fits(Top, t) && Sorted(Inorder(t))
  }

  ghost function Contents(t: Tree): map<int, int> {
    MapOf(Inorder(t))
  }

  // ----- Search

  /** `p` and `s` together are the tree `t`, and only `s` can hold `key`. */
  ghost predicate Narrowed(t: Tree, key: int, p: Path, s: Tree) {
    && Fits(p, s) && Sequence(p, s) == Inorder(t) && PathNodes(p) + Nodes(s) == Nodes(t)
    && AllBelow(Before(p), key) && AllAbove(After(p), key)
  }

  lemma {:induction false} AboveLeft(key: int, p: Path, s: Tree)
    requires s.Bin? && key < s.node.key && AllAbove(Inorder(s.right) + After(p), s.node.key)
    ensures AllAbove(After(InLeft(p, s.node, s.color, s.right)), key)
  {
    var b := Inorder(s.right) + After(p);
    assert After(InLeft(p, s.node, s.color, s.right)) == [s.node] + b;
    assert forall i :: 0 < i < |[s.node] + b| ==> ([s.node] + b)[i] == b[i - 1];
  }

  lemma {:induction false} BelowRight(key: int, p: Path, s: Tree)
    requires s.Bin? && s.node.key < key && AllBelow(Before(p) + Inorder(s.left), s.node.key)
    ensures AllBelow(Before(InRight(p, s.node, s.color, s.left)), key)
  {
    var a := Before(p) + Inorder(s.left);
    assert Before(InRight(p, s.node, s.color, s.left)) == a + [s.node];
    assert forall i :: 0 <= i < |a| ==> (a + [s.node])[i] == a[i];
  }

  lemma {:induction false} NarrowLeft(t: Tree, key: int, p: Path, s: Tree, root: Node?)
    requires s.Bin? && key < s.node.key && Sorted(Inorder(t))
    requires Heap(p, s, root) && Narrowed(t, key, p, s)
    ensures Heap(InLeft(p, s.node, s.color, s.right), s.left, root)
    ensures Narrowed(t, key, InLeft(p, s.node, s.color, s.right), s.left)
  {
    Up(InLeft(p, s.node, s.color, s.right), s.left, root);
    SequenceSplit(p, s);
    SortedSplit(Inorder(t), Before(p) + Inorder(s.left), s.node, Inorder(s.right) + After(p));
    AboveLeft(key, p, s);
    hide Heap, Fits, Sequence, Sorted, Inorder;
  }

  lemma {:induction false} NarrowRight(t: Tree, key: int, p: Path, s: Tree, root: Node?)
    requires s.Bin? && s.node.key < key && Sorted(Inorder(t))
    requires Heap(p, s, root) && Narrowed(t, key, p, s)
    ensures Heap(InRight(p, s.node, s.color, s.left), s.right, root)
    ensures Narrowed(t, key, InRight(p, s.node, s.color, s.left), s.right)
  {
    Up(InRight(p, s.node, s.color, s.left), s.right, root);
    SequenceSplit(p, s);
    SortedSplit(Inorder(t), Before(p) + Inorder(s.left), s.node, Inorder(s.right) + After(p));
    hide Heap, Fits, Sequence, Sorted, Inorder;
    BelowRight(key, p, s);
  }

  /** The number is one that an `int` can hold. */
  predicate IsInt(x: int) {
    -0x8000_0000 <= x < 0x8000_0000
  }

  /** The nodes that a search compares with the key. */
  ghost function SearchPath(t: Tree, key: int): seq<Node> {
    if t.Nil? then []
    else [t.node] + (if key < t.node.key then SearchPath(t.left, key)
                     else if key > t.node.key then SearchPath(t.right, key) else [])
  }

  /** What 32 bits keep of a number, read as a signed one. */
  function Kept(x: int): int {
    (x + 0x8000_0000) % 0x1_0000_0000 - 0x8000_0000
  }

  /** A number is an `int` exactly if 32 bits keep it as it is. */
  lemma {:induction false} IntIsKept(x: int)
    ensures IsInt(x) <==> Kept(x) == x
  {
    if Kept(x) == x {
      assert 0 <= (x + 0x8000_0000) % 0x1_0000_0000 < 0x1_0000_0000;
    }
  }

  /** No difference that a search computes overflows. */
  ghost predicate Comparable(t: Tree, key: int) {
    forall n :: n in SearchPath(t, key) ==> IsInt(n.key - key)
  }

  lemma {:induction false} ComparableKept(t: Tree, key: int)
    ensures Comparable(t, key) <==> forall n :: n in SearchPath(t, key) ==> Kept(n.key - key) == n.key - key
  {
    hide SearchPath, IsInt, Kept;
    forall n | n in SearchPath(t, key) ensures IsInt(n.key - key) <==> Kept(n.key - key) == n.key - key {
      IntIsKept(n.key - key);
    }
  }

  /** One comparison and the rest of the search. */
  lemma {:induction false} ComparableStep(t: Tree, key: int)
    requires t.Bin?
    ensures Comparable(t, key) <==>
              && IsInt(t.node.key - key)
              && (key < t.node.key ==> Comparable(t.left, key)) && (key > t.node.key ==> Comparable(t.right, key))
  {
    var rest := if key < t.node.key then SearchPath(t.left, key)
                else if key > t.node.key then SearchPath(t.right, key) else [];
    assert SearchPath(t, key) == [t.node] + rest;
    assert forall n :: n in SearchPath(t, key) <==> n == t.node || n in rest;
  }

  /** `overflow` says that a difference of keys does not fit an `int`, from where on the source's behaviour is
   undefined. */
  method SearchAuxiliary(key: int, root: Node?, ghost t: Tree)
    returns (node: Node?, save: Node?, overflow: bool, ghost p: Path, ghost s: Tree)
    requires Valid(t, root)
    ensures overflow <==> !Comparable(t, key)
    ensures overflow <==> exists n :: n in SearchPath(t, key) && Kept(n.key - key) != n.key - key
    ensures Heap(p, s, root) && Narrowed(t, key, p, s)
    ensures !overflow ==> node == Ptr(s) && (node != null ==> node.key == key)
    ensures !overflow && node == null ==> save == ParentPtr(p)
  {
    hide Comparable, SearchPath, IsInt, Kept, Heap, Narrowed, Valid, AllCells, PathNodes, Nodes;
    ComparableKept(t, key);
    SearchStarts(t, key, root);
    node, overflow := root, false;
    var parent := null;
    save := null;
    p, s := Top, t;
    while node != null
      invariant Heap(p, s, root) && Narrowed(t, key, p, s)
      invariant node == Ptr(s) && parent == ParentPtr(p)
      invariant Comparable(t, key) <==> Comparable(s, key)
      decreases s
    {
      AtFocus(p, s, root);
      ComparableStep(s, key);
      parent := node;
      var ret := node.key - key;
      if !IsInt(ret) {
        overflow := true;
        return;
      }
      if 0 < ret {
        NarrowLeft(t, key, p, s, root);
        p, s := InLeft(p, node, s.color, s.right), s.left;
        node := node.left;
      } else if 0 > ret {
        NarrowRight(t, key, p, s, root);
        p, s := InRight(p, node, s.color, s.left), s.right;
        node := node.right;
      } else {
        return;
      }
    }
    assert Comparable(s, key) by { NothingCompared(key); }
    save := parent;
  }

  lemma {:induction false} SearchStarts(t: Tree, key: int, root: Node?)
    requires Valid(t, root)
    ensures Heap(Top, t, root) && Narrowed(t, key, Top, t) && root == Ptr(t) && Sorted(Inorder(t))
  {
  }

  lemma {:induction false} NothingCompared(key: int)
    ensures Comparable(Nil, key)
  {
  }

  method Search(key: int, root: Node?, ghost t: Tree) returns (node: Node?, overflow: bool)
    requires Valid(t, root)
    ensures overflow <==> !Comparable(t, key)
    ensures !overflow ==> (node != null <==> key in Contents(t))
    ensures !overflow && node != null ==> node in Nodes(t) && node.key == key && node.data == Contents(t)[key]
  {
    hide Comparable;
    ghost var p, s;
    var save;
    node, save, overflow, p, s := SearchAuxiliary(key, root, t);
    if !overflow { FoundOrNot(t, key, p, s); }
  }

  /** At the end of a search the focus tells whether the key is stored. */
  lemma {:induction false} FoundOrNot(t: Tree, key: int, p: Path, s: Tree)
    requires Sorted(Inorder(t)) && Narrowed(t, key, p, s)
    requires s.Nil? || s.node.key == key
    ensures s.Nil? ==> key !in Contents(t)
    ensures s.Bin? ==> key in Contents(t) && Contents(t)[key] == s.node.data
    ensures s.Bin? ==> AllBelow(Before(p) + Inorder(s.left), key) && AllAbove(Inorder(s.right) + After(p), key)
  {
    hide Fits, Sorted;
    if s.Nil? {
      assert Inorder(t) == Before(p) + After(p);
      MapOfConcat(Before(p), After(p));
      MapOfKeys(Before(p), key);
      MapOfKeys(After(p), key);
    } else {
      SequenceSplit(p, s);
      hide Sequence, Inorder, Before, After, MapOf;
      SortedSplit(Inorder(t), Before(p) + Inorder(s.left), s.node, Inorder(s.right) + After(p));
      MapOfSplit(Before(p) + Inorder(s.left), s.node, Inorder(s.right) + After(p));
    }
  }

  // ----- Insertion

  ghost function Leaf(n: Node): Tree {
    Bin(Nil, n, Red, Nil)
  }

  lemma {:induction false} LeafCells(p: Path, n: Node)
    requires Apart(p, Nil) && n !in PathNodes(p)
    ensures Apart(p, Leaf(n)) && AllCells(p, Leaf(n)).Keys == AllCells(p, Nil).Keys + {n}
    ensures AllCells(p, Leaf(n))[n] == Cell(null, null, ParentPtr(p), Red)
    ensures forall x :: x in AllCells(p, Nil) ==>
              AllCells(p, Leaf(n))[x] ==
              if x == p.node then Rehung(p, AllCells(p, Nil)[x], n) else AllCells(p, Nil)[x]
  {
    forall x | x in AllCells(p, Nil) { RehungCell(p, Nil, Leaf(n), x); }
  }

  /** Hangs a new red leaf at the end of a failed search. */
  method NewLeaf(key: int, data: int, parent: Node?, root: Node?, ghost p: Path)
    returns (node: Node, newRoot: Node)
    requires Heap(p, Nil, root) && parent == ParentPtr(p)
    requires forall n :: n in PathNodes(p) ==> allocated(n)
    requires !p.Top? ==> (p.InLeft? <==> parent.key > key)
    modifies PathNodes(p)
    ensures fresh(node) && node.key == key && node.data == data
    ensures Heap(p, Leaf(node), newRoot)
  {
    ghost var m := AllCells(p, Nil);
    node := new Node(key, data);
    LeafCells(p, node);
    assert p.Top? || p.node in m;
    hide Apart, AllCells;
    node.parent := parent;
    node.left, node.right := null, null;
    node.color := Red;
    if parent != null {
      if parent.key > key {
        parent.left := node;
      } else {
        parent.right := node;
      }
      newRoot := root;
    } else {
      newRoot := node;
    }
  }

  lemma {:induction false} LeafSide(t: Tree, key: int, p: Path)
    requires Narrowed(t, key, p, Nil)
    ensures PathNodes(p) == Nodes(t) && PathRedBlack(p, 0)
    ensures !p.Top? ==> (p.InLeft? <==> p.node.key > key)
  {
    if p.InLeft? {
      assert After(p)[0] == p.node;
    } else if p.InRight? {
      assert Before(p)[|Before(p)| - 1] == p.node;
    }
  }

  lemma {:induction false} LeafColors(p: Path, n: Node)
    requires PathRedBlack(p, 0)
    ensures TooRed(p, Leaf(n)) && Nodes(Leaf(n)) == {n}
  {
    assert BlackHeight(Leaf(n)) == 0;
  }

  lemma {:induction false} LeafOrder(t: Tree, key: int, p: Path, n: Node)
    requires Narrowed(t, key, p, Nil) && n.key == key && Sorted(Inorder(t))
    ensures Sorted(Sequence(p, Leaf(n)))
    ensures MapOf(Sequence(p, Leaf(n))) == Contents(t)[key := n.data]
  {
    hide Narrowed, Sorted, MapOf, Before, After, Inorder, Sequence;
    LeafSequence(t, key, p, n);
    MapOfSplit(Before(p), n, After(p));
    SortedJoin(Before(p), n, After(p));
  }

  lemma {:induction false} LeafSequence(t: Tree, key: int, p: Path, n: Node)
    requires Narrowed(t, key, p, Nil)
    ensures Inorder(t) == Before(p) + After(p) && Sequence(p, Leaf(n)) == Before(p) + [n] + After(p)
    ensures AllBelow(Before(p), key) && AllAbove(After(p), key)
  {
    hide Fits, Before, After;
    assert Inorder(Leaf(n)) == [n];
  }

  lemma {:induction false} NodesAllocated(t: Tree)
    ensures forall n :: n in Nodes(t) ==> allocated(n)
  {
    if t.Bin? {
      NodesAllocated(t.left);
      NodesAllocated(t.right);
    }
  }

  method Insert(key: int, data: int, root: Node?, ghost t: Tree)
    returns (newRoot: Node?, overflow: bool, ghost s: Tree)
    requires Valid(t, root)
    modifies Nodes(t)
    ensures Valid(s, newRoot) && (overflow <==> !Comparable(t, key)) && (overflow ==> s == t && newRoot == root)
    ensures Contents(s) == if overflow || key in Contents(t) then Contents(t) else Contents(t)[key := data]
    ensures Nodes(t) <= Nodes(s) && fresh(Nodes(s) - Nodes(t))
  {
    hide Heap, Narrowed, Fits, Sorted, MapOf, Inorder, Nodes, PathNodes, Comparable;
    NodesAllocated(t);
    ghost var p, focus;
    var node, parent;
    node, parent, overflow, p, focus := SearchAuxiliary(key, root, t);
    if overflow {
      return root, true, t;
    }
    FoundOrNot(t, key, p, focus);
    if node != null {
      return root, false, t;
    }
    newRoot, s := InsertAt(key, data, parent, root, t, p);
  }

  method InsertAt(key: int, data: int, parent: Node?, root: Node?, ghost t: Tree, ghost p: Path)
    returns (newRoot: Node?, ghost s: Tree)
    requires Heap(p, Nil, root) && Narrowed(t, key, p, Nil) && parent == ParentPtr(p) && Sorted(Inorder(t))
    modifies Nodes(t)
    ensures Valid(s, newRoot)
    ensures Contents(s) == Contents(t)[key := data]
    ensures Nodes(t) <= Nodes(s) && fresh(Nodes(s) - Nodes(t))
  {
    NodesAllocated(t);
    LeafSide(t, key, p);
    hide Heap, Narrowed, Sequence, TooRed, Sorted, Fits, MapOf, Inorder, PathRedBlack;
    var node;
    node, newRoot := NewLeaf(key, data, parent, root, p);
    LeafColors(p, node);
    LeafOrder(t, key, p, node);
    newRoot, s := InsertRebalance(node, newRoot, p, Leaf(node));
  }

  // ----- Removal

  lemma {:induction false} RemovedKey(t: Tree, key: int, p: Path, s: Tree, color: Color, q: Path, x: Tree)
    requires Narrowed(t, key, p, s) && s.Bin? && s.node.key == key && Sorted(Inorder(t))
    requires Unlinked(p, s, color, q, x)
    ensures Sorted(Sequence(q, x)) && MapOf(Sequence(q, x)) == Contents(t) - {key}
    ensures PathNodes(q) + Nodes(x) == Nodes(t) - {s.node}
  {
    FoundOrNot(t, key, p, s);
    SequenceSplit(p, s);
    var a, b := Before(p) + Inorder(s.left), Inorder(s.right) + After(p);
    hide Fits, TooLight, Inorder, Before, After, MapOf;
    MapOfSplit(a, s.node, b);
    SortedCut(a, s.node, b);
  }

  method Erase(key: int, root: Node?, ghost t: Tree) returns (newRoot: Node?, overflow: bool, ghost s: Tree)
    requires Valid(t, root)
    modifies Nodes(t)
    ensures Valid(s, newRoot) && (overflow <==> !Comparable(t, key)) && (overflow ==> s == t && newRoot == root)
    ensures Contents(s) == if overflow then Contents(t) else Contents(t) - {key}
    ensures Nodes(s) <= Nodes(t)
  {
    hide Heap, Narrowed, Fits, Sorted, MapOf, Inorder, Nodes, PathNodes, Comparable;
    NodesAllocated(t);
    ghost var p, focus;
    var node, save;
    node, save, overflow, p, focus := SearchAuxiliary(key, root, t);
    if overflow {
      return root, true, t;
    }
    FoundOrNot(t, key, p, focus);
    if node == null {
      return root, false, t;
    }
    newRoot, s := EraseAt(key, node, root, t, p, focus);
  }

  method EraseAt(key: int, node: Node, root: Node?, ghost t: Tree, ghost p: Path, ghost focus: Tree)
    returns (newRoot: Node?, ghost s: Tree)
    requires Heap(p, focus, root) && Narrowed(t, key, p, focus) && Sorted(Inorder(t))
    requires focus.Bin? && focus.node == node && node.key == key
    modifies Nodes(t)
    ensures Valid(s, newRoot)
    ensures Contents(s) == Contents(t) - {key}
    ensures Nodes(s) <= Nodes(t)
  {
    AtFocus(p, focus, root);
    assert Fits(p, focus) && PathNodes(p) + Nodes(focus) == Nodes(t);
    hide Heap, Narrowed, Sequence, Sorted, Fits, MapOf, Inorder, TooLight;
    var child, parent, color;
    ghost var q, x;
    if node.left != null && node.right != null {
      child, parent, color, newRoot, q, x := UnlinkTwo(node, root, p, focus);
    } else {
      child, parent, color, newRoot, x := UnlinkOnly(node, root, p, focus);
      q := p;
    }
    RemovedKey(t, key, p, focus, color, q, x);
    if color == Black {
      newRoot, s := EraseRebalance(child, parent, newRoot, q, x);
    } else {
      Zip(q, x, newRoot);
      s := Plug(q, x);
    }
  }

  // ----- Runs

  datatype Operation = InsertKey(key: int, data: int) | EraseKey(key: int)

  /** What an operation does to the stored map. */
  function Applied(m: map<int, int>, op: Operation): map<int, int> {
    match op
    case InsertKey(key, data) => if key in m then m else m[key := data]
    case EraseKey(key) => m - {key}
  }

  function AllApplied(m: map<int, int>, ops: seq<Operation>): map<int, int> {
    if ops == [] then m else Applied(AllApplied(m, ops[..|ops| - 1]), ops[|ops| - 1])
  }

  /** Each key that is stored was put in by an operation. */
  lemma {:induction false} KeysApplied(ops: seq<Operation>)
    ensures forall k :: k in AllApplied(map[], ops) ==> exists i :: 0 <= i < |ops| && ops[i].key == k
  {
    if ops != [] {
      var n := |ops| - 1;
      KeysApplied(ops[..n]);
      forall k | k in AllApplied(map[], ops) ensures exists i :: 0 <= i < |ops| && ops[i].key == k {
        if k in AllApplied(map[], ops[..n]) {
          var i :| 0 <= i < n && ops[..n][i].key == k;
          assert ops[i].key == k;
        } else {
          assert ops[n].key == k;
        }
      }
    }
  }

  /** A search compares only keys that are stored. */
  lemma {:induction false} ComparedStored(t: Tree, key: int)
    ensures forall n :: n in SearchPath(t, key) ==> n in Inorder(t)
  {
    if t.Bin? {
      ComparedStored(t.left, key);
      ComparedStored(t.right, key);
    }
  }

  lemma {:induction false} StoredInMap(s: seq<Node>, n: Node)
    requires n in s
    ensures n.key in MapOf(s)
  {
    var k := |s| - 1;
    if n in s[..k] { StoredInMap(s[..k], n); }
  }

  /** If the keys in use lie less than 2^31 apart, no search overflows. */
  lemma {:induction false} CloseKeysFit(t: Tree, ops: seq<Operation>, n: nat)
    requires n < |ops| && Contents(t) == AllApplied(map[], ops[..n]) && CloseKeys(ops)
    ensures Comparable(t, ops[n].key)
  {
    hide SearchPath, Inorder, MapOf;
    ComparedStored(t, ops[n].key);
    forall m | m in SearchPath(t, ops[n].key) ensures IsInt(m.key - ops[n].key) {
      StoredInMap(Inorder(t), m);
      KeysApplied(ops[..n]);
      var i :| 0 <= i < n && ops[..n][i].key == m.key;
      assert ops[i].key == m.key;
    }
  }

  ghost predicate CloseKeys(ops: seq<Operation>) {
    forall i, j :: 0 <= i < |ops| && 0 <= j < |ops| ==> ops[i].key - ops[j].key < 0x8000_0000
  }

  /** The largest key, and a search for the one before zero: the difference wraps around to a negative number, and
   the search would turn right although the key is smaller. */
  lemma {:induction false} WrongTurn(n: Node)
    requires n.key == 0x7FFF_FFFF
    ensures !Comparable(Bin(Nil, n, Black, Nil), -1)
    ensures -1 < n.key && Kept(n.key - -1) < 0
  {
    ComparableStep(Bin(Nil, n, Black, Nil), -1);
  }

  /** Any run of insertions and removals from the empty tree. It ends early exactly where a difference of keys
   overflows, which it never does for keys less than 2^31 apart. */
  method Run(ops: seq<Operation>) returns (root: Node?, done: nat, ghost t: Tree)
    ensures done <= |ops| && Valid(t, root) && Contents(t) == AllApplied(map[], ops[..done])
    ensures fresh(Nodes(t)) && (done < |ops| ==> !Comparable(t, ops[done].key))
    ensures CloseKeys(ops) ==> done == |ops|
  {
    hide Comparable, Valid, Contents, AllApplied, CloseKeys;
    NothingStored();
    root, t, done := null, Nil, 0;
    assert ops[..0] == [];
    while done < |ops|
      invariant 0 <= done <= |ops| && Valid(t, root) && Contents(t) == AllApplied(map[], ops[..done])
      invariant fresh(Nodes(t))
    {
      OneApplied(ops, done);
      if CloseKeys(ops) { CloseKeysFit(t, ops, done); }
      var overflow;
      match ops[done] {
        case InsertKey(key, data) => root, overflow, t := Insert(key, data, root, t);
        case EraseKey(key) => root, overflow, t := Erase(key, root, t);
      }
      if overflow {
        return;
      }
      done := done + 1;
    }
  }

  lemma {:induction false} NothingStored()
    ensures Valid(Nil, null) && Contents(Nil) == AllApplied(map[], []) && Nodes(Nil) == {}
  {
  }

  lemma {:induction false} OneApplied(ops: seq<Operation>, n: nat)
    requires n < |ops|
    ensures AllApplied(map[], ops[..n + 1]) == Applied(AllApplied(map[], ops[..n]), ops[n])
  {
    assert ops[..n + 1][..n] == ops[..n];
  }
}
