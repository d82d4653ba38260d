/**
 Depth-first search through a maze with an explicit stack. A cell is marked and given a
 predecessor when it is pushed, and the path is read off the predecessors.
 */
module Maze {
  datatype Point = Point(row: int, col: int)

  const NOWHERE := Point(-1, -1)

  predicate Inside(p: Point, rows: int, cols: int) {
    0 <= p.row < rows && 0 <= p.col < cols
  }

  predicate Adjacent(p: Point, q: Point) {
    || (p.row == q.row && (p.col == q.col + 1 || q.col == p.col + 1))
    || (p.col == q.col && (p.row == q.row + 1 || q.row == p.row + 1))
  }

  function Distance(a: int, b: int): nat {
    if a < b then b - a else a - b
  }

  /** The four cells that are one step away. */
  lemma {:induction false} AdjacentIs(p: Point, q: Point)
    ensures Adjacent(p, q) <==> Distance(p.row, q.row) + Distance(p.col, q.col) == 1
    ensures Adjacent(p, q) <==> Adjacent(q, p)
  {
  }

  // ----- What there is to find

  /** A walk from the start over open cells; the start itself need not be open. */
  ghost predicate IsPath(path: seq<Point>, start: Point, open: set<Point>) {
    && |path| > 0 && path[0] == start
    && forall i :: 0 < i < |path| ==> path[i] in open && Adjacent(path[i - 1], path[i])
  }

  ghost predicate Reachable(goal: Point, start: Point, open: set<Point>) {
    exists path :: IsPath(path, start, open) && path[|path| - 1] == goal
  }

  /** A set of cells that holds the start and all open neighbours of its cells holds all that can be reached. */
  lemma {:induction false} StaysIn(path: seq<Point>, start: Point, open: set<Point>, seen: seq<Point>, i: nat)
    requires IsPath(path, start, open) && start in seen && i < |path|
    requires forall p, q :: p in seen && q in open && Adjacent(p, q) ==> q in seen
    ensures path[i] in seen
  {
    if i > 0 { StaysIn(path, start, open, seen, i - 1); }
  }

  // ----- How many cells there are

  ghost function Row(row: int, cols: nat): set<Point> {
    set j | 0 <= j < cols :: Point(row, j)
  }

  ghost function Cells(rows: nat, cols: nat): set<Point> {
    set i, j | 0 <= i < rows && 0 <= j < cols :: Point(i, j)
  }

  lemma {:induction false} RowSize(row: int, cols: nat)
    ensures |Row(row, cols)| == cols
  {
    if cols > 0 {
      RowSize(row, cols - 1);
      assert Row(row, cols) == Row(row, cols - 1) + {Point(row, cols - 1)};
    }
  }

  lemma {:induction false} CellsSize(rows: nat, cols: nat)
    ensures |Cells(rows, cols)| == rows * cols
  {
    if rows > 0 {
      hide Cells, Row;
      CellsSize(rows - 1, cols);
      RowSize(rows - 1, cols);
      CellsSplit(rows - 1, cols);
      OneMoreRow(rows - 1, cols);
    } else {
      assert Cells(rows, cols) == {};
    }
  }

  lemma {:induction false} OneMoreRow(rows: nat, cols: nat)
    ensures (rows + 1) * cols == rows * cols + cols
  {
  }

  lemma {:induction false} CellsSplit(rows: nat, cols: nat)
    ensures Cells(rows + 1, cols) == Cells(rows, cols) + Row(rows, cols) && Cells(rows, cols) !! Row(rows, cols)
  {
    forall p | p in Cells(rows + 1, cols) ensures p in Cells(rows, cols) + Row(rows, cols) {
      assert p == Point(p.row, p.col);
    }
  }

  ghost function Elems(s: seq<Point>): set<Point> {
    set p | p in s
  }

  ghost predicate Distinct(s: seq<Point>) {
    forall i, j :: 0 <= i < j < |s| ==> s[i] != s[j]
  }

  lemma {:induction false} DistinctSize(s: seq<Point>)
    requires Distinct(s)
    ensures |Elems(s)| == |s|
  {
    if s != [] {
      var n := |s| - 1;
      DistinctSize(s[..n]);
      assert Elems(s) == Elems(s[..n]) + {s[n]};
    }
  }

  lemma {:induction false} Smaller(a: set<Point>, b: set<Point>)
    requires a <= b
    ensures |a| <= |b|
  {
    if a != {} {
      var x :| x in a;
      Smaller(a - {x}, b - {x});
    }
  }

  /** No more distinct cells than the grid has. */
  lemma {:induction false} DistinctFit(s: seq<Point>, rows: nat, cols: nat)
    requires Distinct(s) && forall p :: p in s ==> Inside(p, rows, cols)
    ensures |s| <= rows * cols
  {
    DistinctSize(s);
    CellsSize(rows, cols);
    Smaller(Elems(s), Cells(rows, cols));
  }

  // ----- The search

  /** The cells that were pushed, in order, each after the first from an earlier one next to it. */
  ghost predicate Tree(order: seq<Point>, from: seq<nat>, start: Point, open: set<Point>) {
    && |order| == |from| > 0 && order[0] == start && Distinct(order)
    && forall i :: 0 < i < |order| ==> order[i] in open && from[i] < i && Adjacent(order[from[i]], order[i])
  }

  lemma {:induction false} TreeGrows(order: seq<Point>, from: seq<nat>, start: Point, open: set<Point>, p: Point,
                                     k: nat)
    requires Tree(order, from, start, open) && k < |order| && Adjacent(order[k], p) && p in open && p !in order
    ensures Tree(order + [p], from + [k], start, open)
  {
  }

  ghost function OpenCells(m: array2<int>): set<Point>
    reads m
  {
    set i, j | 0 <= i < m.Length0 && 0 <= j < m.Length1 && m[i, j] == 0 :: Point(i, j)
  }

  /** All open neighbours of the cell at place `i` were pushed. */
  ghost predicate DoneAt(open: set<Point>, order: seq<Point>, i: nat)
    requires i < |order|
  {
    forall q :: q in open && Adjacent(order[i], q) ==> q in order
  }

  /** Of the cells that no longer wait, all open neighbours were pushed, and none is the goal; the cell at
   place `x`, if there is one, is left out. */
  ghost predicate Searched(open: set<Point>, order: seq<Point>, waiting: seq<nat>, goal: Point, x: int) {
    forall i :: 0 <= i < |order| && i !in waiting && i != x ==> DoneAt(open, order, i) && order[i] != goal
  }

  /** Cells were added to `o` and places to `w`, and all the added cells wait. */
  ghost predicate Grown(o: seq<Point>, w: seq<nat>, order: seq<Point>, waiting: seq<nat>)
    ensures Grown(o, w, order, waiting) ==> o <= order && |order| - |o| == |waiting| - |w|
  {
    && o <= order && w <= waiting && |order| - |o| == |waiting| - |w|
    && forall j :: |o| <= j < |order| ==> j in waiting
  }

  lemma {:induction false} GrownMore(o: seq<Point>, w: seq<nat>, o': seq<Point>, w': seq<nat>, order: seq<Point>,
                                     waiting: seq<nat>)
    requires Grown(o, w, o', w') && Grown(o', w', order, waiting)
    ensures Grown(o, w, order, waiting)
  {
    forall j | |o| <= j < |order| ensures j in waiting {
      if j < |o'| {
        assert j in w';
        var k :| 0 <= k < |w'| && w'[k] == j;
        assert waiting[k] == j;
      }
    }
  }

  lemma {:induction false} SearchedMore(open: set<Point>, o: seq<Point>, w: seq<nat>, order: seq<Point>,
                                        waiting: seq<nat>, goal: Point, x: nat)
    requires Searched(open, o, w, goal, x) && Grown(o, w, order, waiting) && x < |o|
    requires DoneAt(open, order, x) && order[x] != goal
    ensures Searched(open, order, waiting, goal, -1)
  {
    forall i | 0 <= i < |order| && i !in waiting ensures DoneAt(open, order, i) && order[i] != goal {
      if i != x {
        forall k | 0 <= k < |w| ensures w[k] != i {
          assert waiting[k] == w[k];
        }
        assert i < |o| && order[i] == o[i] && DoneAt(open, o, i);
        forall q | q in open && Adjacent(order[i], q) ensures q in order {
          assert q in o;
        }
      }
    }
  }

  lemma {:induction false} PoppedOne(open: set<Point>, order: seq<Point>, waiting: seq<nat>, goal: Point)
    requires Searched(open, order, waiting, goal, -1) && |waiting| > 0
    ensures var n := |waiting| - 1; Searched(open, order, waiting[..n], goal, waiting[n])
  {
    var n := |waiting| - 1;
    forall i | 0 <= i < |order| && i !in waiting[..n] && i != waiting[n] ensures i !in waiting {
      forall k | 0 <= k < |waiting| ensures waiting[k] != i {
        if k < n { assert waiting[..n][k] == waiting[k]; }
      }
    }
  }

  /** When nothing waits and the goal was not met, it cannot be reached. */
  lemma {:induction false} SearchedAll(open: set<Point>, order: seq<Point>, goal: Point, start: Point)
    requires Searched(open, order, [], goal, -1) && start in order
    ensures !Reachable(goal, start, open)
  {
    forall p, q | p in order && q in open && Adjacent(p, q) ensures q in order {
      var i :| 0 <= i < |order| && order[i] == p;
      assert DoneAt(open, order, i);
    }
    assert forall i :: 0 <= i < |order| ==> order[i] != goal;
    ClosedUnreachable(order, goal, start, open);
  }

  class Search {
    const maze: array2<int>
    const predecessor: array2<Point>
    const stack: array<Point>
    var top: nat
    ghost const open: set<Point>
    ghost var order: seq<Point>
    ghost var from: seq<nat>
    /** The places in `order` of the cells on the stack. */
    ghost var waiting: seq<nat>

    ghost predicate Sized() {
      && predecessor.Length0 == maze.Length0 > 0 && predecessor.Length1 == maze.Length1 > 0
      && stack.Length >= maze.Length0 * maze.Length1
      && forall p :: p in open ==> Inside(p, maze.Length0, maze.Length1)
    }

    /** A cell is marked exactly when it was pushed or is a wall. */
    ghost predicate Marked()
      reads this`order, maze
    {
      forall i, j :: 0 <= i < maze.Length0 && 0 <= j < maze.Length1 ==>
        (maze[i, j] == 0 <==> Point(i, j) in open && Point(i, j) !in order)
    }

    ghost predicate Linked()
      reads this`order, this`from, predecessor
    {
      && Sized() && |order| == |from|
      && (forall i :: 0 <= i < |order| ==> Inside(order[i], maze.Length0, maze.Length1))
      && (|order| > 0 ==> predecessor[order[0].row, order[0].col] == NOWHERE)
      && (forall i :: 0 < i < |order| ==> from[i] < i && predecessor[order[i].row, order[i].col] == order[from[i]])
    }

    ghost predicate Stacked()
      reads this`order, this`waiting, this`top, stack
    {
      && |waiting| == top <= stack.Length
      && (forall k :: 0 <= k < top ==> waiting[k] < |order| && stack[k] == order[waiting[k]])
      && (forall k, m :: 0 <= k < m < top ==> waiting[k] != waiting[m])
    }

    ghost predicate Valid()
      reads this, maze, predecessor, stack
    {
      Sized() && Tree(order, from, Point(0, 0), open) && Marked() && Linked() && Stacked()
    }

    /** No cell has a predecessor yet. */
    ghost predicate Blank()
      reads predecessor
    {
      forall i, j :: 0 <= i < predecessor.Length0 && 0 <= j < predecessor.Length1 ==> predecessor[i, j] == NOWHERE
    }

    constructor (m: array2<int>, depth: nat)
      requires m.Length0 > 0 && m.Length1 > 0 && depth >= m.Length0 * m.Length1
      ensures maze == m && open == OpenCells(m) && fresh(predecessor) && fresh(stack)
      ensures forall i, j :: 0 <= i < m.Length0 && 0 <= j < m.Length1 ==> (Point(i, j) in open <==> m[i, j] == 0)
      ensures Sized() && Marked() && Linked() && Stacked() && Blank() && order == [] && top == 0
    {
      maze := m;
      open := OpenCells(m);
      predecessor := new Point[m.Length0, m.Length1]((i, j) => NOWHERE);
      stack := new Point[depth](i => NOWHERE);
      top, order, from, waiting := 0, [], [], [];
    }

    method Push(p: Point)
      requires Sized() && Stacked() && |order| > 0 && order[|order| - 1] == p && top < stack.Length
      requires forall k :: 0 <= k < top ==> waiting[k] < |order| - 1
      modifies this`top, this`waiting, stack
      ensures Stacked() && waiting == old(waiting) + [|order| - 1]
    {
      stack[top] := p;
      top := top + 1;
      waiting := waiting + [|order| - 1];
    }

    /** The stack never holds more cells than were pushed, and no cell is pushed twice. */
    lemma RoomFor(p: Point)
      requires Valid() && Inside(p, maze.Length0, maze.Length1) && p !in order
      ensures top < stack.Length
    {
      hide Marked, Linked;
      assert Distinct(order + [p]);
      DistinctFit(order + [p], maze.Length0, maze.Length1);
      IndicesFit(waiting, |order|);
    }

    /** Marks a cell and notes where it was reached from. */
    method Enter(row: nat, col: nat, pre: Point, ghost k: nat)
      requires Sized() && Tree(order, from, Point(0, 0), open) && Marked() && Linked()
      requires row < maze.Length0 && col < maze.Length1 && maze[row, col] == 0
      requires k < |order| && order[k] == pre && Adjacent(pre, Point(row, col))
      modifies this`order, this`from, maze, predecessor
      ensures Sized() && Tree(order, from, Point(0, 0), open) && Marked() && Linked()
      ensures order == old(order) + [Point(row, col)]
    {
      hide Tree, Sized;
      ghost var p := Point(row, col);
      Room();
      TreeGrows(order, from, Point(0, 0), open, p, k);
      maze[row, col] := 2;
      predecessor[row, col] := pre;
      order := order + [p];
      from := from + [k];
    }

    lemma Room()
      requires Sized()
      ensures predecessor.Length0 == maze.Length0 > 0 && predecessor.Length1 == maze.Length1 > 0
    {
    }

    lemma Unmarked(row: nat, col: nat)
      requires Marked() && row < maze.Length0 && col < maze.Length1 && maze[row, col] == 0
      ensures Point(row, col) in open && Point(row, col) !in order
    {
    }

    method Visit(row: nat, col: nat, pre: Point, ghost k: nat)
      requires Valid() && row < maze.Length0 && col < maze.Length1 && maze[row, col] == 0
      requires k < |order| && order[k] == pre && Adjacent(pre, Point(row, col))
      modifies this, maze, predecessor, stack
      ensures Valid() && order == old(order) + [Point(row, col)] && waiting == old(waiting) + [|old(order)|]
    {
      hide Tree, Sized, Marked, Linked;
      Unmarked(row, col);
      RoomFor(Point(row, col));
      Enter(row, col, pre, k);
      Push(Point(row, col));
    }

    // ----- The loop

    /** Looks at one neighbour, and visits it if it is inside, open and new. */
    method Look(row: int, col: int, p: Point, ghost i: nat, ghost o: seq<Point>, ghost w: seq<nat>)
      requires Valid() && i < |order| && order[i] == p && Adjacent(p, Point(row, col)) && Grown(o, w, order, waiting)
      modifies this, maze, predecessor, stack
      ensures Valid() && Grown(o, w, order, waiting) && old(order) <= order
      ensures Point(row, col) in open ==> Point(row, col) in order
    {
      hide Tree, Linked, Stacked;
      if 0 <= row < maze.Length0 && 0 <= col < maze.Length1 && maze[row, col] == 0 {
        ghost var o', w' := order, waiting;
        Visit(row, col, p, i);
        assert order[|o'|] == Point(row, col) && waiting[|w'|] == |o'|;
        GrownMore(o, w, o', w', order, waiting);
      }
    }

    method Expand(p: Point, ghost i: nat)
      requires Valid() && i < |order| && order[i] == p
      modifies this, maze, predecessor, stack
      ensures Valid() && Grown(old(order), old(waiting), order, waiting) && DoneAt(open, order, i)
    {
      hide Valid, Grown;
      ghost var o, w := order, waiting;
      GrownNone(o, w);
      Look(p.row, p.col + 1, p, i, o, w);
      Look(p.row + 1, p.col, p, i, o, w);
      Look(p.row, p.col - 1, p, i, o, w);
      Look(p.row - 1, p.col, p, i, o, w);
    }

    method Pop() returns (p: Point, ghost i: nat)
      requires Valid() && top > 0
      modifies this`top, this`waiting
      ensures Valid() && top == old(top) - 1 && waiting == old(waiting)[..top]
      ensures i < |order| && i == old(waiting)[top] && i !in waiting && order[i] == p
    {
      hide Tree, Linked, Marked;
      top := top - 1;
      p := stack[top];
      i := waiting[top];
      waiting := waiting[..top];
    }

    method Start()
      requires Sized() && Marked() && Linked() && Stacked() && Blank() && order == [] && top == 0
      modifies this, maze, stack
      ensures Valid() && order == [Point(0, 0)] && waiting == [0]
    {
      maze[0, 0] := 2;
      order, from := [Point(0, 0)], [0];
      assert stack.Length > 0 by { AtLeastOne(maze.Length0, maze.Length1); }
      Push(Point(0, 0));
    }

    method PathBack(goal: Point, ghost i: nat) returns (back: seq<Point>)
      requires Valid() && i < |order| && order[i] == goal
      ensures IsPathBack(back, goal, Point(0, 0), open)
    {
      hide Valid;
      var p := goal;
      ghost var k := i;
      back := [p];
      BackStep(k);
      while predecessor[p.row, p.col].row != -1
        invariant 0 <= k < |order| && order[k] == p && Valid() && Inside(p, predecessor.Length0, predecessor.Length1)
        invariant |back| > 0 && back[0] == goal && back[|back| - 1] == p
        invariant forall j :: 0 <= j < |back| - 1 ==> back[j] in open && Adjacent(back[j + 1], back[j])
        decreases k
      {
        BackStep(k);
        p := predecessor[p.row, p.col];
        k := from[k];
        back := back + [p];
        BackStep(k);
      }
      BackStep(k);
    }

    /** The predecessor of a cell is an earlier cell next to it, and only the start has none. */
    lemma BackStep(k: nat)
      requires Valid() && k < |order|
      ensures |from| == |order| && predecessor.Length0 == maze.Length0 && predecessor.Length1 == maze.Length1
      ensures Inside(order[k], maze.Length0, maze.Length1)
      ensures predecessor[order[k].row, order[k].col].row == -1 <==> k == 0
      ensures k == 0 ==> order[k] == Point(0, 0)
      ensures k > 0 ==> from[k] < k && order[k] in open && Adjacent(order[from[k]], order[k])
      ensures k > 0 ==> predecessor[order[k].row, order[k].col] == order[from[k]]
    {
      hide Marked, Stacked, Distinct;
      if k > 0 { assert from[k] < k && Inside(order[from[k]], maze.Length0, maze.Length1); }
    }

    /** For every grid and every layout of walls: the search ends, no cell is pushed twice, and a path is
     reported exactly when there is one; the path that is printed leads from the goal back to the start. */
    method Run() returns (found: bool, back: seq<Point>)
      requires Sized() && Marked() && Linked() && Stacked() && Blank() && order == [] && top == 0
      modifies this, maze, predecessor, stack
      ensures var goal := Point(maze.Length0 - 1, maze.Length1 - 1);
        && Distinct(order)
        && (found <==> Reachable(goal, Point(0, 0), open))
        && (found ==> IsPathBack(back, goal, Point(0, 0), open))
    {
      hide Sized, Tree, Marked, Linked, Stacked, Blank, Searched, Grown, DoneAt, Reachable;
      var goal := Point(maze.Length0 - 1, maze.Length1 - 1);
      Start();
      NoneSearched(open, order[0], goal);
      var p := Point(0, 0);
      ghost var i := 0;
      ghost var popped := false;
      Bounded();
      while top != 0
        invariant Valid() && Searched(open, order, waiting, goal, -1) && (popped ==> p != goal)
        invariant !popped ==> top != 0
        invariant |order| <= maze.Length0 * maze.Length1 && top == |waiting|
        decreases 2 * (maze.Length0 * maze.Length1 - |order|) + top
      {
        ghost var before := waiting;
        p, i := Pop();
        popped := true;
        PoppedOne(open, order, before, goal);
        if p == goal {
          break;
        }
        ghost var o, w := order, waiting;
        Expand(p, i);
        SearchedMore(open, o, w, order, waiting, goal, i);
        Bounded();
      }
      found := p == goal;
      back := [];
      Bounded();
      if !found {
        SearchedAll(open, order, goal, Point(0, 0));
      } else {
        back := PathBack(p, i);
        BackIsPath(back, goal, Point(0, 0), open);
      }
    }

    lemma Bounded()
      requires Valid()
      ensures Distinct(order) && |order| <= maze.Length0 * maze.Length1 && top == |waiting| && Point(0, 0) in order
    {
      hide Marked;
      DistinctFit(order, maze.Length0, maze.Length1);
    }
  }

  /** A path read backwards, from the goal to the start. */
  ghost predicate IsPathBack(back: seq<Point>, goal: Point, start: Point, open: set<Point>) {
    && |back| > 0 && back[0] == goal && back[|back| - 1] == start
    && forall i :: 0 <= i < |back| - 1 ==> back[i] in open && Adjacent(back[i + 1], back[i])
  }

  ghost function Reversed(s: seq<Point>): (r: seq<Point>)
    ensures |r| == |s| && forall i :: 0 <= i < |s| ==> r[i] == s[|s| - 1 - i]
  {
    if s == [] then [] else [s[|s| - 1]] + Reversed(s[..|s| - 1])
  }

  lemma {:induction false} BackIsPath(back: seq<Point>, goal: Point, start: Point, open: set<Point>)
    requires IsPathBack(back, goal, start, open)
    ensures Reachable(goal, start, open)
  {
    var path := Reversed(back);
    forall i | 0 < i < |path| ensures path[i] in open && Adjacent(path[i - 1], path[i]) {
      assert path[i] == back[|back| - 1 - i] && path[i - 1] == back[|back| - 1 - i + 1];
    }
    assert IsPath(path, start, open) && path[|path| - 1] == goal;
  }

  lemma {:induction false} ClosedUnreachable(order: seq<Point>, goal: Point, start: Point, open: set<Point>)
    requires start in order && goal !in order
    requires forall p, q :: p in order && q in open && Adjacent(p, q) ==> q in order
    ensures !Reachable(goal, start, open)
  {
    forall path | IsPath(path, start, open) ensures path[|path| - 1] != goal {
      StaysIn(path, start, open, order, |path| - 1);
    }
  }

  lemma {:induction false} NoneSearched(open: set<Point>, start: Point, goal: Point)
    ensures Searched(open, [start], [0], goal, -1)
  {
    assert 0 in [0];
  }

  lemma {:induction false} GrownNone(o: seq<Point>, w: seq<nat>)
    ensures Grown(o, w, o, w)
  {
  }

  lemma {:induction false} AtLeastOne(rows: nat, cols: nat)
    requires rows > 0 && cols > 0
    ensures rows * cols > 0
  {
  }

  lemma {:induction false} IndicesFit(w: seq<nat>, n: nat)
    requires forall k :: 0 <= k < |w| ==> w[k] < n
    requires forall k, m :: 0 <= k < m < |w| ==> w[k] != w[m]
    ensures |w| <= n
  {
    var s := seq(|w|, k requires 0 <= k < |w| => Point(0, w[k]));
    assert Distinct(s);
    DistinctFit(s, 1, n);
  }
}
