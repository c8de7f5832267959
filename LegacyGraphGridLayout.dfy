/**
 * The grid layout of the control-flow graph in the older tree (widgets/GraphGridLayout.cpp):
 * a depth-first topological sort that separates loop edges from the acyclic ("dag")
 * edges, level assignment, the choice of one tree parent per block, the recursive
 * placement of every block over its tree children, and the "first free lane" search
 * used when edges are routed through the grid.
 *
 * A graph is given as `edges`: block id to the targets of its outgoing edges, in order.
 * Unordered-map iteration orders are parameters (`blockIds`, `gridOrder`).
 */
module LegacyGraphGridLayout {
  import opened Common

  /** The per-block layout record; defaults as in the source's struct. */
  datatype GridBlock = GridBlock(
    id: u64,
    treeEdge: seq<u64>,  // tree children, a subset of dagEdge
    dagEdge: seq<u64>,   // outgoing edges that are not loop edges
    hasParent: bool,
    level: int,
    rowCount: int,
    colCount: int,
    col: int,
    row: int)

  /** A block as the layout creates it before sorting. */
  function NewGridBlock(id: u64): GridBlock {
    GridBlock(id, [], [], false, 0, 0, 0, 0, 0)
  }

  /** Every edge target is itself a block. */
  ghost predicate Closed(edges: map<u64, seq<u64>>) {
    forall v, t :: v in edges && t in edges[v] ==> t in edges
  }

  // ---------------------------------------------------------------------------
  // Depth-first search with an explicit stack

  /** DFS colour of a block: 0 not visited, 1 on the stack, 2 finished; a missing key reads 0. */
  function Colour(visited: map<u64, int>, x: u64): int {
    if x in visited then visited[x] else 0
  }

  /** Colours, membership and distinctness while the search runs. */
  ghost predicate DfsShape(edges: map<u64, seq<u64>>, visited: map<u64, int>, stack: seq<u64>,
                           next: seq<nat>, order: seq<u64>, dag: map<u64, seq<u64>>)
  {
    Closed(edges) && dag.Keys == edges.Keys && |next| == |stack|
    && Distinct(stack) && Distinct(order)
    && (forall j :: 0 <= j < |stack| ==> stack[j] in edges && next[j] <= |edges[stack[j]]|)
    && (forall j :: 0 <= j < |order| ==> order[j] in edges)
    && (forall x {:trigger Colour(visited, x)} :: x in edges ==> 0 <= Colour(visited, x) <= 2)
    && (forall x {:trigger Colour(visited, x)} :: x in edges ==> (Colour(visited, x) == 1 <==> x in stack))
    && (forall x {:trigger Colour(visited, x)} :: x in edges ==> (Colour(visited, x) == 2 <==> x in order))
    && (forall x {:trigger Colour(visited, x)} :: x in edges && Colour(visited, x) == 0 ==> dag[x] == [])
    && (forall v, t :: v in dag && t in dag[v] ==> t in edges[v])
  }

  /**
   * Edges of finished blocks: a kept edge points to a block finished earlier, a dropped
   * one to a block not finished earlier.
   */
  ghost predicate FinishedEdges(edges: map<u64, seq<u64>>, order: seq<u64>, dag: map<u64, seq<u64>>) {
    (forall j :: 0 <= j < |order| ==> order[j] in edges && order[j] in dag)
    && (forall j, t :: 0 <= j < |order| && t in dag[order[j]] ==> t in order[..j])
    && (forall j, t :: 0 <= j < |order| && t in edges[order[j]] && t !in dag[order[j]] ==> t !in order[..j])
  }

  /**
   * Edges of stacked blocks: a kept edge points to a finished block or to one above on the
   * stack; a dropped edge among those already followed points to a block at or below.
   */
  ghost predicate StackedEdges(edges: map<u64, seq<u64>>, stack: seq<u64>, next: seq<nat>, order: seq<u64>,
                               dag: map<u64, seq<u64>>)
  {
    |next| == |stack|
    && (forall j :: 0 <= j < |stack| ==> stack[j] in edges && stack[j] in dag && next[j] <= |edges[stack[j]]|)
    && (forall j, t :: 0 <= j < |stack| && t in dag[stack[j]] ==> t in order || t in stack[j + 1..])
    && (forall j, t :: 0 <= j < |stack| && t in edges[stack[j]][..next[j]] && t !in dag[stack[j]] ==>
          t in stack[..j + 1])
  }

  /**
   * What holds between steps of the search: `stack`/`next` is the explicit stack of
   * (block, next edge index); `order` lists finished blocks; `dag` holds the kept edges.
   */
  ghost predicate DfsInv(edges: map<u64, seq<u64>>, visited: map<u64, int>, stack: seq<u64>,
                         next: seq<nat>, order: seq<u64>, dag: map<u64, seq<u64>>)
  {
    DfsShape(edges, visited, stack, next, order, dag)
    && FinishedEdges(edges, order, dag)
    && StackedEdges(edges, stack, next, order, dag)
  }

  /** A list without repetitions drawn from `keys` is no longer than `keys`. */
  lemma {:induction false} DistinctBound(s: seq<u64>, keys: set<u64>)
    requires Distinct(s) && forall i :: 0 <= i < |s| ==> s[i] in keys
    ensures |s| <= |keys|
    decreases |s|
  {
    if |s| > 0 {
      var last := s[|s| - 1];
      var rest := s[..|s| - 1];
      assert forall i :: 0 <= i < |rest| ==> rest[i] in keys - {last} by {
        forall i | 0 <= i < |rest| ensures rest[i] in keys - {last} {
          assert rest[i] == s[i];
        }
      }
      DistinctBound(rest, keys - {last});
    }
  }

  /** Finished and stacked blocks together never outnumber the blocks. */
  lemma {:induction false} DfsBound(edges: map<u64, seq<u64>>, visited: map<u64, int>, stack: seq<u64>,
                                    next: seq<nat>, order: seq<u64>, dag: map<u64, seq<u64>>)
    requires DfsInv(edges, visited, stack, next, order, dag)
    ensures |order| + |stack| <= |edges|
  {
    var s := order + stack;
    forall i, j | 0 <= i < j < |s| ensures s[i] != s[j] {
      if j < |order| {
      } else if i >= |order| {
        assert s[i] == stack[i - |order|] && s[j] == stack[j - |order|];
      } else {
        assert s[i] in order && s[j] in stack;
        assert Colour(visited, s[i]) == 2 && Colour(visited, s[j]) == 1;
      }
    }
    forall i | 0 <= i < |s| ensures s[i] in edges.Keys {
      if i >= |order| {
        assert s[i] == stack[i - |order|];
      }
    }
    DistinctBound(s, edges.Keys);
  }

  /** Starting a fragment at an unvisited block. */
  lemma {:induction false} DfsStart(edges: map<u64, seq<u64>>, visited: map<u64, int>, order: seq<u64>,
                                    dag: map<u64, seq<u64>>, first: u64)
    requires DfsInv(edges, visited, [], [], order, dag)
    requires first in edges && Colour(visited, first) == 0
    ensures DfsInv(edges, visited[first := 1], [first], [0], order, dag)
  {
    DfsStartShape(edges, visited, order, dag, first);
    DfsStartStacked(edges, visited, order, dag, first);
  }

  /** The colours after pushing an unvisited block: only that block changes, to "on the stack". */
  lemma {:induction false} DfsStartShape(edges: map<u64, seq<u64>>, visited: map<u64, int>, order: seq<u64>,
                                         dag: map<u64, seq<u64>>, first: u64)
    requires DfsShape(edges, visited, [], [], order, dag)
    requires first in edges && Colour(visited, first) == 0
    ensures DfsShape(edges, visited[first := 1], [first], [0], order, dag)
  {
    var v' := visited[first := 1];
    forall x | x in edges
      ensures Colour(v', x) == (if x == first then 1 else Colour(visited, x))
    {
    }
    assert first !in order;
  }

  /** A block just pushed has kept no edge and followed none yet. */
  lemma {:induction false} DfsStartStacked(edges: map<u64, seq<u64>>, visited: map<u64, int>, order: seq<u64>,
                                           dag: map<u64, seq<u64>>, first: u64)
    requires DfsShape(edges, visited, [], [], order, dag)
    requires first in edges && Colour(visited, first) == 0
    ensures StackedEdges(edges, [first], [0], order, dag)
  {
    assert dag[first] == [];
    assert edges[first][..0] == [];
  }

  /** Regrouping an append. */
  lemma {:induction false} AppendAssoc(a: seq<u64>, b: seq<u64>, x: u64)
    ensures a + b + [x] == a + (b + [x])
  {
  }

  /** One more element at the end of a prefix. */
  lemma {:induction false} PrefixStep(s: seq<u64>, e: nat)
    requires e < |s|
    ensures s[..e + 1] == s[..e] + [s[e]]
  {
  }

  /** The block on top of the stack and the index of its next edge. */
  ghost predicate AtTop(edges: map<u64, seq<u64>>, stack: seq<u64>, next: seq<nat>, v: u64, e: nat) {
    |stack| > 0 && |next| == |stack| && v == stack[|stack| - 1] && e == next[|stack| - 1] && v in edges
  }

  /** Appending an edge to a block that is not finished keeps the finished blocks' facts. */
  lemma {:induction false} ExtendUnfinished(edges: map<u64, seq<u64>>, order: seq<u64>, dag: map<u64, seq<u64>>,
                                            v: u64, t: u64, dag': map<u64, seq<u64>>)
    requires FinishedEdges(edges, order, dag) && v in dag && v !in order
    requires dag' == dag[v := dag[v] + [t]]
    ensures FinishedEdges(edges, order, dag')
  {
    assert forall j :: 0 <= j < |order| ==> dag'[order[j]] == dag[order[j]];
  }

  /** Pushing: the colours and memberships. */
  lemma {:induction false} PushShape(edges: map<u64, seq<u64>>, visited: map<u64, int>, stack: seq<u64>,
                                     next: seq<nat>, order: seq<u64>, dag: map<u64, seq<u64>>, v: u64, e: nat,
                                     visited': map<u64, int>, stack': seq<u64>, next': seq<nat>,
                                     dag': map<u64, seq<u64>>)
    requires AtTop(edges, stack, next, v, e) && e < |edges[v]|
    requires DfsShape(edges, visited, stack, next, order, dag)
    requires Colour(visited, edges[v][e]) == 0
    requires visited' == visited[edges[v][e] := 1] && stack' == stack + [edges[v][e]] &&
      next' == next[|stack| - 1 := e + 1] + [0] && dag' == dag[v := dag[v] + [edges[v][e]]]
    ensures DfsShape(edges, visited', stack', next', order, dag')
  {
    var t := edges[v][e];
    assert t in edges && t !in stack && t !in order;
    assert Colour(visited, v) == 1;
    assert forall x :: x in edges ==> Colour(visited', x) == (if x == t then 1 else Colour(visited, x));
    assert forall j :: 0 <= j < |stack| ==> stack'[j] == stack[j];
  }

  /** Pushing: the stacked blocks' edges. */
  lemma {:induction false} PushStacked(edges: map<u64, seq<u64>>, stack: seq<u64>, next: seq<nat>,
                                       order: seq<u64>, dag: map<u64, seq<u64>>, v: u64, e: nat,
                                       stack': seq<u64>, next': seq<nat>, dag': map<u64, seq<u64>>)
    requires AtTop(edges, stack, next, v, e) && e < |edges[v]|
    requires StackedEdges(edges, stack, next, order, dag) && Distinct(stack)
    requires var t := edges[v][e]; t in edges && t in dag && t != v && dag[t] == []
    requires stack' == stack + [edges[v][e]] && next' == next[|stack| - 1 := e + 1] + [0] &&
      dag' == dag[v := dag[v] + [edges[v][e]]]
    ensures StackedEdges(edges, stack', next', order, dag')
  {
    var top := |stack| - 1;
    var t := edges[v][e];
    PrefixStep(edges[v], e);
    forall j, x | 0 <= j < |stack'| && x in dag'[stack'[j]] ensures x in order || x in stack'[j + 1..] {
      if j < top {
        assert stack'[j] == stack[j] != v;
        assert stack'[j + 1..] == stack[j + 1..] + [t];
      } else if j == top {
        assert stack'[j + 1..] == [t];
        assert stack[j + 1..] == [];
      }
    }
    forall j, x | 0 <= j < |stack'| && x in edges[stack'[j]][..next'[j]] && x !in dag'[stack'[j]]
      ensures x in stack'[..j + 1]
    {
      if j < top {
        assert stack'[j] == stack[j] != v;
        assert stack'[..j + 1] == stack[..j + 1];
      } else if j == top {
        assert stack'[..j + 1] == stack[..j + 1];
      }
    }
  }

  /** Following an edge to an unvisited block pushes it and keeps the edge. */
  lemma {:induction false} DfsPush(edges: map<u64, seq<u64>>, visited: map<u64, int>, stack: seq<u64>,
                                   next: seq<nat>, order: seq<u64>, dag: map<u64, seq<u64>>, v: u64, e: nat,
                                   visited': map<u64, int>, stack': seq<u64>, next': seq<nat>, order': seq<u64>,
                                   dag': map<u64, seq<u64>>)
    requires AtTop(edges, stack, next, v, e) && e < |edges[v]|
    requires DfsInv(edges, visited, stack, next, order, dag)
    requires Colour(visited, edges[v][e]) == 0
    requires visited' == visited[edges[v][e] := 1] && stack' == stack + [edges[v][e]] &&
      next' == next[|stack| - 1 := e + 1] + [0] && order' == order && dag' == dag[v := dag[v] + [edges[v][e]]]
    ensures DfsInv(edges, visited', stack', next', order', dag')
  {
    var t := edges[v][e];
    assert t in edges && Colour(visited, v) == 1 && v !in order;
    PushShape(edges, visited, stack, next, order, dag, v, e, visited', stack', next', dag');
    ExtendUnfinished(edges, order, dag, v, t, dag');
    PushStacked(edges, stack, next, order, dag, v, e, stack', next', dag');
  }

  /** Keeping an edge to a finished block: the stacked blocks' edges. */
  lemma {:induction false} KeepStacked(edges: map<u64, seq<u64>>, stack: seq<u64>, next: seq<nat>,
                                       order: seq<u64>, dag: map<u64, seq<u64>>, v: u64, e: nat,
                                       next': seq<nat>, dag': map<u64, seq<u64>>)
    requires AtTop(edges, stack, next, v, e) && e < |edges[v]|
    requires StackedEdges(edges, stack, next, order, dag) && Distinct(stack)
    requires edges[v][e] in order
    requires next' == next[|stack| - 1 := e + 1] && dag' == dag[v := dag[v] + [edges[v][e]]]
    ensures StackedEdges(edges, stack, next', order, dag')
  {
    var top := |stack| - 1;
    PrefixStep(edges[v], e);
    forall j, x | 0 <= j < |stack| && x in dag'[stack[j]] ensures x in order || x in stack[j + 1..] {
      if j < top {
        assert stack[j] != v;
      }
    }
    forall j, x | 0 <= j < |stack| && x in edges[stack[j]][..next'[j]] && x !in dag'[stack[j]]
      ensures x in stack[..j + 1]
    {
      if j < top {
        assert stack[j] != v;
      }
    }
  }

  /** An edge to a finished block is kept and the stack only advances. */
  lemma {:induction false} DfsKeep(edges: map<u64, seq<u64>>, visited: map<u64, int>, stack: seq<u64>,
                                   next: seq<nat>, order: seq<u64>, dag: map<u64, seq<u64>>, v: u64, e: nat,
                                   visited': map<u64, int>, stack': seq<u64>, next': seq<nat>, order': seq<u64>,
                                   dag': map<u64, seq<u64>>)
    requires AtTop(edges, stack, next, v, e) && e < |edges[v]|
    requires DfsInv(edges, visited, stack, next, order, dag)
    requires Colour(visited, edges[v][e]) == 2
    requires visited' == visited && stack' == stack && next' == next[|stack| - 1 := e + 1] &&
      order' == order && dag' == dag[v := dag[v] + [edges[v][e]]]
    ensures DfsInv(edges, visited', stack', next', order', dag')
  {
    var t := edges[v][e];
    assert t in edges && t in order;
    assert Colour(visited, v) == 1 && v !in order;
    ExtendUnfinished(edges, order, dag, v, t, dag');
    KeepStacked(edges, stack, next, order, dag, v, e, next', dag');
    assert DfsShape(edges, visited', stack', next', order', dag');
  }

  /** Dropping a loop edge: the stacked blocks' edges. */
  lemma {:induction false} SkipStacked(edges: map<u64, seq<u64>>, stack: seq<u64>, next: seq<nat>,
                                       order: seq<u64>, dag: map<u64, seq<u64>>, v: u64, e: nat, next': seq<nat>)
    requires AtTop(edges, stack, next, v, e) && e < |edges[v]|
    requires StackedEdges(edges, stack, next, order, dag)
    requires edges[v][e] in stack
    requires next' == next[|stack| - 1 := e + 1]
    ensures StackedEdges(edges, stack, next', order, dag)
  {
    var top := |stack| - 1;
    PrefixStep(edges[v], e);
    assert stack[..top + 1] == stack;
    forall j, x | 0 <= j < |stack| && x in edges[stack[j]][..next'[j]] && x !in dag[stack[j]]
      ensures x in stack[..j + 1]
    {
      if j == top {
        assert x in edges[v][..e] || x == edges[v][e];
      }
    }
  }

  /** An edge to a block still on the stack is a loop edge: it is dropped. */
  lemma {:induction false} DfsSkip(edges: map<u64, seq<u64>>, visited: map<u64, int>, stack: seq<u64>,
                                   next: seq<nat>, order: seq<u64>, dag: map<u64, seq<u64>>, v: u64, e: nat,
                                   visited': map<u64, int>, stack': seq<u64>, next': seq<nat>, order': seq<u64>,
                                   dag': map<u64, seq<u64>>)
    requires AtTop(edges, stack, next, v, e) && e < |edges[v]|
    requires DfsInv(edges, visited, stack, next, order, dag)
    requires Colour(visited, edges[v][e]) == 1
    requires visited' == visited && stack' == stack && next' == next[|stack| - 1 := e + 1] && order' == order &&
      dag' == dag
    ensures DfsInv(edges, visited', stack', next', order', dag')
  {
    assert edges[v][e] in edges && edges[v][e] in stack;
    SkipStacked(edges, stack, next, order, dag, v, e, next');
  }

  /** Popping: the finished blocks' edges. */
  lemma {:induction false} PopFinished(edges: map<u64, seq<u64>>, order: seq<u64>, dag: map<u64, seq<u64>>, v: u64,
                                       order': seq<u64>)
    requires FinishedEdges(edges, order, dag) && v in edges && v in dag
    requires forall t :: t in dag[v] ==> t in order
    requires forall t :: t in edges[v] && t !in dag[v] ==> t !in order
    requires order' == order + [v]
    ensures FinishedEdges(edges, order', dag)
  {
    assert forall j :: 0 <= j <= |order| ==> order'[..j] == order[..j];
  }

  /** Popping: the stacked blocks' edges. */
  lemma {:induction false} PopStacked(edges: map<u64, seq<u64>>, stack: seq<u64>, next: seq<nat>,
                                      order: seq<u64>, dag: map<u64, seq<u64>>,
                                      stack': seq<u64>, next': seq<nat>, order': seq<u64>)
    requires StackedEdges(edges, stack, next, order, dag) && |stack| > 0
    requires stack' == stack[..|stack| - 1] && next' == next[..|stack| - 1] && order' == order + [stack[|stack| - 1]]
    ensures StackedEdges(edges, stack', next', order', dag)
  {
    var top := |stack| - 1;
    var v := stack[top];
    forall j, x | 0 <= j < |stack'| && x in dag[stack'[j]] ensures x in order' || x in stack'[j + 1..] {
      assert stack'[j] == stack[j];
      assert stack[j + 1..] == stack'[j + 1..] + [v];
    }
    forall j, x | 0 <= j < |stack'| && x in edges[stack'[j]][..next'[j]] && x !in dag[stack'[j]]
      ensures x in stack'[..j + 1]
    {
      assert stack'[j] == stack[j];
      assert stack'[..j + 1] == stack[..j + 1];
    }
  }

  /** Popping: the colours and memberships. */
  lemma {:induction false} PopShape(edges: map<u64, seq<u64>>, visited: map<u64, int>, stack: seq<u64>,
                                    next: seq<nat>, order: seq<u64>, dag: map<u64, seq<u64>>, v: u64,
                                    visited': map<u64, int>, stack': seq<u64>, next': seq<nat>, order': seq<u64>)
    requires |stack| > 0 && v == stack[|stack| - 1]
    requires DfsShape(edges, visited, stack, next, order, dag)
    requires visited' == visited[v := 2] && stack' == stack[..|stack| - 1] && next' == next[..|stack| - 1] &&
      order' == order + [v]
    ensures DfsShape(edges, visited', stack', next', order', dag)
  {
    assert Colour(visited, v) == 1;
    assert v !in order && v !in stack';
    assert forall x :: x in edges ==> Colour(visited', x) == (if x == v then 2 else Colour(visited, x));
    assert forall x :: x in stack <==> x in stack' || x == v;
  }

  /** A block whose edges are all followed leaves the stack and is finished. */
  lemma {:induction false} DfsPop(edges: map<u64, seq<u64>>, visited: map<u64, int>, stack: seq<u64>,
                                  next: seq<nat>, order: seq<u64>, dag: map<u64, seq<u64>>, v: u64, e: nat,
                                  visited': map<u64, int>, stack': seq<u64>, next': seq<nat>, order': seq<u64>,
                                  dag': map<u64, seq<u64>>)
    requires AtTop(edges, stack, next, v, e) && e == |edges[v]|
    requires DfsInv(edges, visited, stack, next, order, dag)
    requires visited' == visited[v := 2] && stack' == stack[..|stack| - 1] && next' == next[..|stack| - 1] &&
      order' == order + [v] && dag' == dag
    ensures DfsInv(edges, visited', stack', next', order', dag')
  {
    var top := |stack| - 1;
    assert stack[..top + 1] == stack;
    assert edges[v][..e] == edges[v];
    forall t | t in stack ensures t !in order {
      var j :| 0 <= j < |stack| && stack[j] == t;
      assert Colour(visited, t) == 1;
    }
    PopShape(edges, visited, stack, next, order, dag, v, visited', stack', next', order');
    PopFinished(edges, order, dag, v, order');
    PopStacked(edges, stack, next, order, dag, stack', next', order');
  }

  /** The first termination measure: pushing or finishing a block lowers it. */
  function Potential(edges: map<u64, seq<u64>>, order: seq<u64>, stack: seq<u64>): int {
    2 * |edges| - 2 * |order| - |stack|
  }

  /** The second termination measure: edges the top block has yet to follow. */
  function TopLeft(edges: map<u64, seq<u64>>, stack: seq<u64>, next: seq<nat>): int {
    if 0 < |stack| <= |next| && stack[|stack| - 1] in edges then |edges[stack[|stack| - 1]]| - next[|stack| - 1]
    else 0
  }

  /** One step lowers the pair of measures lexicographically. */
  ghost predicate Progress(edges: map<u64, seq<u64>>, order: seq<u64>, stack: seq<u64>, next: seq<nat>,
                           order': seq<u64>, stack': seq<u64>, next': seq<nat>)
  {
    var a, a' := Potential(edges, order, stack), Potential(edges, order', stack');
    0 <= a' < a || (a' == a && 0 <= TopLeft(edges, stack', next') < TopLeft(edges, stack, next))
  }

  /** One step of the search loop: follow the top block's next edge, or finish the top block. */
  method DfsStep(edges: map<u64, seq<u64>>, visited: map<u64, int>, stack: seq<u64>, next: seq<nat>,
                 order: seq<u64>, dag: map<u64, seq<u64>>)
    returns (visited': map<u64, int>, stack': seq<u64>, next': seq<nat>, order': seq<u64>, dag': map<u64, seq<u64>>)
    requires DfsInv(edges, visited, stack, next, order, dag) && |stack| > 0
    ensures DfsInv(edges, visited', stack', next', order', dag')
    ensures |stack'| > 0 ==> stack'[0] == stack[0]
    ensures |stack'| >= |stack| ==> order' == order
    ensures |stack'| == 0 ==> order' == order + [stack[0]]
    ensures Progress(edges, order, stack, next, order', stack', next')
    ensures |stack'| < |stack| ==> order' == order + [stack[|stack| - 1]] && stack' == stack[..|stack| - 1]
  {
    DfsBound(edges, visited, stack, next, order, dag);
    var top := |stack| - 1;
    var v := stack[top];
    var e := next[top];
    assert AtTop(edges, stack, next, v, e);
    if e < |edges[v]| {
      visited', stack', next', order', dag' := FollowEdge(edges, visited, stack, next, order, dag, v, e);
    } else {
      visited', stack', next', order', dag' := visited[v := 2], stack[..top], next[..top], order + [v], dag;
      DfsPop(edges, visited, stack, next, order, dag, v, e, visited', stack', next', order', dag');
      assert Potential(edges, order', stack') == Potential(edges, order, stack) - 1;
    }
  }

  /** Following the top block's next edge: push an unvisited target, keep or drop the edge. */
  method FollowEdge(edges: map<u64, seq<u64>>, visited: map<u64, int>, stack: seq<u64>, next: seq<nat>,
                    order: seq<u64>, dag: map<u64, seq<u64>>, v: u64, e: nat)
    returns (visited': map<u64, int>, stack': seq<u64>, next': seq<nat>, order': seq<u64>, dag': map<u64, seq<u64>>)
    requires AtTop(edges, stack, next, v, e) && e < |edges[v]|
    requires DfsInv(edges, visited, stack, next, order, dag)
    ensures DfsInv(edges, visited', stack', next', order', dag')
    ensures order' == order
    ensures stack' == stack || stack' == stack + [edges[v][e]]
    ensures Progress(edges, order, stack, next, order', stack', next')
  {
    var top := |stack| - 1;
    var t := edges[v][e];
    var targetState := Colour(visited, t);
    if targetState == 0 {
      visited', stack', next', order', dag' := visited[t := 1], stack + [t], next[top := e + 1] + [0], order, dag[v := dag[v] + [t]];
      DfsPush(edges, visited, stack, next, order, dag, v, e, visited', stack', next', order', dag');
      DfsBound(edges, visited', stack', next', order', dag');
      assert Potential(edges, order', stack') == Potential(edges, order, stack) - 1;
    } else if targetState == 2 {
      visited', stack', next', order', dag' := visited, stack, next[top := e + 1], order, dag[v := dag[v] + [t]];
      DfsKeep(edges, visited, stack, next, order, dag, v, e, visited', stack', next', order', dag');
    } else {
      visited', stack', next', order', dag' := visited, stack, next[top := e + 1], order, dag;
      DfsSkip(edges, visited, stack, next, order, dag, v, e, visited', stack', next', order', dag');
    }
  }

  /**
   * One depth-first fragment (the `dfsFragment` lambda): visits everything reachable
   * from `first` that is not yet visited, finishing `first` last.
   */
  method DfsFragment(edges: map<u64, seq<u64>>, first: u64, visited0: map<u64, int>, order0: seq<u64>,
                     dag0: map<u64, seq<u64>>)
    returns (visited: map<u64, int>, order: seq<u64>, dag: map<u64, seq<u64>>)
    requires DfsInv(edges, visited0, [], [], order0, dag0)
    requires first in edges && Colour(visited0, first) == 0
    ensures DfsInv(edges, visited, [], [], order, dag)
    ensures exists added :: order == order0 + added + [first]
    ensures forall x :: x in order0 ==> x in order
    ensures first in order
  {
    DfsStart(edges, visited0, order0, dag0, first);
    visited, order, dag := visited0[first := 1], order0, dag0;
    var stack: seq<u64>, next: seq<nat> := [first], [0];
    ghost var added: seq<u64> := [];
    while |stack| > 0
      invariant DfsInv(edges, visited, stack, next, order, dag)
      invariant |stack| > 0 ==> stack[0] == first && order == order0 + added
      invariant |stack| == 0 ==> order == order0 + added + [first]
      decreases Potential(edges, order, stack), TopLeft(edges, stack, next)
    {
      ghost var top, n := stack[|stack| - 1], |stack|;
      visited, stack, next, order, dag := DfsStep(edges, visited, stack, next, order, dag);
      if 0 < |stack| < n {
        AppendAssoc(order0, added, top);
        added := added + [top];
      }
    }
  }

  /** `order` lists blocks so that every kept edge points to an earlier position. */
  ghost predicate TopoOrdered(order: seq<u64>, dag: map<u64, seq<u64>>) {
    forall i, j :: 0 <= i < |order| && 0 <= j < |order| && order[j] in dag && order[i] in dag[order[j]] ==> i < j
  }

  /** A finished search, read with positions instead of prefixes. */
  lemma {:induction false} DfsDone(edges: map<u64, seq<u64>>, visited: map<u64, int>, order: seq<u64>,
                                   dag: map<u64, seq<u64>>)
    requires DfsInv(edges, visited, [], [], order, dag)
    requires forall x :: x in edges ==> x in order
    ensures forall x :: x in order <==> x in edges
    ensures TopoOrdered(order, dag)
    ensures forall i, j ::
      (0 <= i < |order| && 0 <= j < |order| && order[i] in edges[order[j]] && order[i] !in dag[order[j]]) ==> j <= i
  {
    forall i, j | 0 <= i < |order| && 0 <= j < |order| && order[j] in dag && order[i] in dag[order[j]]
      ensures i < j
    {
      var k :| 0 <= k < j && order[..j][k] == order[i];
    }
    forall i, j | 0 <= i < j < |order| ensures order[i] in order[..j] {
      assert order[..j][i] == order[i];
    }
  }

  /** The search state before anything is visited. */
  lemma {:induction false} DfsInit(edges: map<u64, seq<u64>>)
    requires Closed(edges)
    ensures DfsInv(edges, map[], [], [], [], map v | v in edges :: [])
  {
    assert forall x :: Colour(map[], x) == 0;
  }

  /** The first i blocks of `blockIds` have been finished. */
  ghost predicate Listed(blockIds: seq<u64>, i: int, order: seq<u64>) {
    forall k :: 0 <= k < i && k < |blockIds| ==> blockIds[k] in order
  }

  lemma {:induction false} ListedStep(blockIds: seq<u64>, i: nat, before: seq<u64>, order: seq<u64>)
    requires i < |blockIds| && Listed(blockIds, i, before)
    requires (forall x :: x in before ==> x in order) && blockIds[i] in order
    ensures Listed(blockIds, i + 1, order)
  {
    forall k | 0 <= k < i + 1 ensures blockIds[k] in order {
      if k < i {
        assert blockIds[k] in before;
      }
    }
  }

  lemma {:induction false} ListedAll(blockIds: seq<u64>, order: seq<u64>, edges: map<u64, seq<u64>>)
    requires Listed(blockIds, |blockIds|, order)
    requires forall x :: x in blockIds <==> x in edges
    ensures forall x :: x in edges ==> x in order
  {
    forall x | x in edges ensures x in order {
      var k :| 0 <= k < |blockIds| && blockIds[k] == x;
    }
  }

  /**
   * The search of `topoSort`: a fragment from `entry` first, then one from every block still
   * unvisited, in `blockIds` order (the iteration order of the block map).
   * `order` is the returned block order; `dag[v]` is block v's list of kept edges.
   */
  method DfsAll(edges: map<u64, seq<u64>>, entry: u64, blockIds: seq<u64>)
    returns (order: seq<u64>, dag: map<u64, seq<u64>>)
    requires Closed(edges) && entry in edges
    requires forall x :: x in blockIds <==> x in edges
    ensures Distinct(order) && forall x :: x in order <==> x in edges
    ensures dag.Keys == edges.Keys
    ensures forall v, t :: v in dag && t in dag[v] ==> t in edges[v]
    ensures TopoOrdered(order, dag)
    ensures forall i, j ::
      (0 <= i < |order| && 0 <= j < |order| && order[i] in edges[order[j]] && order[i] !in dag[order[j]]) ==> j <= i
  {
    DfsInit(edges);
    var visited: map<u64, int>;
    visited, order, dag := DfsFragment(edges, entry, map[], [], map v | v in edges :: []);
    var i := 0;
    while i < |blockIds|
      invariant 0 <= i <= |blockIds|
      invariant DfsInv(edges, visited, [], [], order, dag)
      invariant Listed(blockIds, i, order)
    {
      var b := blockIds[i];
      ghost var before := order;
      if Colour(visited, b) == 0 {
        visited, order, dag := DfsFragment(edges, b, visited, order, dag);
      } else {
        assert Colour(visited, b) == 2;
      }
      ListedStep(blockIds, i, before, order);
      i := i + 1;
    }
    ListedAll(blockIds, order, edges);
    DfsDone(edges, visited, order, dag);
  }

  // ---------------------------------------------------------------------------
  // Levels and tree edges

  /** The inner level loop: every target's level becomes at least `nextLevel`. */
  method RaiseTargets(level: map<u64, int>, targets: seq<u64>, nextLevel: int) returns (level': map<u64, int>)
    requires forall t :: t in targets ==> t in level
    ensures level'.Keys == level.Keys
    ensures forall x :: x in level ==> level'[x] == (if x in targets then Max(level[x], nextLevel) else level[x])
  {
    level' := level;
    for k := 0 to |targets|
      invariant level'.Keys == level.Keys
      invariant forall x :: x in level ==> level'[x] == (if x in targets[..k] then Max(level[x], nextLevel) else level[x])
    {
      PrefixStep(targets, k);
      level' := level'[targets[k] := Max(level'[targets[k]], nextLevel)];
    }
    assert targets[..|targets|] == targets;
  }

  /** Block t's level is explained by a kept edge from a block of `order[i..]` one level up. */
  ghost predicate Justified(order: seq<u64>, dag: map<u64, seq<u64>>, level: map<u64, int>, i: nat, t: u64)
    requires t in level && forall j :: 0 <= j < |order| ==> order[j] in dag && order[j] in level
  {
    exists j :: i <= j < |order| && t in dag[order[j]] && level[t] == level[order[j]] + 1
  }

  /** What the level pass has established once the blocks `order[i..]` are processed. */
  ghost predicate LevelsDone(order: seq<u64>, dag: map<u64, seq<u64>>, level: map<u64, int>, i: nat)
  {
    && level.Keys == dag.Keys
    && (forall j :: 0 <= j < |order| ==> order[j] in dag)
    && (forall v :: v in level ==> level[v] >= 0)
    && (forall j, t :: 0 <= i <= j < |order| && t in dag[order[j]] ==> t in level && level[t] >= level[order[j]] + 1)
    && (forall t :: t in level && level[t] != 0 ==> Justified(order, dag, level, i, t))
  }

  /** A block of a topological order keeps no edge to itself. */
  lemma NoSelfEdge(order: seq<u64>, dag: map<u64, seq<u64>>, i: nat)
    requires i < |order| && order[i] in dag && TopoOrdered(order, dag)
    ensures order[i] !in dag[order[i]]
  {
  }

  lemma {:induction false} LevelStep(order: seq<u64>, dag: map<u64, seq<u64>>, level: map<u64, int>,
                                     level': map<u64, int>, i: nat)
    requires i < |order| && Distinct(order) && TopoOrdered(order, dag)
    requires forall v, t :: v in dag && t in dag[v] ==> t in dag
    requires LevelsDone(order, dag, level, i + 1)
    requires level'.Keys == level.Keys
    requires forall x :: x in level ==>
      level'[x] == (if x in dag[order[i]] then Max(level[x], level[order[i]] + 1) else level[x])
    ensures LevelsDone(order, dag, level', i)
  {
    var v := order[i];
    NoSelfEdge(order, dag, i);
    assert level'[v] == level[v];
    forall j | i < j < |order| ensures level'[order[j]] == level[order[j]] {
      assert order[j] !in dag[v];
    }
    forall x | x in level' ensures level'[x] >= level[x] >= 0 {
    }
    forall j, t | i <= j < |order| && t in dag[order[j]] ensures t in level' && level'[t] >= level'[order[j]] + 1 {
      if j > i {
        assert level[t] >= level[order[j]] + 1;
      }
    }
    forall t | t in level' && level'[t] != 0 ensures Justified(order, dag, level', i, t) {
      if t in dag[v] && level'[t] == level[v] + 1 {
        assert t in dag[order[i]] && level'[t] == level'[order[i]] + 1;
      } else {
        assert level'[t] == level[t];
        var j :| i + 1 <= j < |order| && t in dag[order[j]] && level[t] == level[order[j]] + 1;
        assert level'[t] == level'[order[j]] + 1;
      }
    }
  }

  /**
   * The level pass: blocks in reverse `order`, each pushing its kept edges' targets to at
   * least one level below it. Levels start at 0.
   */
  method AssignLevels(order: seq<u64>, dag: map<u64, seq<u64>>) returns (level: map<u64, int>)
    requires Distinct(order) && forall v :: v in dag <==> v in order
    requires forall v, t :: v in dag && t in dag[v] ==> t in dag
    requires TopoOrdered(order, dag)
    ensures level.Keys == dag.Keys
    ensures forall v :: v in level ==> level[v] >= 0
    ensures forall v, t :: v in dag && t in dag[v] ==> level[t] >= level[v] + 1
    ensures forall t :: t in level && level[t] != 0 ==> exists v :: v in dag && t in dag[v] && level[t] == level[v] + 1
  {
    level := map v | v in dag :: 0;
    var i := |order|;
    while i > 0
      invariant 0 <= i <= |order|
      invariant LevelsDone(order, dag, level, i)
    {
      i := i - 1;
      var level' := RaiseTargets(level, dag[order[i]], level[order[i]] + 1);
      LevelStep(order, dag, level, level', i);
      level := level';
    }
    forall v, t | v in dag && t in dag[v] ensures level[t] >= level[v] + 1 {
      var j :| 0 <= j < |order| && order[j] == v;
    }
    forall t | t in level && level[t] != 0
      ensures exists v :: v in dag && t in dag[v] && level[t] == level[v] + 1
    {
      assert Justified(order, dag, level, 0, t);
      var j :| 0 <= j < |order| && t in dag[order[j]] && level[t] == level[order[j]] + 1;
    }
  }

  /** t is listed among v's tree edges. */
  predicate IsChild(tree: map<u64, seq<u64>>, v: u64, t: u64) {
    v in tree && t in tree[v]
  }

  ghost predicate HasTreeParent(tree: map<u64, seq<u64>>, t: u64) {
    exists v :: IsChild(tree, v, t)
  }

  /**
   * The tree-edge invariant: `tree[v]` lists kept edges of v to blocks exactly one level
   * lower, every block has at most one tree parent, and `hasParent` says which have one.
   */
  ghost predicate TreeInv(dag: map<u64, seq<u64>>, level: map<u64, int>,
                          tree: map<u64, seq<u64>>, hasParent: map<u64, bool>)
  {
    && level.Keys == dag.Keys && tree.Keys == dag.Keys && hasParent.Keys == dag.Keys
    && (forall v, t :: IsChild(tree, v, t) ==> t in dag[v] && t in level && level[t] == level[v] + 1)
    && (forall v, t :: IsChild(tree, v, t) ==> t in hasParent && hasParent[t])
    && (forall v, w, t :: IsChild(tree, v, t) && IsChild(tree, w, t) ==> v == w)
    && (forall v :: v in tree ==> Distinct(tree[v]))
    && (forall t :: t in hasParent && hasParent[t] ==> HasTreeParent(tree, t))
  }

  lemma {:induction false} ChildAfterAdopt(tree: map<u64, seq<u64>>, v: u64, t: u64, tree': map<u64, seq<u64>>)
    requires v in tree && tree' == tree[v := tree[v] + [t]]
    ensures forall w, x :: IsChild(tree', w, x) <==> IsChild(tree, w, x) || (w == v && x == t)
  {
    forall w, x ensures IsChild(tree', w, x) <==> IsChild(tree, w, x) || (w == v && x == t) {
      if w == v {
        assert x in tree[v] + [t] <==> x in tree[v] || x == t;
      }
    }
  }

  /** Adopting a parentless block t as a tree child of v keeps the invariant. */
  lemma {:induction false} TreeAdopt(dag: map<u64, seq<u64>>, level: map<u64, int>,
                                     tree: map<u64, seq<u64>>, hasParent: map<u64, bool>, v: u64, t: u64,
                                     tree': map<u64, seq<u64>>, hasParent': map<u64, bool>)
    requires TreeInv(dag, level, tree, hasParent)
    requires v in dag && t in dag[v] && t in hasParent && !hasParent[t] && level[t] == level[v] + 1
    requires tree' == tree[v := tree[v] + [t]] && hasParent' == hasParent[t := true]
    ensures TreeInv(dag, level, tree', hasParent')
  {
    ChildAfterAdopt(tree, v, t, tree');
    assert forall w :: !IsChild(tree, w, t);
    assert !IsChild(tree, v, t);
    DistinctAppend(tree[v], t);
    forall x | x in hasParent' && hasParent'[x] ensures HasTreeParent(tree', x) {
      if x == t {
        assert IsChild(tree', v, t);
      } else {
        var w :| IsChild(tree, w, x);
        assert IsChild(tree', w, x);
      }
    }
  }

  /** The inner tree-edge loop over the kept edges of one block v. */
  method AdoptChildren(dag: map<u64, seq<u64>>, level: map<u64, int>,
                       tree: map<u64, seq<u64>>, hasParent: map<u64, bool>, v: u64)
    returns (tree': map<u64, seq<u64>>, hasParent': map<u64, bool>)
    requires TreeInv(dag, level, tree, hasParent) && v in dag
    requires forall t :: t in dag[v] ==> t in dag
    ensures TreeInv(dag, level, tree', hasParent')
    ensures forall t :: t in hasParent && hasParent[t] ==> hasParent'[t]
    ensures ParentsFound(dag, level, hasParent', v)
  {
    tree', hasParent' := tree, hasParent;
    var targets := dag[v];
    for k := 0 to |targets|
      invariant TreeInv(dag, level, tree', hasParent')
      invariant forall t :: t in hasParent && hasParent[t] ==> hasParent'[t]
      invariant forall t :: t in targets[..k] && level[t] == level[v] + 1 ==> hasParent'[t]
    {
      PrefixStep(targets, k);
      var t := targets[k];
      if !hasParent'[t] && level[t] == level[v] + 1 {
        TreeAdopt(dag, level, tree', hasParent', v, t, tree'[v := tree'[v] + [t]], hasParent'[t := true]);
        tree' := tree'[v := tree'[v] + [t]];
        hasParent' := hasParent'[t := true];
      }
    }
    assert targets[..|targets|] == targets;
  }

  /** Every kept edge of v into the next level ends at a block that has a tree parent. */
  ghost predicate ParentsFound(dag: map<u64, seq<u64>>, level: map<u64, int>, hasParent: map<u64, bool>, v: u64) {
    v in dag && v in level &&
    forall t :: t in dag[v] && t in level && level[t] == level[v] + 1 ==> t in hasParent && hasParent[t]
  }

  /** Every block of `blockIds[..i]` has had its kept edges into the next level adopted. */
  ghost predicate SelectDone(dag: map<u64, seq<u64>>, level: map<u64, int>, hasParent: map<u64, bool>,
                             blockIds: seq<u64>, i: int)
  {
    forall j :: 0 <= j < i && j < |blockIds| ==> ParentsFound(dag, level, hasParent, blockIds[j])
  }

  lemma {:induction false} SelectStep(dag: map<u64, seq<u64>>, level: map<u64, int>, hasParent: map<u64, bool>,
                                      hasParent': map<u64, bool>, blockIds: seq<u64>, i: nat)
    requires i < |blockIds| && SelectDone(dag, level, hasParent, blockIds, i)
    requires forall t :: t in hasParent && hasParent[t] ==> t in hasParent' && hasParent'[t]
    requires ParentsFound(dag, level, hasParent', blockIds[i])
    ensures SelectDone(dag, level, hasParent', blockIds, i + 1)
  {
    forall j | 0 <= j < i + 1 ensures ParentsFound(dag, level, hasParent', blockIds[j]) {
      if j < i {
        assert ParentsFound(dag, level, hasParent, blockIds[j]);
      }
    }
  }

  lemma {:induction false} SelectAll(dag: map<u64, seq<u64>>, level: map<u64, int>, hasParent: map<u64, bool>,
                                     blockIds: seq<u64>)
    requires forall v :: v in blockIds <==> v in dag
    requires level.Keys == dag.Keys
    requires forall v, t :: v in dag && t in dag[v] ==> t in dag
    requires SelectDone(dag, level, hasParent, blockIds, |blockIds|)
    ensures forall v, t :: v in dag && t in dag[v] && level[t] == level[v] + 1 ==> t in hasParent && hasParent[t]
  {
    forall v, t | v in dag && t in dag[v] && level[t] == level[v] + 1 ensures t in hasParent && hasParent[t] {
      var j :| 0 <= j < |blockIds| && blockIds[j] == v;
      assert ParentsFound(dag, level, hasParent, blockIds[j]);
    }
  }

  /**
   * Tree-edge selection: blocks in `blockIds` order (the iteration order of the block map),
   * each adopting every kept-edge target one level lower that has no parent yet.
   */
  method SelectTreeEdges(dag: map<u64, seq<u64>>, level: map<u64, int>, blockIds: seq<u64>)
    returns (tree: map<u64, seq<u64>>, hasParent: map<u64, bool>)
    requires level.Keys == dag.Keys
    requires forall v, t :: v in dag && t in dag[v] ==> t in dag
    requires forall v :: v in blockIds <==> v in dag
    ensures TreeInv(dag, level, tree, hasParent)
    ensures forall v, t :: v in dag && t in dag[v] && level[t] == level[v] + 1 ==> hasParent[t]
  {
    tree := map v | v in dag :: [];
    hasParent := map v | v in dag :: false;
    for i := 0 to |blockIds|
      invariant TreeInv(dag, level, tree, hasParent)
      invariant SelectDone(dag, level, hasParent, blockIds, i)
    {
      ghost var before := hasParent;
      tree, hasParent := AdoptChildren(dag, level, tree, hasParent, blockIds[i]);
      SelectStep(dag, level, before, hasParent, blockIds, i);
    }
    SelectAll(dag, level, hasParent, blockIds);
  }

  // ---------------------------------------------------------------------------
  // Placement

  datatype LayoutType = Wide | Medium | Narrow

  /** The tree edges of every block. */
  function TreeOf(blocks: map<u64, GridBlock>): (tree: map<u64, seq<u64>>)
    ensures tree.Keys == blocks.Keys
    ensures forall v :: v in blocks ==> tree[v] == blocks[v].treeEdge
  {
    map v | v in blocks :: blocks[v].treeEdge
  }

  function DagOf(blocks: map<u64, GridBlock>): (dag: map<u64, seq<u64>>)
    ensures dag.Keys == blocks.Keys
    ensures forall v :: v in blocks ==> dag[v] == blocks[v].dagEdge
  {
    map v | v in blocks :: blocks[v].dagEdge
  }

  function LevelOf(blocks: map<u64, GridBlock>): (level: map<u64, int>)
    ensures level.Keys == blocks.Keys
    ensures forall v :: v in blocks ==> level[v] == blocks[v].level
  {
    map v | v in blocks :: blocks[v].level
  }

  function ParentOf(blocks: map<u64, GridBlock>): (hasParent: map<u64, bool>)
    ensures hasParent.Keys == blocks.Keys
    ensures forall v :: v in blocks ==> hasParent[v] == blocks[v].hasParent
  {
    map v | v in blocks :: blocks[v].hasParent
  }

  /** The fresh blocks `CalculateLayout` starts from, one per block of the graph. */
  function FreshBlocks(edges: map<u64, seq<u64>>): (blocks: map<u64, GridBlock>)
    ensures blocks.Keys == edges.Keys
    ensures forall v :: v in blocks ==> blocks[v] == NewGridBlock(v)
  {
    map v | v in edges :: NewGridBlock(v)
  }

  /** A block whose position and size are still those of a fresh block. */
  predicate PlacementUnset(b: GridBlock, v: u64) {
    b == NewGridBlock(v).(treeEdge := b.treeEdge, dagEdge := b.dagEdge, hasParent := b.hasParent, level := b.level)
  }

  /** The blocks with the results of the search, the level pass and the tree-edge pass stored. */
  function Annotate(blocks: map<u64, GridBlock>, dag: map<u64, seq<u64>>, level: map<u64, int>,
                    tree: map<u64, seq<u64>>, hasParent: map<u64, bool>): map<u64, GridBlock>
    requires dag.Keys == blocks.Keys && level.Keys == blocks.Keys
    requires tree.Keys == blocks.Keys && hasParent.Keys == blocks.Keys
  {
    map v | v in blocks ::
      blocks[v].(dagEdge := dag[v], level := level[v], treeEdge := tree[v], hasParent := hasParent[v])
  }

  lemma {:induction false} Annotated(blocks: map<u64, GridBlock>, edges: map<u64, seq<u64>>,
                                     dag: map<u64, seq<u64>>, level: map<u64, int>,
                                     tree: map<u64, seq<u64>>, hasParent: map<u64, bool>)
    requires blocks == FreshBlocks(edges)
    requires dag.Keys == blocks.Keys && level.Keys == blocks.Keys
    requires tree.Keys == blocks.Keys && hasParent.Keys == blocks.Keys
    ensures var now := Annotate(blocks, dag, level, tree, hasParent);
      && now.Keys == edges.Keys
      && DagOf(now) == dag && LevelOf(now) == level && TreeOf(now) == tree && ParentOf(now) == hasParent
      && forall v :: v in now ==> PlacementUnset(now[v], v)
  {
  }

  /** Tree edges lead to blocks earlier in `order`. */
  ghost predicate TreeOrdered(tree: map<u64, seq<u64>>, order: seq<u64>) {
    forall i, j :: 0 <= i < |order| && 0 <= j < |order| && IsChild(tree, order[j], order[i]) ==> i < j
  }

  /** Tree edges stay inside the map and lead to blocks of smaller rank. */
  ghost predicate Ranked(tree: map<u64, seq<u64>>, rank: map<u64, nat>) {
    && tree.Keys <= rank.Keys
    && forall v, t :: IsChild(tree, v, t) ==> t in tree && rank[t] < rank[v]
  }

  /**
   * The number of tree paths from v down to x. In a tree with unique parents it is 1 for the
   * blocks of v's subtree and 0 for the others; in general it is how often a recursive walk
   * along tree edges from v reaches x.
   */
  ghost function Paths(tree: map<u64, seq<u64>>, rank: map<u64, nat>, v: u64, x: u64): nat
    requires Ranked(tree, rank) && v in tree
    decreases rank[v] + 1, 0
  {
    (if v == x then 1 else 0) + PathsVia(tree, rank, tree[v], rank[v], x)
  }

  /** The paths to x through any of the blocks `cs`, each of rank below `bound`. */
  ghost function PathsVia(tree: map<u64, seq<u64>>, rank: map<u64, nat>, cs: seq<u64>, bound: nat, x: u64): nat
    requires Ranked(tree, rank) && forall c :: c in cs ==> c in tree && rank[c] < bound
    decreases bound, |cs|
  {
    if |cs| == 0 then 0
    else PathsVia(tree, rank, cs[..|cs| - 1], bound, x) + Paths(tree, rank, cs[|cs| - 1], x)
  }

  /** Paths from v through its first k children, v itself included. */
  ghost function PathsPrefix(tree: map<u64, seq<u64>>, rank: map<u64, nat>, v: u64, k: nat, x: u64): nat
    requires Ranked(tree, rank) && v in tree && k <= |tree[v]|
  {
    (if v == x then 1 else 0) + PathsVia(tree, rank, tree[v][..k], rank[v], x)
  }

  lemma {:induction false} PathsPrefixZero(tree: map<u64, seq<u64>>, rank: map<u64, nat>, v: u64, x: u64)
    requires Ranked(tree, rank) && v in tree
    ensures PathsPrefix(tree, rank, v, 0, x) == if v == x then 1 else 0
  {
    assert PathsVia(tree, rank, tree[v][..0], rank[v], x) == 0;
  }

  lemma {:induction false} PathsPrefixStep(tree: map<u64, seq<u64>>, rank: map<u64, nat>, v: u64, k: nat, x: u64)
    requires Ranked(tree, rank) && v in tree && k < |tree[v]|
    ensures PathsPrefix(tree, rank, v, k + 1, x)
         == PathsPrefix(tree, rank, v, k, x) + Paths(tree, rank, tree[v][k], x)
  {
    assert tree[v][..k + 1][..k] == tree[v][..k];
  }

  /** A block moved by `dc` columns and `dr` rows. */
  function Shift(b: GridBlock, dc: int, dr: int): GridBlock {
    b.(col := b.col + dc, row := b.row + dr)
  }

  lemma {:induction false} ShiftTwice(b: GridBlock, dc: int, dr: int, a: int, p: int)
    ensures Shift(Shift(b, dc * a, dr * a), dc * p, dr * p) == Shift(b, dc * (a + p), dr * (a + p))
  {
    MulDist(a, p, dc);
    MulDist(a, p, dr);
  }

  /** Every block of `now` is its `start` self moved once per path from v through v's first k children. */
  ghost predicate MovedByPrefix(now: map<u64, GridBlock>, start: map<u64, GridBlock>, rank: map<u64, nat>,
                                v: u64, k: nat, dc: int, dr: int)
    requires Ranked(TreeOf(start), rank) && v in start && k <= |start[v].treeEdge|
  {
    && now.Keys == start.Keys
    && forall x :: x in now ==>
      now[x] == Shift(start[x], dc * PathsPrefix(TreeOf(start), rank, v, k, x), dr * PathsPrefix(TreeOf(start), rank, v, k, x))
  }

  /** Every block of `now` is its `start` self moved once per tree path from v. */
  ghost predicate MovedBy(now: map<u64, GridBlock>, start: map<u64, GridBlock>, rank: map<u64, nat>,
                          v: u64, dc: int, dr: int)
    requires Ranked(TreeOf(start), rank) && v in start
  {
    && now.Keys == start.Keys
    && forall x :: x in now ==>
      now[x] == Shift(start[x], dc * Paths(TreeOf(start), rank, v, x), dr * Paths(TreeOf(start), rank, v, x))
  }

  lemma {:induction false} MovedKeepsTree(now: map<u64, GridBlock>, start: map<u64, GridBlock>)
    requires now.Keys == start.Keys
    requires forall x :: x in now ==> now[x].treeEdge == start[x].treeEdge
    ensures TreeOf(now) == TreeOf(start)
  {
  }

  lemma {:induction false} MovedStart(now: map<u64, GridBlock>, start: map<u64, GridBlock>, rank: map<u64, nat>,
                                      v: u64, dc: int, dr: int)
    requires Ranked(TreeOf(start), rank) && v in start
    requires now == start[v := Shift(start[v], dc, dr)]
    ensures MovedByPrefix(now, start, rank, v, 0, dc, dr)
    ensures TreeOf(now) == TreeOf(start)
  {
    forall x | x in now
      ensures now[x] == Shift(start[x], dc * PathsPrefix(TreeOf(start), rank, v, 0, x), dr * PathsPrefix(TreeOf(start), rank, v, 0, x))
    {
      PathsPrefixZero(TreeOf(start), rank, v, x);
      if x == v {
        assert now[x] == Shift(start[x], dc * 1, dr * 1);
      } else {
        assert now[x] == Shift(start[x], dc * 0, dr * 0);
      }
    }
    MovedKeepsTree(now, start);
  }

  lemma {:induction false} MovedStep(now: map<u64, GridBlock>, mid: map<u64, GridBlock>, start: map<u64, GridBlock>,
                                     rank: map<u64, nat>, v: u64, k: nat, dc: int, dr: int)
    requires Ranked(TreeOf(start), rank) && v in start && k < |start[v].treeEdge|
    requires MovedByPrefix(mid, start, rank, v, k, dc, dr)
    requires TreeOf(mid) == TreeOf(start) && v in mid
    requires MovedBy(now, mid, rank, start[v].treeEdge[k], dc, dr)
    ensures MovedByPrefix(now, start, rank, v, k + 1, dc, dr)
    ensures TreeOf(now) == TreeOf(start)
  {
    var tree := TreeOf(start);
    var c := start[v].treeEdge[k];
    forall x | x in now
      ensures now[x] == Shift(start[x], dc * PathsPrefix(tree, rank, v, k + 1, x), dr * PathsPrefix(tree, rank, v, k + 1, x))
    {
      PathsPrefixStep(tree, rank, v, k, x);
      ShiftTwice(start[x], dc, dr, PathsPrefix(tree, rank, v, k, x), Paths(tree, rank, c, x));
    }
    MovedKeepsTree(now, start);
  }

  lemma {:induction false} MovedDone(now: map<u64, GridBlock>, start: map<u64, GridBlock>, rank: map<u64, nat>,
                                     v: u64, dc: int, dr: int)
    requires Ranked(TreeOf(start), rank) && v in start
    requires MovedByPrefix(now, start, rank, v, |start[v].treeEdge|, dc, dr)
    ensures MovedBy(now, start, rank, v, dc, dr)
  {
    assert start[v].treeEdge[..|start[v].treeEdge|] == start[v].treeEdge;
  }

  /** Rows taken by a block whose tree children are `cs`: one more than the tallest child, at least 1. */
  function RowSpan(blocks: map<u64, GridBlock>, cs: seq<u64>): (r: int)
    requires forall c :: c in cs ==> c in blocks
    ensures r >= 1
    ensures forall c :: c in cs ==> r >= blocks[c].rowCount + 1
    ensures r == 1 || exists c :: c in cs && r == blocks[c].rowCount + 1
  {
    if |cs| == 0 then 1
    else
      var r := RowSpan(blocks, cs[..|cs| - 1]);
      var last := cs[|cs| - 1];
      assert forall c :: c in cs ==> c in cs[..|cs| - 1] || c == last;
      Max(r, blocks[last].rowCount + 1)
  }

  /** The columns taken by the children `cs` placed side by side. */
  function ColSum(blocks: map<u64, GridBlock>, cs: seq<u64>): int
    requires forall c :: c in cs ==> c in blocks
  {
    if |cs| == 0 then 0 else ColSum(blocks, cs[..|cs| - 1]) + blocks[cs[|cs| - 1]].colCount
  }

  /** `now` differs from `start` at most in the positions (col and row) of blocks. */
  ghost predicate OnlyPlaced(now: map<u64, GridBlock>, start: map<u64, GridBlock>) {
    && now.Keys == start.Keys
    && forall x :: x in now ==> now[x] == start[x].(col := now[x].col, row := now[x].row)
  }

  /** Blocks outside the subtrees of v's children are as in `start`. */
  ghost predicate Untouched(now: map<u64, GridBlock>, start: map<u64, GridBlock>, rank: map<u64, nat>, v: u64)
    requires Ranked(TreeOf(start), rank) && v in start
  {
    forall x :: x in now && x in start && x != v && PathsVia(TreeOf(start), rank, start[v].treeEdge, rank[v], x) == 0
      ==> now[x] == start[x]
  }

  lemma {:induction false} PathsViaParts(tree: map<u64, seq<u64>>, rank: map<u64, nat>, cs: seq<u64>, bound: nat,
                                         x: u64, k: nat)
    requires Ranked(tree, rank) && forall c :: c in cs ==> c in tree && rank[c] < bound
    requires k < |cs|
    ensures PathsVia(tree, rank, cs, bound, x) >= Paths(tree, rank, cs[k], x)
    decreases |cs|
  {
    if k < |cs| - 1 {
      PathsViaParts(tree, rank, cs[..|cs| - 1], bound, x, k);
    }
  }

  lemma {:induction false} PathsOfSelf(tree: map<u64, seq<u64>>, rank: map<u64, nat>, v: u64)
    requires Ranked(tree, rank) && v in tree
    ensures Paths(tree, rank, v, v) >= 1
  {
  }

  /** The tree children of v are blocks of smaller rank; in particular v is not among them. */
  lemma {:induction false} ChildrenBelow(tree: map<u64, seq<u64>>, rank: map<u64, nat>, v: u64)
    requires Ranked(tree, rank) && v in tree
    ensures forall c :: c in tree[v] ==> c in tree && rank[c] < rank[v]
    ensures v !in tree[v]
  {
    assert forall c :: c in tree[v] ==> IsChild(tree, v, c);
  }

  /** Adjusting the subtree of v's k-th child keeps the placement facts about v's children. */
  lemma {:induction false} AdjustChildKeeps(now: map<u64, GridBlock>, mid: map<u64, GridBlock>,
                                            start: map<u64, GridBlock>, rank: map<u64, nat>, v: u64, k: nat,
                                            dc: int, dr: int)
    requires Ranked(TreeOf(start), rank) && v in start && k < |start[v].treeEdge|
    requires TreeOf(mid) == TreeOf(start) && OnlyPlaced(mid, start) && Untouched(mid, start, rank, v)
    requires MovedBy(now, mid, rank, start[v].treeEdge[k], dc, dr)
    ensures TreeOf(now) == TreeOf(start) && OnlyPlaced(now, start) && Untouched(now, start, rank, v)
  {
    var tree := TreeOf(start);
    var c := start[v].treeEdge[k];
    forall x | x in now && x != v && PathsVia(tree, rank, start[v].treeEdge, rank[v], x) == 0
      ensures now[x] == start[x]
    {
      PathsViaParts(tree, rank, start[v].treeEdge, rank[v], x, k);
      assert now[x] == Shift(mid[x], dc * 0, dr * 0);
    }
    MovedKeepsTree(now, start);
  }

  /** Setting the column of v's k-th child keeps the placement facts about v's children. */
  lemma {:induction false} SetChildColKeeps(now: map<u64, GridBlock>, mid: map<u64, GridBlock>,
                                            start: map<u64, GridBlock>, rank: map<u64, nat>, v: u64, k: nat, col: int)
    requires Ranked(TreeOf(start), rank) && v in start && k < |start[v].treeEdge|
    requires TreeOf(mid) == TreeOf(start) && OnlyPlaced(mid, start) && Untouched(mid, start, rank, v)
    requires start[v].treeEdge[k] in mid
    requires now == mid[start[v].treeEdge[k] := mid[start[v].treeEdge[k]].(col := col)]
    ensures TreeOf(now) == TreeOf(start) && OnlyPlaced(now, start) && Untouched(now, start, rank, v)
  {
    var c := start[v].treeEdge[k];
    PathsViaParts(TreeOf(start), rank, start[v].treeEdge, rank[v], c, k);
    PathsOfSelf(TreeOf(start), rank, c);
    MovedKeepsTree(now, start);
  }

  lemma {:induction false} RowSpanStep(blocks: map<u64, GridBlock>, cs: seq<u64>, i: nat)
    requires i < |cs| && forall c :: c in cs ==> c in blocks
    ensures RowSpan(blocks, cs[..i + 1]) == Max(blocks[cs[i]].rowCount + 1, RowSpan(blocks, cs[..i]))
  {
    assert cs[..i + 1][..i] == cs[..i];
  }

  lemma {:induction false} ColSumStep(blocks: map<u64, GridBlock>, cs: seq<u64>, i: nat)
    requires i < |cs| && forall c :: c in cs ==> c in blocks
    ensures ColSum(blocks, cs[..i + 1]) == ColSum(blocks, cs[..i]) + blocks[cs[i]].colCount
  {
    assert cs[..i + 1][..i] == cs[..i];
  }

  /**
   * `now` is `start` after placing block v: v sits in row 0 with as many rows as RowSpan
   * gives and at least two columns (exactly two, in column 0, for a leaf); other blocks
   * at most moved, and only those below v's children.
   */
  ghost predicate PlacedBlock(now: map<u64, GridBlock>, start: map<u64, GridBlock>, rank: map<u64, nat>, v: u64)
    requires Ranked(TreeOf(start), rank) && v in start
  {
    && now.Keys == start.Keys && TreeOf(now) == TreeOf(start)
    && (forall x :: x in now && x != v ==> now[x] == start[x].(col := now[x].col, row := now[x].row))
    && Untouched(now, start, rank, v)
    && (forall c :: c in start[v].treeEdge ==> c in start)
    && now[v] == start[v].(col := now[v].col, colCount := now[v].colCount, row := 0,
                           rowCount := RowSpan(start, start[v].treeEdge))
    && now[v].colCount >= 2
    && (|start[v].treeEdge| == 0 ==> now[v].col == 0 && now[v].colCount == 2)
  }

  /** Giving v its own position and size once its children are placed. */
  lemma {:induction false} SetOwnPlace(now: map<u64, GridBlock>, placed: map<u64, GridBlock>,
                                       start: map<u64, GridBlock>, rank: map<u64, nat>, v: u64,
                                       col: int, colCount: int, rowCount: int)
    requires Ranked(TreeOf(start), rank) && v in start
    requires TreeOf(placed) == TreeOf(start) && OnlyPlaced(placed, start) && Untouched(placed, start, rank, v)
    requires now == placed[v := placed[v].(col := col, colCount := colCount, row := 0, rowCount := rowCount)]
    ensures TreeOf(now) == TreeOf(start) && now.Keys == start.Keys
    ensures forall x :: x in now && x != v ==> now[x] == start[x].(col := now[x].col, row := now[x].row)
    ensures Untouched(now, start, rank, v)
    ensures now[v] == start[v].(col := col, colCount := colCount, row := 0, rowCount := rowCount)
    ensures forall x :: x in now && x != v ==> now[x] == placed[x]
  {
    MovedKeepsTree(now, placed);
  }

  /** What moving a child subtree leaves unchanged: sizes, tree edges and, for v, everything. */
  lemma {:induction false} PlacedSizes(now: map<u64, GridBlock>, start: map<u64, GridBlock>, cs: seq<u64>)
    requires OnlyPlaced(now, start) && forall c :: c in cs ==> c in start
    ensures ColSum(now, cs) == ColSum(start, cs)
    decreases |cs|
  {
    if |cs| > 0 {
      PlacedSizes(now, start, cs[..|cs| - 1]);
    }
  }

  /** Block x's sizes agree with its children's: RowSpan rows, at least two columns, two for a leaf. */
  ghost predicate Sized(blocks: map<u64, GridBlock>, x: u64) {
    && x in blocks
    && (forall c :: c in blocks[x].treeEdge ==> c in blocks)
    && blocks[x].rowCount == RowSpan(blocks, blocks[x].treeEdge)
    && blocks[x].colCount >= 2
    && (|blocks[x].treeEdge| == 0 ==> blocks[x].colCount == 2)
  }

  ghost predicate AllSized(blocks: map<u64, GridBlock>, order: seq<u64>, i: int) {
    forall j :: 0 <= j < i && j < |order| ==> Sized(blocks, order[j])
  }

  /** `now` differs from `start` at most in positions and sizes. */
  ghost predicate Resized(now: map<u64, GridBlock>, start: map<u64, GridBlock>) {
    && now.Keys == start.Keys
    && forall x :: x in now ==>
      now[x] == start[x].(col := now[x].col, row := now[x].row, colCount := now[x].colCount, rowCount := now[x].rowCount)
  }

  lemma {:induction false} RowSpanFrame(a: map<u64, GridBlock>, b: map<u64, GridBlock>, cs: seq<u64>)
    requires forall c :: c in cs ==> c in a && c in b && a[c].rowCount == b[c].rowCount
    ensures RowSpan(a, cs) == RowSpan(b, cs)
    decreases |cs|
  {
    if |cs| > 0 {
      RowSpanFrame(a, b, cs[..|cs| - 1]);
    }
  }

  /** Each block's position in `order` as its rank. */
  function OrderRank(order: seq<u64>): (rank: map<u64, nat>)
    ensures forall x :: x in rank <==> x in order
  {
    map x | x in order :: IndexOf(order, x)
  }

  lemma {:induction false} OrderRanked(blocks: map<u64, GridBlock>, order: seq<u64>)
    requires Distinct(order) && forall x :: x in order <==> x in blocks
    requires TreeOrdered(TreeOf(blocks), order)
    requires forall v, t :: IsChild(TreeOf(blocks), v, t) ==> t in blocks
    ensures Ranked(TreeOf(blocks), OrderRank(order))
    ensures forall j :: 0 <= j < |order| ==> OrderRank(order)[order[j]] == j
  {
    var rank := OrderRank(order);
    forall j | 0 <= j < |order| ensures rank[order[j]] == j {
      IndexOfDistinct(order, j);
    }
    forall v, t | IsChild(TreeOf(blocks), v, t) ensures t in TreeOf(blocks) && rank[t] < rank[v] {
      var i, j := IndexOf(order, t), IndexOf(order, v);
      assert IsChild(TreeOf(blocks), order[j], order[i]);
    }
  }

  /** Placing the i-th block of a children-first order keeps the earlier blocks' sizes consistent. */
  lemma {:induction false} SizedStep(now: map<u64, GridBlock>, mid: map<u64, GridBlock>, start: map<u64, GridBlock>,
                                     order: seq<u64>, rank: map<u64, nat>, i: nat)
    requires i < |order| && Distinct(order) && (forall j :: 0 <= j < |order| ==> order[j] in rank && rank[order[j]] == j)
    requires Ranked(TreeOf(start), rank) && order[i] in mid
    requires TreeOf(mid) == TreeOf(start) && Resized(mid, start) && AllSized(mid, order, i)
    requires PlacedBlock(now, mid, rank, order[i])
    ensures TreeOf(now) == TreeOf(start) && Resized(now, start) && AllSized(now, order, i + 1)
  {
    var v := order[i];
    forall j | 0 <= j < i + 1 ensures Sized(now, order[j]) {
      if j < i {
        assert Sized(mid, order[j]);
        SizedOther(now, mid, rank, v, order[j]);
      } else {
        SizedSelf(now, mid, rank, v);
      }
    }
  }

  /** A placed block's sizes agree with its children's. */
  lemma {:induction false} SizedSelf(now: map<u64, GridBlock>, mid: map<u64, GridBlock>, rank: map<u64, nat>, v: u64)
    requires Ranked(TreeOf(mid), rank) && v in mid && PlacedBlock(now, mid, rank, v)
    ensures Sized(now, v)
  {
    ChildrenBelow(TreeOf(mid), rank, v);
    RowSpanFrame(now, mid, mid[v].treeEdge);
  }

  /** Placing v leaves the sizes of a lower-ranked block consistent. */
  lemma {:induction false} SizedOther(now: map<u64, GridBlock>, mid: map<u64, GridBlock>, rank: map<u64, nat>,
                                      v: u64, x: u64)
    requires Ranked(TreeOf(mid), rank) && v in mid && x in mid && rank[x] < rank[v]
    requires PlacedBlock(now, mid, rank, v) && Sized(mid, x)
    ensures Sized(now, x)
  {
    ChildrenBelow(TreeOf(mid), rank, x);
    RowSpanFrame(now, mid, mid[x].treeEdge);
  }

  /** Moving blocks keeps every size consistent. */
  lemma {:induction false} SizedKept(now: map<u64, GridBlock>, prev: map<u64, GridBlock>, order: seq<u64>)
    requires OnlyPlaced(now, prev) && AllSized(prev, order, |order|)
    ensures AllSized(now, order, |order|)
  {
    forall j | 0 <= j < |order| ensures Sized(now, order[j]) {
      assert Sized(prev, order[j]);
      RowSpanFrame(now, prev, prev[order[j]].treeEdge);
    }
  }

  lemma {:induction false} MovedOnlyPlaced(now: map<u64, GridBlock>, start: map<u64, GridBlock>, rank: map<u64, nat>,
                                           v: u64, dc: int, dr: int)
    requires Ranked(TreeOf(start), rank) && v in start && MovedBy(now, start, rank, v, dc, dr)
    ensures OnlyPlaced(now, start)
  {
  }

  lemma {:induction false} ResizedTrans(c: map<u64, GridBlock>, b: map<u64, GridBlock>, a: map<u64, GridBlock>)
    requires OnlyPlaced(c, b) && Resized(b, a)
    ensures Resized(c, a)
  {
  }

  /** Blocks of a layout in progress. */
  class LayoutState {
    var gridBlocks: map<u64, GridBlock>

    /** The layout state `CalculateLayout` sets up: one fresh grid block per block. */
    constructor (edges: map<u64, seq<u64>>)
      ensures gridBlocks == FreshBlocks(edges)
    {
      gridBlocks := FreshBlocks(edges);
    }

    /**
     * Orders the blocks (children before parents), keeps the edges that are not loop edges
     * as `dagEdge`, gives each block a level below all its kept predecessors, and picks the
     * tree edges. `blockIds` and `gridIds` are the iteration orders of the two block maps.
     */
    method TopoSort(edges: map<u64, seq<u64>>, entry: u64, blockIds: seq<u64>, gridIds: seq<u64>)
      returns (blockOrder: seq<u64>)
      requires Closed(edges) && entry in edges
      requires forall x :: x in blockIds <==> x in edges
      requires forall x :: x in gridIds <==> x in edges
      requires gridBlocks == FreshBlocks(edges)
      modifies this
      ensures gridBlocks.Keys == edges.Keys
      ensures forall v :: v in gridBlocks ==> PlacementUnset(gridBlocks[v], v)
      ensures Distinct(blockOrder) && forall x :: x in blockOrder <==> x in edges
      ensures forall v, t :: v in DagOf(gridBlocks) && t in DagOf(gridBlocks)[v] ==> t in edges[v]
      ensures TopoOrdered(blockOrder, DagOf(gridBlocks))
      ensures forall i, j ::
        (0 <= i < |blockOrder| && 0 <= j < |blockOrder| && blockOrder[i] in edges[blockOrder[j]]
         && blockOrder[i] !in DagOf(gridBlocks)[blockOrder[j]]) ==> j <= i
      ensures forall v :: v in LevelOf(gridBlocks) ==> LevelOf(gridBlocks)[v] >= 0
      ensures forall v, t :: v in DagOf(gridBlocks) && t in DagOf(gridBlocks)[v] ==>
        LevelOf(gridBlocks)[t] >= LevelOf(gridBlocks)[v] + 1
      ensures TreeInv(DagOf(gridBlocks), LevelOf(gridBlocks), TreeOf(gridBlocks), ParentOf(gridBlocks))
      ensures forall v, t ::
        (v in DagOf(gridBlocks) && t in DagOf(gridBlocks)[v] && LevelOf(gridBlocks)[t] == LevelOf(gridBlocks)[v] + 1)
        ==> ParentOf(gridBlocks)[t]
    {
      var order, dag := DfsAll(edges, entry, blockIds);
      var level := AssignLevels(order, dag);
      var tree, hasParent := SelectTreeEdges(dag, level, gridIds);
      ghost var initial := gridBlocks;
      gridBlocks := Annotate(gridBlocks, dag, level, tree, hasParent);
      Annotated(initial, edges, dag, level, tree, hasParent);
      blockOrder := order;
    }

    /**
     * Moves block v and, recursively, every block below it along tree edges, by `dc`
     * columns and `dr` rows. `rank` orders the tree so that the recursion ends.
     */
    method AdjustGraphLayout(v: u64, dc: int, dr: int, ghost rank: map<u64, nat>)
      requires v in gridBlocks && Ranked(TreeOf(gridBlocks), rank)
      modifies this
      decreases rank[v]
      ensures TreeOf(gridBlocks) == TreeOf(old(gridBlocks))
      ensures MovedBy(gridBlocks, old(gridBlocks), rank, v, dc, dr)
    {
      ghost var start := gridBlocks;
      gridBlocks := gridBlocks[v := Shift(gridBlocks[v], dc, dr)];
      MovedStart(gridBlocks, start, rank, v, dc, dr);
      var children := gridBlocks[v].treeEdge;
      for k := 0 to |children|
        invariant TreeOf(gridBlocks) == TreeOf(start)
        invariant MovedByPrefix(gridBlocks, start, rank, v, k, dc, dr)
      {
        ghost var mid := gridBlocks;
        assert IsChild(TreeOf(start), v, children[k]);
        AdjustGraphLayout(children[k], dc, dr, rank);
        MovedStep(gridBlocks, mid, start, rank, v, k, dc, dr);
      }
      MovedDone(gridBlocks, start, rank, v, dc, dr);
    }

    /**
     * The first pass over v's children: the rows v needs and the column of its last child
     * (0 without children).
     */
    method ChildRows(children: seq<u64>) returns (rowCount: int, childColumn: int)
      requires forall c :: c in children ==> c in gridBlocks
      ensures rowCount == RowSpan(gridBlocks, children)
      ensures childColumn == if |children| == 0 then 0 else gridBlocks[children[|children| - 1]].col
    {
      rowCount, childColumn := 1, 0;
      for i := 0 to |children|
        invariant rowCount == RowSpan(gridBlocks, children[..i])
        invariant childColumn == if i == 0 then 0 else gridBlocks[children[i - 1]].col
      {
        RowSpanStep(gridBlocks, children, i);
        var e := gridBlocks[children[i]];
        rowCount := Max(e.rowCount + 1, rowCount);
        childColumn := e.col;
      }
      assert children[..|children|] == children;
    }

    /** The two-children case of a non-wide layout; returns the columns the pair spans. */
    method PlacePair(v: u64, ghost rank: map<u64, nat>) returns (col: int)
      requires v in gridBlocks && Ranked(TreeOf(gridBlocks), rank) && |gridBlocks[v].treeEdge| == 2
      modifies this
      ensures TreeOf(gridBlocks) == TreeOf(old(gridBlocks))
      ensures OnlyPlaced(gridBlocks, old(gridBlocks)) && Untouched(gridBlocks, old(gridBlocks), rank, v)
    {
      var left, right := gridBlocks[v].treeEdge[0], gridBlocks[v].treeEdge[1];
      assert IsChild(TreeOf(gridBlocks), v, left) && IsChild(TreeOf(gridBlocks), v, right);
      if |gridBlocks[left].treeEdge| == 0 {
        col := PlaceLeafLeft(v, rank);
      } else if |gridBlocks[right].treeEdge| == 0 {
        col := PlaceLeafRight(v, rank);
      } else {
        col := PlaceBoth(v, rank);
      }
    }

    /** A leaf left child goes two columns left of its sibling; the pair then moves right if needed. */
    method PlaceLeafLeft(v: u64, ghost rank: map<u64, nat>) returns (col: int)
      requires v in gridBlocks && Ranked(TreeOf(gridBlocks), rank) && |gridBlocks[v].treeEdge| == 2
      modifies this
      ensures TreeOf(gridBlocks) == TreeOf(old(gridBlocks))
      ensures OnlyPlaced(gridBlocks, old(gridBlocks)) && Untouched(gridBlocks, old(gridBlocks), rank, v)
    {
      ghost var start := gridBlocks;
      var left, right := gridBlocks[v].treeEdge[0], gridBlocks[v].treeEdge[1];
      assert IsChild(TreeOf(start), v, left) && IsChild(TreeOf(start), v, right);
      ghost var mid := gridBlocks;
      gridBlocks := gridBlocks[left := gridBlocks[left].(col := gridBlocks[right].col - 2)];
      SetChildColKeeps(gridBlocks, mid, start, rank, v, 0, mid[right].col - 2);
      var add := if gridBlocks[left].col < 0 then -gridBlocks[left].col else 0;
      mid := gridBlocks;
      AdjustGraphLayout(right, add, 1, rank);
      AdjustChildKeeps(gridBlocks, mid, start, rank, v, 1, add, 1);
      mid := gridBlocks;
      AdjustGraphLayout(left, add, 1, rank);
      AdjustChildKeeps(gridBlocks, mid, start, rank, v, 0, add, 1);
      col := gridBlocks[right].colCount + add;
    }

    /** A leaf right child goes two columns right of its sibling. */
    method PlaceLeafRight(v: u64, ghost rank: map<u64, nat>) returns (col: int)
      requires v in gridBlocks && Ranked(TreeOf(gridBlocks), rank) && |gridBlocks[v].treeEdge| == 2
      modifies this
      ensures TreeOf(gridBlocks) == TreeOf(old(gridBlocks))
      ensures OnlyPlaced(gridBlocks, old(gridBlocks)) && Untouched(gridBlocks, old(gridBlocks), rank, v)
    {
      ghost var start := gridBlocks;
      var left, right := gridBlocks[v].treeEdge[0], gridBlocks[v].treeEdge[1];
      assert IsChild(TreeOf(start), v, left) && IsChild(TreeOf(start), v, right);
      ghost var mid := gridBlocks;
      AdjustGraphLayout(left, 0, 1, rank);
      AdjustChildKeeps(gridBlocks, mid, start, rank, v, 0, 0, 1);
      mid := gridBlocks;
      AdjustGraphLayout(right, gridBlocks[left].col + 2, 1, rank);
      AdjustChildKeeps(gridBlocks, mid, start, rank, v, 1, mid[left].col + 2, 1);
      col := Max(gridBlocks[left].colCount, gridBlocks[right].col + 2);
    }

    /** Two inner children side by side. */
    method PlaceBoth(v: u64, ghost rank: map<u64, nat>) returns (col: int)
      requires v in gridBlocks && Ranked(TreeOf(gridBlocks), rank) && |gridBlocks[v].treeEdge| == 2
      modifies this
      ensures TreeOf(gridBlocks) == TreeOf(old(gridBlocks))
      ensures OnlyPlaced(gridBlocks, old(gridBlocks)) && Untouched(gridBlocks, old(gridBlocks), rank, v)
    {
      ghost var start := gridBlocks;
      var left, right := gridBlocks[v].treeEdge[0], gridBlocks[v].treeEdge[1];
      assert IsChild(TreeOf(start), v, left) && IsChild(TreeOf(start), v, right);
      ghost var mid := gridBlocks;
      AdjustGraphLayout(left, 0, 1, rank);
      AdjustChildKeeps(gridBlocks, mid, start, rank, v, 0, 0, 1);
      mid := gridBlocks;
      AdjustGraphLayout(right, gridBlocks[left].colCount, 1, rank);
      AdjustChildKeeps(gridBlocks, mid, start, rank, v, 1, mid[left].colCount, 1);
      col := gridBlocks[left].colCount + gridBlocks[right].colCount;
    }

    /** The general case: v's children side by side, left to right; returns their total width. */
    method PlaceRow(v: u64, ghost rank: map<u64, nat>) returns (col: int)
      requires v in gridBlocks && Ranked(TreeOf(gridBlocks), rank)
      modifies this
      ensures TreeOf(gridBlocks) == TreeOf(old(gridBlocks))
      ensures OnlyPlaced(gridBlocks, old(gridBlocks)) && Untouched(gridBlocks, old(gridBlocks), rank, v)
      ensures col == ColSum(old(gridBlocks), old(gridBlocks)[v].treeEdge)
    {
      ghost var start := gridBlocks;
      var children := gridBlocks[v].treeEdge;
      assert forall c :: c in children ==> IsChild(TreeOf(start), v, c);
      col := 0;
      for i := 0 to |children|
        invariant TreeOf(gridBlocks) == TreeOf(start)
        invariant OnlyPlaced(gridBlocks, start) && Untouched(gridBlocks, start, rank, v)
        invariant col == ColSum(start, children[..i])
      {
        ColSumStep(start, children, i);
        ghost var mid := gridBlocks;
        AdjustGraphLayout(children[i], col, 1, rank);
        AdjustChildKeeps(gridBlocks, mid, start, rank, v, i, col, 1);
        assert gridBlocks[children[i]].colCount == start[children[i]].colCount;
        col := col + gridBlocks[children[i]].colCount;
      }
      assert children[..|children|] == children;
    }

    /**
     * Moves v's children into place and returns v's column and width. `childColumn` is the
     * column of v's last child before anything moved.
     */
    method PlaceChildren(v: u64, layoutType: LayoutType, childColumn: int, ghost rank: map<u64, nat>)
      returns (newCol: int, colCount: int)
      requires v in gridBlocks && Ranked(TreeOf(gridBlocks), rank)
      modifies this
      ensures TreeOf(gridBlocks) == TreeOf(old(gridBlocks))
      ensures OnlyPlaced(gridBlocks, old(gridBlocks)) && Untouched(gridBlocks, old(gridBlocks), rank, v)
      ensures var children := old(gridBlocks)[v].treeEdge;
        && colCount >= 2
        && (|children| == 0 ==> newCol == 0 && colCount == 2)
        && (|children| == 1 && ColSum(old(gridBlocks), children) >= 2 ==> newCol == childColumn)
        && ((layoutType == Wide || |children| != 2) ==> colCount == Max(2, ColSum(old(gridBlocks), children)))
        && ((layoutType == Medium && |children| == 2) ==>
             newCol == TruncDiv(gridBlocks[children[0]].col + gridBlocks[children[1]].col, 2))
    {
      var children := gridBlocks[v].treeEdge;
      var singleChild := |children| == 1;
      var col;
      if layoutType != Wide && |children| == 2 {
        col := PlacePair(v, rank);
        colCount := Max(2, col);
        newCol := if layoutType == Medium then TruncDiv(gridBlocks[children[0]].col + gridBlocks[children[1]].col, 2)
                  else if singleChild then childColumn else TruncDiv(col - 2, 2);
      } else {
        col := PlaceRow(v, rank);
        if col >= 2 {
          newCol := if singleChild then childColumn else TruncDiv(col - 2, 2);
          colCount := col;
        } else {
          newCol, colCount := 0, 2;
        }
      }
    }

    /**
     * Places block v over its tree children, which are already placed relative to their own
     * top-left corner: v's rows are one more than its tallest child's, its columns the
     * children's side by side (at least 2), and the children's subtrees move one row down.
     * With two children and a non-wide layout a leaf child is tucked two columns left of its
     * sibling.
     */
    method ComputeBlockPlacement(v: u64, layoutType: LayoutType, ghost rank: map<u64, nat>)
      requires v in gridBlocks && Ranked(TreeOf(gridBlocks), rank)
      modifies this
      ensures PlacedBlock(gridBlocks, old(gridBlocks), rank, v)
      ensures var children := old(gridBlocks)[v].treeEdge;
        && (|children| == 1 && ColSum(old(gridBlocks), children) >= 2 ==>
             gridBlocks[v].col == old(gridBlocks)[children[0]].col)
        && ((layoutType == Wide || |children| != 2) ==>
             gridBlocks[v].colCount == Max(2, ColSum(old(gridBlocks), children)))
        && ((layoutType == Medium && |children| == 2) ==>
             gridBlocks[v].col == TruncDiv(gridBlocks[children[0]].col + gridBlocks[children[1]].col, 2))
    {
      ghost var start := gridBlocks;
      var children := gridBlocks[v].treeEdge;
      ChildrenBelow(TreeOf(start), rank, v);
      var rowCount, childColumn := ChildRows(children);
      var newCol, colCount := PlaceChildren(v, layoutType, childColumn, rank);
      ghost var placed := gridBlocks;
      gridBlocks := gridBlocks[v := gridBlocks[v].(col := newCol, colCount := colCount, row := 0, rowCount := rowCount)];
      SetOwnPlace(gridBlocks, placed, start, rank, v, newCol, colCount, rowCount);
      if |children| == 2 {
        assert gridBlocks[children[0]] == placed[children[0]] && gridBlocks[children[1]] == placed[children[1]];
      }
    }

    /**
     * Places every block, children before parents (`blockOrder` lists tree children before
     * their parents), then puts the trees side by side: each root, in `blockOrder` order,
     * moves right by the columns of the roots before it and one row down.
     */
    method ComputeAllBlockPlacement(blockOrder: seq<u64>, layoutType: LayoutType)
      requires Distinct(blockOrder) && forall x :: x in blockOrder <==> x in gridBlocks
      requires TreeOrdered(TreeOf(gridBlocks), blockOrder)
      requires forall v, t :: IsChild(TreeOf(gridBlocks), v, t) ==> t in gridBlocks
      modifies this
      ensures TreeOf(gridBlocks) == TreeOf(old(gridBlocks)) && Resized(gridBlocks, old(gridBlocks))
      ensures forall x :: x in gridBlocks ==> Sized(gridBlocks, x)
    {
      ghost var start := gridBlocks;
      ghost var rank := OrderRank(blockOrder);
      OrderRanked(gridBlocks, blockOrder);
      for i := 0 to |blockOrder|
        invariant TreeOf(gridBlocks) == TreeOf(start) && Resized(gridBlocks, start)
        invariant AllSized(gridBlocks, blockOrder, i)
      {
        ghost var mid := gridBlocks;
        ComputeBlockPlacement(blockOrder[i], layoutType, rank);
        SizedStep(gridBlocks, mid, start, blockOrder, rank, i);
      }
      var col := 0;
      for i := 0 to |blockOrder|
        invariant TreeOf(gridBlocks) == TreeOf(start) && Resized(gridBlocks, start)
        invariant AllSized(gridBlocks, blockOrder, |blockOrder|)
      {
        var b := blockOrder[i];
        if !gridBlocks[b].hasParent {
          ghost var mid := gridBlocks;
          AdjustGraphLayout(b, col, 1, rank);
          MovedOnlyPlaced(gridBlocks, mid, rank, b, col, 1);
          SizedKept(gridBlocks, mid, blockOrder);
          ResizedTrans(gridBlocks, mid, start);
          col := col + gridBlocks[b].colCount;
        }
      }
      forall x | x in gridBlocks ensures Sized(gridBlocks, x) {
        var j := IndexOf(blockOrder, x);
      }
    }
  }

  /** The tree picked by TopoSort lies inside the map and follows the block order. */
  lemma {:induction false} TreeFollowsOrder(blocks: map<u64, GridBlock>, order: seq<u64>)
    requires TreeInv(DagOf(blocks), LevelOf(blocks), TreeOf(blocks), ParentOf(blocks))
    requires TopoOrdered(order, DagOf(blocks))
    ensures TreeOrdered(TreeOf(blocks), order)
    ensures forall v, t :: IsChild(TreeOf(blocks), v, t) ==> t in blocks
  {
    forall i, j | 0 <= i < |order| && 0 <= j < |order| && IsChild(TreeOf(blocks), order[j], order[i]) ensures i < j {
      assert order[i] in DagOf(blocks)[order[j]];
    }
  }

  lemma {:induction false} ResizedKeeps(now: map<u64, GridBlock>, start: map<u64, GridBlock>)
    requires Resized(now, start)
    ensures DagOf(now) == DagOf(start) && LevelOf(now) == LevelOf(start) && ParentOf(now) == ParentOf(start)
  {
  }

  /**
   * The block placement of `CalculateLayout`: fresh grid blocks, the topological sort with
   * levels and tree edges, then placement of every block.
   */
  method PlaceBlocks(edges: map<u64, seq<u64>>, entry: u64, blockIds: seq<u64>, gridIds: seq<u64>,
                     layoutType: LayoutType)
    returns (state: LayoutState, blockOrder: seq<u64>)
    requires Closed(edges) && entry in edges
    requires forall x :: x in blockIds <==> x in edges
    requires forall x :: x in gridIds <==> x in edges
    ensures state.gridBlocks.Keys == edges.Keys
    ensures Distinct(blockOrder) && forall x :: x in blockOrder <==> x in edges
    ensures TopoOrdered(blockOrder, DagOf(state.gridBlocks))
    ensures TreeInv(DagOf(state.gridBlocks), LevelOf(state.gridBlocks), TreeOf(state.gridBlocks), ParentOf(state.gridBlocks))
    ensures forall x :: x in state.gridBlocks ==> Sized(state.gridBlocks, x)
  {
    state := new LayoutState(edges);
    blockOrder := state.TopoSort(edges, entry, blockIds, gridIds);
    ghost var sorted := state.gridBlocks;
    TreeFollowsOrder(state.gridBlocks, blockOrder);
    state.ComputeAllBlockPlacement(blockOrder, layoutType);
    ResizedKeeps(state.gridBlocks, sorted);
  }
}
