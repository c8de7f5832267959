/**
 * The grid layout of a function's control-flow graph in the current tree
 * (src/widgets/GraphGridLayout.cpp): incoming lists are filled from the exits, a
 * breadth-first walk from the entry picks one tree parent per block (a block whose only
 * remaining predecessor is the one being visited joins at once; when the queue runs dry the
 * edge into the unvisited block with the fewest incoming edges is taken), and the tree is
 * placed recursively from the entry.
 *
 * The placement arithmetic and the subtree shift are the same as in the older tree; the
 * model reuses LegacyGraphGridLayout's LayoutState for them, with `newExits` as the tree
 * edges. Unordered-map iteration order is the parameter `keys`.
 */
module GraphGridLayout {
  import opened Common
  import L = LegacyGraphGridLayout

  /** A basic block as the layout sees it; pixel geometry and routed edges are left out. */
  datatype GraphBlock = GraphBlock(
    entry: u64,
    exits: seq<u64>,
    incoming: seq<u64>,
    newExits: seq<u64>,  // tree children picked by the walk
    rowCount: int,
    colCount: int,
    col: int,
    row: int)

  type Blocks = map<u64, GraphBlock>

  /** Every block is stored under its own entry address and every exit leads to a block. */
  ghost predicate WellFormed(blocks: Blocks) {
    forall k :: k in blocks ==> blocks[k].entry == k && forall e :: e in blocks[k].exits ==> e in blocks
  }

  /** `keys` lists the blocks once each: the map's iteration order. */
  ghost predicate ListsKeys(keys: seq<u64>, blocks: Blocks) {
    Distinct(keys) && forall x :: x in keys <==> x in blocks
  }

  /** Blocks as the graph view hands them over: no tree children picked yet. */
  ghost predicate Unwalked(blocks: Blocks) {
    forall k :: k in blocks ==> blocks[k].newExits == []
  }

  // ---------------------------------------------------------------------------
  // Incoming lists

  /** `src` once for each exit to x among `exits`: what one block adds to x's incoming list. */
  function ArrivalsFrom(exits: seq<u64>, x: u64, src: u64): seq<u64>
  {
    if |exits| == 0 then []
    else ArrivalsFrom(exits[..|exits| - 1], x, src) + (if exits[|exits| - 1] == x then [src] else [])
  }

  /** One block adds only its own entry, as often as it has an exit to x. */
  lemma {:induction false} ArrivalsFromCount(exits: seq<u64>, x: u64, src: u64)
    ensures forall y :: y in ArrivalsFrom(exits, x, src) ==> y == src
    ensures multiset(ArrivalsFrom(exits, x, src))[src] == multiset(exits)[x]
    decreases |exits|
  {
    if |exits| > 0 {
      var n := |exits| - 1;
      ArrivalsFromCount(exits[..n], x, src);
      assert exits == exits[..n] + [exits[n]];
      var front: seq<u64> := ArrivalsFrom(exits[..n], x, src);
      var last: seq<u64> := if exits[n] == x then [src] else [];
      assert multiset(front + last) == multiset(front) + multiset(last);
    }
  }

  /** What the scan over `keys` appends to x's incoming list, in order (keys of no block add nothing). */
  function Arrivals(blocks: Blocks, keys: seq<u64>, x: u64): seq<u64>
  {
    if |keys| == 0 then []
    else
      var k := keys[|keys| - 1];
      Arrivals(blocks, keys[..|keys| - 1], x) + if k in blocks then ArrivalsFrom(blocks[k].exits, x, blocks[k].entry) else []
  }

  lemma {:induction false} ArrivalsStep(blocks: Blocks, keys: seq<u64>, i: nat, x: u64)
    requires i < |keys| && keys[i] in blocks
    ensures Arrivals(blocks, keys[..i + 1], x)
         == Arrivals(blocks, keys[..i], x) + ArrivalsFrom(blocks[keys[i]].exits, x, blocks[keys[i]].entry)
  {
    assert keys[..i + 1][..i] == keys[..i];
  }

  lemma {:induction false} ArrivalsFromStep(exits: seq<u64>, j: nat, x: u64, src: u64)
    requires j < |exits|
    ensures ArrivalsFrom(exits[..j + 1], x, src)
         == ArrivalsFrom(exits[..j], x, src) + (if exits[j] == x then [src] else [])
  {
    assert exits[..j + 1][..j] == exits[..j];
  }

  /** Only blocks with an exit to x arrive in x's incoming list. */
  lemma {:induction false} ArrivalsSound(blocks: Blocks, keys: seq<u64>, x: u64, y: u64)
    requires WellFormed(blocks) && forall k :: k in keys ==> k in blocks
    requires y in Arrivals(blocks, keys, x)
    ensures y in keys && x in blocks[y].exits
    decreases |keys|
  {
    var n := |keys| - 1;
    var b := blocks[keys[n]];
    if y in Arrivals(blocks, keys[..n], x) {
      ArrivalsSound(blocks, keys[..n], x, y);
    } else {
      assert y in ArrivalsFrom(b.exits, x, b.entry);
      ArrivalsFromCount(b.exits, x, b.entry);
      assert multiset(b.exits)[x] > 0;
    }
  }

  /** A listed block arrives in x's incoming list once per exit it has to x. */
  lemma {:induction false} ArrivalsCount(blocks: Blocks, keys: seq<u64>, x: u64, p: u64)
    requires WellFormed(blocks) && Distinct(keys) && forall k :: k in keys ==> k in blocks
    ensures multiset(Arrivals(blocks, keys, x))[p] == if p in keys then multiset(blocks[p].exits)[x] else 0
    decreases |keys|
  {
    if |keys| > 0 {
      var n := |keys| - 1;
      var b := blocks[keys[n]];
      var front: seq<u64> := Arrivals(blocks, keys[..n], x);
      var last: seq<u64> := ArrivalsFrom(b.exits, x, b.entry);
      assert Distinct(keys[..n]);
      ArrivalsCount(blocks, keys[..n], x, p);
      ArrivalsFromCount(b.exits, x, b.entry);
      assert Arrivals(blocks, keys, x) == front + last;
      LastKey(keys, n, p);
      if p != keys[n] {
        assert p !in last;
      }
      CountAppend(front, last, p);
    }
  }

  lemma {:induction false} LastKey(keys: seq<u64>, n: nat, p: u64)
    requires Distinct(keys) && n + 1 == |keys|
    ensures p in keys <==> p in keys[..n] || p == keys[n]
    ensures p == keys[n] ==> p !in keys[..n]
  {
    assert keys == keys[..n] + [keys[n]];
  }

  lemma CountAppend(front: seq<u64>, last: seq<u64>, p: u64)
    ensures multiset(front + last)[p] == multiset(front)[p] + multiset(last)[p]
  {
    assert multiset(front + last) == multiset(front) + multiset(last);
  }

  /** `now` is `start` after the scan's first i blocks and the first j exits of the next one. */
  ghost predicate IncomingSoFar(now: Blocks, start: Blocks, keys: seq<u64>, i: nat, exits: seq<u64>, j: nat, src: u64)
    requires i <= |keys| && j <= |exits|
  {
    && now.Keys == start.Keys
    && forall x :: x in start ==>
      now[x] == start[x].(incoming := start[x].incoming + Arrivals(start, keys[..i], x) + ArrivalsFrom(exits[..j], x, src))
  }

  lemma {:induction false} IncomingPush(now: Blocks, mid: Blocks, start: Blocks, keys: seq<u64>, i: nat,
                                        exits: seq<u64>, j: nat, src: u64)
    requires i <= |keys| && j < |exits|
    requires IncomingSoFar(mid, start, keys, i, exits, j, src) && exits[j] in mid
    requires now == mid[exits[j] := mid[exits[j]].(incoming := mid[exits[j]].incoming + [src])]
    ensures IncomingSoFar(now, start, keys, i, exits, j + 1, src)
  {
    forall x | x in start
      ensures now[x] == start[x].(incoming := start[x].incoming + Arrivals(start, keys[..i], x)
                                              + ArrivalsFrom(exits[..j + 1], x, src))
    {
      IncomingPushAt(now[x], mid[x], start[x], Arrivals(start, keys[..i], x), exits, j, x, src);
    }
  }

  lemma {:induction false} IncomingPushAt(now: GraphBlock, mid: GraphBlock, start: GraphBlock, done: seq<u64>,
                                          exits: seq<u64>, j: nat, x: u64, src: u64)
    requires j < |exits| && mid == start.(incoming := start.incoming + done + ArrivalsFrom(exits[..j], x, src))
    requires now == if x == exits[j] then mid.(incoming := mid.incoming + [src]) else mid
    ensures now == start.(incoming := start.incoming + done + ArrivalsFrom(exits[..j + 1], x, src))
  {
    ArrivalsFromStep(exits, j, x, src);
    var pre := start.incoming + done;
    var sofar := ArrivalsFrom(exits[..j], x, src);
    if x == exits[j] {
      assert pre + sofar + [src] == pre + (sofar + [src]);
    } else {
      assert sofar + [] == sofar;
    }
  }

  lemma {:induction false} IncomingNext(now: Blocks, start: Blocks, keys: seq<u64>, i: nat)
    requires i < |keys| && keys[i] in start
    requires IncomingSoFar(now, start, keys, i, start[keys[i]].exits, |start[keys[i]].exits|, start[keys[i]].entry)
    ensures IncomingSoFar(now, start, keys, i + 1, [], 0, 0)
  {
    var b := start[keys[i]];
    assert b.exits[..|b.exits|] == b.exits;
    forall x | x in start
      ensures now[x] == start[x].(incoming := start[x].incoming + Arrivals(start, keys[..i + 1], x)
                                              + ArrivalsFrom([][..0], x, 0))
    {
      ArrivalsStep(start, keys, i, x);
      assert ArrivalsFrom([][..0], x, 0) == [];
    }
  }

  /** Lines 22-28: every block's entry is appended to the incoming list of each of its exits. */
  method PopulateIncoming(blocks: Blocks, keys: seq<u64>) returns (blocks': Blocks)
    requires WellFormed(blocks) && ListsKeys(keys, blocks)
    ensures blocks'.Keys == blocks.Keys
    ensures forall x :: x in blocks ==>
      blocks'[x] == blocks[x].(incoming := blocks[x].incoming + Arrivals(blocks, keys, x))
  {
    blocks' := blocks;
    IncomingNone(blocks, keys);
    for i := 0 to |keys|
      invariant IncomingSoFar(blocks', blocks, keys, i, [], 0, 0)
    {
      blocks' := AppendToExits(blocks', blocks, keys, i);
    }
    assert keys[..|keys|] == keys;
  }

  lemma {:induction false} IncomingNone(blocks: Blocks, keys: seq<u64>)
    ensures IncomingSoFar(blocks, blocks, keys, 0, [], 0, 0)
  {
    forall x | x in blocks ensures Arrivals(blocks, keys[..0], x) + ArrivalsFrom([][..0], x, 0) == [] {
    }
  }

  /** One round of the outer loop: block keys[i] appends its entry to each exit's incoming list. */
  method AppendToExits(now: Blocks, ghost start: Blocks, keys: seq<u64>, i: nat) returns (now': Blocks)
    requires i < |keys| && keys[i] in start && forall e :: e in start[keys[i]].exits ==> e in start
    requires IncomingSoFar(now, start, keys, i, [], 0, 0)
    ensures IncomingSoFar(now', start, keys, i + 1, [], 0, 0)
  {
    now' := now;
    var block := now'[keys[i]];
    assert block.exits == start[keys[i]].exits && block.entry == start[keys[i]].entry;
    for j := 0 to |block.exits|
      invariant IncomingSoFar(now', start, keys, i, block.exits, j, block.entry)
    {
      var e := block.exits[j];
      ghost var mid := now';
      now' := now'[e := now'[e].(incoming := now'[e].incoming + [block.entry])];
      IncomingPush(now', mid, start, keys, i, block.exits, j, block.entry);
    }
    IncomingNext(now', start, keys, i);
  }

  // ---------------------------------------------------------------------------
  // The walk that picks tree children (lines 30-105)

  /** `removeFromVec`: every occurrence of x dropped, the rest kept in order. */
  function RemoveAll(s: seq<u64>, x: u64): seq<u64>
  {
    if |s| == 0 then [] else RemoveAll(s[..|s| - 1], x) + (if s[|s| - 1] == x then [] else [s[|s| - 1]])
  }

  lemma {:induction false} RemoveAllCount(s: seq<u64>, x: u64)
    ensures multiset(RemoveAll(s, x)) == multiset(s)[x := 0]
    decreases |s|
  {
    if |s| > 0 {
      var n := |s| - 1;
      RemoveAllCount(s[..n], x);
      assert s == s[..n] + [s[n]];
      var front: seq<u64> := RemoveAll(s[..n], x);
      var last: seq<u64> := if s[n] == x then [] else [s[n]];
      assert multiset(front + last) == multiset(front) + multiset(last);
      assert multiset(s) == multiset(s[..n]) + multiset([s[n]]);
    }
  }

  /** `now` is `start` with, at most, other incoming lists and other tree children. */
  ghost predicate SameBlocks(now: Blocks, start: Blocks) {
    && now.Keys == start.Keys
    && forall k :: k in now ==> now[k] == start[k].(incoming := now[k].incoming, newExits := now[k].newExits)
  }

  /** x is one of p's tree children (`new_exits`). */
  predicate IsTreeChild(blocks: Blocks, p: u64, x: u64) {
    p in blocks && x in blocks[p].newExits
  }

  ghost predicate HasTreeParent(blocks: Blocks, x: u64) {
    exists p :: IsTreeChild(blocks, p, x)
  }

  /**
   * The tree children picked so far, over the discovered blocks `found` (the block order, then
   * the queue): a child is one of its parent's exits, is discovered after its parent, and has
   * no other parent; a parent has already left the queue; every discovered block but the
   * first has a parent.
   */
  ghost predicate Forest(blocks: Blocks, order: seq<u64>, found: seq<u64>) {
    && (forall p, x :: IsTreeChild(blocks, p, x) ==> x in blocks[p].exits && p in order && x in found)
    && (forall p, q, x :: IsTreeChild(blocks, p, x) && IsTreeChild(blocks, q, x) ==> p == q)
    && (forall p :: p in blocks ==> Distinct(blocks[p].newExits))
    && (forall i, j :: 0 <= i < |found| && 0 <= j < |found| && IsTreeChild(blocks, found[j], found[i]) ==> j < i)
    && (forall i :: 0 < i < |found| ==> HasTreeParent(blocks, found[i]))
  }

  /**
   * The walk's invariant: blocks are discovered once each, starting with the entry; visited
   * means discovered; the tree children form a forest as above.
   */
  ghost predicate WalkInv(start: Blocks, entry: u64, blocks: Blocks, visited: set<u64>, queue: seq<u64>, order: seq<u64>) {
    && SameBlocks(blocks, start)
    && Distinct(order + queue) && |order + queue| > 0 && (order + queue)[0] == entry
    && (forall x :: x in visited <==> x in order + queue)
    && (forall x :: x in order + queue ==> x in blocks)
    && Forest(blocks, order, order + queue)
  }

  lemma {:induction false} WalkStart(start: Blocks, entry: u64)
    requires Unwalked(start) && entry in start
    ensures WalkInv(start, entry, start, {entry}, [entry], [])
  {
    assert [] + [entry] == [entry];
  }

  lemma {:induction false} WalkBound(start: Blocks, entry: u64, blocks: Blocks, visited: set<u64>, queue: seq<u64>,
                                     order: seq<u64>)
    requires WalkInv(start, entry, blocks, visited, queue, order)
    ensures |order + queue| <= |start.Keys|
  {
    L.DistinctBound(order + queue, start.Keys);
  }

  lemma {:induction false} WalkPop(start: Blocks, entry: u64, blocks: Blocks, visited: set<u64>, queue: seq<u64>,
                                   order: seq<u64>)
    requires WalkInv(start, entry, blocks, visited, queue, order) && |queue| > 0
    ensures WalkInv(start, entry, blocks, visited, queue[1..], order + [queue[0]])
  {
    assert (order + [queue[0]]) + queue[1..] == order + queue;
  }

  /** Tree children after t joins p's children. */
  lemma {:induction false} ChildrenAfterAdopt(blocks: Blocks, blocks': Blocks, p: u64, t: u64)
    requires p in blocks && blocks'.Keys == blocks.Keys
    requires blocks'[p].newExits == blocks[p].newExits + [t]
    requires forall k :: k in blocks && k != p ==> blocks'[k].newExits == blocks[k].newExits
    ensures forall a, x :: IsTreeChild(blocks', a, x) <==> IsTreeChild(blocks, a, x) || (a == p && x == t)
  {
    forall a, x ensures IsTreeChild(blocks', a, x) <==> IsTreeChild(blocks, a, x) || (a == p && x == t) {
      if a == p {
        assert x in blocks[p].newExits + [t] <==> x in blocks[p].newExits || x == t;
      }
    }
  }

  lemma {:induction false} AdoptForest(blocks: Blocks, blocks': Blocks, order: seq<u64>, found: seq<u64>, p: u64, t: u64)
    requires Forest(blocks, order, found) && p in order && t !in found && p in blocks
    requires forall x :: x in order ==> x in found
    requires t in blocks[p].exits && blocks'.Keys == blocks.Keys
    requires blocks'[p] == blocks[p].(newExits := blocks[p].newExits + [t])
    requires forall k :: k in blocks && k != p ==> blocks'[k].newExits == blocks[k].newExits && blocks'[k].exits == blocks[k].exits
    ensures Forest(blocks', order, found + [t])
  {
    ChildrenAfterAdopt(blocks, blocks', p, t);
    assert t !in blocks[p].newExits;
    DistinctAppend(blocks[p].newExits, t);
    AdoptOrdered(blocks, blocks', order, found, p, t);
    AdoptParents(blocks, blocks', order, found, p, t);
  }

  lemma {:induction false} AdoptOrdered(blocks: Blocks, blocks': Blocks, order: seq<u64>, found: seq<u64>, p: u64, t: u64)
    requires Forest(blocks, order, found) && p in order && t !in found
    requires forall x :: x in order ==> x in found
    requires forall a, x :: IsTreeChild(blocks', a, x) <==> IsTreeChild(blocks, a, x) || (a == p && x == t)
    ensures forall i, j :: 0 <= i < |found + [t]| && 0 <= j < |found + [t]| && IsTreeChild(blocks', (found + [t])[j], (found + [t])[i]) ==> j < i
  {
    var found' := found + [t];
    assert found'[|found|] == t;
    forall i, j | 0 <= i < |found'| && 0 <= j < |found'| && IsTreeChild(blocks', found'[j], found'[i]) ensures j < i {
      if IsTreeChild(blocks, found'[j], found'[i]) {
        assert found'[i] in found && found'[j] in found;
        assert found'[i] == found[i] && found'[j] == found[j];
      } else {
        assert found'[i] == t;
      }
    }
  }

  lemma {:induction false} AdoptParents(blocks: Blocks, blocks': Blocks, order: seq<u64>, found: seq<u64>, p: u64, t: u64)
    requires Forest(blocks, order, found)
    requires forall a, x :: IsTreeChild(blocks', a, x) <==> IsTreeChild(blocks, a, x) || (a == p && x == t)
    ensures forall i :: 0 < i < |found + [t]| ==> HasTreeParent(blocks', (found + [t])[i])
  {
    var found' := found + [t];
    forall i | 0 < i < |found'| ensures HasTreeParent(blocks', found'[i]) {
      if i < |found| {
        assert found'[i] == found[i] && HasTreeParent(blocks, found[i]);
        var q :| IsTreeChild(blocks, q, found[i]);
        assert IsTreeChild(blocks', q, found'[i]);
      } else {
        assert IsTreeChild(blocks', p, found'[i]);
      }
    }
  }

  /** Adopting an unvisited exit t of a block p that has left the queue keeps the walk's invariant. */
  lemma {:induction false} WalkAdopt(start: Blocks, entry: u64, blocks: Blocks, visited: set<u64>, queue: seq<u64>,
                                     order: seq<u64>, p: u64, t: u64, blocks': Blocks)
    requires WalkInv(start, entry, blocks, visited, queue, order)
    requires p in order && t in blocks && t !in visited && t in blocks[p].exits
    requires blocks'.Keys == blocks.Keys && blocks'[p] == blocks[p].(newExits := blocks[p].newExits + [t])
    requires forall k :: k in blocks && k != p ==> blocks'[k] == blocks[k].(incoming := blocks'[k].incoming)
    ensures WalkInv(start, entry, blocks', visited + {t}, queue + [t], order)
  {
    assert order + (queue + [t]) == (order + queue) + [t];
    assert t !in order + queue;
    DistinctAppend(order + queue, t);
    AdoptForest(blocks, blocks', order, order + queue, p, t);
  }

  /** Changing incoming lists alone keeps the walk's invariant. */
  lemma {:induction false} WalkDrop(start: Blocks, entry: u64, blocks: Blocks, visited: set<u64>, queue: seq<u64>,
                                    order: seq<u64>, blocks': Blocks)
    requires WalkInv(start, entry, blocks, visited, queue, order)
    requires blocks'.Keys == blocks.Keys
    requires forall k :: k in blocks ==> blocks'[k] == blocks[k].(incoming := blocks'[k].incoming)
    ensures WalkInv(start, entry, blocks', visited, queue, order)
  {
    assert forall a, x :: IsTreeChild(blocks', a, x) <==> IsTreeChild(blocks, a, x);
    forall i | 0 < i < |order + queue| ensures HasTreeParent(blocks', (order + queue)[i]) {
      var q :| IsTreeChild(blocks, q, (order + queue)[i]);
      assert IsTreeChild(blocks', q, (order + queue)[i]);
    }
  }

  /** Lines 45-67: the exits of the block v just taken off the queue. */
  method VisitExits(ghost start: Blocks, ghost entry: u64, blocks: Blocks, visited: set<u64>, queue: seq<u64>,
                    order: seq<u64>)
    returns (blocks': Blocks, visited': set<u64>, queue': seq<u64>, adopted: bool)
    requires WellFormed(start) && WalkInv(start, entry, blocks, visited, queue, order) && |order| > 0
    ensures WalkInv(start, entry, blocks', visited', queue', order)
    ensures |queue'| >= |queue| && (adopted <==> |queue'| > |queue|)
  {
    var v := order[|order| - 1];
    blocks', visited', queue', adopted := blocks, visited, queue, false;
    var block := blocks[v];
    for j := 0 to |block.exits|
      invariant WalkInv(start, entry, blocks', visited', queue', order)
      invariant |queue'| >= |queue| && (adopted <==> |queue'| > |queue|)
      invariant v in blocks' && blocks'[v].exits == block.exits && block.entry == v
    {
      var edge := block.exits[j];
      if edge in visited' {
        continue;
      }
      if edge !in blocks' {
        continue;
      }
      ghost var mid := blocks';
      if |blocks'[edge].incoming| == 1 {
        blocks' := blocks'[edge := blocks'[edge].(incoming := RemoveAll(blocks'[edge].incoming, block.entry))];
        blocks' := blocks'[v := blocks'[v].(newExits := blocks'[v].newExits + [edge])];
        WalkAdopt(start, entry, mid, visited', queue', order, v, edge, blocks');
        queue' := queue' + [blocks'[edge].entry];
        visited' := visited' + {edge};
        adopted := true;
      } else {
        blocks' := blocks'[edge := blocks'[edge].(incoming := RemoveAll(blocks'[edge].incoming, block.entry))];
        WalkDrop(start, entry, mid, visited', queue', order, blocks');
      }
    }
  }

  /** Lines 41-68: visits queued blocks, oldest first, until the queue is empty. */
  method DrainQueue(ghost start: Blocks, ghost entry: u64, blocks: Blocks, visited: set<u64>, queue: seq<u64>,
                    order: seq<u64>, changed: bool)
    returns (blocks': Blocks, visited': set<u64>, order': seq<u64>, changed': bool)
    requires WellFormed(start) && WalkInv(start, entry, blocks, visited, queue, order)
    ensures WalkInv(start, entry, blocks', visited', [], order')
    ensures |order'| >= |order + queue|
    ensures changed' == (changed || |order'| > |order + queue|)
  {
    blocks', visited', order', changed' := blocks, visited, order, changed;
    var queue' := queue;
    WalkBound(start, entry, blocks', visited', queue', order');
    while |queue'| > 0
      invariant WalkInv(start, entry, blocks', visited', queue', order')
      invariant |order' + queue'| <= |start.Keys| && |order' + queue'| >= |order + queue|
      invariant changed' == (changed || |order' + queue'| > |order + queue|)
      decreases 2 * (|start.Keys| - |order' + queue'|) + |queue'|
    {
      WalkPop(start, entry, blocks', visited', queue', order');
      order' := order' + [queue'[0]];
      queue' := queue'[1..];
      var adopted;
      blocks', visited', queue', adopted := VisitExits(start, entry, blocks', visited', queue', order');
      changed' := changed' || adopted;
      WalkBound(start, entry, blocks', visited', queue', order');
    }
  }

  /** p is a visited block with an exit to the unvisited block t. */
  ghost predicate Candidate(blocks: Blocks, visited: set<u64>, p: u64, t: u64) {
    p in blocks && p in visited && t in blocks[p].exits && t !in visited && t in blocks
  }

  /** Picking t is at least as good as picking u: fewer incoming edges, or as many and an address no higher. */
  predicate Prefer(blocks: Blocks, t: u64, u: u64)
    requires t in blocks && u in blocks
  {
    |blocks[t].incoming| < |blocks[u].incoming| || (|blocks[t].incoming| == |blocks[u].incoming| && t <= u)
  }

  /** Picking t is strictly better than picking u. */
  predicate Better(blocks: Blocks, t: u64, u: u64)
    requires t in blocks && u in blocks
  {
    |blocks[t].incoming| < |blocks[u].incoming| || (|blocks[t].incoming| == |blocks[u].incoming| && t < u)
  }

  /** The pick after scanning the exits of the first i blocks of `keys`. */
  ghost predicate ScannedUpTo(blocks: Blocks, visited: set<u64>, keys: seq<u64>, i: nat, found: bool, best: u64, parent: u64)
    requires i <= |keys|
  {
    && (found ==> Candidate(blocks, visited, parent, best) && exists m :: 0 <= m < i && keys[m] == parent)
    && (forall k: int, t: u64 {:trigger Candidate(blocks, visited, keys[k], t)} :: 0 <= k < i && Candidate(blocks, visited, keys[k], t) ==> found && Prefer(blocks, best, t))
    && (found ==> forall m, k :: 0 <= k < m < i && keys[m] == parent ==> !Candidate(blocks, visited, keys[k], best))
  }

  /** The pick after scanning the first i blocks and the first j exits of block keys[i]. */
  ghost predicate Scanned(blocks: Blocks, visited: set<u64>, keys: seq<u64>, i: nat, exits: seq<u64>, j: nat,
                          found: bool, best: u64, parent: u64)
    requires i < |keys| && j <= |exits|
  {
    && (found ==> Candidate(blocks, visited, parent, best) && exists m :: 0 <= m <= i && keys[m] == parent)
    && (forall k: int, t: u64 {:trigger Candidate(blocks, visited, keys[k], t)} :: 0 <= k < i && Candidate(blocks, visited, keys[k], t) ==> found && Prefer(blocks, best, t))
    && (forall t: u64 {:trigger Candidate(blocks, visited, keys[i], t)} :: t in exits[..j] && Candidate(blocks, visited, keys[i], t) ==> found && Prefer(blocks, best, t))
    && (found ==> forall m, k :: 0 <= k < m <= i && keys[m] == parent ==> !Candidate(blocks, visited, keys[k], best))
  }

  lemma {:induction false} ScanEnter(blocks: Blocks, visited: set<u64>, keys: seq<u64>, i: nat, found: bool, best: u64, parent: u64)
    requires Distinct(keys) && i < |keys| && keys[i] in blocks && ScannedUpTo(blocks, visited, keys, i, found, best, parent)
    ensures Scanned(blocks, visited, keys, i, blocks[keys[i]].exits, 0, found, best, parent)
  {
    if found {
      var m :| 0 <= m < i && keys[m] == parent;
      assert keys[i] != parent by {
        assert keys[m] != keys[i];
      }
      forall m', k | 0 <= k < m' <= i && keys[m'] == parent
        ensures !Candidate(blocks, visited, keys[k], best)
      {
        assert m' != i;
      }
    }
  }

  lemma {:induction false} ScanSkip(blocks: Blocks, visited: set<u64>, keys: seq<u64>, i: nat, found: bool, best: u64, parent: u64)
    requires i < |keys| && keys[i] !in visited && ScannedUpTo(blocks, visited, keys, i, found, best, parent)
    ensures ScannedUpTo(blocks, visited, keys, i + 1, found, best, parent)
  {
    forall k: int, t: u64 | 0 <= k < i + 1 && Candidate(blocks, visited, keys[k], t)
      ensures found && Prefer(blocks, best, t)
    {
      assert k != i;
    }
  }

  lemma {:induction false} ScanLeave(blocks: Blocks, visited: set<u64>, keys: seq<u64>, i: nat, exits: seq<u64>,
                                     found: bool, best: u64, parent: u64)
    requires i < |keys| && keys[i] in blocks && exits == blocks[keys[i]].exits
    requires Scanned(blocks, visited, keys, i, exits, |exits|, found, best, parent)
    ensures ScannedUpTo(blocks, visited, keys, i + 1, found, best, parent)
  {
    assert exits[..|exits|] == exits;
    forall k: int, t: u64 | 0 <= k < i + 1 && Candidate(blocks, visited, keys[k], t)
      ensures found && Prefer(blocks, best, t)
    {
      if k == i {
        assert t in exits[..|exits|];
      }
    }
  }

  lemma {:induction false} ScanKeep(blocks: Blocks, visited: set<u64>, keys: seq<u64>, i: nat, exits: seq<u64>, j: nat,
                                    found: bool, best: u64, parent: u64)
    requires i < |keys| && j < |exits| && Scanned(blocks, visited, keys, i, exits, j, found, best, parent)
    requires Candidate(blocks, visited, keys[i], exits[j]) ==> found && Prefer(blocks, best, exits[j])
    ensures Scanned(blocks, visited, keys, i, exits, j + 1, found, best, parent)
  {
    assert exits[..j + 1] == exits[..j] + [exits[j]];
    forall t: u64 | t in exits[..j + 1] && Candidate(blocks, visited, keys[i], t)
      ensures found && Prefer(blocks, best, t)
    {
      if t != exits[j] {
        assert t in exits[..j];
      }
    }
  }

  lemma {:induction false} ScanTake(blocks: Blocks, visited: set<u64>, keys: seq<u64>, i: nat, exits: seq<u64>, j: nat,
                                    found: bool, best: u64, parent: u64)
    requires i < |keys| && j < |exits| && Scanned(blocks, visited, keys, i, exits, j, found, best, parent)
    requires Candidate(blocks, visited, keys[i], exits[j])
    requires found ==> Better(blocks, exits[j], best)
    ensures Scanned(blocks, visited, keys, i, exits, j + 1, true, exits[j], keys[i])
  {
    var e := exits[j];
    assert exits[..j + 1] == exits[..j] + [e];
    forall k: int, t: u64 | 0 <= k < i && Candidate(blocks, visited, keys[k], t)
      ensures Prefer(blocks, e, t)
    {
      assert found && Prefer(blocks, best, t);
    }
    forall t: u64 | t in exits[..j + 1] && Candidate(blocks, visited, keys[i], t)
      ensures Prefer(blocks, e, t)
    {
      if t != e {
        assert t in exits[..j];
        assert found && Prefer(blocks, best, t);
      }
    }
    assert !found || !Prefer(blocks, best, e);
    forall k: int | 0 <= k < i
      ensures !Candidate(blocks, visited, keys[k], e)
    {
    }
  }

  /**
   * Lines 71-96 with "nothing picked yet" kept as a flag: over the edges from visited to
   * unvisited blocks, the one whose target has the fewest incoming edges, ties going to the
   * lower target address; its parent is the first visited block, in iteration order, with an
   * exit to that target.
   */
  method FindBestEdge(blocks: Blocks, visited: set<u64>, keys: seq<u64>) returns (found: bool, best: u64, bestParent: u64)
    requires ListsKeys(keys, blocks) && forall k :: k in blocks ==> blocks[k].entry == k
    ensures found ==> Candidate(blocks, visited, bestParent, best)
    ensures found ==> forall p, t :: Candidate(blocks, visited, p, t) ==> Prefer(blocks, best, t)
    ensures !found ==> forall p, t :: !Candidate(blocks, visited, p, t)
    ensures found ==> forall m, k :: 0 <= k < m < |keys| && keys[m] == bestParent ==> !Candidate(blocks, visited, keys[k], best)
  {
    found, best, bestParent := false, 0, 0;
    var bestEdges := 0;
    for i := 0 to |keys|
      invariant ScannedUpTo(blocks, visited, keys, i, found, best, bestParent)
      invariant found ==> best in blocks && bestEdges == |blocks[best].incoming|
    {
      var block := blocks[keys[i]];
      if block.entry !in visited {
        ScanSkip(blocks, visited, keys, i, found, best, bestParent);
        continue;
      }
      ScanEnter(blocks, visited, keys, i, found, best, bestParent);
      for j := 0 to |block.exits|
        invariant Scanned(blocks, visited, keys, i, block.exits, j, found, best, bestParent)
        invariant found ==> best in blocks && bestEdges == |blocks[best].incoming|
      {
        var edge := block.exits[j];
        if edge in visited {
          ScanKeep(blocks, visited, keys, i, block.exits, j, found, best, bestParent);
          continue;
        }
        if edge !in blocks {
          ScanKeep(blocks, visited, keys, i, block.exits, j, found, best, bestParent);
          continue;
        }
        var n := |blocks[edge].incoming|;
        if !found || n < bestEdges || (n == bestEdges && edge < best) {
          ScanTake(blocks, visited, keys, i, block.exits, j, found, best, bestParent);
          found, best, bestEdges, bestParent := true, edge, n, block.entry;
        } else {
          ScanKeep(blocks, visited, keys, i, block.exits, j, found, best, bestParent);
        }
      }
      ScanLeave(blocks, visited, keys, i, block.exits, found, best, bestParent);
    }
    forall p, t | Candidate(blocks, visited, p, t) ensures found && Prefer(blocks, best, t) {
      var k := IndexOf(keys, p);
      assert Candidate(blocks, visited, keys[k], t);
    }
  }

  lemma {:induction false} WalkKeyed(start: Blocks, entry: u64, blocks: Blocks, visited: set<u64>, queue: seq<u64>,
                                     order: seq<u64>)
    requires WellFormed(start) && WalkInv(start, entry, blocks, visited, queue, order)
    ensures forall k :: k in blocks ==> blocks[k].entry == k
  {
    forall k | k in blocks ensures blocks[k].entry == k {
      assert blocks[k].entry == start[k].entry;
    }
  }

  /**
   * Lines 70-105: with the queue empty, the best edge out of the visited blocks joins the tree;
   * its target loses that parent from its incoming list and is queued.
   */
  method Fallback(ghost start: Blocks, ghost entry: u64, blocks: Blocks, visited: set<u64>, order: seq<u64>,
                  keys: seq<u64>)
    returns (blocks': Blocks, visited': set<u64>, queue': seq<u64>, found: bool, best: u64, parent: u64)
    requires WellFormed(start) && WalkInv(start, entry, blocks, visited, [], order) && ListsKeys(keys, blocks)
    ensures WalkInv(start, entry, blocks', visited', queue', order)
    ensures found ==> Candidate(blocks, visited, parent, best)
    ensures found ==> forall p, t :: Candidate(blocks, visited, p, t) ==> Prefer(blocks, best, t)
    ensures found ==> queue' == [best] && visited' == visited + {best}
    ensures found ==> blocks'[parent].newExits == blocks[parent].newExits + [best]
    ensures found ==> blocks'[best].incoming == RemoveAll(blocks[best].incoming, parent)
    ensures !found ==> blocks' == blocks && visited' == visited && queue' == []
    ensures !found ==> forall p, t :: !Candidate(blocks, visited, p, t)
  {
    WalkKeyed(start, entry, blocks, visited, [], order);
    found, best, parent := FindBestEdge(blocks, visited, keys);
    if found {
      var mid := blocks[best := blocks[best].(incoming := RemoveAll(blocks[best].incoming, blocks[parent].entry))];
      blocks' := mid[parent := mid[parent].(newExits := mid[parent].newExits + [best])];
      assert order + [] == order;
      WalkAdopt(start, entry, blocks, visited, [], order, parent, best, blocks');
      assert [] + [best] == [best];
      visited' := visited + {best};
      queue' := [best];
    } else {
      blocks', visited', queue' := blocks, visited, [];
    }
  }

  /**
   * Lines 30-105, `pickTree` up to the placement: the walk ends when neither the queue nor the
   * fallback adds a block. Every block reachable from the entry is then in the block order,
   * and the tree children form a forest rooted at the entry over exactly those blocks.
   */
  method PickTree(blocks: Blocks, keys: seq<u64>, entry: u64) returns (blocks': Blocks, blockOrder: seq<u64>)
    requires WellFormed(blocks) && ListsKeys(keys, blocks) && Unwalked(blocks) && entry in blocks
    ensures SameBlocks(blocks', blocks)
    ensures Distinct(blockOrder) && |blockOrder| > 0 && blockOrder[0] == entry
    ensures forall x :: x in blockOrder ==> x in blocks
    ensures Forest(blocks', blockOrder, blockOrder)
    ensures forall p, t :: p in blockOrder && t in blocks[p].exits ==> t in blockOrder
  {
    WalkStart(blocks, entry);
    blocks' := blocks;
    var visited := {entry};
    var queue := [entry];
    blockOrder := [];
    var changed := true;
    WalkBound(blocks, entry, blocks', visited, queue, blockOrder);
    while changed
      invariant WalkInv(blocks, entry, blocks', visited, queue, blockOrder)
      invariant |blockOrder + queue| <= |blocks.Keys|
      invariant !changed ==> queue == [] && forall p, t :: !Candidate(blocks', visited, p, t)
      decreases 2 * (|blocks.Keys| - |blockOrder + queue|) + (if changed then 1 else 0)
    {
      ghost var before := |blockOrder + queue|;
      blocks', visited, blockOrder, changed := DrainQueue(blocks, entry, blocks', visited, queue, blockOrder, false);
      var found, best, parent;
      blocks', visited, queue, found, best, parent := Fallback(blocks, entry, blocks', visited, blockOrder, keys);
      if found {
        changed := true;
      }
      WalkBound(blocks, entry, blocks', visited, queue, blockOrder);
    }
    assert blockOrder + [] == blockOrder;
    forall p, t | p in blockOrder && t in blocks[p].exits ensures t in blockOrder {
      assert !Candidate(blocks', visited, p, t);
    }
  }

  // ---------------------------------------------------------------------------
  // The fallback as written, with address 0 standing for "nothing picked yet"

  /** The (parent, target) pairs the fallback scan of lines 75-92 meets among `exits` of p. */
  function ExitScan(blocks: Blocks, visited: set<u64>, p: u64, exits: seq<u64>): (r: seq<(u64, u64)>)
    ensures forall i :: 0 <= i < |r| ==> r[i].0 == p && r[i].1 in exits && r[i].1 !in visited && r[i].1 in blocks
  {
    if |exits| == 0 then []
    else
      var rest := ExitScan(blocks, visited, p, exits[..|exits| - 1]);
      var e := exits[|exits| - 1];
      rest + (if e in visited || e !in blocks then [] else [(p, e)])
  }

  /** All (parent, target) pairs the fallback scan meets, in scan order. */
  function ScanOrder(blocks: Blocks, visited: set<u64>, keys: seq<u64>): (r: seq<(u64, u64)>)
    ensures forall i :: 0 <= i < |r| ==> Candidate(blocks, visited, r[i].0, r[i].1)
  {
    if |keys| == 0 then []
    else
      var rest := ScanOrder(blocks, visited, keys[..|keys| - 1]);
      var k := keys[|keys| - 1];
      rest + (if k in blocks && k in visited then ExitScan(blocks, visited, k, blocks[k].exits) else [])
  }

  /**
   * Lines 71-92 as written: `best == 0` doubles as "nothing picked yet", so a candidate at
   * address 0 is taken and then replaced by whatever candidate comes next, and a result of 0
   * reads as "no edge found" at line 93.
   */
  function PickAsWritten(blocks: Blocks, cands: seq<(u64, u64)>, best: u64, bestEdges: int, bestParent: u64)
    : (r: (u64, int, u64))
    requires forall i :: 0 <= i < |cands| ==> cands[i].1 in blocks
    ensures r == (best, bestEdges, bestParent) || exists i :: 0 <= i < |cands| && r.0 == cands[i].1 && r.2 == cands[i].0
  {
    if |cands| == 0 then (best, bestEdges, bestParent)
    else
      var t := cands[0].1;
      var n := |blocks[t].incoming|;
      if best == 0 || n < bestEdges || (n == bestEdges && t < best) then
        PickAsWritten(blocks, cands[1..], t, n, cands[0].0)
      else
        PickAsWritten(blocks, cands[1..], best, bestEdges, bestParent)
  }

  /** A function whose entry at 5 jumps to a block at address 0 that another block also enters. */
  function ZeroTarget(): Blocks {
    map[5 := GraphBlock(5, [0], [], [], 0, 0, 0, 0),
        0 := GraphBlock(0, [], [5, 6], [], 0, 0, 0, 0),
        6 := GraphBlock(6, [0], [], [], 0, 0, 0, 0)]
  }

  /**
   * With only the entry 5 visited, the edge 5 -> 0 is a candidate and the corrected
   * FindBestEdge must report it, but the scan as written ends with best == 0 and reports
   * nothing: block 0 never joins the block order and is never placed.
   */
  lemma {:induction false} ZeroTargetDropped()
    ensures Candidate(ZeroTarget(), {5}, 5, 0)
    ensures PickAsWritten(ZeroTarget(), ScanOrder(ZeroTarget(), {5}, [5, 0, 6]), 0, 0, 0).0 == 0
  {
    var b := ZeroTarget();
    assert ExitScan(b, {5}, 5, [0]) == [(5, 0)] by {
      assert [0][..0] == [];
    }
    assert [5, 0, 6][..2] == [5, 0];
    assert [5, 0][..1] == [5];
    assert [5][..0] == [];
    assert ScanOrder(b, {5}, [5, 0, 6]) == [(5, 0)];
  }

  // ---------------------------------------------------------------------------
  // Tree paths (lines 262-330 recurse along `new_exits`)

  /** Every block has at most one tree parent, and no parent lists a child twice. */
  ghost predicate UniqueParents(tree: map<u64, seq<u64>>) {
    && (forall p, q, x :: L.IsChild(tree, p, x) && L.IsChild(tree, q, x) ==> p == q)
    && (forall p :: p in tree ==> Distinct(tree[p]))
  }

  /** A path through one of `cs` starts at some member of `cs`. */
  lemma {:induction false} PathsViaPositive(tree: map<u64, seq<u64>>, rank: map<u64, nat>, cs: seq<u64>, bound: nat,
                                            x: u64) returns (k: nat)
    requires L.Ranked(tree, rank) && forall c :: c in cs ==> c in tree && rank[c] < bound
    requires L.PathsVia(tree, rank, cs, bound, x) > 0
    ensures k < |cs| && L.Paths(tree, rank, cs[k], x) > 0
    decreases |cs|
  {
    var n := |cs| - 1;
    if L.Paths(tree, rank, cs[n], x) > 0 {
      k := n;
    } else {
      k := PathsViaPositive(tree, rank, cs[..n], bound, x);
    }
  }

  /** The blocks below a in the tree have rank at most a's. */
  lemma {:induction false} PathsRank(tree: map<u64, seq<u64>>, rank: map<u64, nat>, a: u64, x: u64)
    requires L.Ranked(tree, rank) && a in tree && L.Paths(tree, rank, a, x) > 0
    ensures x in tree && rank[x] <= rank[a]
    decreases rank[a]
  {
    if a != x {
      L.ChildrenBelow(tree, rank, a);
      var k := PathsViaPositive(tree, rank, tree[a], rank[a], x);
      PathsRank(tree, rank, tree[a][k], x);
    }
  }

  /** A tree child of a block below a is below a too. */
  lemma {:induction false} PathsExtend(tree: map<u64, seq<u64>>, rank: map<u64, nat>, a: u64, x: u64, y: u64)
    requires L.Ranked(tree, rank) && a in tree && L.Paths(tree, rank, a, x) > 0 && L.IsChild(tree, x, y)
    ensures L.Paths(tree, rank, a, y) > 0
    decreases rank[a]
  {
    L.ChildrenBelow(tree, rank, a);
    if a == x {
      var k := IndexOf(tree[a], y);
      L.PathsOfSelf(tree, rank, y);
      L.PathsViaParts(tree, rank, tree[a], rank[a], y, k);
    } else {
      var k := PathsViaPositive(tree, rank, tree[a], rank[a], x);
      PathsExtend(tree, rank, tree[a][k], x, y);
      L.PathsViaParts(tree, rank, tree[a], rank[a], y, k);
    }
  }

  /** A block strictly below a has a tree parent below a. */
  lemma {:induction false} PathsBack(tree: map<u64, seq<u64>>, rank: map<u64, nat>, a: u64, x: u64) returns (p: u64)
    requires L.Ranked(tree, rank) && a in tree && L.Paths(tree, rank, a, x) > 0 && a != x
    ensures L.IsChild(tree, p, x) && L.Paths(tree, rank, a, p) > 0
    decreases rank[a]
  {
    L.ChildrenBelow(tree, rank, a);
    var k := PathsViaPositive(tree, rank, tree[a], rank[a], x);
    var c := tree[a][k];
    if c == x {
      p := a;
      L.PathsOfSelf(tree, rank, a);
    } else {
      p := PathsBack(tree, rank, c, x);
      L.PathsViaParts(tree, rank, tree[a], rank[a], p, k);
    }
  }

  /** With unique parents, two blocks above a common block lie one above the other. */
  lemma {:induction false} PathsComparable(tree: map<u64, seq<u64>>, rank: map<u64, nat>, a: u64, b: u64, y: u64)
    requires L.Ranked(tree, rank) && UniqueParents(tree) && a in tree && b in tree && y in tree
    requires L.Paths(tree, rank, a, y) > 0 && L.Paths(tree, rank, b, y) > 0
    ensures L.Paths(tree, rank, a, b) > 0 || L.Paths(tree, rank, b, a) > 0
    decreases rank[a] as int - rank[y] as int
  {
    PathsRank(tree, rank, a, y);
    if y != a && y != b {
      var p := PathsBack(tree, rank, a, y);
      var q := PathsBack(tree, rank, b, y);
      assert p == q;
      PathsRank(tree, rank, a, p);
      PathsRank(tree, rank, b, p);
      PathsComparable(tree, rank, a, b, p);
    } else if y == a {
      assert L.Paths(tree, rank, b, a) > 0;
    }
  }

  /** With unique parents, the subtrees of two different children of v share no block. */
  lemma {:induction false} SiblingsApart(tree: map<u64, seq<u64>>, rank: map<u64, nat>, v: u64, i: nat, j: nat, y: u64)
    requires L.Ranked(tree, rank) && UniqueParents(tree) && v in tree
    requires i < |tree[v]| && j < |tree[v]| && i != j
    requires L.Paths(tree, rank, tree[v][i], y) > 0
    ensures L.Paths(tree, rank, tree[v][j], y) == 0
  {
    var a, b := tree[v][i], tree[v][j];
    L.ChildrenBelow(tree, rank, v);
    if L.Paths(tree, rank, b, y) > 0 {
      assert a != b;
      PathsRank(tree, rank, a, y);
      PathsComparable(tree, rank, a, b, y);
      if L.Paths(tree, rank, a, b) > 0 {
        var p := PathsBack(tree, rank, a, b);
        assert L.IsChild(tree, v, b);
        PathsRank(tree, rank, a, p);
        assert false;
      } else {
        var p := PathsBack(tree, rank, b, a);
        assert L.IsChild(tree, v, a);
        PathsRank(tree, rank, b, p);
        assert false;
      }
    }
  }

  // ---------------------------------------------------------------------------
  // Recursive placement (lines 262-320)

  /**
   * `now` is `start` after placing the subtree of v: tree edges kept, only positions and
   * sizes changed, blocks outside the subtree untouched, every block inside it sized
   * consistently with its children.
   */
  ghost predicate PlacedTree(now: map<u64, L.GridBlock>, start: map<u64, L.GridBlock>, rank: map<u64, nat>, v: u64)
    requires L.Ranked(L.TreeOf(start), rank) && v in start
  {
    && L.TreeOf(now) == L.TreeOf(start) && L.Resized(now, start)
    && (forall x :: x in now && L.Paths(L.TreeOf(start), rank, v, x) == 0 ==> now[x] == start[x])
    && (forall x :: x in now && L.Paths(L.TreeOf(start), rank, v, x) > 0 ==> L.Sized(now, x))
  }

  /** The same after placing only the subtrees of v's first k children; v itself is untouched. */
  ghost predicate PlacedPrefix(now: map<u64, L.GridBlock>, start: map<u64, L.GridBlock>, rank: map<u64, nat>,
                               v: u64, k: nat)
    requires L.Ranked(L.TreeOf(start), rank) && v in start && k <= |start[v].treeEdge|
  {
    && L.TreeOf(now) == L.TreeOf(start) && L.Resized(now, start) && now[v] == start[v]
    && (forall x :: x in now && L.PathsPrefix(L.TreeOf(start), rank, v, k, x) == 0 ==> now[x] == start[x])
    && (forall x :: x in now && x != v && L.PathsPrefix(L.TreeOf(start), rank, v, k, x) > 0 ==> L.Sized(now, x))
  }

  lemma {:induction false} PlacedNone(start: map<u64, L.GridBlock>, rank: map<u64, nat>, v: u64)
    requires L.Ranked(L.TreeOf(start), rank) && v in start
    ensures PlacedPrefix(start, start, rank, v, 0)
  {
    forall x | x in start && x != v ensures L.PathsPrefix(L.TreeOf(start), rank, v, 0, x) == 0 {
      L.PathsPrefixZero(L.TreeOf(start), rank, v, x);
    }
  }

  /** Placing the subtree of v's i-th child keeps the facts about the subtrees placed before it. */
  lemma {:induction false} PlacedChild(now: map<u64, L.GridBlock>, mid: map<u64, L.GridBlock>,
                                       start: map<u64, L.GridBlock>, rank: map<u64, nat>, v: u64, i: nat)
    requires L.Ranked(L.TreeOf(start), rank) && UniqueParents(L.TreeOf(start)) && v in start
    requires i < |start[v].treeEdge| && start[v].treeEdge[i] in mid
    requires PlacedPrefix(mid, start, rank, v, i)
    requires PlacedTree(now, mid, rank, start[v].treeEdge[i])
    ensures PlacedPrefix(now, start, rank, v, i + 1)
  {
    PlacedChildKeeps(now, mid, start, rank, v, i);
    PlacedChildSized(now, mid, start, rank, v, i);
  }

  lemma {:induction false} PlacedChildKeeps(now: map<u64, L.GridBlock>, mid: map<u64, L.GridBlock>,
                                            start: map<u64, L.GridBlock>, rank: map<u64, nat>, v: u64, i: nat)
    requires L.Ranked(L.TreeOf(start), rank) && v in start
    requires i < |start[v].treeEdge| && start[v].treeEdge[i] in mid
    requires PlacedPrefix(mid, start, rank, v, i)
    requires PlacedTree(now, mid, rank, start[v].treeEdge[i])
    ensures now[v] == start[v]
    ensures forall x :: x in now && L.PathsPrefix(L.TreeOf(start), rank, v, i + 1, x) == 0 ==> now[x] == start[x]
  {
    var tree := L.TreeOf(start);
    var c := start[v].treeEdge[i];
    L.ChildrenBelow(tree, rank, v);
    if L.Paths(tree, rank, c, v) > 0 {
      PathsRank(tree, rank, c, v);
    }
    forall x | x in now && L.PathsPrefix(tree, rank, v, i + 1, x) == 0 ensures now[x] == start[x] {
      L.PathsPrefixStep(tree, rank, v, i, x);
    }
  }

  lemma {:induction false} PlacedChildSized(now: map<u64, L.GridBlock>, mid: map<u64, L.GridBlock>,
                                            start: map<u64, L.GridBlock>, rank: map<u64, nat>, v: u64, i: nat)
    requires L.Ranked(L.TreeOf(start), rank) && UniqueParents(L.TreeOf(start)) && v in start
    requires i < |start[v].treeEdge| && start[v].treeEdge[i] in mid
    requires PlacedPrefix(mid, start, rank, v, i)
    requires PlacedTree(now, mid, rank, start[v].treeEdge[i])
    ensures forall x :: x in now && x != v && L.PathsPrefix(L.TreeOf(start), rank, v, i + 1, x) > 0 ==> L.Sized(now, x)
  {
    var tree := L.TreeOf(start);
    var c := start[v].treeEdge[i];
    forall x | x in now && x != v && L.PathsPrefix(tree, rank, v, i + 1, x) > 0 ensures L.Sized(now, x) {
      L.PathsPrefixStep(tree, rank, v, i, x);
      if L.Paths(tree, rank, c, x) == 0 {
        PlacedEarlier(now, mid, start, rank, v, i, x);
      }
    }
  }

  /** A block below one of v's first i children is not touched by placing the i-th child's subtree. */
  lemma {:induction false} PlacedEarlier(now: map<u64, L.GridBlock>, mid: map<u64, L.GridBlock>,
                                         start: map<u64, L.GridBlock>, rank: map<u64, nat>, v: u64, i: nat, x: u64)
    requires L.Ranked(L.TreeOf(start), rank) && UniqueParents(L.TreeOf(start)) && v in start
    requires i < |start[v].treeEdge| && start[v].treeEdge[i] in mid
    requires PlacedPrefix(mid, start, rank, v, i)
    requires PlacedTree(now, mid, rank, start[v].treeEdge[i])
    requires x in now && x != v && L.PathsPrefix(L.TreeOf(start), rank, v, i, x) > 0
    ensures L.Sized(now, x)
  {
    var tree := L.TreeOf(start);
    var cs := start[v].treeEdge;
    L.ChildrenBelow(tree, rank, v);
    var k := PathsViaPositive(tree, rank, cs[..i], rank[v], x);
    assert cs[..i][k] == cs[k];
    SiblingsApart(tree, rank, v, k, i, x);
    forall y | y in mid[x].treeEdge ensures now[y] == mid[y] {
      PathsExtend(tree, rank, cs[k], x, y);
      SiblingsApart(tree, rank, v, k, i, y);
    }
    L.RowSpanFrame(now, mid, mid[x].treeEdge);
  }

  /** Giving v its own place once its children's subtrees are placed. */
  lemma {:induction false} PlacedOwn(now: map<u64, L.GridBlock>, placed: map<u64, L.GridBlock>,
                                     start: map<u64, L.GridBlock>, rank: map<u64, nat>, v: u64)
    requires L.Ranked(L.TreeOf(start), rank) && v in start
    requires PlacedPrefix(placed, start, rank, v, |start[v].treeEdge|)
    requires L.PlacedBlock(now, placed, rank, v)
    ensures PlacedTree(now, start, rank, v)
  {
    PlacedOwnKeeps(now, placed, start, rank, v);
    forall x | x in now && L.Paths(L.TreeOf(start), rank, v, x) > 0 ensures L.Sized(now, x) {
      if x == v {
        PlacedOwnSelf(now, placed, start, rank, v);
      } else {
        PlacedOwnBelow(now, placed, start, rank, v, x);
      }
    }
  }

  lemma {:induction false} PlacedOwnKeeps(now: map<u64, L.GridBlock>, placed: map<u64, L.GridBlock>,
                                          start: map<u64, L.GridBlock>, rank: map<u64, nat>, v: u64)
    requires L.Ranked(L.TreeOf(start), rank) && v in start
    requires PlacedPrefix(placed, start, rank, v, |start[v].treeEdge|)
    requires L.PlacedBlock(now, placed, rank, v)
    ensures L.TreeOf(now) == L.TreeOf(start) && L.Resized(now, start)
    ensures forall x :: x in now && L.Paths(L.TreeOf(start), rank, v, x) == 0 ==> now[x] == start[x]
  {
    var cs := start[v].treeEdge;
    assert cs[..|cs|] == cs;
    L.PathsOfSelf(L.TreeOf(start), rank, v);
  }

  lemma {:induction false} PlacedOwnSelf(now: map<u64, L.GridBlock>, placed: map<u64, L.GridBlock>,
                                         start: map<u64, L.GridBlock>, rank: map<u64, nat>, v: u64)
    requires L.Ranked(L.TreeOf(start), rank) && v in start
    requires PlacedPrefix(placed, start, rank, v, |start[v].treeEdge|)
    requires L.PlacedBlock(now, placed, rank, v)
    ensures L.Sized(now, v)
  {
    L.ChildrenBelow(L.TreeOf(start), rank, v);
    L.RowSpanFrame(now, placed, start[v].treeEdge);
  }

  /** Placing v moves the blocks below it but keeps them sized. */
  lemma {:induction false} PlacedOwnBelow(now: map<u64, L.GridBlock>, placed: map<u64, L.GridBlock>,
                                          start: map<u64, L.GridBlock>, rank: map<u64, nat>, v: u64, x: u64)
    requires L.Ranked(L.TreeOf(start), rank) && v in start
    requires PlacedPrefix(placed, start, rank, v, |start[v].treeEdge|)
    requires L.PlacedBlock(now, placed, rank, v)
    requires x in now && x != v && L.Paths(L.TreeOf(start), rank, v, x) > 0
    ensures L.Sized(now, x)
  {
    var tree := L.TreeOf(start);
    var cs := start[v].treeEdge;
    assert cs[..|cs|] == cs;
    L.ChildrenBelow(tree, rank, v);
    var k := PathsViaPositive(tree, rank, cs, rank[v], x);
    forall y | y in placed[x].treeEdge ensures y != v {
      PathsExtend(tree, rank, cs[k], x, y);
      PathsRank(tree, rank, cs[k], y);
    }
    L.RowSpanFrame(now, placed, placed[x].treeEdge);
  }

  /**
   * `computeBlockPlacement`: places the subtrees of v's tree children first, in order, then v
   * over them. Every block of v's subtree ends up sized consistently with its children;
   * blocks outside it are untouched.
   */
  method PlaceSubtree(state: L.LayoutState, v: u64, layoutType: L.LayoutType, ghost rank: map<u64, nat>)
    requires v in state.gridBlocks && L.Ranked(L.TreeOf(state.gridBlocks), rank)
    requires UniqueParents(L.TreeOf(state.gridBlocks))
    modifies state
    decreases rank[v]
    ensures PlacedTree(state.gridBlocks, old(state.gridBlocks), rank, v)
  {
    ghost var start := state.gridBlocks;
    var children := state.gridBlocks[v].treeEdge;
    L.ChildrenBelow(L.TreeOf(start), rank, v);
    PlacedNone(start, rank, v);
    for i := 0 to |children|
      invariant PlacedPrefix(state.gridBlocks, start, rank, v, i)
    {
      ghost var mid := state.gridBlocks;
      PlaceSubtree(state, children[i], layoutType, rank);
      PlacedChild(state.gridBlocks, mid, start, rank, v, i);
    }
    ghost var placed := state.gridBlocks;
    state.ComputeBlockPlacement(v, layoutType, rank);
    PlacedOwn(state.gridBlocks, placed, start, rank, v);
  }

  // ---------------------------------------------------------------------------
  // The whole layout (lines 19-105)

  /** The blocks as the placement sees them: `new_exits` as the tree edges. */
  function GridOf(blocks: Blocks): (grid: map<u64, L.GridBlock>)
    ensures grid.Keys == blocks.Keys
    ensures forall k :: k in blocks ==> grid[k].treeEdge == blocks[k].newExits
  {
    map k | k in blocks :: L.GridBlock(k, blocks[k].newExits, [], false, 0,
                                       blocks[k].rowCount, blocks[k].colCount, blocks[k].col, blocks[k].row)
  }

  /** The placement's positions and sizes copied back into the blocks. */
  function CopyPlacement(blocks: Blocks, grid: map<u64, L.GridBlock>): (r: Blocks)
    requires blocks.Keys <= grid.Keys
    ensures r.Keys == blocks.Keys
    ensures forall k :: k in blocks ==> r[k] == blocks[k].(rowCount := grid[k].rowCount, colCount := grid[k].colCount,
                                                           col := grid[k].col, row := grid[k].row)
  {
    map k | k in blocks :: blocks[k].(rowCount := grid[k].rowCount, colCount := grid[k].colCount,
                                      col := grid[k].col, row := grid[k].row)
  }

  lemma {:induction false} CopyBack(blocks: Blocks, grid: map<u64, L.GridBlock>)
    requires L.Resized(grid, GridOf(blocks))
    ensures GridOf(CopyPlacement(blocks, grid)) == grid
  {
    var r := CopyPlacement(blocks, grid);
    forall k | k in grid ensures GridOf(r)[k] == grid[k] {
      assert grid[k] == GridOf(blocks)[k].(col := grid[k].col, row := grid[k].row,
                                           colCount := grid[k].colCount, rowCount := grid[k].rowCount);
    }
  }

  /** Later in the block order means lower rank; blocks never reached rank 0. */
  function WalkRank(blocks: Blocks, order: seq<u64>): (rank: map<u64, nat>)
    ensures rank.Keys == blocks.Keys
  {
    map x | x in blocks :: if x in order then |order| - IndexOf(order, x) else 0
  }

  /** The tree the walk picked, ranked by the block order, has unique parents. */
  lemma {:induction false} WalkTreeRanked(blocks: Blocks, order: seq<u64>)
    requires Forest(blocks, order, order) && Distinct(order) && forall x :: x in order ==> x in blocks
    ensures L.Ranked(L.TreeOf(GridOf(blocks)), WalkRank(blocks, order))
    ensures UniqueParents(L.TreeOf(GridOf(blocks)))
  {
    var tree := L.TreeOf(GridOf(blocks));
    var rank := WalkRank(blocks, order);
    forall v, t | L.IsChild(tree, v, t) ensures t in tree && rank[t] < rank[v] {
      assert IsTreeChild(blocks, v, t);
      var i, j := IndexOf(order, t), IndexOf(order, v);
      assert IsTreeChild(blocks, order[j], order[i]);
    }
    forall p, q, x | L.IsChild(tree, p, x) && L.IsChild(tree, q, x) ensures p == q {
      assert IsTreeChild(blocks, p, x) && IsTreeChild(blocks, q, x);
    }
  }

  /** Every block in the block order lies in the entry's tree. */
  lemma {:induction false} WalkReaches(blocks: Blocks, order: seq<u64>, i: nat)
    requires Forest(blocks, order, order) && Distinct(order) && forall x :: x in order ==> x in blocks
    requires i < |order|
    ensures L.Ranked(L.TreeOf(GridOf(blocks)), WalkRank(blocks, order))
    ensures L.Paths(L.TreeOf(GridOf(blocks)), WalkRank(blocks, order), order[0], order[i]) > 0
    decreases i
  {
    var tree := L.TreeOf(GridOf(blocks));
    var rank := WalkRank(blocks, order);
    WalkTreeRanked(blocks, order);
    if i == 0 {
      L.PathsOfSelf(tree, rank, order[0]);
    } else {
      assert HasTreeParent(blocks, order[i]);
      var p :| IsTreeChild(blocks, p, order[i]);
      var j := IndexOf(order, p);
      WalkReaches(blocks, order, j);
      PathsExtend(tree, rank, order[0], p, order[i]);
    }
  }

  /** And only those: a block below the entry in the tree is in the block order. */
  lemma {:induction false} WalkReachesOnly(blocks: Blocks, order: seq<u64>, x: u64)
    requires Forest(blocks, order, order) && Distinct(order) && forall x :: x in order ==> x in blocks
    requires |order| > 0 && x in blocks
    ensures L.Ranked(L.TreeOf(GridOf(blocks)), WalkRank(blocks, order))
    ensures L.Paths(L.TreeOf(GridOf(blocks)), WalkRank(blocks, order), order[0], x) > 0 ==> x in order
  {
    var tree := L.TreeOf(GridOf(blocks));
    var rank := WalkRank(blocks, order);
    WalkTreeRanked(blocks, order);
    if L.Paths(tree, rank, order[0], x) > 0 && x != order[0] {
      var p := PathsBack(tree, rank, order[0], x);
      assert IsTreeChild(blocks, p, x);
    }
  }

  /** The blocks after the recursive placement from the entry of the walk's tree. */
  lemma {:induction false} PlacedWalk(picked: Blocks, order: seq<u64>, grid: map<u64, L.GridBlock>)
    requires Forest(picked, order, order) && Distinct(order) && forall x :: x in order ==> x in picked
    requires |order| > 0 && L.Ranked(L.TreeOf(GridOf(picked)), WalkRank(picked, order))
    requires PlacedTree(grid, GridOf(picked), WalkRank(picked, order), order[0])
    ensures Forest(CopyPlacement(picked, grid), order, order)
    ensures forall x :: x in order ==> L.Sized(GridOf(CopyPlacement(picked, grid)), x)
    ensures forall x :: x in picked && x !in order ==> CopyPlacement(picked, grid)[x] == picked[x]
  {
    CopyBack(picked, grid);
    ForestCopied(picked, order, grid);
    forall x | x in order ensures L.Sized(GridOf(CopyPlacement(picked, grid)), x) {
      WalkReaches(picked, order, IndexOf(order, x));
    }
    forall x | x in picked && x !in order ensures CopyPlacement(picked, grid)[x] == picked[x] {
      WalkReachesOnly(picked, order, x);
      assert GridOf(CopyPlacement(picked, grid))[x] == GridOf(picked)[x];
    }
  }

  /** Copying positions and sizes back leaves the tree children as they were. */
  lemma {:induction false} ForestCopied(picked: Blocks, order: seq<u64>, grid: map<u64, L.GridBlock>)
    requires Forest(picked, order, order) && picked.Keys <= grid.Keys
    ensures Forest(CopyPlacement(picked, grid), order, order)
  {
    var r := CopyPlacement(picked, grid);
    assert forall p, x :: IsTreeChild(r, p, x) <==> IsTreeChild(picked, p, x);
    assert forall x :: HasTreeParent(r, x) <==> HasTreeParent(picked, x);
  }

  /** Filling the incoming lists leaves the blocks ready for the walk. */
  lemma {:induction false} PopulatedReady(blocks: Blocks, keys: seq<u64>, populated: Blocks)
    requires WellFormed(blocks) && ListsKeys(keys, blocks) && Unwalked(blocks)
    requires populated.Keys == blocks.Keys
    requires forall x :: x in blocks ==> populated[x] == blocks[x].(incoming := populated[x].incoming)
    ensures WellFormed(populated) && ListsKeys(keys, populated) && Unwalked(populated)
  {
  }

  /**
   * `CalculateLayout` up to edge routing: incoming lists from the exits, the tree walk from
   * the entry, then the recursive placement from the entry. Exactly the blocks of the block
   * order (those reachable from the entry) end up sized consistently with their tree
   * children; every other block keeps its position and size.
   */
  method CalculateLayout(blocks: Blocks, keys: seq<u64>, entry: u64, layoutType: L.LayoutType)
    returns (blocks': Blocks, blockOrder: seq<u64>)
    requires WellFormed(blocks) && ListsKeys(keys, blocks) && Unwalked(blocks) && entry in blocks
    ensures blocks'.Keys == blocks.Keys
    ensures forall x :: x in blocks ==> blocks'[x].entry == x && blocks'[x].exits == blocks[x].exits
    ensures Distinct(blockOrder) && |blockOrder| > 0 && blockOrder[0] == entry
    ensures forall x :: x in blockOrder ==> x in blocks
    ensures forall p, t :: p in blockOrder && t in blocks[p].exits ==> t in blockOrder
    ensures Forest(blocks', blockOrder, blockOrder)
    ensures forall x :: x in blockOrder ==> L.Sized(GridOf(blocks'), x)
    ensures forall x :: x in blocks && x !in blockOrder ==>
      && blocks'[x].col == blocks[x].col && blocks'[x].row == blocks[x].row
      && blocks'[x].colCount == blocks[x].colCount && blocks'[x].rowCount == blocks[x].rowCount
  {
    var populated := PopulateIncoming(blocks, keys);
    PopulatedReady(blocks, keys, populated);
    var picked;
    picked, blockOrder := PickTree(populated, keys, entry);
    ghost var rank := WalkRank(picked, blockOrder);
    WalkTreeRanked(picked, blockOrder);
    var state := new L.LayoutState(map[]);
    state.gridBlocks := GridOf(picked);
    PlaceSubtree(state, entry, layoutType, rank);
    blocks' := CopyPlacement(picked, state.gridBlocks);
    PlacedWalk(picked, blockOrder, state.gridBlocks);
  }
}
