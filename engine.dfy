/**
  The engine state (`struct connect4`) and the operations that change it:
  allocation and release of tree nodes, initialisation, advancing the game
  by one move, and the Monte Carlo playouts that grow the tree.

  The node buffer is an array whose length is the capacity; the seven
  per-column fields of a node form one `NodeData` record.  Two ghost
  fields carry the proof: `tree`, the shape of the tree below `root`, and
  `freeList`, the indices on the free list in order.  `Valid` ties both to
  the buffer and states the allocator's accounting, `nodes_allocated` plus
  the free list's length equals `nodes_available`.
*/
module Engine {
  import opened Bits
  import opened Board
  import opened Forest
  import opened Search
  import opened Prng
  import opened Simulation

  /** The indices `a` up to but not including `b`. */
  function Range(a: nat, b: nat): (r: seq<nat>)
    ensures |r| == if a <= b then b - a else 0
    decreases b - a
  {
    if a >= b then [] else [a] + Range(a + 1, b)
  }

  lemma {:induction false} RangeAt(a: nat, b: nat, k: nat)
    requires a + k < b
    ensures Range(a, b)[k] == a + k
    decreases b - a
  {
    if k > 0 {
      RangeAt(a + 1, b, k - 1);
    }
  }

  lemma {:induction false} RangeCount(a: nat, b: nat, x: nat)
    ensures multiset(Range(a, b))[x] == if a <= x < b then 1 else 0
    decreases b - a
  {
    if a < b {
      RangeCount(a + 1, b, x);
      assert multiset(Range(a, b)) == multiset([a]) + multiset(Range(a + 1, b));
    }
  }

  /** A buffer whose nodes link each to the next, the last to NULL, chains `Range(0, n)`. */
  lemma RangeChain(ns: seq<NodeData>)
    requires |ns| >= 1 && forall j :: 0 <= j < |ns| ==> WellFormed(ns[j])
    requires forall j :: 0 <= j < |ns| - 1 ==> WellFormed(ns[j]) && ns[j].next[0] == Node(j + 1)
    requires WellFormed(ns[|ns| - 1]) && ns[|ns| - 1].next[0] == Null
    ensures FreeChain(Range(0, |ns|), Node(0), ns)
  {
    var n := |ns|;
    var list := Range(0, n);
    RangeAt(0, n, 0);
    forall k | 0 <= k < n
      ensures list[k] < n && WellFormed(ns[list[k]]) && ns[list[k]].next[0] == Link(list, k + 1)
    {
      RangeAt(0, n, k);
      RangeLink(n, k);
    }
  }

  /** In `Range(0, n)` each index links to the next one, the last to NULL. */
  lemma RangeLink(n: nat, k: nat)
    requires k < n
    ensures Link(Range(0, n), k + 1) == if k + 1 < n then Node(k + 1) else Null
  {
    if k + 1 < n {
      RangeAt(0, n, k + 1);
    }
  }

  /** The free list `connect4_init` builds starts with node 0, which does not recur. */
  lemma RangeHead(n: nat)
    requires n >= 1
    ensures |Range(0, n)| > 0 && Range(0, n)[0] == 0
    ensures Range(0, n)[1..] == Range(1, n) && 0 !in Range(1, n)
  {
    RangePool(n);
    PoolHead([], Range(0, n), n);
  }

  /** The state `connect4_init` leaves: one fresh root, every other node free. */
  lemma InitValid(ns: seq<NodeData>, b: Board, s: Side)
    requires |ns| >= 1 && ns[0] == Fresh() && b == Board(0, 0)
    ensures Linked(Leaf(0), ns) && Tallied(Leaf(0), ns)
    ensures Pool(multiset(Freed(Leaf(0))) + multiset(Range(1, |ns|)), |ns|)
    ensures |Freed(Leaf(0))| == 1
    ensures Sound(b) && Consistent(Leaf(0), b, s)
  {
    LeafLinked(0, ns);
    ConsistentLeaf(0, b, s);
    RangePool(|ns|);
    assert Range(0, |ns|) == [0] + Range(1, |ns|);
  }

  /** Every node index of the buffer occurs once among `Range(0, n)`. */
  lemma RangePool(n: nat)
    ensures Pool(multiset(Range(0, n)), n)
  {
    forall x | x in multiset(Range(0, n))
      ensures x < n && multiset(Range(0, n))[x] == 1
    {
      RangeCount(0, n, x);
    }
  }

  class Connect4 {
    var board: Board
    const rng: array<bv64>
    const nodesAvailable: nat
    var nodesAllocated: nat
    var root: Ref
    var free: Ref
    var turn: Side
    const nodes: array<NodeData>
    const table: seq<seq<bv64>>
    ghost var tree: Tree
    ghost var freeList: seq<nat>

    /** The fixed parts: buffer size, generator state size, win table. */
    predicate Ready()
      reads this
    {
      nodes.Length == nodesAvailable && nodesAvailable >= 1 && rng.Length == 2 && TableReady(table)
      && (rng as object) != (nodes as object)
    }

    /**
      The buffer and the allocator agree with the ghost state: the free
      list is chained through `next[0]`, the tree below the root is linked
      and keeps its bookkeeping, no node is both in the tree and free or
      twice in either, and the count of allocated nodes is the tree's size.
    */
    ghost predicate Stored()
      reads this, nodes
    {
      Ready() && Allocator(tree, freeList, free, root, nodes[..], nodesAllocated, nodesAvailable)
    }

    /** `Stored`, and the tree describes the game from the current position. */
    ghost predicate Valid()
      reads this, nodes
    {
      Stored() && Sound(board) && Consistent(tree, board, turn)
    }

    /**
      `connect4_init`: an empty board with the first player to move, the
      generator seeded by two splitmix64 draws from `seed`, every node on
      the free list in index order, and the root allocated from its head.
      The node buffer is the caller's memory, `buffer`, whatever it holds;
      the number of nodes that fit in it is its length.
    */
    constructor (buffer: array<NodeData>, seed: bv64, table: seq<seq<bv64>>)
      requires buffer.Length >= 1 && forall j :: 0 <= j < buffer.Length ==> WellFormed(buffer[j])
      requires TableReady(table)
      modifies buffer
      ensures Valid() && nodes == buffer && fresh(rng)
      ensures nodesAvailable == buffer.Length && nodesAllocated == 1
      ensures board == Board(0, 0) && turn == 0
      ensures State(rng[0], rng[1]) == SeedState(seed)
      ensures root == Node(0) && tree == Leaf(0) && nodes[0] == Fresh()
      ensures freeList == Range(1, buffer.Length)
    {
      nodesAvailable := buffer.Length;
      nodesAllocated := 0;
      board := Board(0, 0);
      turn := 0;
      free := Node(0);
      this.table := table;
      rng := new bv64[2];
      nodes := buffer;
      root := Null;
      tree := Empty;
      freeList := [];
      new;
      ghost var side := turn;
      InitNodes();
      Seed(rng, seed);
      assert turn == side;
    }

    /** The node part of `connect4_init`: thread the free list, allocate the root. */
    method InitNodes()
      requires Ready() && forall j :: 0 <= j < nodesAvailable ==> WellFormed(nodes[j])
      requires board == Board(0, 0)
      modifies this`nodesAllocated, this`free, this`freeList, this`root, this`tree, nodes
      ensures Valid() && nodesAllocated == 1
      ensures root == Node(0) && tree == Leaf(0) && nodes[0] == Fresh()
      ensures freeList == Range(1, nodesAvailable)
    {
      nodesAllocated := 0;
      free := Node(0);
      LinkAll();
      freeList := Range(0, nodesAvailable);
      RangeHead(nodesAvailable);
      root := Alloc();
      tree := Leaf(0);
      InitValid(nodes[..], board, turn);
    }

    /** The loop of `connect4_init` that threads every node onto the free list. */
    method LinkAll()
      requires nodes.Length == nodesAvailable >= 1
      requires forall j :: 0 <= j < nodesAvailable ==> WellFormed(nodes[j])
      modifies nodes
      ensures FreeChain(Range(0, nodesAvailable), Node(0), nodes[..])
    {
      var i := 0;
      while i < nodesAvailable - 1
        invariant 0 <= i <= nodesAvailable - 1
        invariant forall j :: 0 <= j < nodesAvailable ==> WellFormed(nodes[j])
        invariant forall j :: 0 <= j < i ==> nodes[j].next[0] == Node(j + 1)
      {
        nodes[i] := nodes[i].(next := nodes[i].next[0 := Node(i + 1)]);
        i := i + 1;
      }
      nodes[i] := nodes[i].(next := nodes[i].next[0 := Null]);
      RangeChain(nodes[..]);
    }

    /**
      `connect4_alloc`: pop the head of the free list and reset it, or
      return NULL, changing nothing, when the list is empty.
    */
    method Alloc() returns (r: Ref)
      requires nodes.Length == nodesAvailable
      requires FreeChain(freeList, free, nodes[..])
      requires |freeList| > 0 ==> freeList[0] !in freeList[1..]
      modifies this`nodesAllocated, this`free, this`freeList, nodes
      ensures FreeChain(freeList, free, nodes[..])
      ensures old(freeList) == [] ==>
        r == Null && freeList == [] && free == old(free) && nodesAllocated == old(nodesAllocated)
        && nodes[..] == old(nodes[..])
      ensures old(freeList) != [] ==>
        r == Node(old(freeList)[0]) && freeList == old(freeList)[1..]
        && nodesAllocated == old(nodesAllocated) + 1 && nodes[..] == old(nodes[..])[r.index := Fresh()]
    {
      r := free;
      if r != Null {
        var i := r.index;
        ghost var ns := nodes[..];
        nodesAllocated := nodesAllocated + 1;
        free := nodes[i].next[0];
        var d := nodes[i].(total := 0);
        var k := 0;
        while k < WIDTH
          invariant 0 <= k <= WIDTH && WellFormed(d) && d.total == 0
          invariant forall j :: 0 <= j < k ==> d.next[j] == Null && d.playouts[j] == 0 && d.score[j] == 0.0
        {
          d := d.(next := d.next[k := Null], playouts := d.playouts[k := 0], score := d.score[k := 0.0]);
          k := k + 1;
        }
        assert d.next == Fresh().next && d.playouts == Fresh().playouts && d.score == Fresh().score;
        nodes[i] := d;
        ChainPop(freeList, r, ns, nodes[..]);
        freeList := freeList[1..];
      }
    }

    /**
      `connect4_free`: release the subtree below `node`, children first in
      column order, each node pushed onto the free list after its
      children.  NULL and the terminal markers own no node.
    */
    method Free(node: Ref, ghost t: Tree)
      requires nodes.Length == nodesAvailable
      requires node == RefOf(t) && Linked(t, nodes[..])
      requires FreeChain(freeList, free, nodes[..])
      requires Pool(multiset(Freed(t)) + multiset(freeList), nodesAvailable)
      requires |Freed(t)| <= nodesAllocated
      modifies this`nodesAllocated, this`free, this`freeList, nodes
      ensures freeList == Freed(t) + old(freeList)
      ensures FreeChain(freeList, free, nodes[..])
      ensures nodesAllocated == old(nodesAllocated) - |Freed(t)|
      ensures forall j :: 0 <= j < nodesAvailable && j !in Freed(t) ==> nodes[j] == old(nodes[j])
      decreases t, 2
    {
      if node.Node? {
        FreeNode(node.index, t);
      } else {
        assert Freed(t) == [];
      }
    }

    /** Freeing a real node: its children in column order, then the node itself. */
    method FreeNode(i: nat, ghost t: Tree)
      requires nodes.Length == nodesAvailable
      requires t.Inner? && t.index == i && Linked(t, nodes[..])
      requires FreeChain(freeList, free, nodes[..])
      requires Pool(multiset(Freed(t)) + multiset(freeList), nodesAvailable)
      requires |Freed(t)| <= nodesAllocated
      modifies this`nodesAllocated, this`free, this`freeList, nodes
      ensures freeList == Freed(t) + old(freeList)
      ensures FreeChain(freeList, free, nodes[..])
      ensures nodesAllocated == old(nodesAllocated) - |Freed(t)|
      ensures forall j :: 0 <= j < nodesAvailable && j !in Freed(t) ==> nodes[j] == old(nodes[j])
      decreases t, 1
    {
      ghost var list := freeList;
      ghost var ns := nodes[..];
      ghost var count := nodesAllocated;
      FreedLength(t);
      nodesAllocated := nodesAllocated - 1;
      var k := 0;
      while k < WIDTH
        invariant 0 <= k <= WIDTH
        invariant freeList == FreedKids(t.kids, k) + list
        invariant FreeChain(freeList, free, nodes[..])
        invariant nodesAllocated == count - 1 - |FreedKids(t.kids, k)|
        invariant forall j :: 0 <= j < nodesAvailable && j !in FreedKids(t.kids, k) ==> nodes[j] == ns[j]
      {
        FreeKid(i, t, k, list, ns, count);
        k := k + 1;
      }
      PushNode(i, t, list, ns);
    }

    /**
      `connect4_advance`: play column `play` for the side to move, make
      the child under that column the new root and release the rest of
      the tree; when that column had no child the new root is a fresh
      node.  A terminal marker under the column becomes the root as it is.
    */
    method Advance(play: int)
      requires Valid() && root.Node? && ValidPlay(Taken(board), play)
      modifies this, nodes
      ensures Valid()
      ensures board == After(old(board), old(turn), play) && turn == Other(old(turn))
      ensures root != Null
      ensures old(tree.kids[play]) != Empty ==>
        tree == old(tree.kids[play])
        && forall j :: 0 <= j < nodesAvailable && j in Freed(tree) ==> nodes[j] == old(nodes[j])
      ensures old(tree.kids[play]) == Empty ==> root.Node? && tree == Leaf(root.index) && nodes[root.index] == Fresh()
    {
      ghost var t := tree;
      var position := Drop(Taken(board), play);
      PlaySound(board, turn, play);
      board := Place(board, turn, position);
      turn := Other(turn);
      Reroot(play);
      if t.kids[play].Inner? {
        assert Consistent(t, old(board), old(turn));
      }
      if tree.Inner? && t.kids[play] == Empty {
        ConsistentLeaf(tree.index, board, turn);
      }
    }

    /** The tree half of `connect4_advance`. */
    method Reroot(play: nat)
      requires Stored() && root.Node? && play < WIDTH
      modifies this`root, this`tree, this`free, this`freeList, this`nodesAllocated, nodes
      ensures Stored() && root != Null
      ensures old(tree.kids[play]) != Empty ==>
        tree == old(tree.kids[play])
        && forall j :: 0 <= j < nodesAvailable && j in Freed(tree) ==> nodes[j] == old(nodes[j])
      ensures old(tree.kids[play]) == Empty ==> root.Node? && tree == Leaf(root.index) && nodes[root.index] == Fresh()
    {
      Cut(play);
      if root == Null {
        Regrow();
      }
    }

    /** The child under `play` becomes the root; the rest of the tree is freed. */
    method Cut(play: nat)
      requires Stored() && root.Node? && play < WIDTH
      modifies this`root, this`tree, this`free, this`freeList, this`nodesAllocated, nodes
      ensures Stored() && tree == old(tree.kids[play])
      ensures forall j :: 0 <= j < nodesAvailable && j in Freed(tree) ==> nodes[j] == old(nodes[j])
    {
      ghost var t := tree;
      ghost var ns := nodes[..];
      var i := Detach(play);
      Release(i, play, t, ns, freeList, free, nodesAllocated);
    }

    /**
      The old root `i`, no longer pointing at the child under `play`, goes
      back to the free list with everything still below it.
    */
    method Release(i: nat, play: nat, ghost t: Tree, ghost ns: seq<NodeData>, ghost list: seq<nat>,
                   ghost head: Ref, ghost count: nat)
      requires Ready() && play < WIDTH && t.Inner? && t.index == i && |ns| == nodesAvailable
      requires Allocator(t, list, head, RefOf(t), ns, count, nodesAvailable)
      requires nodes[..] == ns[i := ns[i].(next := ns[i].next[play := Null])]
      requires root == RefOf(t.kids[play]) && freeList == list && free == head && nodesAllocated == count
      requires Linked(Inner(i, t.kids[play := Empty]), nodes[..])
      requires FreeChain(list, head, nodes[..])
      requires Pool(multiset(Freed(Inner(i, t.kids[play := Empty]))) + multiset(list), nodesAvailable)
      requires |Freed(Inner(i, t.kids[play := Empty]))| <= count
      modifies this`tree, this`free, this`freeList, this`nodesAllocated, nodes
      ensures Stored() && tree == t.kids[play]
      ensures forall j :: 0 <= j < nodesAvailable && j in Freed(tree) ==> nodes[j] == ns[j]
    {
      ghost var rest := Inner(i, t.kids[play := Empty]);
      ghost var ms := nodes[..];
      Free(Node(i), rest);
      ghost var fs := nodes[..];
      DetachDone(t, play, ns, ms, fs, list, head, free, count, nodesAvailable);
      tree := t.kids[play];
      assert Allocator(tree, freeList, free, root, fs, nodesAllocated, nodesAvailable);
    }

    /** The root lets go of the child under `play`, which becomes the root. */
    method Detach(play: nat) returns (i: nat)
      requires Stored() && root.Node? && play < WIDTH
      modifies this`root, nodes
      ensures i == old(root.index) && root == RefOf(tree.kids[play])
      ensures nodes[..] == old(nodes[..])[i := old(nodes[i]).(next := old(nodes[i]).next[play := Null])]
      ensures Linked(Inner(i, tree.kids[play := Empty]), nodes[..])
      ensures FreeChain(freeList, free, nodes[..])
      ensures Pool(multiset(Freed(Inner(i, tree.kids[play := Empty]))) + multiset(freeList), nodesAvailable)
      ensures |Freed(Inner(i, tree.kids[play := Empty]))| <= nodesAllocated
    {
      ghost var ns := nodes[..];
      i := root.index;
      root := nodes[i].next[play];
      nodes[i] := nodes[i].(next := nodes[i].next[play := Null]);
      DetachReady(tree, play, ns, nodes[..], freeList, free, nodesAllocated, nodesAvailable);
    }

    /** The last step of `connect4_advance`: an empty tree gets a fresh root. */
    method Regrow()
      requires Stored() && tree == Empty
      modifies this`root, this`tree, this`free, this`freeList, this`nodesAllocated, nodes
      ensures Stored() && root.Node? && tree == Leaf(root.index) && nodes[root.index] == Fresh()
    {
      ghost var list := freeList;
      assert Freed(tree) == [];
      PoolHead([], freeList, nodesAvailable);
      root := Alloc();
      tree := Leaf(root.index);
      LeafLinked(root.index, nodes[..]);
      assert list == [root.index] + freeList;
      assert multiset(Freed(tree)) + multiset(freeList) == multiset([]) + multiset(list);
    }

    /** The last step of `FreeNode`: push the node itself on the free list. */
    method PushNode(i: nat, ghost t: Tree, ghost list: seq<nat>, ghost ns: seq<NodeData>)
      requires nodes.Length == nodesAvailable && |ns| == nodesAvailable
      requires t.Inner? && t.index == i && Linked(t, ns)
      requires Pool(multiset(Freed(t)) + multiset(list), nodesAvailable)
      requires freeList == FreedKids(t.kids, WIDTH) + list
      requires FreeChain(freeList, free, nodes[..])
      requires forall j :: 0 <= j < nodesAvailable && j !in FreedKids(t.kids, WIDTH) ==> nodes[j] == ns[j]
      modifies this`free, this`freeList, nodes
      ensures freeList == Freed(t) + list
      ensures FreeChain(freeList, free, nodes[..])
      ensures |Freed(t)| == 1 + |FreedKids(t.kids, WIDTH)|
      ensures forall j :: 0 <= j < nodesAvailable && j !in Freed(t) ==> nodes[j] == ns[j]
    {
      ghost var mid := nodes[..];
      PushReady(t, list, ns, mid, nodesAvailable);
      ChainPush(freeList, free, mid, i);
      nodes[i] := nodes[i].(next := nodes[i].next[0 := free]);
      assert nodes[..] == mid[i := mid[i].(next := mid[i].next[0 := free])];
      free := Node(i);
      freeList := [i] + freeList;
      NodeDone(t, list, ns, mid, nodes[..], nodesAvailable);
    }

    /** One step of `FreeNode`'s loop: free child `k`. */
    method FreeKid(i: nat, ghost t: Tree, k: nat, ghost list: seq<nat>, ghost ns: seq<NodeData>, ghost count: nat)
      requires nodes.Length == nodesAvailable && |ns| == nodesAvailable
      requires t.Inner? && t.index == i && Linked(t, ns) && k < WIDTH
      requires Pool(multiset(Freed(t)) + multiset(list), nodesAvailable)
      requires |Freed(t)| <= count
      requires freeList == FreedKids(t.kids, k) + list
      requires FreeChain(freeList, free, nodes[..])
      requires nodesAllocated == count - 1 - |FreedKids(t.kids, k)|
      requires forall j :: 0 <= j < nodesAvailable && j !in FreedKids(t.kids, k) ==> nodes[j] == ns[j]
      modifies this`nodesAllocated, this`free, this`freeList, nodes
      ensures freeList == FreedKids(t.kids, k + 1) + list
      ensures FreeChain(freeList, free, nodes[..])
      ensures nodesAllocated == count - 1 - |FreedKids(t.kids, k + 1)|
      ensures forall j :: 0 <= j < nodesAvailable && j !in FreedKids(t.kids, k + 1) ==> nodes[j] == ns[j]
      decreases t, 0
    {
      ghost var mid := nodes[..];
      KidReady(t, k, list, ns, mid, nodesAvailable);
      Free(nodes[i].next[k], t.kids[k]);
      KidDone(t.kids, k, list, ns, mid, nodes[..], nodesAvailable);
    }

    /**
      The buffer holds the subtree `t` while a playout runs through it;
      `others` are the nodes of the rest of the tree.
    */
    ghost predicate Holds(t: Tree, others: multiset<nat>)
      reads this, nodes
    {
      Ready() && Held(t, others, freeList, free, nodes[..], nodesAvailable)
    }

    /**
      `connect4_playout`: one playout from `node`, the subtree `t` of
      position `b` with `s` to move.  A terminal marker returns its result
      at once.  At a node, the playout picks a column (`Chosen`), goes down
      or expands the tree there, and credits the column with the `Gain` of
      the branch it took.  The rollout after an expansion is the corrected
      one (`Rollout`).  Returns the winner, 2 for a draw, or -1 when the
      node buffer ran out, in which case nothing changed.
    */
    method Playout(node: Ref, b: Board, s: Side, ghost t: Tree, ghost others: multiset<nat>, ucb: Ucb)
      returns (winner: int, ghost play: nat, ghost u: Tree)
      requires Holds(t, others) && node == RefOf(t) && t != Empty
      requires Sound(b) && Consistent(t, b, s) && (t.Inner? ==> Taken(b) != FULL)
      modifies this`free, this`freeList, this`nodesAllocated, nodes, rng
      ensures Holds(u, others) && Consistent(u, b, s) && RefOf(u) == node
      ensures Grew(t, u, old(freeList), freeList, old(nodes[..]), nodes[..], nodesAvailable)
      ensures nodesAllocated + |freeList| == old(nodesAllocated + |freeList|)
      ensures -1 <= winner <= 2
      ensures winner == -1 ==> old(freeList) == [] && u == t && nodes[..] == old(nodes[..])
      ensures !t.Inner? ==>
        u == t && nodes[..] == old(nodes[..]) && winner == (if t == Won0 then 0 else if t == Won1 then 1 else 2)
      ensures t.Inner? ==>
        t.index < nodes.Length && WellFormed(old(nodes[t.index])) && Chosen(ucb, old(nodes[t.index]), Taken(b), play)
        && u.Inner? && |u.kids| == WIDTH
      ensures t.Inner? && winner >= 0 ==>
        u == Inner(t.index, t.kids[play := u.kids[play]])
        && nodes[t.index] == Credit(old(nodes[t.index]), play, RefOf(u.kids[play]), Gain(t.kids[play], winner, s))
      decreases t, 3
    {
      if node == Win0 {
        winner, play, u := 0, 0, t;
      } else if node == Win1 {
        winner, play, u := 1, 0, t;
      } else if node == Draw {
        winner, play, u := 2, 0, t;
      } else {
        winner, play, u := Visit(node.index, b, s, t, others, ucb);
      }
    }

    /**
      What one step of a playout leaves behind, from a node `t` reached in
      position `b` with `s` to move, given the free list `list0`, the
      buffer `ns0` and the node count `count0` it started from.  The tree
      `u` is held and consistent and has grown from `t` by nodes taken
      from the free list.  With -1 (buffer exhausted) nothing changed.
      Otherwise `winner` is the side that won the game played out, or 2
      for a draw, `u` differs from `t` only under column `play`, and that
      column of the node gained a playout and the `Gain` of `s` for
      `winner` by the branch taken: the UCB1 credit after a descent into
      an existing child, the reward after an expansion.
    */
    ghost predicate Outcome(t: Tree, u: Tree, winner: int, play: nat, b: Board, s: Side, others: multiset<nat>,
                            list0: seq<nat>, ns0: seq<NodeData>, count0: int)
      requires t.Inner?
      reads this, nodes
    {
      Holds(u, others) && Consistent(u, b, s) && u.Inner? && u.index == t.index && |u.kids| == WIDTH
      && Grew(t, u, list0, freeList, ns0, nodes[..], nodesAvailable)
      && nodesAllocated + |freeList| == count0
      && -1 <= winner <= 2
      && (winner == -1 ==> list0 == [] && u == t && nodes[..] == ns0)
      && (winner >= 0 ==>
            play < WIDTH && t.index < |ns0| && WellFormed(ns0[t.index])
            && |t.kids| == WIDTH && u == Inner(t.index, t.kids[play := u.kids[play]])
            && nodes[t.index] == Credit(ns0[t.index], play, RefOf(u.kids[play]), Gain(t.kids[play], winner, s)))
    }

    /** A playout at node `i`: expand while some legal column has no child, else descend by UCB1. */
    method Visit(i: nat, b: Board, s: Side, ghost t: Tree, ghost others: multiset<nat>, ucb: Ucb)
      returns (winner: int, ghost play: nat, ghost u: Tree)
      requires Holds(t, others) && t.Inner? && t.index == i
      requires Sound(b) && Consistent(t, b, s) && Taken(b) != FULL
      modifies this`free, this`freeList, this`nodesAllocated, nodes, rng
      ensures Outcome(t, u, winner, play, b, s, others, old(freeList), old(nodes[..]), old(nodesAllocated + |freeList|))
      ensures i < nodes.Length && WellFormed(old(nodes[i])) && Chosen(ucb, old(nodes[i]), Taken(b), play)
      decreases t, 2
    {
      HeldRecord(t, others, freeList, free, nodes[..], nodesAvailable);
      var options := Unexpanded(nodes[i], Taken(b));
      if |options| == 0 {
        OpenNone(nodes[i], Taken(b), options);
        winner, play, u := Select(i, b, s, t, others, ucb);
      } else {
        winner, play, u := Expand(i, b, s, t, others, options, ucb);
      }
    }

    /**
      The UCB1 branch: every legal column has a child.  Among the legal
      columns of maximal value one is picked (by the generator when there
      are several), and the playout goes down into its child.
    */
    method Select(i: nat, b: Board, s: Side, ghost t: Tree, ghost others: multiset<nat>, ucb: Ucb)
      returns (winner: int, ghost play: nat, ghost u: Tree)
      requires Holds(t, others) && t.Inner? && t.index == i
      requires Sound(b) && Consistent(t, b, s) && Taken(b) != FULL
      requires i < nodes.Length && WellFormed(nodes[i]) && !Open(nodes[i], Taken(b))
      modifies this`free, this`freeList, this`nodesAllocated, nodes, rng
      ensures Outcome(t, u, winner, play, b, s, others, old(freeList), old(nodes[..]), old(nodesAllocated + |freeList|))
      ensures Chosen(ucb, old(nodes[i]), Taken(b), play)
      decreases t, 1
    {
      var d := nodes[i];
      HeldRecord(t, others, freeList, free, nodes[..], nodesAvailable);
      var column := Choose(d, b, ucb);
      play := column;
      var position := Drop(Taken(b), column);
      PlaySound(b, s, column);
      var next := Place(b, s, position);
      winner, u := Descent(i, column, d.next[column], next, b, s, t, others, ucb,
                           old(freeList), old(nodes[..]), old(nodesAllocated + |freeList|));
    }

    /**
      The UCB1 choice at a node all of whose legal columns have children:
      the node's total over its legal columns, the candidates of maximal
      value, and one of them picked by the generator.
    */
    method Choose(d: NodeData, b: Board, ucb: Ucb) returns (column: nat)
      requires Ready() && Sound(b) && Taken(b) != FULL
      requires WellFormed(d) && Counted(d) && !Open(d, Taken(b))
      modifies rng
      ensures Chosen(ucb, d, Taken(b), column) && d.next[column] != Null
    {
      var taken := Taken(b);
      Expanded(d, taken);
      var total := LegalTotal(d, taken);
      var best := UcbCandidates(ucb, d, taken, total);
      SomeColumnOpen(b);
      column := Pick(rng, best);
    }

    /**
      Down into the child under `play`, then credit the column with the
      UCB1 step's credit for the result (a win's score for a draw as well
      as for a win by `s`), unless the buffer ran out below.
    */
    method Descent(i: nat, play: nat, node: Ref, next: Board, b: Board, s: Side, ghost t: Tree,
                   ghost others: multiset<nat>, ucb: Ucb, ghost list: seq<nat>, ghost ns: seq<NodeData>, ghost count: int)
      returns (winner: int, ghost u: Tree)
      requires Holds(t, others) && t.Inner? && t.index == i && play < WIDTH
      requires Sound(b) && Consistent(t, b, s) && ValidPlay(Taken(b), play)
      requires next == After(b, s, play) && Sound(next)
      requires i < nodes.Length && WellFormed(nodes[i]) && node == nodes[i].next[play] && node != Null
      requires list == freeList && ns == nodes[..] && count == nodesAllocated + |freeList|
      modifies this`free, this`freeList, this`nodesAllocated, nodes, rng
      ensures Outcome(t, u, winner, play, b, s, others, list, ns, count)
      decreases t, 0
    {
      ghost var head := free;
      ghost var kid, o := t.kids[play], others + multiset(Freed(Without(t, play)));
      assert Linked(t, ns) && Tallied(t, ns) && Held(kid, o, list, head, ns, nodesAvailable) && kid != Empty by {
        HeldRecord(t, others, list, head, ns, nodesAvailable);
        Descend(t, play, others, list, head, ns, nodesAvailable);
      }
      assert Consistent(kid, next, Other(s)) && (kid.Inner? ==> Taken(next) != FULL) by {
        ConsistentKid(t, b, s, play);
      }
      ghost var p, x;
      winner, p, x := Playout(node, next, Other(s), kid, o, ucb);
      ConsistentKid(t, b, s, play);
      Attach(i, play, node, winner, UcbCredit(winner, s), b, s, t, x, others, list, head, ns, count);
      u := Inner(i, t.kids[play := x]);
    }

    /**
      Back up from the child under `play`, whose subtree has become `x`
      in the current state: `x` takes its place and, unless the buffer ran
      out below (-1), the column is credited with a playout and `gain`,
      the `Gain` of `s` for `winner` by the branch taken.
    */
    method Attach(i: nat, play: nat, r: Ref, winner: int, gain: real, b: Board, s: Side, ghost t: Tree, ghost x: Tree,
                  ghost others: multiset<nat>, ghost list: seq<nat>, ghost head: Ref, ghost ns: seq<NodeData>,
                  ghost count: int)
      requires Ready() && t.Inner? && t.index == i && play < WIDTH && i < nodesAvailable
      requires Sound(b) && Consistent(t, b, s) && ValidPlay(Taken(b), play)
      requires |ns| == nodesAvailable && Linked(t, ns) && Tallied(t, ns)
      requires Held(t.kids[play], others + multiset(Freed(Without(t, play))), list, head, ns, nodesAvailable)
      requires Held(x, others + multiset(Freed(Without(t, play))), freeList, free, nodes[..], nodesAvailable)
      requires Grew(t.kids[play], x, list, freeList, ns, nodes[..], nodesAvailable)
      requires x != Empty && r == RefOf(x) && Marks(x, After(b, s, play), s)
      requires x.Inner? ==> Taken(After(b, s, play)) != FULL && Consistent(x, After(b, s, play), Other(s))
      requires nodesAllocated + |freeList| == count && -1 <= winner <= 2 && gain == Gain(t.kids[play], winner, s)
      requires winner == -1 ==> list == [] && x == t.kids[play] && nodes[..] == ns
      modifies nodes
      ensures Outcome(t, Inner(i, t.kids[play := x]), winner, play, b, s, others, list, ns, count)
    {
      ghost var ms := nodes[..];
      SpliceCredit(t, play, x, others, list, freeList, head, free, ns, ms, winner >= 0, r, gain, nodesAvailable);
      if winner >= 0 {
        nodes[i] := Credit(nodes[i], play, r, gain);
      } else {
        assert t.kids[play := t.kids[play]] == t.kids;
      }
      assert nodes[..] == ms[i := nodes[i]];
      ConsistentReplace(t, b, s, play, x);
    }

    /**
      The random-expansion branch: a random legal column without a child
      is played.  A win or a draw is recorded under it as a terminal
      marker; otherwise a fresh node goes under it and a random rollout
      from there decides the result.
    */
    method Expand(i: nat, b: Board, s: Side, ghost t: Tree, ghost others: multiset<nat>, options: seq<nat>, ucb: Ucb)
      returns (winner: int, ghost play: nat, ghost u: Tree)
      requires Holds(t, others) && t.Inner? && t.index == i
      requires Sound(b) && Consistent(t, b, s) && Taken(b) != FULL
      requires i < nodes.Length && WellFormed(nodes[i])
      requires |options| > 0
      requires forall k :: k in options <==> 0 <= k < WIDTH && nodes[i].next[k] == Null && ValidPlay(Taken(b), k)
      modifies this`free, this`freeList, this`nodesAllocated, nodes, rng
      ensures Outcome(t, u, winner, play, b, s, others, old(freeList), old(nodes[..]), old(nodesAllocated + |freeList|))
      ensures Chosen(ucb, old(nodes[i]), Taken(b), play)
    {
      HeldRecord(t, others, freeList, free, nodes[..], nodesAvailable);
      var column := Pick(rng, options);
      play := column;
      winner, u := Resolve(i, column, b, s, t, others);
    }

    /** Plays the picked column and settles, or grows, the child under it. */
    method Resolve(i: nat, play: nat, b: Board, s: Side, ghost t: Tree, ghost others: multiset<nat>)
      returns (winner: int, ghost u: Tree)
      requires Holds(t, others) && t.Inner? && t.index == i && play < WIDTH && t.kids[play] == Empty
      requires Sound(b) && Consistent(t, b, s) && ValidPlay(Taken(b), play)
      modifies this`free, this`freeList, this`nodesAllocated, nodes, rng
      ensures Outcome(t, u, winner, play, b, s, others, old(freeList), old(nodes[..]), old(nodesAllocated + |freeList|))
    {
      var next, result := Move(table, b, s, play);
      if result == WinTable.Unresolved {
        winner, u := Grow(i, play, next, b, s, t, others);
      } else {
        if result == WinTable.Win {
          MoveWins(b, s, play);
        }
        winner, u := Terminal(i, play, next, result, b, s, t, others);
      }
    }

    /** A move that wins or fills the board: its marker goes under the column. */
    method Terminal(i: nat, play: nat, next: Board, result: WinTable.Outcome, b: Board, s: Side,
                    ghost t: Tree, ghost others: multiset<nat>)
      returns (winner: int, ghost u: Tree)
      requires Holds(t, others) && t.Inner? && t.index == i && play < WIDTH && t.kids[play] == Empty
      requires Sound(b) && Consistent(t, b, s) && ValidPlay(Taken(b), play)
      requires next == After(b, s, play) && result != WinTable.Unresolved
      requires result == WinTable.Draw ==> Taken(next) == FULL
      requires result == WinTable.Win ==> HasLine(next, s)
      modifies nodes
      ensures Outcome(t, u, winner, play, b, s, others, old(freeList), old(nodes[..]), old(nodesAllocated + |freeList|))
    {
      if result == WinTable.Draw {
        Settle(i, play, Draw, 2, Drawn, b, s, t, others);
        winner, u := 2, Inner(i, t.kids[play := Drawn]);
      } else {
        var marker := if s == 1 then Win1 else Win0;
        Settle(i, play, marker, s, WinMarker(s), b, s, t, others);
        winner, u := s, Inner(i, t.kids[play := WinMarker(s)]);
      }
    }

    /**
      A terminal marker goes under the empty column `play`, which is
      credited with the reward of `s` for `winner`: SCORE_DRAW for a draw,
      SCORE_WIN for a win by `s`.
    */
    method Settle(i: nat, play: nat, r: Ref, winner: int, ghost x: Tree, b: Board, s: Side,
                  ghost t: Tree, ghost others: multiset<nat>)
      requires Holds(t, others) && t.Inner? && t.index == i && play < WIDTH && t.kids[play] == Empty
      requires Sound(b) && Consistent(t, b, s) && ValidPlay(Taken(b), play)
      requires (x.Won0? || x.Won1? || x.Drawn?) && r == RefOf(x) && Marks(x, After(b, s, play), s)
      requires 0 <= winner <= 2
      modifies nodes
      ensures Outcome(t, Inner(i, t.kids[play := x]), winner, play, b, s, others,
                      old(freeList), old(nodes[..]), old(nodesAllocated + |freeList|))
    {
      ghost var ns := nodes[..];
      HeldRecord(t, others, freeList, free, ns, nodesAvailable);
      Descend(t, play, others, freeList, free, ns, nodesAvailable);
      SettleReady(t, play, x, others, freeList, free, ns, nodesAvailable);
      Attach(i, play, r, winner, Reward(winner, s), b, s, t, x, others, freeList, free, ns, nodesAllocated + |freeList|);
    }

    /**
      A move that decides nothing yet.  A node is allocated for the
      column; if none is left the playout gives up with -1 and nothing
      changes.  Otherwise a rollout from `next` decides the result, and
      the column is credited with the reward it earns.  The rollout is
      the corrected one, in which the two players alternate; the source's
      rollout lets the opponent make every move.  (The source links
      the node and counts the playout before the rollout and adds the
      score after it; the rollout touches no node, so one update after it
      is the same.)
    */
    method Grow(i: nat, play: nat, next: Board, b: Board, s: Side, ghost t: Tree, ghost others: multiset<nat>)
      returns (winner: int, ghost u: Tree)
      requires Holds(t, others) && t.Inner? && t.index == i && play < WIDTH && t.kids[play] == Empty
      requires Sound(b) && Consistent(t, b, s) && ValidPlay(Taken(b), play)
      requires next == After(b, s, play) && Sound(next) && Taken(next) != FULL
      modifies this`free, this`freeList, this`nodesAllocated, nodes, rng
      ensures Outcome(t, u, winner, play, b, s, others, old(freeList), old(nodes[..]), old(nodesAllocated + |freeList|))
    {
      ghost var ns, list, head := nodes[..], freeList, free;
      ghost var count := nodesAllocated + |freeList|;
      HeldRecord(t, others, list, head, ns, nodesAvailable);
      if |freeList| > 0 {
        FreeHead(multiset(Freed(t)) + others, freeList, nodesAvailable);
      }
      var j := Alloc();
      if j == Null {
        winner, u := -1, t;
      } else {
        ghost var x := Leaf(j.index);
        LeafReady(t, play, others, list, head, free, ns, nodes[..], nodesAvailable);
        Descend(t, play, others, list, head, ns, nodesAvailable);
        ConsistentLeaf(j.index, next, Other(s));
        ghost var ms := nodes[..];
        var gain;
        ghost var moves;
        winner, gain, moves := Rollout(rng, table, next, s);
        assert nodes[..] == ms;
        Attach(i, play, j, winner, gain, b, s, t, x, others, list, head, ns, count);
        u := Inner(i, t.kids[play := x]);
      }
    }

    /** The root's playout count over the columns legal in the current position. */
    ghost function RootPlayouts(): nat
      requires Ready() && root.Node? && root.index < nodes.Length && WellFormed(nodes[root.index])
      reads this, nodes
    {
      LegalPlayouts(nodes[root.index], Taken(board), WIDTH)
    }

    /**
      One playout from the root of the whole tree, which starts with
      `before` playouts over its legal columns and `used` nodes allocated.
      With -1 the buffer was exhausted and nothing changed; otherwise the
      root gained a playout in a legal column and at most one node was
      allocated.  (The root is a node, so the playout visits it.)
    */
    method PlayoutRoot(ucb: Ucb, ghost before: nat, ghost used: nat) returns (winner: int)
      requires Valid() && root.Node? && Taken(board) != FULL
      requires root.index < nodes.Length && WellFormed(nodes[root.index])
      requires before == RootPlayouts() && used == nodesAllocated
      modifies this`free, this`freeList, this`nodesAllocated, this`tree, nodes, rng
      ensures Valid() && board == old(board) && turn == old(turn) && root == old(root)
      ensures root.index < nodes.Length && WellFormed(nodes[root.index])
      ensures winner == -1 ==>
        freeList == [] && nodesAllocated == nodesAvailable && RootPlayouts() == before && nodesAllocated == used
      ensures winner != -1 ==> RootPlayouts() == before + 1 && nodesAllocated <= used + 1
    {
      ghost var t, list, ns, d := tree, freeList, nodes[..], nodes[root.index];
      ghost var count := nodesAllocated + |freeList|;
      Lend(t, list, ns, d, count, before, used);
      ghost var b, s := board, turn;
      ghost var play, u;
      winner, play, u := VisitRoot(root.index, board, turn, t, ucb, list, ns, d, count);
      Regained(t, u, winner, play, b, s, list, ns, d, count, ucb, before, used);
      Regain(u, winner, before, used);
    }

    /**
      The whole tree `t` is lent to a playout from the root: it is held
      with no other nodes, and `list`, `ns`, `d` and `count` are the free
      list, the buffer, the root's record and the node total.
    */
    ghost predicate Lent(t: Tree, list: seq<nat>, ns: seq<NodeData>, d: NodeData, count: nat)
      reads this, nodes
    {
      Holds(t, multiset{}) && t.Inner? && root == RefOf(t) && root.Node? && t.index == root.index
      && Sound(board) && Consistent(t, board, turn) && Taken(board) != FULL
      && list == freeList && ns == nodes[..] && count == nodesAllocated + |freeList|
      && t.index < nodes.Length && d == nodes[t.index]
    }

    /** The whole tree lent to a playout from the root, with what it starts from. */
    lemma Lend(t: Tree, list: seq<nat>, ns: seq<NodeData>, d: NodeData, count: nat, before: nat, used: nat)
      requires Valid() && root.Node? && root.index < nodes.Length && WellFormed(nodes[root.index]) && Taken(board) != FULL
      requires t == tree && list == freeList && ns == nodes[..] && d == nodes[root.index]
      requires count == nodesAllocated + |freeList| && before == RootPlayouts() && used == nodesAllocated
      ensures Lent(t, list, ns, d, count) && Started(t, list, ns, d, count, before, used, board, nodesAvailable)
    {
      AllocatorHeld(t, list, free, root, ns, nodesAllocated, nodesAvailable);
    }

    /** `Visit` at the root of the lent tree, its outcome stated against the snapshot. */
    method VisitRoot(i: nat, b: Board, s: Side, ghost t: Tree, ucb: Ucb,
                     ghost list: seq<nat>, ghost ns: seq<NodeData>, ghost d: NodeData, ghost count: nat)
      returns (winner: int, ghost play: nat, ghost u: Tree)
      requires Lent(t, list, ns, d, count) && i == root.index && b == board && s == turn
      modifies this`free, this`freeList, this`nodesAllocated, nodes, rng
      ensures Outcome(t, u, winner, play, b, s, multiset{}, list, ns, count)
      ensures WellFormed(d) && Chosen(ucb, d, Taken(b), play)
    {
      winner, play, u := Visit(i, b, s, t, multiset{}, ucb);
    }

    /**
      After a playout from the root the grown tree `u` is, for the buffer
      and the allocator, the whole tree again, and the root gained a
      playout in a legal column unless the buffer was exhausted.
    */
    lemma Regained(t: Tree, u: Tree, winner: int, play: nat, b: Board, s: Side, list: seq<nat>, ns: seq<NodeData>,
                   d: NodeData, count: nat, ucb: Ucb, before: nat, used: nat)
      requires Started(t, list, ns, d, count, before, used, b, nodesAvailable)
      requires b == board && s == turn && root == RefOf(t)
      requires Outcome(t, u, winner, play, b, s, multiset{}, list, ns, count) && Chosen(ucb, d, Taken(b), play)
      ensures Rejoined(u, winner, before, used)
    {
      HeldAllocator(t, u, list, freeList, free, ns, nodes[..], nodesAvailable);
      if winner != -1 {
        CreditLegal(d, play, RefOf(u.kids[play]), Gain(t.kids[play], winner, turn), Taken(board), WIDTH);
      }
    }

    /**
      The grown tree `u` can become the whole tree: the allocator agrees
      with it, and the root's count and the nodes in use moved from
      `before` and `used` as the result `winner` says.
    */
    ghost predicate Rejoined(u: Tree, winner: int, before: nat, used: nat)
      reads this, nodes
    {
      Ready() && Allocator(u, freeList, free, root, nodes[..], nodesAllocated, nodesAvailable)
      && Sound(board) && Consistent(u, board, turn) && root.Node? && root.index < nodes.Length && WellFormed(nodes[root.index])
      && (winner == -1 ==>
            freeList == [] && nodesAllocated == nodesAvailable && nodesAllocated == used
            && LegalPlayouts(nodes[root.index], Taken(board), WIDTH) == before)
      && (winner != -1 ==>
            LegalPlayouts(nodes[root.index], Taken(board), WIDTH) == before + 1 && nodesAllocated <= used + 1)
    }

    /** The grown tree becomes the whole tree. */
    ghost method Regain(u: Tree, winner: int, before: nat, used: nat)
      requires Rejoined(u, winner, before, used)
      modifies this`tree
      ensures Valid() && root.index < nodes.Length && WellFormed(nodes[root.index])
      ensures winner == -1 ==>
        freeList == [] && nodesAllocated == nodesAvailable && RootPlayouts() == before && nodesAllocated == used
      ensures winner != -1 ==> RootPlayouts() == before + 1 && nodesAllocated <= used + 1
    {
      tree := u;
    }

    /**
      `connect4_playout_many`: up to `count` playouts from the root,
      stopping at the first that finds the node buffer exhausted, then the
      move the root's statistics recommend (-1 when no column has been
      played out).  `done` counts the playouts that completed: each added
      one playout to a legal column of the root and took at most one node.
    */
    method PlayoutMany(count: nat, ucb: Ucb) returns (best: int, ghost done: nat)
      requires Valid() && root.Node? && Taken(board) != FULL
      requires root.index < nodes.Length && WellFormed(nodes[root.index])
      modifies this`free, this`freeList, this`nodesAllocated, this`tree, nodes, rng
      ensures Valid() && board == old(board) && turn == old(turn) && root == old(root)
      ensures root.index < nodes.Length && WellFormed(nodes[root.index]) && Recommends(nodes[root.index], best)
      ensures done <= count && RootPlayouts() == old(RootPlayouts()) + done
      ensures nodesAllocated <= old(nodesAllocated) + done
      ensures done < count ==> freeList == [] && nodesAllocated == nodesAvailable
    {
      done := 0;
      var i := 0;
      while i < count
        invariant Valid() && board == old(board) && turn == old(turn) && root == old(root)
        invariant root.index < nodes.Length && WellFormed(nodes[root.index])
        invariant done == i <= count
        invariant RootPlayouts() == old(RootPlayouts()) + done
        invariant nodesAllocated <= old(nodesAllocated) + done
      {
        var winner := PlayoutRoot(ucb, RootPlayouts(), nodesAllocated);
        if winner == -1 {
          break;
        }
        done := done + 1;
        i := i + 1;
      }
      best := BestRatio(nodes[root.index]);
    }
  }

  // Proof steps of `PlayoutMany`.

  /**
    What a playout from the root starts from: the whole tree `t` with
    free list `list` fills the buffer of `n` nodes, `used` of them in the
    tree; `d`, the root's record in `ns`, counts `before` playouts over
    the columns legal in `b`.
  */
  predicate Started(t: Tree, list: seq<nat>, ns: seq<NodeData>, d: NodeData, count: nat, before: nat, used: nat,
                    b: Board, n: nat)
  {
    t.Inner? && count == |Freed(t)| + |list| == n && used == |Freed(t)| && Sound(b)
    && t.index < |ns| && d == ns[t.index] && WellFormed(d) && before == LegalPlayouts(d, Taken(b), WIDTH)
  }

  /** The whole tree is held with no other nodes outside it. */
  lemma AllocatorHeld(t: Tree, list: seq<nat>, free: Ref, root: Ref, ns: seq<NodeData>, count: nat, n: nat)
    requires Allocator(t, list, free, root, ns, count, n) && |ns| == n
    ensures Held(t, multiset{}, list, free, ns, n)
  {
    assert multiset(Freed(t)) + multiset{} == multiset(Freed(t));
  }

  /** A tree grown from the whole tree is again the whole tree, counted. */
  lemma HeldAllocator(t: Tree, u: Tree, list: seq<nat>, rest: seq<nat>, free: Ref, ns: seq<NodeData>, ms: seq<NodeData>, n: nat)
    requires Held(u, multiset{}, rest, free, ms, n) && Grew(t, u, list, rest, ns, ms, n)
    requires |Freed(t)| + |list| == n
    ensures Allocator(u, rest, free, RefOf(u), ms, |Freed(u)|, n)
  {
    assert multiset(Freed(u)) + multiset{} == multiset(Freed(u));
  }

  // Proof steps of `Advance`.

  /** No child of a pooled node holds the node itself. */
  lemma RootNotBelow(t: Tree, list: seq<nat>, n: nat)
    requires t.Inner? && |t.kids| == WIDTH
    requires Pool(multiset(Freed(t)) + multiset(list), n)
    ensures forall k :: 0 <= k < WIDTH ==> t.index !in Freed(t.kids[k])
  {
    RootApart(t, WIDTH, list, n);
    forall k | 0 <= k < WIDTH
      ensures t.index !in Freed(t.kids[k])
    {
      if t.index in Freed(t.kids[k]) {
        InFreedKids(t.kids, WIDTH, k, t.index);
      }
    }
  }

  /** Cutting child `p` off the root leaves a linked remainder that can be freed. */
  lemma DetachReady(t: Tree, p: nat, ns: seq<NodeData>, ms: seq<NodeData>, list: seq<nat>, head: Ref, count: nat, n: nat)
    requires t.Inner? && p < WIDTH && |ns| == n && |ms| == n
    requires Allocator(t, list, head, RefOf(t), ns, count, n)
    requires ms[t.index] == ns[t.index].(next := ns[t.index].next[p := Null])
    requires forall j :: 0 <= j < n && j != t.index ==> ms[j] == ns[j]
    ensures ms == ns[t.index := ns[t.index].(next := ns[t.index].next[p := Null])]
    ensures Linked(Inner(t.index, t.kids[p := Empty]), ms)
    ensures FreeChain(list, head, ms)
    ensures Pool(multiset(Freed(Inner(t.index, t.kids[p := Empty]))) + multiset(list), n)
    ensures |Freed(Inner(t.index, t.kids[p := Empty]))| <= count
    ensures ns[t.index].next[p] == RefOf(t.kids[p])
  {
    var i := t.index;
    assert ms == ns[i := ns[i].(next := ns[i].next[p := Null])];
    DetachLinks(t, p, ns, ms, list, head, n);
    DetachPool(t, p, list, n);
  }

  /** The remainder is linked in the updated buffer, and the free list is untouched. */
  lemma DetachLinks(t: Tree, p: nat, ns: seq<NodeData>, ms: seq<NodeData>, list: seq<nat>, head: Ref, n: nat)
    requires t.Inner? && Linked(t, ns) && p < WIDTH && |ns| == n
    requires Pool(multiset(Freed(t)) + multiset(list), n)
    requires FreeChain(list, head, ns)
    requires ms == ns[t.index := ns[t.index].(next := ns[t.index].next[p := Null])]
    ensures Linked(Inner(t.index, t.kids[p := Empty]), ms)
    ensures FreeChain(list, head, ms)
    ensures ns[t.index].next[p] == RefOf(t.kids[p])
  {
    var i := t.index;
    RootNotBelow(t, list, n);
    forall k | 0 <= k < WIDTH && k != p
      ensures Agree(ns, ms, Freed(t.kids[k]))
    {
      Untouched(ns, ms, [i], Freed(t.kids[k]));
    }
    LinkedReplace(t, p, Empty, ns, ms);
    PoolApart(Freed(t), list, n, i);
    FreedInner(i, t.kids);
    assert i in Freed(t);
    Untouched(ns, ms, [i], list);
    ChainFrame(list, head, ns, ms);
  }

  /** The remainder's nodes are part of the pool, and fewer than the whole tree's. */
  lemma DetachPool(t: Tree, p: nat, list: seq<nat>, n: nat)
    requires t.Inner? && p < |t.kids|
    requires Pool(multiset(Freed(t)) + multiset(list), n)
    ensures Pool(multiset(Freed(Inner(t.index, t.kids[p := Empty]))) + multiset(list), n)
    ensures |Freed(Inner(t.index, t.kids[p := Empty]))| <= |Freed(t)|
  {
    var rest := Inner(t.index, t.kids[p := Empty]);
    ReplaceInner(t.index, t.kids, p, Empty);
    var whole := multiset(Freed(t)) + multiset(list);
    MsAdd(multiset(Freed(rest)), multiset(Freed(rest)) + multiset(Freed(t.kids[p])), multiset(list));
    PoolSub(multiset(Freed(rest)) + multiset(list), whole, n);
    MsCard(multiset(Freed(rest)), multiset(Freed(t)));
  }

  /** After freeing the remainder: the kept child is intact and the pool is whole again. */
  lemma DetachDone(t: Tree, p: nat, ns: seq<NodeData>, ms: seq<NodeData>, fs: seq<NodeData>, list: seq<nat>,
                   head0: Ref, head: Ref, count: nat, n: nat)
    requires t.Inner? && p < WIDTH && |ns| == n && |fs| == n
    requires Allocator(t, list, head0, RefOf(t), ns, count, n)
    requires ms == ns[t.index := ns[t.index].(next := ns[t.index].next[p := Null])]
    requires forall j :: 0 <= j < n && j !in Freed(Inner(t.index, t.kids[p := Empty])) ==> fs[j] == ms[j]
    requires FreeChain(Freed(Inner(t.index, t.kids[p := Empty])) + list, head, fs)
    ensures |Freed(Inner(t.index, t.kids[p := Empty]))| <= count
    ensures Allocator(t.kids[p], Freed(Inner(t.index, t.kids[p := Empty])) + list, head, RefOf(t.kids[p]), fs,
                      count - |Freed(Inner(t.index, t.kids[p := Empty]))|, n)
    ensures forall j :: 0 <= j < n && j in Freed(t.kids[p]) ==> fs[j] == ns[j]
  {
    var kid := t.kids[p];
    var rest := Inner(t.index, t.kids[p := Empty]);
    DetachSplit(t, p, list, n);
    DetachKeep(t, p, ns, ms, fs, n);
  }

  /** The remainder and the kept child share no node, and together they are the whole tree. */
  lemma DetachSplit(t: Tree, p: nat, list: seq<nat>, n: nat)
    requires t.Inner? && p < |t.kids|
    requires Pool(multiset(Freed(t)) + multiset(list), n)
    ensures t.index in Freed(Inner(t.index, t.kids[p := Empty]))
    ensures forall x :: x in Freed(t.kids[p]) ==> x !in Freed(Inner(t.index, t.kids[p := Empty]))
    ensures multiset(Freed(t.kids[p])) + multiset(Freed(Inner(t.index, t.kids[p := Empty])) + list)
         == multiset(Freed(t)) + multiset(list)
    ensures |Freed(t.kids[p])| + |Freed(Inner(t.index, t.kids[p := Empty]))| == |Freed(t)|
  {
    var kid := t.kids[p];
    var rest := Inner(t.index, t.kids[p := Empty]);
    ReplaceInner(t.index, t.kids, p, Empty);
    assert multiset(Freed(rest)) + multiset(Freed(kid)) == multiset(Freed(t));
    PoolSub(multiset(Freed(rest)) + multiset(Freed(kid)), multiset(Freed(t)) + multiset(list), n);
    forall x | x in Freed(kid)
      ensures x !in Freed(rest)
    {
      PoolApart(Freed(rest), Freed(kid), n, x);
    }
    FreedInner(t.index, t.kids[p := Empty]);
    assert multiset(Freed(rest) + list) == multiset(Freed(rest)) + multiset(list);
  }

  /** The kept child's nodes are neither the cut root nor freed, so it stays linked. */
  lemma DetachKeep(t: Tree, p: nat, ns: seq<NodeData>, ms: seq<NodeData>, fs: seq<NodeData>, n: nat)
    requires t.Inner? && Linked(t, ns) && Tallied(t, ns) && p < WIDTH && |ns| == n && |fs| == n
    requires ms == ns[t.index := ns[t.index].(next := ns[t.index].next[p := Null])]
    requires forall j :: 0 <= j < n && j !in Freed(Inner(t.index, t.kids[p := Empty])) ==> fs[j] == ms[j]
    requires t.index in Freed(Inner(t.index, t.kids[p := Empty]))
    requires forall x :: x in Freed(t.kids[p]) ==> x !in Freed(Inner(t.index, t.kids[p := Empty]))
    ensures Linked(t.kids[p], fs) && Tallied(t.kids[p], fs)
    ensures forall j :: 0 <= j < n && j in Freed(t.kids[p]) ==> fs[j] == ns[j]
  {
    var kid := t.kids[p];
    forall j | 0 <= j < n && j in Freed(kid)
      ensures fs[j] == ns[j]
    {
    }
    assert Agree(ns, fs, Freed(kid));
    TalliedFrame(kid, ns, fs);
  }

  // Proof steps of `Free`.

  /** A subtree holds its root and its children's nodes. */
  lemma FreedLength(t: Tree)
    requires t.Inner?
    ensures |Freed(t)| == 1 + |FreedKids(t.kids, |t.kids|)|
  {
  }

  /** The children's nodes below `k + 1` are part of the subtree. */
  lemma KidsWithin(t: Tree, k: nat, list: seq<nat>, n: nat)
    requires t.Inner? && |t.kids| == WIDTH && k < WIDTH
    requires Pool(multiset(Freed(t)) + multiset(list), n)
    ensures Pool(multiset(FreedKids(t.kids, k + 1)) + multiset(list), n)
    ensures |FreedKids(t.kids, k + 1)| < |Freed(t)|
  {
    var kids := t.kids;
    var whole := multiset(Freed(t)) + multiset(list);
    FreedKidsGrow(kids, k + 1, WIDTH);
    FreedInner(t.index, kids);
    var upto := multiset(FreedKids(kids, k + 1)) + multiset(list);
    MsGrow(multiset(FreedKids(kids, k + 1)), multiset(FreedKids(kids, WIDTH)), multiset([t.index]));
    MsAdd(multiset(FreedKids(kids, k + 1)), multiset(Freed(t)), multiset(list));
    PoolSub(upto, whole, n);
    MsCard(multiset(FreedKids(kids, k + 1)), multiset(FreedKids(kids, WIDTH)));
  }

  /** A sub-multiset is no larger. */
  lemma MsCard(a: multiset<nat>, b: multiset<nat>)
    requires a <= b
    ensures |a| <= |b|
  {
    assert b == a + (b - a);
  }

  /** Adding the same multiset on both sides keeps the inclusion. */
  lemma MsAdd(a: multiset<nat>, b: multiset<nat>, c: multiset<nat>)
    requires a <= b
    ensures a + c <= b + c
  {
  }

  /** The node of a subtree is none of its children's nodes. */
  lemma RootApart(t: Tree, k: nat, list: seq<nat>, n: nat)
    requires t.Inner? && |t.kids| == WIDTH && k <= WIDTH
    requires Pool(multiset(Freed(t)) + multiset(list), n)
    ensures t.index !in FreedKids(t.kids, k)
  {
    var kids := t.kids;
    FreedInner(t.index, kids);
    PoolSub(multiset(Freed(t)), multiset(Freed(t)) + multiset(list), n);
    PoolApart([t.index], FreedKids(kids, WIDTH), n, t.index);
    FreedKidsGrow(kids, k, WIDTH);
    assert t.index !in multiset(FreedKids(kids, WIDTH));
    assert t.index !in multiset(FreedKids(kids, k));
  }

  /** Before freeing child `k`: it is still linked, and the pool condition holds for it. */
  lemma KidReady(t: Tree, k: nat, list: seq<nat>, ns: seq<NodeData>, ms: seq<NodeData>, n: nat)
    requires t.Inner? && Linked(t, ns) && k < WIDTH && |ns| == n && |ms| == n
    requires Pool(multiset(Freed(t)) + multiset(list), n)
    requires forall j :: 0 <= j < n && j !in FreedKids(t.kids, k) ==> ms[j] == ns[j]
    ensures Linked(t.kids[k], ms)
    ensures Pool(multiset(Freed(t.kids[k])) + multiset(FreedKids(t.kids, k) + list), n)
    ensures ms[t.index] == ns[t.index]
    ensures |Freed(t.kids[k])| + |FreedKids(t.kids, k)| < |Freed(t)|
    ensures ms[t.index].next[k] == RefOf(t.kids[k])
  {
    var kids := t.kids;
    KidsWithin(t, k, list, n);
    FreedKidsStep(kids, k + 1);
    var upto := multiset(FreedKids(kids, k + 1)) + multiset(list);
    assert multiset(Freed(kids[k])) + multiset(FreedKids(kids, k) + list) == upto;
    KidApart(kids, k, list, n);
    Untouched(ns, ms, FreedKids(kids, k), Freed(kids[k]));
    LinkedFrame(kids[k], ns, ms);
    RootApart(t, k, list, n);
  }

  /** After freeing child `k`: the nodes changed so far are those of the children up to `k`. */
  lemma KidDone(kids: seq<Tree>, k: nat, list: seq<nat>, ns: seq<NodeData>, mid: seq<NodeData>, ms: seq<NodeData>, n: nat)
    requires k < |kids| && |ns| == n && |mid| == n && |ms| == n
    requires forall j :: 0 <= j < n && j !in FreedKids(kids, k) ==> mid[j] == ns[j]
    requires forall j :: 0 <= j < n && j !in Freed(kids[k]) ==> ms[j] == mid[j]
    ensures forall j :: 0 <= j < n && j !in FreedKids(kids, k + 1) ==> ms[j] == ns[j]
    ensures Freed(kids[k]) + (FreedKids(kids, k) + list) == FreedKids(kids, k + 1) + list
    ensures |FreedKids(kids, k + 1)| == |Freed(kids[k])| + |FreedKids(kids, k)|
  {
    FreedKidsStep(kids, k + 1);
    assert FreedKids(kids, k + 1) == Freed(kids[k]) + FreedKids(kids, k);
  }

  /** After pushing the node itself: the nodes changed are exactly the subtree's. */
  lemma NodeDone(t: Tree, list: seq<nat>, ns: seq<NodeData>, mid: seq<NodeData>, ms: seq<NodeData>, n: nat)
    requires t.Inner? && |t.kids| == WIDTH && |ns| == n && |mid| == n && |ms| == n
    requires forall j :: 0 <= j < n && j !in FreedKids(t.kids, WIDTH) ==> mid[j] == ns[j]
    requires forall j :: 0 <= j < n && j != t.index ==> ms[j] == mid[j]
    ensures forall j :: 0 <= j < n && j !in Freed(t) ==> ms[j] == ns[j]
    ensures [t.index] + (FreedKids(t.kids, WIDTH) + list) == Freed(t) + list
    ensures |Freed(t)| == 1 + |FreedKids(t.kids, WIDTH)|
  {
    assert Freed(t) == [t.index] + FreedKids(t.kids, WIDTH);
  }

  /** Child `k`'s nodes are not among those of the children before it. */
  lemma KidApart(kids: seq<Tree>, k: nat, list: seq<nat>, n: nat)
    requires k < |kids|
    requires Pool(multiset(FreedKids(kids, k + 1)) + multiset(list), n)
    ensures forall x :: x in Freed(kids[k]) ==> x !in FreedKids(kids, k)
  {
    FreedKidsStep(kids, k + 1);
    var pair := multiset(Freed(kids[k])) + multiset(FreedKids(kids, k));
    PoolSub(pair, multiset(FreedKids(kids, k + 1)) + multiset(list), n);
    forall x | x in Freed(kids[k])
      ensures x !in FreedKids(kids, k)
    {
      PoolApart(Freed(kids[k]), FreedKids(kids, k), n, x);
    }
  }

  /** After freeing every child: the node itself can be pushed. */
  lemma PushReady(t: Tree, list: seq<nat>, ns: seq<NodeData>, ms: seq<NodeData>, n: nat)
    requires t.Inner? && Linked(t, ns) && |ns| == n && |ms| == n
    requires Pool(multiset(Freed(t)) + multiset(list), n)
    requires forall j :: 0 <= j < n && j !in FreedKids(t.kids, WIDTH) ==> ms[j] == ns[j]
    ensures t.index < n && WellFormed(ms[t.index])
    ensures t.index !in FreedKids(t.kids, WIDTH) + list
  {
    var kids := t.kids;
    FreedInner(t.index, kids);
    assert Freed(t) == [t.index] + FreedKids(kids, WIDTH);
    assert multiset(Freed(t)) + multiset(list) == multiset([t.index]) + (multiset(FreedKids(kids, WIDTH)) + multiset(list));
    assert multiset(FreedKids(kids, WIDTH)) + multiset(list) == multiset(FreedKids(kids, WIDTH) + list);
    PoolApart([t.index], FreedKids(kids, WIDTH) + list, n, t.index);
  }
}
