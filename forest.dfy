/**
  The search tree's storage: node references, the node record, and the
  ghost picture of the tree that the engine's proofs work with.

  The source keeps every node in one fixed buffer and refers to nodes by
  index, reserving the four largest 32-bit values as NULL and the three
  terminal markers.  Here a reference is a datatype instead.  Unused nodes
  form a free list threaded through `next[0]`.

  The ghost `Tree` mirrors the part of the buffer reachable from a
  reference.  It is a finite datatype, so recursion over it terminates,
  and because each subtree is a separate value, two parents can never
  share a child.  `Linked` ties a tree to the buffer's `next` pointers,
  `Freed` lists a tree's nodes in the order freeing pushes them, and
  `Pool` says a multiset of node indices holds each index at most once.
*/
module Forest {
  import opened Board

  /** A reference to a node: NULL, one of the three terminal markers, or a node index. */
  datatype Ref = Null | Win0 | Win1 | Draw | Node(index: nat)

  /**
    One node of the buffer: per column the child reference, the playout
    count and the accumulated score, plus the never-read total.
  */
  datatype NodeData = NodeData(next: seq<Ref>, playouts: seq<nat>, score: seq<real>, total: nat)

  predicate WellFormed(d: NodeData)
  {
    |d.next| == WIDTH && |d.playouts| == WIDTH && |d.score| == WIDTH
  }

  /** A node as allocation leaves it: no children, no playouts, no score. */
  function Fresh(): (d: NodeData)
    ensures WellFormed(d)
    ensures forall k :: 0 <= k < WIDTH ==> d.next[k] == Null && d.playouts[k] == 0 && d.score[k] == 0.0
  {
    NodeData(seq(WIDTH, _ => Null), seq(WIDTH, _ => 0), seq(WIDTH, _ => 0.0), 0)
  }

  /** The ghost shape of a subtree. */
  datatype Tree = Empty | Won0 | Won1 | Drawn | Inner(index: nat, kids: seq<Tree>)

  /** The reference the buffer stores for a subtree. */
  function RefOf(t: Tree): (r: Ref)
    ensures r.Node? <==> t.Inner?
    ensures r == Null <==> t == Empty
  {
    match t
    case Empty => Null
    case Won0 => Win0
    case Won1 => Win1
    case Drawn => Draw
    case Inner(i, _) => Node(i)
  }

  /** The subtree of a freshly allocated node `i`. */
  function Leaf(i: nat): Tree
  {
    Inner(i, seq(WIDTH, _ => Empty))
  }

  /**
    The nodes of a subtree, in the order freeing it pushes them onto the
    free list: the node itself on top, then the nodes of its last child
    down to those of its first.
  */
  function Freed(t: Tree): seq<nat>
  {
    match t
    case Inner(i, kids) => [i] + FreedKids(kids, |kids|)
    case _ => []
  }

  /** The nodes of the first `k` children, the `k`-th child's on top. */
  function FreedKids(kids: seq<Tree>, k: nat): seq<nat>
    requires k <= |kids|
  {
    if k == 0 then [] else Freed(kids[k - 1]) + FreedKids(kids, k - 1)
  }

  /** Every node of `t` has a well-formed record whose `next` pointers match the tree. */
  predicate Linked(t: Tree, ns: seq<NodeData>)
  {
    match t
    case Inner(i, kids) =>
      i < |ns| && WellFormed(ns[i]) && |kids| == WIDTH
      && (forall k :: 0 <= k < WIDTH ==> ns[i].next[k] == RefOf(kids[k]))
      && (forall k :: 0 <= k < WIDTH ==> Linked(kids[k], ns))
    case _ => true
  }

  /**
    The bookkeeping the search keeps per column: a column has playouts
    exactly when it has a child, and its score lies between zero and its
    playout count (each playout adds at most a win's score of one).
  */
  predicate Counted(d: NodeData)
    requires WellFormed(d)
  {
    forall k :: 0 <= k < WIDTH ==>
      (d.playouts[k] == 0 <==> d.next[k] == Null) && 0.0 <= d.score[k] <= d.playouts[k] as real
  }

  /** Every node of `t` keeps its bookkeeping. */
  predicate Tallied(t: Tree, ns: seq<NodeData>)
    requires Linked(t, ns)
  {
    match t
    case Inner(i, kids) =>
      Counted(ns[i]) && forall k :: 0 <= k < WIDTH ==> Tallied(kids[k], ns)
    case _ => true
  }

  /** Each index in `m` is a node of a buffer of `n` nodes and occurs once. */
  predicate Pool(m: multiset<nat>, n: nat)
  {
    forall x :: x in m ==> x < n && m[x] == 1
  }

  /** The reference stored after position `k` of the free list. */
  function Link(list: seq<nat>, k: nat): Ref
  {
    if k < |list| then Node(list[k]) else Null
  }

  /** `head` starts the free list `list`, and each node on it links to the next one. */
  predicate FreeChain(list: seq<nat>, head: Ref, ns: seq<NodeData>)
  {
    head == Link(list, 0)
    && (forall k :: 0 <= k < |list| ==> list[k] < |ns|)
    && (forall k {:trigger ns[list[k]]} :: 0 <= k < |list| ==>
          WellFormed(ns[list[k]]) && ns[list[k]].next[0] == Link(list, k + 1))
  }

  /**
    The allocator's state agrees with a ghost tree and free list: the free
    list is chained from `free` through `next[0]`, the tree below `root` is
    linked and keeps its bookkeeping, no index is both in the tree and
    free or twice in either, and `count` is the number of the tree's nodes, the
    rest of the `n` nodes being free.
  */
  predicate Allocator(tree: Tree, list: seq<nat>, free: Ref, root: Ref, ns: seq<NodeData>, count: nat, n: nat)
  {
    FreeChain(list, free, ns)
    && root == RefOf(tree) && Linked(tree, ns) && Tallied(tree, ns)
    && Pool(multiset(Freed(tree)) + multiset(list), n)
    && count == |Freed(tree)| && count + |list| == n
  }

  /** The position after `s` plays column `play`. */
  function After(b: Board, s: Side, play: nat): Board
    requires play < WIDTH
  {
    Place(b, s, Landing(Taken(b), play))
  }

  // Facts about the node lists of trees.

  /** The nodes of a child are among the nodes of the children around it. */
  lemma {:induction false} InFreedKids(kids: seq<Tree>, k: nat, p: nat, x: nat)
    requires p < k <= |kids| && x in Freed(kids[p])
    ensures x in FreedKids(kids, k)
  {
    if p < k - 1 {
      InFreedKids(kids, k - 1, p, x);
    }
  }

  /** The nodes of fewer children form a sub-multiset of those of more. */
  lemma {:induction false} FreedKidsGrow(kids: seq<Tree>, a: nat, b: nat)
    requires a <= b <= |kids|
    ensures multiset(FreedKids(kids, a)) <= multiset(FreedKids(kids, b))
    decreases b, 1
  {
    if a < b {
      FreedKidsGrowMore(kids, a, b);
    }
  }

  lemma {:induction false} FreedKidsGrowMore(kids: seq<Tree>, a: nat, b: nat)
    requires a < b <= |kids|
    ensures multiset(FreedKids(kids, a)) <= multiset(FreedKids(kids, b))
    decreases b, 0
  {
    FreedKidsGrow(kids, a, b - 1);
    FreedKidsStep(kids, b);
    MsGrow(multiset(FreedKids(kids, a)), multiset(FreedKids(kids, b - 1)), multiset(Freed(kids[b - 1])));
  }

  lemma MsGrow(a: multiset<nat>, b: multiset<nat>, c: multiset<nat>)
    requires a <= b
    ensures a <= c + b
  {
  }

  /** Children before `p` are untouched by replacing child `p`. */
  lemma {:induction false} ReplaceKidBelow(kids: seq<Tree>, p: nat, x: Tree, k: nat)
    requires k <= p < |kids|
    ensures FreedKids(kids[p := x], k) == FreedKids(kids, k)
    decreases k, 1
  {
    if k > 0 {
      ReplaceKidBelowStep(kids, p, x, k);
    }
  }

  lemma {:induction false} ReplaceKidBelowStep(kids: seq<Tree>, p: nat, x: Tree, k: nat)
    requires 0 < k <= p < |kids|
    ensures FreedKids(kids[p := x], k) == FreedKids(kids, k)
    decreases k, 0
  {
    ReplaceKidBelow(kids, p, x, k - 1);
    assert kids[p := x][k - 1] == kids[k - 1];
  }

  lemma MsStep(top: multiset<nat>, before: multiset<nat>, gone: multiset<nat>, after: multiset<nat>, added: multiset<nat>)
    requires before + gone == after + added
    ensures (top + before) + gone == (top + after) + added
  {
    forall z
      ensures ((top + before) + gone)[z] == ((top + after) + added)[z]
    {
      assert (before + gone)[z] == (after + added)[z];
    }
  }

  lemma FreedKidsStep(kids: seq<Tree>, k: nat)
    requires 0 < k <= |kids|
    ensures multiset(FreedKids(kids, k)) == multiset(Freed(kids[k - 1])) + multiset(FreedKids(kids, k - 1))
  {
  }

  /** Replacing child `p` swaps that child's nodes for the new one's. */
  lemma {:induction false} ReplaceKid(kids: seq<Tree>, p: nat, x: Tree, k: nat)
    requires p < k <= |kids|
    ensures multiset(FreedKids(kids[p := x], k)) + multiset(Freed(kids[p]))
         == multiset(FreedKids(kids, k)) + multiset(Freed(x))
    decreases k, 1
  {
    if p == k - 1 {
      ReplaceKidTop(kids, p, x, k);
    } else {
      ReplaceKidDeeper(kids, p, x, k);
    }
  }

  lemma ReplaceKidTop(kids: seq<Tree>, p: nat, x: Tree, k: nat)
    requires p == k - 1 && k <= |kids|
    ensures multiset(FreedKids(kids[p := x], k)) + multiset(Freed(kids[p]))
         == multiset(FreedKids(kids, k)) + multiset(Freed(x))
  {
    var ks := kids[p := x];
    FreedKidsStep(ks, k);
    FreedKidsStep(kids, k);
    ReplaceKidBelow(kids, p, x, k - 1);
    assert ks[k - 1] == x;
  }

  lemma {:induction false} ReplaceKidDeeper(kids: seq<Tree>, p: nat, x: Tree, k: nat)
    requires p < k - 1 && k <= |kids|
    ensures multiset(FreedKids(kids[p := x], k)) + multiset(Freed(kids[p]))
         == multiset(FreedKids(kids, k)) + multiset(Freed(x))
    decreases k, 0
  {
    var ks := kids[p := x];
    FreedKidsStep(ks, k);
    FreedKidsStep(kids, k);
    ReplaceKid(kids, p, x, k - 1);
    assert ks[k - 1] == kids[k - 1];
    MsStep(multiset(Freed(kids[k - 1])), multiset(FreedKids(ks, k - 1)), multiset(Freed(kids[p])),
           multiset(FreedKids(kids, k - 1)), multiset(Freed(x)));
  }

  /** Replacing child `p` of node `i`, stated on the whole subtree. */
  lemma ReplaceInner(i: nat, kids: seq<Tree>, p: nat, x: Tree)
    requires p < |kids|
    ensures multiset(Freed(Inner(i, kids[p := x]))) + multiset(Freed(kids[p]))
         == multiset(Freed(Inner(i, kids))) + multiset(Freed(x))
  {
    var ks := kids[p := x];
    ReplaceKid(kids, p, x, |kids|);
    FreedInner(i, ks);
    FreedInner(i, kids);
    MsStep(multiset([i]), multiset(FreedKids(ks, |ks|)), multiset(Freed(kids[p])),
           multiset(FreedKids(kids, |kids|)), multiset(Freed(x)));
  }

  lemma FreedInner(i: nat, kids: seq<Tree>)
    ensures multiset(Freed(Inner(i, kids))) == multiset([i]) + multiset(FreedKids(kids, |kids|))
  {
  }

  /** A sub-multiset of a pool is a pool. */
  lemma PoolSub(a: multiset<nat>, b: multiset<nat>, n: nat)
    requires a <= b && Pool(b, n)
    ensures Pool(a, n)
  {
  }

  /** The two parts of a pool share no index. */
  lemma PoolApart(a: seq<nat>, b: seq<nat>, n: nat, x: nat)
    requires Pool(multiset(a) + multiset(b), n)
    ensures x in a ==> x !in b
  {
    if x in a {
      var m := multiset(a) + multiset(b);
      assert m[x] == multiset(a)[x] + multiset(b)[x];
      assert multiset(a)[x] >= 1;
      assert m[x] == 1;
    }
  }

  /** Every index of a pool is below the buffer size. */
  lemma PoolBound(a: seq<nat>, b: seq<nat>, n: nat, x: nat)
    requires Pool(multiset(a) + multiset(b), n)
    ensures x in a ==> x < n
  {
    if x in a {
      assert x in multiset(a) + multiset(b);
    }
  }

  /** In a pool, the head of a list does not occur again in it. */
  lemma PoolHead(a: seq<nat>, b: seq<nat>, n: nat)
    requires Pool(multiset(a) + multiset(b), n) && |b| > 0
    ensures b[0] !in b[1..]
  {
    assert b == [b[0]] + b[1..];
    assert multiset(b) == multiset([b[0]]) + multiset(b[1..]);
    var m := multiset(a) + multiset(b);
    assert b[0] in m;
    assert m[b[0]] == 1;
    assert multiset(b)[b[0]] == 1 + multiset(b[1..])[b[0]];
  }

  // Frames: a predicate over the buffer depends only on the records it names.

  /** `ns` and `ms` hold the same record at every index in `s`. */
  predicate Agree(ns: seq<NodeData>, ms: seq<NodeData>, s: seq<nat>)
  {
    |ns| == |ms| && forall j :: j in s && j < |ns| ==> ns[j] == ms[j]
  }

  lemma {:induction false} LinkedFrame(t: Tree, ns: seq<NodeData>, ms: seq<NodeData>)
    requires Linked(t, ns) && Agree(ns, ms, Freed(t))
    ensures Linked(t, ms)
  {
    if t.Inner? {
      forall k | 0 <= k < WIDTH
        ensures Linked(t.kids[k], ms)
      {
        forall x | x in Freed(t.kids[k])
          ensures x in Freed(t)
        {
          InFreedKids(t.kids, WIDTH, k, x);
        }
        LinkedFrame(t.kids[k], ns, ms);
      }
    }
  }

  lemma {:induction false} TalliedFrame(t: Tree, ns: seq<NodeData>, ms: seq<NodeData>)
    requires Linked(t, ns) && Tallied(t, ns) && Agree(ns, ms, Freed(t))
    ensures Linked(t, ms) && Tallied(t, ms)
  {
    LinkedFrame(t, ns, ms);
    if t.Inner? {
      forall k | 0 <= k < WIDTH
        ensures Tallied(t.kids[k], ms)
      {
        forall x | x in Freed(t.kids[k])
          ensures x in Freed(t)
        {
          InFreedKids(t.kids, WIDTH, k, x);
        }
        TalliedFrame(t.kids[k], ns, ms);
      }
    }
  }

  lemma ChainFrame(list: seq<nat>, head: Ref, ns: seq<NodeData>, ms: seq<NodeData>)
    requires FreeChain(list, head, ns) && Agree(ns, ms, list)
    ensures FreeChain(list, head, ms)
  {
    forall k | 0 <= k < |list|
      ensures list[k] < |ms| && WellFormed(ms[list[k]]) && ms[list[k]].next[0] == Link(list, k + 1)
    {
      assert list[k] in list;
    }
  }

  /** Records that change only outside `changed` agree on every list that avoids it. */
  lemma Untouched(ns: seq<NodeData>, ms: seq<NodeData>, changed: seq<nat>, keep: seq<nat>)
    requires |ns| == |ms|
    requires forall j :: 0 <= j < |ns| && j !in changed ==> ms[j] == ns[j]
    requires forall x :: x in keep ==> x !in changed
    ensures Agree(ns, ms, keep)
  {
  }

  // The free list.

  /** Pushing node `i` onto the free list by linking it to the old head. */
  lemma ChainPush(list: seq<nat>, head: Ref, ns: seq<NodeData>, i: nat)
    requires FreeChain(list, head, ns) && i < |ns| && WellFormed(ns[i]) && i !in list
    ensures FreeChain([i] + list, Node(i), ns[i := ns[i].(next := ns[i].next[0 := head])])
  {
    var ms := ns[i := ns[i].(next := ns[i].next[0 := head])];
    var l := [i] + list;
    forall k | 0 <= k < |l|
      ensures l[k] < |ms| && WellFormed(ms[l[k]]) && ms[l[k]].next[0] == Link(l, k + 1)
    {
      if k > 0 {
        assert l[k] == list[k - 1];
        assert list[k - 1] in list;
      }
    }
  }

  /** Popping the head `list[0]`: its `next[0]` is the new head. */
  lemma ChainPop(list: seq<nat>, head: Ref, ns: seq<NodeData>, ms: seq<NodeData>)
    requires FreeChain(list, head, ns) && |list| > 0 && list[0] !in list[1..]
    requires |ms| == |ns| && forall j :: 0 <= j < |ns| && j != list[0] ==> ms[j] == ns[j]
    ensures FreeChain(list[1..], ns[list[0]].next[0], ms)
  {
    var l := list[1..];
    forall k | 0 <= k < |l|
      ensures l[k] < |ms| && WellFormed(ms[l[k]]) && ms[l[k]].next[0] == Link(l, k + 1)
    {
      assert l[k] == list[k + 1];
      assert l[k] in l;
    }
  }

  /** A fresh leaf's record matches it and keeps the bookkeeping. */
  lemma LeafLinked(i: nat, ns: seq<NodeData>)
    requires i < |ns| && ns[i] == Fresh()
    ensures Linked(Leaf(i), ns) && Tallied(Leaf(i), ns)
    ensures Freed(Leaf(i)) == [i]
  {
    NoKids(seq(WIDTH, _ => Empty), WIDTH);
  }

  /** Children that are all NULL hold no nodes. */
  lemma {:induction false} NoKids(kids: seq<Tree>, k: nat)
    requires k <= |kids| && forall j :: 0 <= j < |kids| ==> kids[j] == Empty
    ensures FreedKids(kids, k) == []
  {
    if k > 0 {
      NoKids(kids, k - 1);
    }
  }

  /** A node whose `next[p]` now names `x`, children other than `p` untouched, is linked as before. */
  lemma LinkedReplace(t: Tree, p: nat, x: Tree, ns: seq<NodeData>, ms: seq<NodeData>)
    requires t.Inner? && Linked(t, ns) && p < WIDTH && Linked(x, ms)
    requires t.index < |ms| && WellFormed(ms[t.index])
    requires forall k :: 0 <= k < WIDTH ==> ms[t.index].next[k] == if k == p then RefOf(x) else ns[t.index].next[k]
    requires forall k :: 0 <= k < WIDTH && k != p ==> Agree(ns, ms, Freed(t.kids[k]))
    ensures Linked(Inner(t.index, t.kids[p := x]), ms)
  {
    forall k | 0 <= k < WIDTH && k != p
      ensures Linked(t.kids[k], ms)
    {
      LinkedFrame(t.kids[k], ns, ms);
    }
  }

  /** As `LinkedReplace`, for the bookkeeping as well. */
  lemma TalliedReplace(t: Tree, p: nat, x: Tree, ns: seq<NodeData>, ms: seq<NodeData>)
    requires t.Inner? && Linked(t, ns) && Tallied(t, ns) && p < WIDTH && Linked(x, ms) && Tallied(x, ms)
    requires t.index < |ms| && WellFormed(ms[t.index]) && Counted(ms[t.index])
    requires forall k :: 0 <= k < WIDTH ==> ms[t.index].next[k] == if k == p then RefOf(x) else ns[t.index].next[k]
    requires forall k :: 0 <= k < WIDTH && k != p ==> Agree(ns, ms, Freed(t.kids[k]))
    ensures Linked(Inner(t.index, t.kids[p := x]), ms) && Tallied(Inner(t.index, t.kids[p := x]), ms)
  {
    LinkedReplace(t, p, x, ns, ms);
    forall k | 0 <= k < WIDTH && k != p
      ensures Tallied(t.kids[k], ms)
    {
      TalliedFrame(t.kids[k], ns, ms);
    }
  }

  // Growing the tree by playouts.

  /**
    The record of a node after a playout went through column `p`: the
    column now points at `r`, has one playout more, and its score has
    gained `gain`.
  */
  function Credit(d: NodeData, p: nat, r: Ref, gain: real): (e: NodeData)
    requires WellFormed(d) && p < WIDTH
    ensures WellFormed(e) && e.total == d.total
    ensures forall k :: 0 <= k < WIDTH && k != p ==>
      e.next[k] == d.next[k] && e.playouts[k] == d.playouts[k] && e.score[k] == d.score[k]
  {
    d.(next := d.next[p := r], playouts := d.playouts[p := d.playouts[p] + 1], score := d.score[p := d.score[p] + gain])
  }

  /**
    A playout keeps a node's bookkeeping when the column it credits has a
    child afterwards and earns at most a win's score of one.
  */
  lemma CreditCounted(d: NodeData, p: nat, r: Ref, gain: real)
    requires WellFormed(d) && Counted(d) && p < WIDTH
    requires r != Null && 0.0 <= gain <= 1.0
    ensures Counted(Credit(d, p, r, gain))
  {
    var e := Credit(d, p, r, gain);
    assert e.playouts[p] as real == d.playouts[p] as real + 1.0;
  }

  /**
    The part of the buffer that holds the subtree `t` while a playout
    runs through it: the free list is chained, `t` is linked and keeps
    its bookkeeping, and no index occurs twice among `t`'s nodes, the
    nodes `others` of the rest of the tree and the free list.
  */
  predicate Held(t: Tree, others: multiset<nat>, list: seq<nat>, head: Ref, ns: seq<NodeData>, n: nat)
  {
    |ns| == n && FreeChain(list, head, ns) && Linked(t, ns) && Tallied(t, ns)
    && Pool(multiset(Freed(t)) + others + multiset(list), n)
  }

  /**
    From `t` with free list `list` and buffer `ns` to `u` with free list
    `rest` and buffer `ms`: the nodes that `u` gained came off the free
    list, at most one of them, and only records of `t`'s nodes or of
    free nodes changed.
  */
  predicate Grew(t: Tree, u: Tree, list: seq<nat>, rest: seq<nat>, ns: seq<NodeData>, ms: seq<NodeData>, n: nat)
  {
    |ns| == n && |ms| == n
    && |Freed(u)| + |rest| == |Freed(t)| + |list| && |list| <= |rest| + 1
    && forall j :: 0 <= j < n && j !in Freed(t) && j !in list ==> ms[j] == ns[j]
  }

  /** The subtree `t` with child `p` cut off. */
  function Without(t: Tree, p: nat): Tree
    requires t.Inner? && p < |t.kids|
  {
    Inner(t.index, t.kids[p := Empty])
  }

  /** Descending into child `p`: the rest of the subtree joins the other nodes. */
  lemma Descend(t: Tree, p: nat, others: multiset<nat>, list: seq<nat>, head: Ref, ns: seq<NodeData>, n: nat)
    requires t.Inner? && p < WIDTH && Held(t, others, list, head, ns, n)
    ensures |t.kids| == WIDTH && t.index < n && ns[t.index].next[p] == RefOf(t.kids[p])
    ensures Held(t.kids[p], others + multiset(Freed(Without(t, p))), list, head, ns, n)
  {
    ReplaceInner(t.index, t.kids, p, Empty);
    var kid := multiset(Freed(t.kids[p]));
    var rest := multiset(Freed(Without(t, p)));
    assert rest + kid == multiset(Freed(t));
    assert kid + (others + rest) + multiset(list) == multiset(Freed(t)) + others + multiset(list);
  }

  /** An index of the third part of a pool is in neither the first nor the last. */
  lemma PoolOnly(a: multiset<nat>, b: multiset<nat>, c: multiset<nat>, d: multiset<nat>, n: nat, x: nat)
    requires Pool(a + (b + c) + d, n) && x in c
    ensures x !in a && x !in d
  {
    var m := a + (b + c) + d;
    assert m[x] == a[x] + b[x] + c[x] + d[x];
  }

  /** The node itself lies in the cut-off part, so neither in the child nor free. */
  lemma SpliceRoot(t: Tree, p: nat, x: Tree, others: multiset<nat>, list: seq<nat>, rest: seq<nat>, n: nat)
    requires t.Inner? && |t.kids| == WIDTH && p < WIDTH
    requires Pool(multiset(Freed(t.kids[p])) + (others + multiset(Freed(Without(t, p)))) + multiset(list), n)
    requires Pool(multiset(Freed(x)) + (others + multiset(Freed(Without(t, p)))) + multiset(rest), n)
    ensures t.index in Freed(Without(t, p)) && t.index in Freed(t)
    ensures t.index !in Freed(t.kids[p]) && t.index !in list && t.index !in Freed(x) && t.index !in rest
  {
    var w := Without(t, p);
    assert t.index in Freed(w) && t.index in Freed(t);
    PoolOnly(multiset(Freed(t.kids[p])), others, multiset(Freed(w)), multiset(list), n, t.index);
    PoolOnly(multiset(Freed(x)), others, multiset(Freed(w)), multiset(rest), n, t.index);
  }

  /** The nodes under the children of `t` other than `p` are not `t`'s own, not under `p` and not in `list`. */
  predicate SiblingsApart(t: Tree, p: nat, list: seq<nat>)
    requires t.Inner? && |t.kids| == WIDTH && p < WIDTH
  {
    forall k: nat, j: nat :: k < WIDTH && k != p && j in Freed(t.kids[k]) ==>
      j != t.index && j !in Freed(t.kids[p]) && j !in list
  }

  /** The nodes of the other children are neither the node, nor the child's, nor free. */
  lemma SpliceSiblings(t: Tree, p: nat, others: multiset<nat>, list: seq<nat>, n: nat)
    requires t.Inner? && |t.kids| == WIDTH && p < WIDTH
    requires Pool(multiset(Freed(t.kids[p])) + (others + multiset(Freed(Without(t, p)))) + multiset(list), n)
    ensures SiblingsApart(t, p, list)
  {
    forall k: nat, j: nat | k < WIDTH && k != p && j in Freed(t.kids[k])
      ensures j != t.index
    {
      SiblingApart(t, p, others, list, n, k, j);
    }
    forall k: nat, j: nat | k < WIDTH && k != p && j in Freed(t.kids[k])
      ensures j !in Freed(t.kids[p])
    {
      SiblingApart(t, p, others, list, n, k, j);
    }
    forall k: nat, j: nat | k < WIDTH && k != p && j in Freed(t.kids[k])
      ensures j !in list
    {
      SiblingApart(t, p, others, list, n, k, j);
    }
  }

  lemma SiblingApart(t: Tree, p: nat, others: multiset<nat>, list: seq<nat>, n: nat, k: nat, j: nat)
    requires t.Inner? && |t.kids| == WIDTH && p < WIDTH && k < WIDTH && k != p && j in Freed(t.kids[k])
    requires Pool(multiset(Freed(t.kids[p])) + (others + multiset(Freed(Without(t, p)))) + multiset(list), n)
    ensures j != t.index && j !in Freed(t.kids[p]) && j !in list
  {
    var w := Without(t, p);
    assert w.kids[k] == t.kids[k];
    PoolSub(multiset(Freed(w)), multiset(Freed(t.kids[p])) + (others + multiset(Freed(w))) + multiset(list), n);
    NodeNotBelow(w, n);
    InFreedKids(w.kids, WIDTH, k, j);
    FreedInner(t.index, w.kids);
    PoolOnly(multiset(Freed(t.kids[p])), others, multiset(Freed(w)), multiset(list), n, j);
  }

  /** A child's nodes are nodes of the subtree. */
  lemma KidWithin(t: Tree, p: nat)
    requires t.Inner? && p < |t.kids|
    ensures forall j :: j in Freed(t.kids[p]) ==> j in Freed(t)
  {
    forall j | j in Freed(t.kids[p])
      ensures j in Freed(t)
    {
      InFreedKids(t.kids, |t.kids|, p, j);
    }
  }

  /** No child of a node whose nodes form a pool holds the node itself. */
  lemma NodeNotBelow(t: Tree, n: nat)
    requires t.Inner? && |t.kids| == WIDTH
    requires Pool(multiset(Freed(t)), n)
    ensures forall k :: 0 <= k < WIDTH ==> t.index !in Freed(t.kids[k])
  {
    FreedInner(t.index, t.kids);
    var m := multiset(Freed(t));
    assert m[t.index] == multiset([t.index])[t.index] + multiset(FreedKids(t.kids, WIDTH))[t.index];
    assert t.index !in FreedKids(t.kids, WIDTH);
    forall k | 0 <= k < WIDTH
      ensures t.index !in Freed(t.kids[k])
    {
      if t.index in Freed(t.kids[k]) {
        InFreedKids(t.kids, WIDTH, k, t.index);
      }
    }
  }

  /**
    Back from child `p`: the child grew from `t.kids[p]` to `x`, and the
    node's record was replaced by `d`, which points at `x` under `p` and
    keeps the other columns' links.  Then `t` grew to the subtree with
    `x` under `p`.
  */
  lemma Splice(t: Tree, p: nat, x: Tree, others: multiset<nat>, list: seq<nat>, rest: seq<nat>,
               head0: Ref, head: Ref, ns: seq<NodeData>, ms: seq<NodeData>, d: NodeData, n: nat)
    requires t.Inner? && |t.kids| == WIDTH && p < WIDTH && t.index < n
    requires Linked(t, ns) && Tallied(t, ns)
    requires Held(t.kids[p], others + multiset(Freed(Without(t, p))), list, head0, ns, n)
    requires Held(x, others + multiset(Freed(Without(t, p))), rest, head, ms, n)
    requires Grew(t.kids[p], x, list, rest, ns, ms, n)
    requires WellFormed(d) && Counted(d)
    requires forall k :: 0 <= k < WIDTH ==> d.next[k] == if k == p then RefOf(x) else ns[t.index].next[k]
    ensures Held(Inner(t.index, t.kids[p := x]), others, rest, head, ms[t.index := d], n)
    ensures Grew(t, Inner(t.index, t.kids[p := x]), list, rest, ns, ms[t.index := d], n)
  {
    SpliceHeld(t, p, x, others, list, rest, head0, head, ns, ms, d, n);
    SpliceGrew(t, p, x, others, list, rest, ns, ms, d, n);
  }

  /**
    `Splice` for the two ways a playout comes back: with `credit` the
    column is credited with `gain` and linked to `x`; without, the child
    is unchanged and so is the record.
  */
  lemma SpliceCredit(t: Tree, p: nat, x: Tree, others: multiset<nat>, list: seq<nat>, rest: seq<nat>,
                     head0: Ref, head: Ref, ns: seq<NodeData>, ms: seq<NodeData>,
                     credit: bool, r: Ref, gain: real, n: nat)
    requires t.Inner? && |t.kids| == WIDTH && p < WIDTH && t.index < n
    requires Linked(t, ns) && Tallied(t, ns)
    requires Held(t.kids[p], others + multiset(Freed(Without(t, p))), list, head0, ns, n)
    requires Held(x, others + multiset(Freed(Without(t, p))), rest, head, ms, n)
    requires Grew(t.kids[p], x, list, rest, ns, ms, n)
    requires x != Empty && r == RefOf(x) && 0.0 <= gain <= 1.0
    requires !credit ==> x == t.kids[p]
    ensures WellFormed(ns[t.index]) && ms[t.index] == ns[t.index]
    ensures Held(Inner(t.index, t.kids[p := x]), others, rest, head,
                 ms[t.index := if credit then Credit(ns[t.index], p, r, gain) else ns[t.index]], n)
    ensures Grew(t, Inner(t.index, t.kids[p := x]), list, rest, ns,
                 ms[t.index := if credit then Credit(ns[t.index], p, r, gain) else ns[t.index]], n)
  {
    SpliceRoot(t, p, x, others, list, rest, n);
    var d := if credit then Credit(ns[t.index], p, r, gain) else ns[t.index];
    if credit {
      CreditCounted(ns[t.index], p, r, gain);
    }
    Splice(t, p, x, others, list, rest, head0, head, ns, ms, d, n);
  }

  lemma SpliceHeld(t: Tree, p: nat, x: Tree, others: multiset<nat>, list: seq<nat>, rest: seq<nat>,
                   head0: Ref, head: Ref, ns: seq<NodeData>, ms: seq<NodeData>, d: NodeData, n: nat)
    requires t.Inner? && |t.kids| == WIDTH && p < WIDTH && t.index < n
    requires Linked(t, ns) && Tallied(t, ns)
    requires Held(t.kids[p], others + multiset(Freed(Without(t, p))), list, head0, ns, n)
    requires Held(x, others + multiset(Freed(Without(t, p))), rest, head, ms, n)
    requires Grew(t.kids[p], x, list, rest, ns, ms, n)
    requires WellFormed(d) && Counted(d)
    requires forall k :: 0 <= k < WIDTH ==> d.next[k] == if k == p then RefOf(x) else ns[t.index].next[k]
    ensures Held(Inner(t.index, t.kids[p := x]), others, rest, head, ms[t.index := d], n)
  {
    SpliceChained(t, p, x, others, list, rest, head, ns, ms, d, n);
    SplicePool(t, p, x, others, list, rest, n);
  }

  lemma SpliceChained(t: Tree, p: nat, x: Tree, others: multiset<nat>, list: seq<nat>, rest: seq<nat>,
                      head: Ref, ns: seq<NodeData>, ms: seq<NodeData>, d: NodeData, n: nat)
    requires t.Inner? && |t.kids| == WIDTH && p < WIDTH && t.index < n
    requires Linked(t, ns) && Tallied(t, ns) && |ns| == n && |ms| == n
    requires FreeChain(rest, head, ms) && Linked(x, ms) && Tallied(x, ms)
    requires Pool(multiset(Freed(t.kids[p])) + (others + multiset(Freed(Without(t, p)))) + multiset(list), n)
    requires Pool(multiset(Freed(x)) + (others + multiset(Freed(Without(t, p)))) + multiset(rest), n)
    requires Grew(t.kids[p], x, list, rest, ns, ms, n)
    requires WellFormed(d) && Counted(d)
    requires forall k :: 0 <= k < WIDTH ==> d.next[k] == if k == p then RefOf(x) else ns[t.index].next[k]
    ensures |ms[t.index := d]| == n
    ensures Linked(Inner(t.index, t.kids[p := x]), ms[t.index := d]) && Tallied(Inner(t.index, t.kids[p := x]), ms[t.index := d])
    ensures FreeChain(rest, head, ms[t.index := d])
  {
    SpliceRoot(t, p, x, others, list, rest, n);
    SpliceSiblings(t, p, others, list, n);
    SpliceLinks(t, p, x, list, rest, head, ns, ms, d, n);
  }

  lemma SpliceGrew(t: Tree, p: nat, x: Tree, others: multiset<nat>, list: seq<nat>, rest: seq<nat>,
                   ns: seq<NodeData>, ms: seq<NodeData>, d: NodeData, n: nat)
    requires t.Inner? && |t.kids| == WIDTH && p < WIDTH && t.index < n
    requires Pool(multiset(Freed(t.kids[p])) + (others + multiset(Freed(Without(t, p)))) + multiset(list), n)
    requires Pool(multiset(Freed(x)) + (others + multiset(Freed(Without(t, p)))) + multiset(rest), n)
    requires Grew(t.kids[p], x, list, rest, ns, ms, n)
    ensures Grew(t, Inner(t.index, t.kids[p := x]), list, rest, ns, ms[t.index := d], n)
  {
    SpliceRoot(t, p, x, others, list, rest, n);
    KidWithin(t, p);
    SplicePool(t, p, x, others, list, rest, n);
    SpliceFrame(t, p, x, list, rest, ns, ms, d, n);
  }

  lemma SpliceLinks(t: Tree, p: nat, x: Tree, list: seq<nat>, rest: seq<nat>, head: Ref,
                    ns: seq<NodeData>, ms: seq<NodeData>, d: NodeData, n: nat)
    requires t.Inner? && |t.kids| == WIDTH && p < WIDTH && t.index < n
    requires Linked(t, ns) && Tallied(t, ns) && |ns| == n
    requires FreeChain(rest, head, ms) && Linked(x, ms) && Tallied(x, ms)
    requires Grew(t.kids[p], x, list, rest, ns, ms, n)
    requires WellFormed(d) && Counted(d)
    requires forall k :: 0 <= k < WIDTH ==> d.next[k] == if k == p then RefOf(x) else ns[t.index].next[k]
    requires t.index !in Freed(t.kids[p]) && t.index !in list && t.index !in Freed(x) && t.index !in rest
    requires SiblingsApart(t, p, list)
    ensures Linked(Inner(t.index, t.kids[p := x]), ms[t.index := d])
    ensures Tallied(Inner(t.index, t.kids[p := x]), ms[t.index := d])
    ensures FreeChain(rest, head, ms[t.index := d])
  {
    var i := t.index;
    var ms2 := ms[i := d];
    Untouched(ms, ms2, [i], Freed(x));
    TalliedFrame(x, ms, ms2);
    Untouched(ms, ms2, [i], rest);
    ChainFrame(rest, head, ms, ms2);
    forall k | 0 <= k < WIDTH && k != p
      ensures Agree(ns, ms2, Freed(t.kids[k]))
    {
    }
    TalliedReplace(t, p, x, ns, ms2);
  }

  /** The pool of the grown subtree is the child's, and the sizes add up. */
  lemma SplicePool(t: Tree, p: nat, x: Tree, others: multiset<nat>, list: seq<nat>, rest: seq<nat>, n: nat)
    requires t.Inner? && p < |t.kids|
    requires Pool(multiset(Freed(x)) + (others + multiset(Freed(Without(t, p)))) + multiset(rest), n)
    requires |Freed(x)| + |rest| == |Freed(t.kids[p])| + |list|
    ensures Pool(multiset(Freed(Inner(t.index, t.kids[p := x]))) + others + multiset(rest), n)
    ensures |Freed(Inner(t.index, t.kids[p := x]))| + |rest| == |Freed(t)| + |list|
  {
    var w := Without(t, p);
    var g := Inner(t.index, t.kids[p := x]);
    ReplaceInner(t.index, t.kids, p, Empty);
    ReplaceInner(t.index, w.kids, p, x);
    assert w.kids[p := x] == t.kids[p := x];
    MsSplit(multiset(Freed(g)), multiset(Freed(w)), multiset(Freed(x)), others, multiset(rest));
    MsSize(multiset(Freed(t)), multiset(Freed(w)), multiset(Freed(t.kids[p])));
  }

  lemma MsSplit(g: multiset<nat>, w: multiset<nat>, x: multiset<nat>, others: multiset<nat>, rest: multiset<nat>)
    requires g == w + x
    ensures |g| == |w| + |x|
    ensures g + others + rest == x + (others + w) + rest
  {
  }

  lemma MsSize(a: multiset<nat>, b: multiset<nat>, c: multiset<nat>)
    requires a == b + c
    ensures |a| == |b| + |c|
  {
  }

  /** Moving from one column to the tree it holds changes nothing outside. */
  lemma SpliceFrame(t: Tree, p: nat, x: Tree, list: seq<nat>, rest: seq<nat>, ns: seq<NodeData>, ms: seq<NodeData>,
                    d: NodeData, n: nat)
    requires t.Inner? && p < |t.kids| && t.index < n
    requires Grew(t.kids[p], x, list, rest, ns, ms, n)
    requires t.index in Freed(t) && forall j :: j in Freed(t.kids[p]) ==> j in Freed(t)
    ensures forall j :: 0 <= j < n && j !in Freed(t) && j !in list ==> ms[t.index := d][j] == ns[j]
  {
  }

  /** The head of a free list that is part of a pool does not occur again in it. */
  lemma FreeHead(m: multiset<nat>, list: seq<nat>, n: nat)
    requires Pool(m + multiset(list), n) && |list| > 0
    ensures list[0] !in list[1..]
  {
    assert list == [list[0]] + list[1..];
    assert multiset(list) == multiset([list[0]]) + multiset(list[1..]);
    assert (m + multiset(list))[list[0]] == m[list[0]] + 1 + multiset(list[1..])[list[0]];
  }

  /** The record of a held node: well-formed, counted, and linked to the node's children. */
  lemma HeldRecord(t: Tree, others: multiset<nat>, list: seq<nat>, head: Ref, ns: seq<NodeData>, n: nat)
    requires t.Inner? && Held(t, others, list, head, ns, n)
    ensures t.index < n && |t.kids| == WIDTH && WellFormed(ns[t.index]) && Counted(ns[t.index])
    ensures forall k :: 0 <= k < WIDTH ==> ns[t.index].next[k] == RefOf(t.kids[k])
  {
  }

  /**
    A terminal marker takes the place of the empty child `p`: as a
    subtree of its own it holds no node, and nothing else changes.
  */
  lemma SettleReady(t: Tree, p: nat, x: Tree, others: multiset<nat>, list: seq<nat>, head: Ref, ns: seq<NodeData>, n: nat)
    requires t.Inner? && p < WIDTH && Held(t, others, list, head, ns, n) && t.kids[p] == Empty
    requires x.Won0? || x.Won1? || x.Drawn?
    ensures Held(x, others + multiset(Freed(Without(t, p))), list, head, ns, n)
    ensures Grew(t.kids[p], x, list, list, ns, ns, n)
  {
    Descend(t, p, others, list, head, ns, n);
  }

  /**
    A node `j` popped off the free list becomes the child `p`: it holds
    just that node, and only the node's record changed.
  */
  lemma LeafReady(t: Tree, p: nat, others: multiset<nat>, list: seq<nat>, head0: Ref, head: Ref,
                  ns: seq<NodeData>, ms: seq<NodeData>, n: nat)
    requires t.Inner? && p < WIDTH && Held(t, others, list, head0, ns, n) && t.kids[p] == Empty
    requires |list| > 0 && |ms| == n && ms == ns[list[0] := Fresh()]
    requires FreeChain(list[1..], head, ms)
    ensures Held(Leaf(list[0]), others + multiset(Freed(Without(t, p))), list[1..], head, ms, n)
    ensures Grew(t.kids[p], Leaf(list[0]), list, list[1..], ns, ms, n)
  {
    var j := list[0];
    Descend(t, p, others, list, head0, ns, n);
    LeafLinked(j, ms);
    assert list == [j] + list[1..];
    assert multiset(list) == multiset([j]) + multiset(list[1..]);
    var o := others + multiset(Freed(Without(t, p)));
    assert multiset(Freed(Leaf(j))) + o + multiset(list[1..]) == multiset(Freed(t.kids[p])) + o + multiset(list);
  }
}
