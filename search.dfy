/**
  The column choices a playout makes at one node, and the final choice of
  a move from the root's statistics.  Each is a scan over the seven
  columns of one node record; none touches the tree or the generator.

  The source computes the UCB1 value of a column in single-precision
  floating point from the column's score, its playout count and the
  node's total playout count.  Here that value is a parameter, a function
  `Ucb` of those three numbers into the reals, so every property below
  holds whichever formula is plugged in.
*/
module Search {
  import opened Board
  import opened Forest

  /** The columns of `s` in strictly increasing order. */
  predicate Ascending(s: seq<nat>)
  {
    forall a, b :: 0 <= a < b < |s| ==> s[a] < s[b]
  }

  /** Appending a column above all others keeps the order. */
  lemma AscendingAppend(s: seq<nat>, x: nat)
    requires Ascending(s) && forall j :: j in s ==> j < x
    ensures Ascending(s + [x])
  {
    forall a, b | 0 <= a < b < |s| + 1
      ensures (s + [x])[a] < (s + [x])[b]
    {
      if b == |s| {
        assert s[a] in s;
      }
    }
  }

  /**
    The columns a random expansion may pick: legal ones that have no
    child yet, in increasing order.
  */
  method Unexpanded(d: NodeData, taken: bv64) returns (options: seq<nat>)
    requires WellFormed(d)
    ensures Ascending(options)
    ensures forall i :: i in options <==> 0 <= i < WIDTH && d.next[i] == Null && ValidPlay(taken, i)
  {
    options := [];
    var i := 0;
    while i < WIDTH
      invariant 0 <= i <= WIDTH
      invariant Ascending(options)
      invariant forall j :: j in options ==> j < i
      invariant forall j :: j in options <==> 0 <= j < i && d.next[j] == Null && ValidPlay(taken, j)
    {
      if d.next[i] == Null && ValidPlay(taken, i) {
        AscendingAppend(options, i);
        options := options + [i];
      }
      i := i + 1;
    }
  }

  /** The columns a rollout may pick: all legal ones, in increasing order. */
  method OpenColumns(taken: bv64) returns (options: seq<nat>)
    ensures Ascending(options)
    ensures forall i :: i in options <==> 0 <= i < WIDTH && ValidPlay(taken, i)
  {
    options := [];
    var i := 0;
    while i < WIDTH
      invariant 0 <= i <= WIDTH
      invariant Ascending(options)
      invariant forall j :: j in options ==> j < i
      invariant forall j :: j in options <==> 0 <= j < i && ValidPlay(taken, j)
    {
      if ValidPlay(taken, i) {
        AscendingAppend(options, i);
        options := options + [i];
      }
      i := i + 1;
    }
  }

  /** A position that is not full leaves some column open. */
  lemma OpenColumnsNonEmpty(b: Board, options: seq<nat>)
    requires Sound(b) && Taken(b) != FULL
    requires forall i :: i in options <==> 0 <= i < WIDTH && ValidPlay(Taken(b), i)
    ensures |options| > 0
  {
    SomeColumnOpen(b);
    var play :| 0 <= play < WIDTH && ValidPlay(Taken(b), play);
    assert play in options;
  }

  /** The sum of the playout counts of the legal columns below `k`. */
  function LegalPlayouts(d: NodeData, taken: bv64, k: nat): nat
    requires WellFormed(d) && k <= WIDTH
  {
    if k == 0 then 0
    else LegalPlayouts(d, taken, k - 1) + (if ValidPlay(taken, k - 1) then d.playouts[k - 1] else 0)
  }

  /** Each legal column's count is part of the sum. */
  lemma {:induction false} LegalPlayoutsBound(d: NodeData, taken: bv64, k: nat, i: nat)
    requires WellFormed(d) && i < k <= WIDTH && ValidPlay(taken, i)
    ensures d.playouts[i] <= LegalPlayouts(d, taken, k)
  {
    if i < k - 1 {
      LegalPlayoutsBound(d, taken, k - 1, i);
    }
  }

  /** The node's playout total over its legal columns, the first loop of the UCB1 step. */
  method LegalTotal(d: NodeData, taken: bv64) returns (total: nat)
    requires WellFormed(d)
    ensures total == LegalPlayouts(d, taken, WIDTH)
    ensures forall i :: 0 <= i < WIDTH && ValidPlay(taken, i) ==> d.playouts[i] <= total
  {
    total := 0;
    var i := 0;
    while i < WIDTH
      invariant 0 <= i <= WIDTH
      invariant total == LegalPlayouts(d, taken, i)
    {
      if ValidPlay(taken, i) {
        total := total + d.playouts[i];
      }
      i := i + 1;
    }
    forall i | 0 <= i < WIDTH && ValidPlay(taken, i)
      ensures d.playouts[i] <= total
    {
      LegalPlayoutsBound(d, taken, WIDTH, i);
    }
  }

  /** The UCB1 value of a column from its score, its playouts and the node's total. */
  type Ucb = (real, nat, nat) -> real

  function Value(ucb: Ucb, d: NodeData, total: nat, i: nat): real
    requires WellFormed(d) && i < WIDTH
  {
    ucb(d.score[i], d.playouts[i], total)
  }

  /** Column `i` is legal and no legal column has a larger value. */
  predicate Maximal(ucb: Ucb, d: NodeData, taken: bv64, total: nat, i: nat)
    requires WellFormed(d)
  {
    i < WIDTH && ValidPlay(taken, i)
    && forall j :: 0 <= j < WIDTH && ValidPlay(taken, j) ==> Value(ucb, d, total, j) <= Value(ucb, d, total, i)
  }

  /**
    The UCB1 candidates: every legal column of maximal value, in
    increasing order.  The source asserts that each legal column has been
    played out before it divides by the count.
  */
  method UcbCandidates(ucb: Ucb, d: NodeData, taken: bv64, total: nat) returns (best: seq<nat>)
    requires WellFormed(d)
    requires forall i :: 0 <= i < WIDTH && ValidPlay(taken, i) ==> d.playouts[i] > 0
    ensures Ascending(best)
    ensures forall i :: i in best <==> Maximal(ucb, d, taken, total, i)
    ensures (exists i :: 0 <= i < WIDTH && ValidPlay(taken, i)) ==> |best| > 0
  {
    best := [];
    var bestValue := 0.0;
    var i := 0;
    while i < WIDTH
      invariant 0 <= i <= WIDTH
      invariant Ascending(best)
      invariant forall j :: j in best ==> j < i && ValidPlay(taken, j) && Value(ucb, d, total, j) == bestValue
      invariant |best| == 0 ==> forall j :: 0 <= j < i ==> !ValidPlay(taken, j)
      invariant |best| > 0 ==>
        forall j :: 0 <= j < i && ValidPlay(taken, j) ==>
          Value(ucb, d, total, j) <= bestValue && (Value(ucb, d, total, j) == bestValue ==> j in best)
    {
      if ValidPlay(taken, i) {
        var value := Value(ucb, d, total, i);
        if |best| == 0 || value > bestValue {
          bestValue := value;
          best := [i];
        } else if value == bestValue {
          AscendingAppend(best, i);
          best := best + [i];
        }
      }
      i := i + 1;
    }
    forall i | 0 <= i < WIDTH
      ensures i in best <==> Maximal(ucb, d, taken, total, i)
    {
      if i in best {
        assert Maximal(ucb, d, taken, total, i);
      }
      if Maximal(ucb, d, taken, total, i) {
        assert best[0] in best;
        assert Value(ucb, d, total, best[0]) <= Value(ucb, d, total, i);
      }
    }
  }

  /** The observed win rate of a played column. */
  function Ratio(d: NodeData, i: nat): real
    requires WellFormed(d) && i < WIDTH && d.playouts[i] > 0
  {
    d.score[i] / d.playouts[i] as real
  }

  /**
    `best` is the move the statistics `d` recommend: the lowest column
    with the best win rate among those played out at least once, or -1
    when none has been.
  */
  predicate Recommends(d: NodeData, best: int)
    requires WellFormed(d)
  {
    (best == -1 <==> forall i :: 0 <= i < WIDTH ==> d.playouts[i] == 0)
    && (best != -1 ==>
          0 <= best < WIDTH && d.playouts[best] > 0
          && (forall j :: 0 <= j < WIDTH && d.playouts[j] > 0 ==> Ratio(d, j) <= Ratio(d, best))
          && (forall j :: 0 <= j < best && d.playouts[j] > 0 ==> Ratio(d, j) < Ratio(d, best)))
  }

  /** The second loop of `connect4_playout_many`: the recommended move. */
  method BestRatio(d: NodeData) returns (best: int)
    requires WellFormed(d)
    ensures Recommends(d, best)
  {
    best := -1;
    var bestRatio := 0.0;
    var i := 0;
    while i < WIDTH
      invariant 0 <= i <= WIDTH
      invariant best == -1 <==> forall j :: 0 <= j < i ==> d.playouts[j] == 0
      invariant best != -1 ==>
        0 <= best < i && d.playouts[best] > 0 && bestRatio == Ratio(d, best)
        && (forall j :: 0 <= j < i && d.playouts[j] > 0 ==> Ratio(d, j) <= bestRatio)
        && (forall j :: 0 <= j < best && d.playouts[j] > 0 ==> Ratio(d, j) < bestRatio)
    {
      if d.playouts[i] > 0 {
        var ratio := Ratio(d, i);
        if best == -1 || ratio > bestRatio {
          bestRatio := ratio;
          best := i;
        }
      }
      i := i + 1;
    }
  }

  /** Some legal column of the node has no child yet. */
  predicate Open(d: NodeData, taken: bv64)
    requires WellFormed(d)
  {
    exists k :: 0 <= k < WIDTH && d.next[k] == Null && ValidPlay(taken, k)
  }

  /**
    The column a playout goes through at a node: a legal one; while some
    legal column has no child, one of those; otherwise one of maximal
    UCB1 value for the node's total over its legal columns.
  */
  predicate Chosen(ucb: Ucb, d: NodeData, taken: bv64, play: nat)
    requires WellFormed(d)
  {
    play < WIDTH && ValidPlay(taken, play)
    && (Open(d, taken) ==> d.next[play] == Null)
    && (!Open(d, taken) ==> Maximal(ucb, d, taken, LegalPlayouts(d, taken, WIDTH), play))
  }

  /** No unexpanded legal column is left when the scan finds none. */
  lemma OpenNone(d: NodeData, taken: bv64, options: seq<nat>)
    requires WellFormed(d) && |options| == 0
    requires forall i :: i in options <==> 0 <= i < WIDTH && d.next[i] == Null && ValidPlay(taken, i)
    ensures !Open(d, taken)
  {
  }

  /**
    At a node whose legal columns all have children, each legal column
    has been played out, which the source asserts before dividing by the
    count.
  */
  lemma Expanded(d: NodeData, taken: bv64)
    requires WellFormed(d) && Counted(d) && !Open(d, taken)
    ensures forall i :: 0 <= i < WIDTH && ValidPlay(taken, i) ==> d.playouts[i] > 0 && d.next[i] != Null
  {
  }

  /**
    A playout credited to a legal column adds one to the node's count
    over its legal columns, so the count at the root is the number of
    playouts completed through it.
  */
  lemma {:induction false} CreditLegal(d: NodeData, p: nat, r: Ref, gain: real, taken: bv64, k: nat)
    requires WellFormed(d) && p < WIDTH && ValidPlay(taken, p) && k <= WIDTH
    ensures LegalPlayouts(Credit(d, p, r, gain), taken, k) == LegalPlayouts(d, taken, k) + (if p < k then 1 else 0)
  {
    if k > 0 {
      CreditLegal(d, p, r, gain, taken, k - 1);
    }
  }
}
