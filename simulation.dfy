/**
  The random part of a playout: choosing among columns with the
  generator, making one move and asking the win table what it decided,
  and the rollout that plays random moves to the end of the game.  None
  of this touches the search tree; the rollout reports the score it
  earns for the expanded column and the caller adds it.

  The score constants and the reward a finished playout earns live here
  too, since the rollout and the tree walk share them.
*/
module Simulation {
  import opened Bits
  import opened Board
  import opened Forest
  import opened Search
  import opened Prng
  import WinTable

  /** Score credited for a won playout (`CONNECT4_SCORE_WIN`). */
  const SCORE_WIN: real := 1.0
  /** Score credited for a drawn playout (`CONNECT4_SCORE_DRAW`). */
  const SCORE_DRAW: real := 0.1

  /** The win table as the start-up pass leaves it. */
  predicate TableReady(table: seq<seq<bv64>>)
  {
    |table| == CELLS && forall c :: 0 <= c < CELLS ==> table[c] == WinTable.Windows(c)
  }

  /**
    The score a finished playout earns for a move made by `s`: a win's
    score when `s` won, a draw's score for a draw (`winner == 2`), and
    nothing when the opponent won.
  */
  function Reward(winner: int, s: Side): (r: real)
    ensures 0.0 <= r <= SCORE_WIN
  {
    if winner == 2 then SCORE_DRAW else if winner == s then SCORE_WIN else 0.0
  }

  /**
    The credit the UCB1 step of `connect4_playout` gives the column it
    descended through: a win's score both when the side to move won and
    when the game was drawn.
  */
  function UcbCredit(winner: int, s: Side): (r: real)
    ensures 0.0 <= r <= SCORE_WIN
  {
    if winner == s then SCORE_WIN else if winner == 2 then SCORE_WIN else 0.0
  }

  /**
    The UCB1 step cannot tell a draw from a win, unlike the expansion and
    the rollout, which score a draw below a win; otherwise the two agree.
  */
  lemma UcbDrawCountsAsWin(s: Side)
    ensures UcbCredit(2, s) == UcbCredit(s, s) == SCORE_WIN
    ensures UcbCredit(2, s) != Reward(2, s)
    ensures forall w :: w != 2 ==> UcbCredit(w, s) == Reward(w, s)
  {
  }

  /**
    The score a playout adds to the column it went through at a node
    where `s` moved, by the branch it took there: a descent into the
    existing child `kid` credits as the UCB1 step does, an expansion of
    the empty column as the random-expansion step does.
  */
  function Gain(kid: Tree, winner: int, s: Side): (r: real)
    ensures 0.0 <= r <= SCORE_WIN
    ensures kid != Empty && winner == 2 ==> r == SCORE_WIN
    ensures kid == Empty && winner == 2 ==> r == SCORE_DRAW
    ensures winner != 2 ==> r == Reward(winner, s)
  {
    if kid == Empty then Reward(winner, s) else UcbCredit(winner, s)
  }

  /** Player `s` holds four in a line somewhere on `b`. */
  predicate HasLine(b: Board, s: Side)
  {
    exists c :: 0 <= c < CELLS && WinTable.LineThrough(WinTable.ColOf(c), WinTable.RowOf(c), Mask(b, s))
  }

  /**
    `play = n == 1 ? options[0] : options[xoroshiro128plus(rng) % n]`:
    a single option is taken without a draw, otherwise one draw of the
    generator picks an option by the remainder of its output.
  */
  method Pick(rng: array<bv64>, options: seq<nat>) returns (play: nat)
    requires rng.Length == 2 && |options| > 0
    modifies rng
    ensures play in options
    ensures |options| == 1 ==> play == options[0] && rng[0] == old(rng[0]) && rng[1] == old(rng[1])
    ensures |options| > 1 ==>
      play == options[Output(old(rng[0]), old(rng[1])) as int % |options|]
      && State(rng[0], rng[1]) == Step(State(old(rng[0]), old(rng[1])))
  {
    if |options| == 1 {
      play := options[0];
    } else {
      var x := Xoroshiro128Plus(rng);
      play := options[x as int % |options|];
    }
  }

  /**
    One move of a playout: `s` drops a piece into column `play` of `b`,
    and the win table decides the game on the cell it lands in.  The
    move wins exactly when it completes a line through that cell, and
    draws exactly when it does not and fills the board.
  */
  method Move(table: seq<seq<bv64>>, b: Board, s: Side, play: nat) returns (after: Board, result: WinTable.Outcome)
    requires TableReady(table) && Sound(b) && ValidPlay(Taken(b), play)
    ensures after == After(b, s, play) && Sound(after)
    ensures EmptyCount(Taken(after)) == EmptyCount(Taken(b)) - 1
    ensures result == WinTable.Win <==>
      WinTable.LineThrough(WinTable.ColOf(Landing(Taken(b), play)), WinTable.RowOf(Landing(Taken(b), play)), Mask(after, s))
    ensures result == WinTable.Draw <==> result != WinTable.Win && Taken(after) == FULL
  {
    var position := Drop(Taken(b), play);
    PlaySound(b, s, play);
    PlayFills(b, s, play);
    after := Place(b, s, position);
    var who, opponent := Mask(after, s), Mask(after, Other(s));
    var how;
    result, how := WinTable.Check(table, who, opponent, position);
    FullWhenTaken(after, s, who, opponent);
    WinTable.CheckSeesEveryLine(position, who);
  }

  /** A winning move gives its player a line. */
  lemma MoveWins(b: Board, s: Side, play: nat)
    requires ValidPlay(Taken(b), play)
    requires WinTable.LineThrough(WinTable.ColOf(Landing(Taken(b), play)), WinTable.RowOf(Landing(Taken(b), play)),
                                  Mask(After(b, s, play), s))
    ensures HasLine(After(b, s, play), s)
  {
    var c := Landing(Taken(b), play);
    assert WinTable.LineThrough(WinTable.ColOf(c), WinTable.RowOf(c), Mask(After(b, s, play), s));
  }

  // A game as a sequence of moves.

  /** Who makes the moves of a game: the two players in turn, or one player throughout. */
  datatype Turns = Alternating | Repeating

  /** Whether `k` is odd, counted out one step at a time. */
  function Odd(k: nat): bool
  {
    if k == 0 then false else !Odd(k - 1)
  }

  /** `Odd` agrees with the remainder of division by two. */
  lemma {:induction false} OddParity(k: nat)
    ensures Odd(k) <==> k % 2 == 1
  {
    if k > 0 {
      OddParity(k - 1);
    }
  }

  /** The player who makes move `k` (counting from 0) of a game that `first` opens. */
  function Mover(first: Side, rule: Turns, k: nat): Side
  {
    if rule == Alternating && Odd(k) then Other(first) else first
  }

  /** Under alternation each move's player is the other of the previous move's. */
  lemma MoverNext(first: Side, rule: Turns, k: nat)
    ensures rule == Alternating ==> Mover(first, rule, k + 1) == Other(Mover(first, rule, k))
    ensures rule == Repeating ==> Mover(first, rule, k) == first
  {
    assert Odd(k + 1) == !Odd(k);
  }

  /** The board after the moves of `moves`, in order, by the players `rule` gives. */
  function Replay(b: Board, first: Side, rule: Turns, moves: seq<nat>): Board
    requires forall k :: 0 <= k < |moves| ==> moves[k] < WIDTH
    decreases |moves|
  {
    if moves == [] then b
    else After(Replay(b, first, rule, moves[..|moves| - 1]), Mover(first, rule, |moves| - 1), moves[|moves| - 1])
  }

  /** Every move of the game is made into a column that accepts it. */
  predicate Played(b: Board, first: Side, rule: Turns, moves: seq<nat>)
    decreases |moves|
  {
    (forall k :: 0 <= k < |moves| ==> moves[k] < WIDTH)
    && (moves != [] ==>
          Played(b, first, rule, moves[..|moves| - 1])
          && ValidPlay(Taken(Replay(b, first, rule, moves[..|moves| - 1])), moves[|moves| - 1]))
  }

  /** A legal move extends a legal game by one. */
  lemma PlayedStep(b: Board, first: Side, rule: Turns, moves: seq<nat>, play: nat)
    requires Played(b, first, rule, moves) && ValidPlay(Taken(Replay(b, first, rule, moves)), play)
    ensures Played(b, first, rule, moves + [play])
    ensures Replay(b, first, rule, moves + [play]) == After(Replay(b, first, rule, moves), Mover(first, rule, |moves|), play)
  {
    assert (moves + [play])[..|moves|] == moves;
  }

  /** `b` is the board the legal game `moves` reaches. */
  predicate Reached(start: Board, first: Side, rule: Turns, moves: seq<nat>, b: Board)
  {
    Played(start, first, rule, moves) && b == Replay(start, first, rule, moves)
  }

  /** A legal move from the reached board reaches the board after it. */
  lemma ReachedStep(start: Board, first: Side, rule: Turns, moves: seq<nat>, b: Board, play: nat)
    requires Reached(start, first, rule, moves, b) && ValidPlay(Taken(b), play)
    ensures Reached(start, first, rule, moves + [play], After(b, Mover(first, rule, |moves|), play))
  {
    PlayedStep(start, first, rule, moves, play);
  }

  /**
    One move of a rollout: a random legal column for `s`, dropped and
    decided.
  */
  method RandomMove(rng: array<bv64>, table: seq<seq<bv64>>, b: Board, s: Side)
    returns (play: nat, after: Board, result: WinTable.Outcome)
    requires rng.Length == 2 && TableReady(table) && Sound(b) && Taken(b) != FULL
    modifies rng
    ensures ValidPlay(Taken(b), play) && after == After(b, s, play) && Sound(after)
    ensures EmptyCount(Taken(after)) < EmptyCount(Taken(b))
    ensures result == WinTable.Win ==> HasLine(after, s)
    ensures result == WinTable.Draw ==> Taken(after) == FULL
    ensures result == WinTable.Unresolved ==> Taken(after) != FULL
  {
    var options := OpenColumns(Taken(b));
    OpenColumnsNonEmpty(b, options);
    play := Pick(rng, options);
    after, result := Move(table, b, s, play);
    if result == WinTable.Win {
      MoveWins(b, s, play);
    }
  }

  /**
    Where a corrected rollout from `start` stands: `b` is the board its
    legal game `moves` reaches, `last` is the side that moved last (`s`
    before any move) and `result` is the outcome of that move.
  */
  predicate Playing(start: Board, s: Side, b: Board, last: Side, moves: seq<nat>, result: WinTable.Outcome)
  {
    Sound(b) && Reached(start, Other(s), Alternating, moves, b)
    && (result == WinTable.Unresolved ==> Taken(b) != FULL && Other(last) == Mover(Other(s), Alternating, |moves|))
    && (result != WinTable.Unresolved ==> |moves| > 0 && last == Mover(Other(s), Alternating, |moves| - 1))
    && (result == WinTable.Win ==> HasLine(b, last))
    && (result == WinTable.Draw ==> Taken(b) == FULL)
  }

  /**
    One turn of the corrected rollout: the side turns over and the player
    now to move makes a random legal move.
  */
  method Turn(rng: array<bv64>, table: seq<seq<bv64>>, start: Board, s: Side, b: Board, last: Side, ghost moves: seq<nat>)
    returns (after: Board, next: Side, result: WinTable.Outcome, ghost extended: seq<nat>)
    requires rng.Length == 2 && TableReady(table) && Playing(start, s, b, last, moves, WinTable.Unresolved)
    modifies rng
    ensures Playing(start, s, after, next, extended, result)
    ensures EmptyCount(Taken(after)) < EmptyCount(Taken(b))
  {
    next := Other(last);
    var play;
    play, after, result := RandomMove(rng, table, b, next);
    extended := moves + [play];
    assert Reached(start, Other(s), Alternating, extended, after) by {
      ReachedStep(start, Other(s), Alternating, moves, b, play);
    }
    assert next == Mover(Other(s), Alternating, |extended| - 1);
    assert Other(next) == Mover(Other(s), Alternating, |extended|) by {
      MoverNext(Other(s), Alternating, |moves|);
    }
  }

  /** A rollout that has not moved yet stands at its start. */
  lemma PlayingStart(start: Board, s: Side)
    requires Sound(start) && Taken(start) != FULL
    ensures Playing(start, s, start, s, [], WinTable.Unresolved)
  {
    assert Other(s) == Mover(Other(s), Alternating, 0);
  }

  /**
    The loop of the rollout, corrected: the players take turns at random
    legal moves, the opponent of `s` first, until a move decides the game.
    Returns the decision and the player who made the deciding move.
  */
  method RandomPlay(rng: array<bv64>, table: seq<seq<bv64>>, start: Board, s: Side)
    returns (result: WinTable.Outcome, last: Side, ghost moves: seq<nat>, b: Board)
    requires rng.Length == 2 && TableReady(table) && Sound(start) && Taken(start) != FULL
    modifies rng
    ensures Playing(start, s, b, last, moves, result) && result != WinTable.Unresolved
  {
    b := start;
    last := s;
    moves := [];
    result := WinTable.Unresolved;
    PlayingStart(start, s);
    while result == WinTable.Unresolved
      invariant Playing(start, s, b, last, moves, result)
      decreases EmptyCount(Taken(b))
    {
      b, last, result, moves := Turn(rng, table, start, s, b, last, moves);
    }
  }

  /**
    The rollout of `connect4_playout`, corrected: after `s` expanded the
    tree into `start`, the two players take turns at random legal moves,
    the opponent first, until a move wins or fills the board.  Returns the
    winner (2 for a draw) and the score the expanded column earns.
  */
  method Rollout(rng: array<bv64>, table: seq<seq<bv64>>, start: Board, s: Side)
    returns (winner: int, gain: real, ghost moves: seq<nat>)
    requires rng.Length == 2 && TableReady(table) && Sound(start) && Taken(start) != FULL
    modifies rng
    ensures Played(start, Other(s), Alternating, moves) && |moves| > 0
    ensures winner == 2 ==> Taken(Replay(start, Other(s), Alternating, moves)) == FULL
    ensures winner != 2 ==>
      winner == Mover(Other(s), Alternating, |moves| - 1) && HasLine(Replay(start, Other(s), Alternating, moves), winner)
    ensures gain == Reward(winner, s)
  {
    var result, turn, b;
    result, turn, moves, b := RandomPlay(rng, table, start, s);
    if result == WinTable.Draw {
      winner, gain := 2, SCORE_DRAW;
    } else {
      winner, gain := turn, if turn == s then SCORE_WIN else 0.0;
    }
  }

  /**
    The loop of the rollout as written: it turns the side over at its top
    and again after an undecided move, so the side never changes and the
    opponent of `s` makes every move.
  */
  method RandomPlayAsWritten(rng: array<bv64>, table: seq<seq<bv64>>, start: Board, s: Side)
    returns (result: WinTable.Outcome, last: Side, ghost moves: seq<nat>)
    requires rng.Length == 2 && TableReady(table) && Sound(start) && Taken(start) != FULL
    modifies rng
    ensures Played(start, Other(s), Repeating, moves) && |moves| > 0
    ensures last == Other(s)
    ensures result == WinTable.Win ==> HasLine(Replay(start, Other(s), Repeating, moves), last)
    ensures result == WinTable.Draw ==> Taken(Replay(start, Other(s), Repeating, moves)) == FULL
    ensures result != WinTable.Unresolved
  {
    var b := start;
    var turn := s;
    moves := [];
    result := WinTable.Unresolved;
    while result == WinTable.Unresolved
      invariant Sound(b) && Played(start, Other(s), Repeating, moves) && b == Replay(start, Other(s), Repeating, moves)
      invariant result == WinTable.Unresolved ==> Taken(b) != FULL && turn == s
      invariant result != WinTable.Unresolved ==> |moves| > 0 && turn == Other(s)
      invariant result == WinTable.Win ==> HasLine(b, turn)
      invariant result == WinTable.Draw ==> Taken(b) == FULL
      decreases EmptyCount(Taken(b))
    {
      turn := Other(turn);
      var play, after;
      play, after, result := RandomMove(rng, table, b, turn);
      PlayedStep(start, Other(s), Repeating, moves, play);
      MoverNext(Other(s), Repeating, |moves|);
      b, moves := after, moves + [play];
      if result == WinTable.Unresolved {
        turn := Other(turn);
      }
    }
    last := turn;
  }

  /**
    The rollout as written.  Since the opponent of `s` makes every move, a
    rollout never ends in a win for `s` and never earns the expanded column
    a win's score.
  */
  method RolloutAsWritten(rng: array<bv64>, table: seq<seq<bv64>>, start: Board, s: Side)
    returns (winner: int, gain: real, ghost moves: seq<nat>)
    requires rng.Length == 2 && TableReady(table) && Sound(start) && Taken(start) != FULL
    modifies rng
    ensures Played(start, Other(s), Repeating, moves) && |moves| > 0
    ensures winner == 2 ==> Taken(Replay(start, Other(s), Repeating, moves)) == FULL
    ensures winner != 2 ==> winner == Other(s) && HasLine(Replay(start, Other(s), Repeating, moves), winner)
    ensures gain == Reward(winner, s) && gain != SCORE_WIN
  {
    var result, turn;
    result, turn, moves := RandomPlayAsWritten(rng, table, start, s);
    if result == WinTable.Draw {
      winner, gain := 2, SCORE_DRAW;
    } else {
      winner, gain := turn, if turn == s then SCORE_WIN else 0.0;
    }
  }

  // The search tree against the game it explores.

  /** The terminal marker for a win by `s`. */
  function WinMarker(s: Side): (x: Tree)
    ensures x == Won0 || x == Won1
  {
    if s == 1 then Won1 else Won0
  }

  /**
    What a terminal child records about the position `a` that `s` moved
    into: a win marker that `s` completed a line, the draw marker that
    the board is full.
  */
  predicate Marks(x: Tree, a: Board, s: Side)
  {
    (x.Won0? || x.Won1? ==> x == WinMarker(s) && HasLine(a, s))
    && (x.Drawn? ==> Taken(a) == FULL)
  }

  /**
    The subtree `t` describes the position `b` with `s` to move: every
    child sits under a legal column and records truthfully where that
    move leads, a child node to a position that is not yet full, which
    it describes in turn with the other player to move.
  */
  predicate Consistent(t: Tree, b: Board, s: Side)
  {
    t.Inner? ==>
      |t.kids| == WIDTH
      && forall k :: 0 <= k < WIDTH && t.kids[k] != Empty ==>
           ValidPlay(Taken(b), k) && Marks(t.kids[k], After(b, s, k), s)
           && (t.kids[k].Inner? ==>
                 Taken(After(b, s, k)) != FULL && Consistent(t.kids[k], After(b, s, k), Other(s)))
  }

  /** Replacing child `p` by a subtree that describes the position after `p`. */
  lemma ConsistentReplace(t: Tree, b: Board, s: Side, p: nat, x: Tree)
    requires Consistent(t, b, s) && t.Inner? && p < WIDTH
    requires x != Empty ==> ValidPlay(Taken(b), p) && Marks(x, After(b, s, p), s)
    requires x.Inner? ==> Taken(After(b, s, p)) != FULL && Consistent(x, After(b, s, p), Other(s))
    ensures Consistent(Inner(t.index, t.kids[p := x]), b, s)
  {
  }

  /** A fresh leaf describes any position. */
  lemma ConsistentLeaf(i: nat, b: Board, s: Side)
    ensures Consistent(Leaf(i), b, s)
  {
  }

  /** What a consistent node says about one of its children. */
  lemma ConsistentKid(t: Tree, b: Board, s: Side, p: nat)
    requires Consistent(t, b, s) && t.Inner? && p < WIDTH && t.kids[p] != Empty
    ensures ValidPlay(Taken(b), p) && Marks(t.kids[p], After(b, s, p), s)
    ensures t.kids[p].Inner? ==> Taken(After(b, s, p)) != FULL && Consistent(t.kids[p], After(b, s, p), Other(s))
  {
  }
}
