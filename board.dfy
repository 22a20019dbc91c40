/**
  The bitboard rules: the 7-by-6 board, which columns accept a piece
  (`connect4_valid`) and where a dropped piece lands (`connect4_drop`).

  A board is two 64-bit occupancy masks, one per player.  Cell
  `row * WIDTH + col` is bit number `row * WIDTH + col`; row 0 is the TOP
  row, so a piece dropped into a column falls towards row `HEIGHT - 1`.
*/
module Board {
  import opened Bits

  const WIDTH: nat := 7
  const HEIGHT: nat := 6
  const CELLS: nat := 42

  /** All 42 cells taken: the source's `0x3ffffffffff`. */
  const FULL: bv64 := 0x3ff_ffff_ffff

  /** The seven cells of the top row. */
  const TOP_ROW: bv64 := 0x7f

  /** Shifting a mask by `DOWN` moves every cell one row down the board. */
  const DOWN: bv7 := 7

  /** A player: 0 or 1, as the source's `turn`. */
  type Side = s: int | 0 <= s < 2

  /** The other player (the source's `!turn`). */
  function Other(s: Side): (r: Side)
    ensures r != s
  {
    1 - s
  }

  /** The two players' masks (the source's `state[2]`). */
  datatype Board = Board(p0: bv64, p1: bv64)

  /** The mask of player `s`. */
  function Mask(b: Board, s: Side): bv64
  {
    if s == 0 then b.p0 else b.p1
  }

  /** Every taken cell, whoever holds it. */
  function Taken(b: Board): bv64
  {
    b.p0 | b.p1
  }

  /** Player `s` takes cell `cell` (`state[s] |= UINT64_C(1) << cell`). */
  function Place(b: Board, s: Side, cell: nat): Board
  {
    if s == 0 then Board(b.p0 | CellBit(cell), b.p1)
    else Board(b.p0, b.p1 | CellBit(cell))
  }

  /**
    `connect4_valid`: a column accepts a piece when it exists and its top
    cell is free.
  */
  function ValidPlay(taken: bv64, play: int): (r: bool)
    ensures r <==> 0 <= play < WIDTH && !Bit(taken, play)
  {
    0 <= play < WIDTH && CellBit(play) & taken == 0
  }

  /**
    The row a piece dropped into column `play` comes to rest in, scanning
    the column downwards from row `i`: the row above the first taken cell
    met, or the bottom row when there is none.
  */
  function LandingRow(taken: bv64, play: nat, i: nat): (row: nat)
    requires play < WIDTH && 1 <= i <= HEIGHT
    ensures i - 1 <= row < HEIGHT
    decreases HEIGHT - i
  {
    if i == HEIGHT then HEIGHT - 1
    else if Bit(taken, play + WIDTH * i) then i - 1
    else LandingRow(taken, play, i + 1)
  }

  /**
    The scan stops at the right row: every cell it passed is free, and the
    row it returns is the bottom row or lies above a taken cell.
  */
  lemma {:induction false} LandingRowStops(taken: bv64, play: nat, i: nat)
    requires play < WIDTH && 1 <= i <= HEIGHT
    ensures forall k :: i <= k <= LandingRow(taken, play, i) ==> !Bit(taken, play + WIDTH * k)
    ensures LandingRow(taken, play, i) == HEIGHT - 1
            || Bit(taken, play + WIDTH * (LandingRow(taken, play, i) + 1))
    decreases HEIGHT - i
  {
    if i < HEIGHT && !Bit(taken, play + WIDTH * i) {
      LandingRowStops(taken, play, i + 1);
    }
  }

  /** The cell a piece dropped into column `play` lands in. */
  function Landing(taken: bv64, play: nat): (cell: nat)
    requires play < WIDTH
    ensures cell < CELLS && cell % WIDTH == play
  {
    var row := LandingRow(taken, play, 1);
    ColumnOf(play, row);
    play + WIDTH * row
  }

  /** Cell `play + WIDTH * row` lies in column `play`. */
  lemma ColumnOf(play: nat, row: nat)
    requires play < WIDTH
    ensures (play + WIDTH * row) % WIDTH == play
  {
  }

  /**
    `connect4_drop`: walks down column `play` from the top and stops above
    the first taken cell.
  */
  method Drop(taken: bv64, play: int) returns (position: nat)
    requires 0 <= play < WIDTH
    ensures position == Landing(taken, play)
  {
    position := play;
    var i := 1;
    while i < HEIGHT
      invariant 1 <= i <= HEIGHT
      invariant position == play + WIDTH * (i - 1)
      invariant LandingRow(taken, play, 1) == LandingRow(taken, play, i)
    {
      position := position + WIDTH;
      if !MaskEmptyAt(taken, position) {
        return position - WIDTH;
      }
      i := i + 1;
    }
  }

  /** The source's test `!(mask & taken)` for the single-cell mask of `cell`. */
  function MaskEmptyAt(taken: bv64, cell: nat): (r: bool)
    ensures r <==> !Bit(taken, cell)
  {
    CellBit(cell) & taken == 0
  }

  /**
    The landing row is the only row that fits the description: every cell
    from row 1 down to it is free, and it is the bottom row or rests on a
    taken cell.
  */
  lemma LandingUnique(taken: bv64, play: nat, row: nat)
    requires play < WIDTH && row < HEIGHT
    requires forall k :: 1 <= k <= row ==> !Bit(taken, play + WIDTH * k)
    requires row == HEIGHT - 1 || Bit(taken, play + WIDTH * (row + 1))
    ensures row == LandingRow(taken, play, 1)
  {
    LandingRowStops(taken, play, 1);
  }

  /** A piece dropped into an accepting column lands on a free cell. */
  lemma LandingFree(taken: bv64, play: nat)
    requires ValidPlay(taken, play)
    ensures !Bit(taken, Landing(taken, play))
  {
    var row := LandingRow(taken, play, 1);
    LandingRowStops(taken, play, 1);
    if row > 0 {
      assert !Bit(taken, play + WIDTH * row);
    }
  }

  // Gravity: no taken cell hangs above a free one.

  /**
    The board obeys gravity: every taken cell outside the bottom row has
    a taken cell below it (shifting the mask down one row covers it).
  */
  predicate Settled(t: bv64)
  {
    (t << DOWN) & !t & FULL == 0
  }

  /** Every taken cell is one of the 42 cells of the board. */
  predicate OnBoard(t: bv64)
  {
    t & !FULL == 0
  }

  /** Two masks make a legal board: disjoint, on the board and settled. */
  predicate SoundMasks(p0: bv64, p1: bv64)
  {
    p0 & p1 == 0 && OnBoard(p0 | p1) && Settled(p0 | p1)
  }

  /** A legal board. */
  predicate Sound(b: Board)
  {
    SoundMasks(b.p0, b.p1)
  }

  /**
    Cell `c` is free and rests on the bottom row or on a taken cell: the
    cell a dropped piece comes to rest in.
  */
  predicate Rests(t: bv64, c: nat)
  {
    c < CELLS && !Bit(t, c) && (c >= CELLS - WIDTH || Bit(t, c + WIDTH))
  }

  // Word-level facts.  Each is stated as an implication over plain words,
  // so that callers discharge its hypotheses themselves.

  lemma SettledOr(t: bv64, m: bv64)
    ensures Settled(t) && (m << DOWN) & !t & FULL == 0 ==> Settled(t | m)
  {
  }

  lemma CoveredOnBoard(x: bv64, t: bv64)
    ensures x & !t == 0 ==> x & !t & FULL == 0
  {
  }

  lemma OffBoard(x: bv64, t: bv64)
    ensures x & FULL == 0 ==> x & !t & FULL == 0
  {
  }

  lemma TopRow(t: bv64)
    ensures t & !FULL == 0 && Settled(t) && t & TOP_ROW == TOP_ROW ==> t == FULL
  {
  }

  lemma LowInFull(c: bv64)
    ensures SingleBit(c) && c as int < 0x400_0000_0000 ==> c & !FULL == 0
  {
  }

  lemma HighOutFull(c: bv64)
    ensures SingleBit(c) && c as int >= 0x400_0000_0000 ==> c & FULL == 0
  {
  }

  /** Every cell of the board is a cell of `FULL`. */
  lemma CellOnBoard(k: nat)
    requires k < CELLS
    ensures CellBit(k) & !FULL == 0
  {
    CellBitValue(k);
    CellBitSingle(k);
    Pow2At42();
    Pow2Less(k, CELLS);
    LowInFull(CellBit(k));
  }

  /** No bit past the board is a cell of `FULL`. */
  lemma CellOffBoard(k: nat)
    requires CELLS <= k < 64
    ensures CellBit(k) & FULL == 0
  {
    CellBitValue(k);
    CellBitSingle(k);
    Pow2At42();
    Pow2Less(CELLS, k);
    HighOutFull(CellBit(k));
  }

  lemma ShiftSwap(a: bv64, b: bv64, d: bv64, e: bv64)
    ensures b == a << UP && e == d << UP && a << DOWN == d ==> b << DOWN == e
  {
  }

  /** The mask of cell 7, the first cell of the second row. */
  lemma CellBitSeven()
    ensures CellBit(0) << DOWN == CellBit(WIDTH)
  {
  }

  /** Moving a cell's mask one row down gives the mask of the cell below it. */
  lemma {:induction false} CellBitDown(k: nat)
    ensures CellBit(k) << DOWN == CellBit(k + WIDTH)
  {
    if k > 0 {
      CellBitDown(k - 1);
      CellBitStep(k);
      CellBitStep(k + WIDTH);
      ShiftSwap(CellBit(k - 1), CellBit(k), CellBit(k - 1 + WIDTH), CellBit(k + WIDTH));
    } else {
      CellBitSeven();
    }
  }

  /** The cell below a taken cell is covered once the mask is moved down a row. */
  lemma BelowCovered(t: bv64, c: nat)
    requires c + WIDTH < 64 && Bit(t, c + WIDTH)
    ensures (CellBit(c) << DOWN) & !t == 0
  {
    CellBitDown(c);
    CellNotOutside(t, c + WIDTH);
  }

  /** Below the bottom row there is no cell of the board. */
  lemma BelowBottom(c: nat)
    requires CELLS <= c + WIDTH < 64
    ensures (CellBit(c) << DOWN) & FULL == 0
  {
    CellBitDown(c);
    CellOffBoard(c + WIDTH);
  }

  /** Taking a resting cell keeps the taken cells settled. */
  lemma SettledPlace(t: bv64, c: nat)
    requires Settled(t) && Rests(t, c)
    ensures Settled(t | CellBit(c))
  {
    if c + WIDTH < CELLS {
      BelowCovered(t, c);
      CoveredOnBoard(CellBit(c) << DOWN, t);
    } else {
      BelowBottom(c);
      OffBoard(CellBit(c) << DOWN, t);
    }
    SettledOr(t, CellBit(c));
  }

  /** Taking a cell of the board keeps the taken cells on the board. */
  lemma OnBoardPlace(t: bv64, c: nat)
    requires c < CELLS && OnBoard(t)
    ensures OnBoard(t | CellBit(c))
  {
    CellOnBoard(c);
  }

  lemma OrLeft(p0: bv64, p1: bv64, m: bv64)
    ensures (p0 | m) | p1 == (p0 | p1) | m
  {
  }

  lemma OrRight(p0: bv64, p1: bv64, m: bv64)
    ensures p0 | (p1 | m) == (p0 | p1) | m
  {
  }

  lemma DisjointLeft(p0: bv64, p1: bv64, m: bv64)
    ensures p0 & p1 == 0 && m & (p0 | p1) == 0 ==> (p0 | m) & p1 == 0
  {
  }

  lemma DisjointRight(p0: bv64, p1: bv64, m: bv64)
    ensures p0 & p1 == 0 && m & (p0 | p1) == 0 ==> p0 & (p1 | m) == 0
  {
  }

  /** Player 0 taking a free cell keeps the players' masks disjoint. */
  lemma TakeDisjoint0(p0: bv64, p1: bv64, c: nat)
    requires p0 & p1 == 0 && !Bit(p0 | p1, c)
    ensures (p0 | CellBit(c)) & p1 == 0
  {
    DisjointLeft(p0, p1, CellBit(c));
  }

  /** Player 1 taking a free cell keeps the players' masks disjoint. */
  lemma TakeDisjoint1(p0: bv64, p1: bv64, c: nat)
    requires p0 & p1 == 0 && !Bit(p0 | p1, c)
    ensures p0 & (p1 | CellBit(c)) == 0
  {
    DisjointRight(p0, p1, CellBit(c));
  }

  /** Player 0 taking a resting cell keeps two masks legal. */
  lemma SoundPlace0(p0: bv64, p1: bv64, c: nat)
    requires SoundMasks(p0, p1) && Rests(p0 | p1, c)
    ensures SoundMasks(p0 | CellBit(c), p1)
  {
    SettledPlace(p0 | p1, c);
    OnBoardPlace(p0 | p1, c);
    OrLeft(p0, p1, CellBit(c));
    TakeDisjoint0(p0, p1, c);
  }

  /** Player 1 taking a resting cell keeps two masks legal. */
  lemma SoundPlace1(p0: bv64, p1: bv64, c: nat)
    requires SoundMasks(p0, p1) && Rests(p0 | p1, c)
    ensures SoundMasks(p0, p1 | CellBit(c))
  {
    SettledPlace(p0 | p1, c);
    OnBoardPlace(p0 | p1, c);
    OrRight(p0, p1, CellBit(c));
    TakeDisjoint1(p0, p1, c);
  }

  /** `Place`, spelled out for each player. */
  lemma PlaceCases(b: Board, s: Side, c: nat)
    ensures s == 0 ==> Place(b, s, c) == Board(b.p0 | CellBit(c), b.p1)
    ensures s == 1 ==> Place(b, s, c) == Board(b.p0, b.p1 | CellBit(c))
  {
  }

  lemma SoundBoard0(b: Board, c: nat)
    requires Sound(b) && Rests(Taken(b), c)
    ensures Sound(Board(b.p0 | CellBit(c), b.p1))
  {
    SoundPlace0(b.p0, b.p1, c);
  }

  lemma SoundBoard1(b: Board, c: nat)
    requires Sound(b) && Rests(Taken(b), c)
    ensures Sound(Board(b.p0, b.p1 | CellBit(c)))
  {
    SoundPlace1(b.p0, b.p1, c);
  }

  /** Taking a resting cell keeps a board legal. */
  lemma SoundPlace(b: Board, s: Side, c: nat)
    requires Sound(b) && Rests(Taken(b), c)
    ensures Sound(Place(b, s, c))
  {
    PlaceCases(b, s, c);
    SoundBoard0(b, c);
    SoundBoard1(b, c);
  }

  lemma TakenBoard0(b: Board, c: nat)
    ensures Taken(Board(b.p0 | CellBit(c), b.p1)) == Taken(b) | CellBit(c)
  {
    OrLeft(b.p0, b.p1, CellBit(c));
  }

  lemma TakenBoard1(b: Board, c: nat)
    ensures Taken(Board(b.p0, b.p1 | CellBit(c))) == Taken(b) | CellBit(c)
  {
    OrRight(b.p0, b.p1, CellBit(c));
  }

  lemma TakenPlace0(b: Board, c: nat)
    ensures Taken(Place(b, 0, c)) == Taken(b) | CellBit(c)
  {
    PlaceCases(b, 0, c);
    TakenBoard0(b, c);
  }

  lemma TakenPlace1(b: Board, c: nat)
    ensures Taken(Place(b, 1, c)) == Taken(b) | CellBit(c)
  {
    PlaceCases(b, 1, c);
    TakenBoard1(b, c);
  }

  /** Placing a piece adds exactly its cell to the taken cells. */
  lemma TakenPlace(b: Board, s: Side, c: nat)
    ensures Taken(Place(b, s, c)) == Taken(b) | CellBit(c)
  {
    if s == 0 {
      TakenPlace0(b, c);
    } else {
      TakenPlace1(b, c);
    }
  }

  /** A piece dropped into an accepting column comes to rest. */
  lemma LandingRests(t: bv64, play: nat)
    requires ValidPlay(t, play)
    ensures Rests(t, Landing(t, play))
  {
    LandingFree(t, play);
  }

  /** Taking the landing cell of an accepting column keeps a board legal. */
  lemma PlaySound(b: Board, s: Side, play: nat)
    requires Sound(b) && ValidPlay(Taken(b), play)
    ensures Sound(Place(b, s, Landing(Taken(b), play)))
    ensures Taken(Place(b, s, Landing(Taken(b), play))) == Taken(b) | CellBit(Landing(Taken(b), play))
  {
    LandingRests(Taken(b), play);
    SoundPlace(b, s, Landing(Taken(b), play));
    TakenPlace(b, s, Landing(Taken(b), play));
  }

  /** On a legal board that is not full, some column accepts a piece. */
  lemma SomeColumnOpen(b: Board)
    requires Sound(b) && Taken(b) != FULL
    ensures exists play :: 0 <= play < WIDTH && ValidPlay(Taken(b), play)
  {
    var t := Taken(b);
    if !ValidPlay(t, 0) && !ValidPlay(t, 1) && !ValidPlay(t, 2) && !ValidPlay(t, 3)
       && !ValidPlay(t, 4) && !ValidPlay(t, 5) && !ValidPlay(t, 6)
    {
      TopBits(t);
      TopRow(t);
    }
  }

  /** The seven top cells are the low seven bits. */
  lemma TopBits(t: bv64)
    ensures (Bit(t, 0) && Bit(t, 1) && Bit(t, 2) && Bit(t, 3) && Bit(t, 4)
             && Bit(t, 5) && Bit(t, 6)) ==> t & TOP_ROW == TOP_ROW
  {
    assert CellBit(6) == 0x40;
  }

  // Counting the free cells: the measure that makes a random game finish.

  /** Which of the 42 cells mask `t` holds, cell by cell. */
  function Occupancy(t: bv64): (occ: seq<bool>)
    ensures |occ| == CELLS
    ensures forall k :: 0 <= k < CELLS ==> (occ[k] <==> Bit(t, k))
  {
    seq(CELLS, k requires 0 <= k < CELLS => Bit(t, k))
  }

  /** The number of `false` entries: free cells. */
  function FreeCount(occ: seq<bool>): (n: nat)
    ensures n <= |occ|
  {
    if |occ| == 0 then 0
    else (if occ[0] then 0 else 1) + FreeCount(occ[1..])
  }

  /** Setting a `false` entry to `true` removes exactly one free cell. */
  lemma {:induction false} FreeCountSet(occ: seq<bool>, c: nat)
    requires c < |occ| && !occ[c]
    ensures FreeCount(occ[c := true]) == FreeCount(occ) - 1
  {
    if c > 0 {
      assert occ[c := true][1..] == occ[1..][c - 1 := true];
      FreeCountSet(occ[1..], c - 1);
    } else {
      assert occ[c := true][1..] == occ[1..];
    }
  }

  /** The number of free cells on the board. */
  function EmptyCount(t: bv64): nat
  {
    FreeCount(Occupancy(t))
  }

  /** After taking cell `c`, a cell is taken when it was before or is `c`. */
  lemma BitOfOrCell(t: bv64, c: nat, k: nat)
    requires c < 64 && k < 64
    ensures Bit(t | CellBit(c), k) <==> Bit(t, k) || k == c
  {
    BitOfOr(t, CellBit(c), k);
    BitOfCellBit(c, k);
  }

  /** Taking cell `c` sets exactly entry `c` of the occupancy. */
  lemma OccupancyPlace(t: bv64, c: nat)
    requires c < CELLS
    ensures Occupancy(t | CellBit(c)) == Occupancy(t)[c := true]
  {
    var before := Occupancy(t);
    var after := Occupancy(t | CellBit(c));
    forall k | 0 <= k < CELLS
      ensures after[k] == before[c := true][k]
    {
      BitOfOrCell(t, c, k);
    }
  }

  /** Taking one free cell leaves one free cell fewer. */
  lemma FillOne(t: bv64, c: nat)
    requires c < CELLS && !Bit(t, c)
    ensures EmptyCount(t | CellBit(c)) == EmptyCount(t) - 1
  {
    OccupancyPlace(t, c);
    FreeCountSet(Occupancy(t), c);
  }

  /** A piece placed on a free cell leaves one free cell fewer. */
  lemma FillPlace(b: Board, s: Side, c: nat)
    requires c < CELLS && !Bit(Taken(b), c)
    ensures EmptyCount(Taken(Place(b, s, c))) == EmptyCount(Taken(b)) - 1
  {
    TakenPlace(b, s, c);
    FillOne(Taken(b), c);
  }

  /** A piece dropped into an accepting column leaves one free cell fewer. */
  lemma PlayFills(b: Board, s: Side, play: nat)
    requires ValidPlay(Taken(b), play)
    ensures EmptyCount(Taken(Place(b, s, Landing(Taken(b), play))))
         == EmptyCount(Taken(b)) - 1
  {
    LandingFree(Taken(b), play);
    FillPlace(b, s, Landing(Taken(b), play));
  }

  /** Both players' stones together are the taken cells. */
  lemma MasksTaken(b: Board, s: Side)
    ensures Mask(b, s) | Mask(b, Other(s)) == Taken(b)
  {
    if s == 1 {
      assert b.p1 | b.p0 == b.p0 | b.p1;
    }
  }

  lemma MasksNamed(b: Board, s: Side, who: bv64, opponent: bv64)
    requires who == Mask(b, s) && opponent == Mask(b, Other(s))
    ensures who | opponent == Taken(b)
  {
    MasksTaken(b, s);
  }

  lemma FullOr(t: bv64, who: bv64, opponent: bv64)
    requires who | opponent == t
    ensures who | opponent == FULL <==> t == FULL
  {
  }

  /** The board is full exactly when the two players' stones fill it. */
  lemma FullWhenTaken(b: Board, s: Side, who: bv64, opponent: bv64)
    requires who == Mask(b, s) && opponent == Mask(b, Other(s))
    ensures who | opponent == FULL <==> Taken(b) == FULL
  {
    MasksNamed(b, s, who, opponent);
    FullOr(Taken(b), who, opponent);
  }
}
