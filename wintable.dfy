/**
  The table of winning windows (`connect4_startup`) and the win test
  that reads it (`connect4_check`).

  For every cell (x, y) the builder walks the eight directions of the
  `delta` table and, in each, the four windows of four consecutive points
  that contain the cell (point offsets `s .. s + 3` with `-3 <= s <= 0`),
  keeping the mask of every window that lies wholly on the board.  Each
  line through a cell is found twice, once from each of two opposite
  directions.  A row of the table here is an unbounded sequence: an
  interior cell has up to 26 windows, more than the 16 slots the source
  gives a row (see `OverflowAtCell17`).
*/
module WinTable {
  import opened Bits
  import opened Board

  /** A direction: an index into the source's `delta` table. */
  type Dir = d: int | 0 <= d < 8

  /** The column step of direction `d`. */
  function DX(d: Dir): int
  {
    if d < 3 then -1 else if d < 5 then 0 else 1
  }

  /** The row step of direction `d`. */
  function DY(d: Dir): int
  {
    if d == 1 || d == 6 then 0 else if d == 0 || d == 4 || d == 7 then -1 else 1
  }

  /** The source's `delta` table, which holds direction `d` at `2d` and `2d + 1`. */
  const DELTA: seq<int> := [-1, -1, -1, 0, -1, 1, 0, 1, 0, -1, 1, 1, 1, 0, 1, -1]

  /** `DX` and `DY` read the `delta` table. */
  lemma DeltaTable(d: Dir)
    ensures DELTA[2 * d] == DX(d) && DELTA[2 * d + 1] == DY(d)
  {
  }

  /** The opposite direction: the second half of the table mirrors the first. */
  function Mirror(d: Dir): (m: Dir)
    ensures DX(m) == -DX(d) && DY(m) == -DY(d)
    ensures d >= 4 ==> m < 4
  {
    if d < 3 then d + 5 else if d == 3 then 4 else if d == 4 then 3 else d - 5
  }

  /** The column and row of cell `c`. */
  function ColOf(c: nat): nat { c % WIDTH }
  function RowOf(c: nat): nat { c / WIDTH }

  /** Column `xx`, row `yy` lies on the board. */
  predicate OnGrid(xx: int, yy: int)
  {
    0 <= xx < WIDTH && 0 <= yy < HEIGHT
  }

  /** Cell (x, y) has index `y * WIDTH + x`. */
  lemma CellCoords(x: nat, y: nat)
    requires x < WIDTH
    ensures ColOf(y * WIDTH + x) == x && RowOf(y * WIDTH + x) == y
  {
  }

  // The points of a window: point `p` of the line through (x, y) in
  // direction `d` is (x + DX(d) * p, y + DY(d) * p).

  predicate PointOn(x: int, y: int, d: Dir, p: int)
  {
    OnGrid(x + DX(d) * p, y + DY(d) * p)
  }

  /** The index of point `p`, meaningful when it is on the board. */
  function PointCell(x: int, y: int, d: Dir, p: int): int
  {
    (y + DY(d) * p) * WIDTH + (x + DX(d) * p)
  }

  /** Mask `m` with cell `k` added (the source's `m |= UINT64_C(1) << k`). */
  function AddCell(m: bv64, k: nat): bv64
  {
    m | CellBit(k)
  }

  /** The mask of points `s .. q - 1` of the line that lie on the board. */
  function PartialMask(x: int, y: int, d: Dir, s: int, q: int): bv64
    decreases q - s
  {
    if q <= s then 0
    else if PointOn(x, y, d, q - 1) then AddCell(PartialMask(x, y, d, s, q - 1), PointCell(x, y, d, q - 1))
    else PartialMask(x, y, d, s, q - 1)
  }

  /** Points `s .. q - 1` of the line are all on the board. */
  predicate PartialValid(x: int, y: int, d: Dir, s: int, q: int)
    decreases q - s
  {
    q <= s || (PartialValid(x, y, d, s, q - 1) && PointOn(x, y, d, q - 1))
  }

  /** Window (d, s) through (x, y): its four points, offsets `s .. s + 3`. */
  function WindowMask(x: int, y: int, d: Dir, s: int): bv64
  {
    PartialMask(x, y, d, s, s + 4)
  }

  /** Window (d, s) lies wholly on the board. */
  predicate Valid(x: int, y: int, d: Dir, s: int)
  {
    PartialValid(x, y, d, s, s + 4)
  }

  /** The window visited `k`-th (`d = k / 4`, `s = k % 4 - 3`). */
  function DirOf(k: nat): Dir
    requires k < VISITS
  {
    k / 4
  }

  function OffsetOf(k: nat): int
  {
    k % 4 - 3
  }

  /** The number of windows the builder visits for each cell: 8 directions, 4 offsets. */
  const VISITS: nat := 32

  /** The masks the builder keeps for (x, y) among the first `k` windows it visits. */
  function WindowsUpTo(x: int, y: int, k: nat): (ws: seq<bv64>)
    requires k <= VISITS
    ensures |ws| <= k
  {
    if k == 0 then []
    else WindowsUpTo(x, y, k - 1)
         + (if Valid(x, y, DirOf(k - 1), OffsetOf(k - 1))
            then [WindowMask(x, y, DirOf(k - 1), OffsetOf(k - 1))] else [])
  }

  /** The full list of windows of cell `c`: its row of the table. */
  function Windows(c: nat): seq<bv64>
    requires c < CELLS
  {
    WindowsUpTo(ColOf(c), RowOf(c), VISITS)
  }

  /** One more window visited: direction `d`, offset `s`. */
  lemma WindowsUpToStep(x: int, y: int, d: Dir, s: int, k: nat, mask: bv64, valid: bool)
    requires -3 <= s <= 0 && k == 4 * d + s + 3
    requires mask == WindowMask(x, y, d, s) && valid == Valid(x, y, d, s)
    ensures valid ==> WindowsUpTo(x, y, k + 1) == WindowsUpTo(x, y, k) + [mask]
    ensures !valid ==> WindowsUpTo(x, y, k + 1) == WindowsUpTo(x, y, k)
  {
    assert DirOf(k) == d && OffsetOf(k) == s;
  }

  // Building the table.

  /** The innermost loop: the mask of window (d, s) and whether it is on the board. */
  method BuildWindow(x: int, y: int, d: Dir, s: int) returns (mask: bv64, valid: bool)
    ensures mask == WindowMask(x, y, d, s)
    ensures valid == Valid(x, y, d, s)
  {
    mask := 0;
    valid := true;
    var p := s;
    while p < s + 4
      invariant s <= p <= s + 4
      invariant mask == PartialMask(x, y, d, s, p)
      invariant valid == PartialValid(x, y, d, s, p)
    {
      var xx := x + DX(d) * p;
      var yy := y + DY(d) * p;
      var shift: int := yy * WIDTH + xx;
      if xx < 0 || xx >= WIDTH || yy < 0 || yy >= HEIGHT {
        valid := false;
      } else {
        mask := AddCell(mask, shift);
      }
      p := p + 1;
    }
  }

  /** One pass of the offset loop: window (d, s) is stored when it is on the board. */
  method VisitWindow(x: nat, y: nat, d: Dir, s: int, row: seq<bv64>, ghost k: nat) returns (row': seq<bv64>)
    requires -3 <= s <= 0 && k == 4 * d + s + 3 && row == WindowsUpTo(x, y, k)
    ensures row' == WindowsUpTo(x, y, k + 1)
  {
    var mask, valid := BuildWindow(x, y, d, s);
    WindowsUpToStep(x, y, d, s, k, mask, valid);
    row' := row;
    if valid {
      row' := row + [mask];
    }
  }

  /**
    The loops over directions and offsets for cell (x, y): the masks the
    source stores in the cell's row, in order (`i` is `|row|`).
  */
  method BuildRow(x: nat, y: nat) returns (row: seq<bv64>)
    ensures row == WindowsUpTo(x, y, VISITS)
  {
    row := [];
    ghost var k := 0;
    var d := 0;
    while d < 8
      invariant 0 <= d <= 8 && k == 4 * d
      invariant row == WindowsUpTo(x, y, k)
    {
      var s := -3;
      while s <= 0
        invariant -3 <= s <= 1 && k == 4 * d + s + 3
        invariant row == WindowsUpTo(x, y, k)
      {
        row := VisitWindow(x, y, d, s, row, k);
        k := k + 1;
        s := s + 1;
      }
      d := d + 1;
    }
  }

  /** The rows of cells `0 .. k - 1`, in cell order. */
  function TableUpTo(k: nat): (t: seq<seq<bv64>>)
    requires k <= CELLS
    ensures |t| == k
  {
    seq(k, c requires 0 <= c < k => Windows(c))
  }

  /** Appending the row of cell (x, y) extends the table by one cell. */
  lemma TableStep(table: seq<seq<bv64>>, row: seq<bv64>, x: nat, y: nat, n: nat)
    requires x < WIDTH && y < HEIGHT && n == y * WIDTH + x
    requires row == WindowsUpTo(x, y, VISITS) && table == TableUpTo(n)
    ensures table + [row] == TableUpTo(n + 1)
  {
    CellCoords(x, y);
    var longer := TableUpTo(n + 1);
    forall c | 0 <= c <= n
      ensures (table + [row])[c] == longer[c]
    {
      assert longer[c] == Windows(c);
      if c < n {
        assert (table + [row])[c] == table[c] == Windows(c);
      } else {
        assert (table + [row])[c] == row;
      }
    }
  }

  /**
    `connect4_startup`: the loops over rows and columns of the board.  The
    table is returned as a value: it is written once, before any search.
  */
  method Startup() returns (table: seq<seq<bv64>>)
    ensures |table| == CELLS
    ensures forall c :: 0 <= c < CELLS ==> table[c] == Windows(c)
  {
    table := [];
    ghost var n := 0;
    var y := 0;
    while y < HEIGHT
      invariant 0 <= y <= HEIGHT && n == y * WIDTH
      invariant table == TableUpTo(n)
    {
      var x := 0;
      while x < WIDTH
        invariant 0 <= x <= WIDTH && n == y * WIDTH + x
        invariant table == TableUpTo(n)
      {
        var row := BuildRow(x, y);
        TableStep(table, row, x, y, n);
        table := table + [row];
        n := n + 1;
        x := x + 1;
      }
      y := y + 1;
    }
  }

  // What a window means: its cells, and when a player holds all of them.

  /** Mask `w` holds every cell of mask `m`. */
  predicate Covers(m: bv64, w: bv64)
  {
    m & w == m
  }

  lemma CoversOrLeft(m: bv64, b: bv64, w: bv64)
    ensures (m | b) & w == m | b ==> m & w == m
  {
  }

  lemma CoversOrRight(m: bv64, b: bv64, w: bv64)
    ensures (m | b) & w == m | b ==> b & w == b
  {
  }

  lemma CoversOrBoth(m: bv64, b: bv64, w: bv64)
    ensures m & w == m && b & w == b ==> (m | b) & w == m | b
  {
  }

  lemma CoversOrPure(m: bv64, b: bv64, w: bv64)
    ensures (m | b) & w == m | b <==> m & w == m && b & w == b
  {
    CoversOrLeft(m, b, w);
    CoversOrRight(m, b, w);
    CoversOrBoth(m, b, w);
  }

  lemma CoversZeroPure(w: bv64, z: bv64)
    ensures z == 0 ==> z & w == z
  {
  }

  lemma NonZeroPure(x: bv64, c: bv64)
    ensures c & x != 0 ==> x != 0
  {
  }

  lemma CoversOrCell(m: bv64, c: nat, w: bv64)
    ensures (m | CellBit(c)) & w == m | CellBit(c) <==> m & w == m && CellBit(c) & w == CellBit(c)
  {
    CoversOrPure(m, CellBit(c), w);
  }

  lemma CoversAddCellOnly(m: bv64, c: nat, w: bv64)
    requires c < 64
    ensures Covers(AddCell(m, c), w) ==> Covers(m, w) && Bit(w, c)
  {
    CoversOrCell(m, c, w);
    CoversCell(w, c);
  }

  lemma CoversAddCellIf(m: bv64, c: nat, w: bv64)
    requires c < 64
    ensures Covers(m, w) && Bit(w, c) ==> Covers(AddCell(m, c), w)
  {
    CoversOrCell(m, c, w);
    CoversCell(w, c);
  }

  /** Adding cell `c` to a mask: `w` covers the result when it covers the mask and holds `c`. */
  lemma CoversAddCell(m: bv64, c: nat, w: bv64)
    requires c < 64
    ensures Covers(AddCell(m, c), w) <==> Covers(m, w) && Bit(w, c)
  {
    CoversAddCellOnly(m, c, w);
    CoversAddCellIf(m, c, w);
  }

  /** A mask holding some cell is not zero. */
  lemma NonZeroOfBit(x: bv64, k: nat)
    ensures Bit(x, k) ==> x != 0
  {
    NonZeroPure(x, CellBit(k));
  }

  /** The cell of a point on the board is one of the 42 cells. */
  lemma PointCellOnBoard(x: int, y: int, d: Dir, p: int)
    requires PointOn(x, y, d, p)
    ensures 0 <= PointCell(x, y, d, p) < CELLS
  {
  }

  /** All points `s .. q - 1` of the line belong to player mask `w`. */
  predicate HoldsPoints(x: int, y: int, d: Dir, s: int, q: int, w: bv64)
  {
    forall p :: s <= p < q ==> PointOn(x, y, d, p) && Bit(w, PointCell(x, y, d, p))
  }

  /** On the board, `w` covers the partial mask exactly when it holds each of its points. */
  lemma {:induction false} CoversPartial(x: int, y: int, d: Dir, s: int, q: int, w: bv64)
    requires s <= q && PartialValid(x, y, d, s, q)
    ensures Covers(PartialMask(x, y, d, s, q), w) <==> HoldsPoints(x, y, d, s, q, w)
    decreases q - s
  {
    if q == s {
      CoversZeroPure(w, PartialMask(x, y, d, s, q));
    } else {
      CoversPartial(x, y, d, s, q - 1, w);
      PointCellOnBoard(x, y, d, q - 1);
      CoversAddCell(PartialMask(x, y, d, s, q - 1), PointCell(x, y, d, q - 1), w);
    }
  }

  /** On the board, a partial mask holds the cell of its last point. */
  lemma LastPointIn(x: int, y: int, d: Dir, s: int, q: int)
    requires s < q && PartialValid(x, y, d, s, q)
    ensures Bit(PartialMask(x, y, d, s, q), PointCell(x, y, d, q - 1))
  {
    var c := PointCell(x, y, d, q - 1);
    PointCellOnBoard(x, y, d, q - 1);
    BitOfOr(PartialMask(x, y, d, s, q - 1), CellBit(c), c);
    BitOfCellBit(c, c);
  }

  /** A player completes a window: its mask is nonzero and the player holds all of it. */
  predicate Completes(mask: bv64, who: bv64)
  {
    mask != 0 && Covers(mask, who)
  }

  /**
    A window on the board is completed by `who` exactly when `who` holds
    each of its four points; the own cell of (x, y) is one of them.
  */
  lemma CompletesWindow(x: int, y: int, d: Dir, s: int, who: bv64)
    requires Valid(x, y, d, s)
    ensures Completes(WindowMask(x, y, d, s), who) <==> HoldsPoints(x, y, d, s, s + 4, who)
  {
    CoversPartial(x, y, d, s, s + 4, who);
    LastPointIn(x, y, d, s, s + 4);
    NonZeroOfBit(WindowMask(x, y, d, s), PointCell(x, y, d, s + 3));
  }

  /** `PartialValid` says each point of the range is on the board. */
  lemma {:induction false} PartialValidAll(x: int, y: int, d: Dir, s: int, q: int)
    requires s <= q
    ensures PartialValid(x, y, d, s, q) <==> forall p :: s <= p < q ==> PointOn(x, y, d, p)
    decreases q - s
  {
    if q > s {
      PartialValidAll(x, y, d, s, q - 1);
    }
  }

  // Lines through a cell, defined without the table.

  /** The four points `s .. s + 3` of direction `d` through (x, y) are on the board and held by `who`. */
  predicate LineAt(x: int, y: int, d: Dir, s: int, who: bv64)
  {
    HoldsPoints(x, y, d, s, s + 4, who)
  }

  /** `who` has four in a row through (x, y), in any direction. */
  predicate LineThrough(x: int, y: int, who: bv64)
  {
    exists d: Dir, s: int :: -3 <= s <= 0 && LineAt(x, y, d, s, who)
  }

  /** A line through (x, y) holds the cell (x, y) itself. */
  lemma LineHoldsOwnCell(x: int, y: int, d: Dir, s: int, who: bv64)
    requires -3 <= s <= 0 && LineAt(x, y, d, s, who)
    ensures OnGrid(x, y) && Bit(who, y * WIDTH + x)
  {
    assert PointOn(x, y, d, 0) && Bit(who, PointCell(x, y, d, 0));
  }

  /** Point `p` in direction `Mirror(d)` is point `q == -p` in direction `d`. */
  lemma MirrorPoint(x: int, y: int, d: Dir, p: int, q: int)
    requires q == -p
    ensures PointOn(x, y, Mirror(d), p) <==> PointOn(x, y, d, q)
    ensures PointCell(x, y, Mirror(d), p) == PointCell(x, y, d, q)
  {
    var m := Mirror(d);
    assert DX(m) * p == DX(d) * q;
    assert DY(m) * p == DY(d) * q;
  }

  /** The same line read in the opposite direction, from the other end. */
  lemma MirrorLine(x: int, y: int, d: Dir, s: int, who: bv64)
    requires -3 <= s <= 0
    ensures LineAt(x, y, Mirror(d), -3 - s, who) <==> LineAt(x, y, d, s, who)
  {
    if LineAt(x, y, Mirror(d), -3 - s, who) {
      forall p | s <= p < s + 4
        ensures PointOn(x, y, d, p) && Bit(who, PointCell(x, y, d, p))
      {
        MirrorPoint(x, y, d, -p, p);
      }
    }
    if LineAt(x, y, d, s, who) {
      forall p | -3 - s <= p < 1 - s
        ensures PointOn(x, y, Mirror(d), p) && Bit(who, PointCell(x, y, Mirror(d), p))
      {
        MirrorPoint(x, y, d, p, -p);
      }
    }
  }

  /** A line in the second half of the directions is also a line in the first half. */
  lemma LineInFirstHalf(x: int, y: int, d: Dir, s: int, who: bv64)
    requires -3 <= s <= 0 && LineAt(x, y, d, s, who)
    ensures exists d': Dir, s' :: d' < 4 && -3 <= s' <= 0 && LineAt(x, y, d', s', who)
  {
    if d >= 4 {
      MirrorLine(x, y, d, s, who);
      assert LineAt(x, y, Mirror(d), -3 - s, who);
    }
  }

  // The rows of the table: which masks they hold, and in which order.

  /** The window visited `j`-th, when on the board, is among the first `k > j` masks kept. */
  lemma {:induction false} KeptWindow(x: int, y: int, j: nat, k: nat)
    requires j < k <= VISITS && Valid(x, y, DirOf(j), OffsetOf(j))
    ensures WindowMask(x, y, DirOf(j), OffsetOf(j)) in WindowsUpTo(x, y, k)
  {
    if j < k - 1 {
      KeptWindow(x, y, j, k - 1);
    }
  }

  /** Every mask kept among the first `k` visits is a window on the board. */
  lemma {:induction false} KeptIsWindow(x: int, y: int, k: nat, m: bv64)
    requires k <= VISITS && m in WindowsUpTo(x, y, k)
    ensures exists j :: 0 <= j < k && Valid(x, y, DirOf(j), OffsetOf(j)) && m == WindowMask(x, y, DirOf(j), OffsetOf(j))
  {
    var j := k - 1;
    if m !in WindowsUpTo(x, y, k - 1) {
      assert Valid(x, y, DirOf(j), OffsetOf(j)) && m == WindowMask(x, y, DirOf(j), OffsetOf(j));
    } else {
      KeptIsWindow(x, y, k - 1, m);
    }
  }

  /** The masks kept in the first `k` visits come first in the row. */
  lemma {:induction false} KeptPrefix(x: int, y: int, k: nat, k': nat)
    requires k <= k' <= VISITS
    ensures WindowsUpTo(x, y, k) <= WindowsUpTo(x, y, k')
    decreases k'
  {
    if k < k' {
      KeptPrefix(x, y, k, k' - 1);
    }
  }

  /** A line through (x, y) shows up among the masks kept in the first 16 visits. */
  lemma LineKeptEarly(x: int, y: int, who: bv64)
    requires LineThrough(x, y, who)
    ensures exists m :: m in WindowsUpTo(x, y, SLOTS) && Completes(m, who)
  {
    var d0: Dir, s0 :| -3 <= s0 <= 0 && LineAt(x, y, d0, s0, who);
    LineInFirstHalf(x, y, d0, s0, who);
    var d: Dir, s :| d < 4 && -3 <= s <= 0 && LineAt(x, y, d, s, who);
    var j := 4 * d + s + 3;
    assert DirOf(j) == d && OffsetOf(j) == s;
    PartialValidAll(x, y, d, s, s + 4);
    KeptWindow(x, y, j, SLOTS);
    CompletesWindow(x, y, d, s, who);
  }

  // The win test.

  /** The source's `connect4_result`. */
  datatype Outcome = Unresolved | Draw | Win

  /** The number of slots of a row that the win test reads. */
  const SLOTS: nat := 16

  /** Slot `i` of a row: its `i`-th mask, or zero past its masks (the table starts zeroed). */
  function Entry(row: seq<bv64>, i: nat): bv64
  {
    if i < |row| then row[i] else 0
  }

  /** Some slot of `row` the win test reads holds a window `who` completes. */
  predicate WinsIn(row: seq<bv64>, who: bv64)
  {
    exists i :: 0 <= i < SLOTS && Completes(Entry(row, i), who)
  }

  /**
    `connect4_check`: scans the first 16 slots of the row of `position`
    for a window `who` completes, reporting the first such window in `how`;
    otherwise reports a draw exactly when the two players fill the board.
  */
  method Check(table: seq<seq<bv64>>, who: bv64, opponent: bv64, position: nat)
    returns (result: Outcome, how: bv64)
    requires position < |table|
    ensures result == Win <==> WinsIn(table[position], who)
    ensures result == Win ==>
      exists i :: 0 <= i < SLOTS && how == Entry(table[position], i) && Completes(how, who)
        && forall j :: 0 <= j < i ==> !Completes(Entry(table[position], j), who)
    ensures result != Win ==> how == 0
    ensures result == Draw <==> result != Win && who | opponent == FULL
  {
    var row := table[position];
    var i := 0;
    while i < SLOTS
      invariant 0 <= i <= SLOTS
      invariant forall j :: 0 <= j < i ==> !Completes(Entry(row, j), who)
    {
      var mask := Entry(row, i);
      if Completes(mask, who) {
        return Win, mask;
      }
      i := i + 1;
    }
    how := 0;
    if who | opponent == FULL {
      return Draw, how;
    }
    return Unresolved, how;
  }

  /** A mask covers itself. */
  lemma CoversSelf(m: bv64)
    ensures Covers(m, m)
  {
  }

  /** A window on the board holds each of its points, point 0 among them. */
  lemma WindowHoldsOrigin(x: int, y: int, d: Dir, s: int)
    requires -3 <= s <= 0 && Valid(x, y, d, s)
    ensures 0 <= PointCell(x, y, d, 0) < CELLS
    ensures Bit(WindowMask(x, y, d, s), PointCell(x, y, d, 0))
  {
    var m := WindowMask(x, y, d, s);
    PartialValidAll(x, y, d, s, s + 4);
    PointCellOnBoard(x, y, d, 0);
    CoversSelf(m);
    CoversPartial(x, y, d, s, s + 4, m);
    assert s <= 0 < s + 4;
  }

  /**
    Every mask in the row of cell `c` is a window of four cells on the
    board, and the cell `c` itself is one of them: a mask in the row of
    the cell just played can only be completed with that move.
  */
  lemma WindowHoldsCell(c: nat, m: bv64)
    requires c < CELLS && m in Windows(c)
    ensures Bit(m, c)
    ensures exists d: Dir, s: int :: -3 <= s <= 0 && Valid(ColOf(c), RowOf(c), d, s) && m == WindowMask(ColOf(c), RowOf(c), d, s)
  {
    var x, y := ColOf(c), RowOf(c);
    KeptIsWindow(x, y, VISITS, m);
    var j :| 0 <= j < VISITS && Valid(x, y, DirOf(j), OffsetOf(j)) && m == WindowMask(x, y, DirOf(j), OffsetOf(j));
    WindowHoldsOrigin(x, y, DirOf(j), OffsetOf(j));
    assert PointCell(x, y, DirOf(j), 0) == c;
  }

  /** A completed window in a slot of the row is a line through the cell. */
  lemma WinIsLine(c: nat, who: bv64)
    requires c < CELLS && WinsIn(Windows(c), who)
    ensures LineThrough(ColOf(c), RowOf(c), who)
  {
    var x, y := ColOf(c), RowOf(c);
    var row := Windows(c);
    var i :| 0 <= i < SLOTS && Completes(Entry(row, i), who);
    assert i < |row|;
    KeptIsWindow(x, y, VISITS, row[i]);
    var j :| 0 <= j < VISITS && Valid(x, y, DirOf(j), OffsetOf(j)) && row[i] == WindowMask(x, y, DirOf(j), OffsetOf(j));
    CompletesWindow(x, y, DirOf(j), OffsetOf(j), who);
    assert LineAt(x, y, DirOf(j), OffsetOf(j), who);
  }

  /** A line through the cell is a completed window in one of the 16 slots read. */
  lemma LineIsWin(c: nat, who: bv64)
    requires c < CELLS && LineThrough(ColOf(c), RowOf(c), who)
    ensures WinsIn(Windows(c), who)
  {
    var x, y := ColOf(c), RowOf(c);
    LineKeptEarly(x, y, who);
    var m :| m in WindowsUpTo(x, y, SLOTS) && Completes(m, who);
    KeptPrefix(x, y, SLOTS, VISITS);
    var i :| 0 <= i < |WindowsUpTo(x, y, SLOTS)| && WindowsUpTo(x, y, SLOTS)[i] == m;
    assert Entry(Windows(c), i) == m;
  }

  /**
    The win test sees every line: although the row of a cell may hold
    more masks than the 16 slots it reads, those slots report a completed
    window exactly when `who` has four in a row through the cell.
  */
  lemma CheckSeesEveryLine(c: nat, who: bv64)
    requires c < CELLS
    ensures WinsIn(Windows(c), who) <==> LineThrough(ColOf(c), RowOf(c), who)
  {
    if WinsIn(Windows(c), who) {
      WinIsLine(c, who);
    }
    if LineThrough(ColOf(c), RowOf(c), who) {
      LineIsWin(c, who);
    }
  }

  // How many masks a row receives, and the overflow of the 16-slot rows.

  /** The number of windows on the board among the first `k` visits of (x, y). */
  function ValidCount(x: int, y: int, k: nat): nat
    requires k <= VISITS
  {
    if k == 0 then 0
    else ValidCount(x, y, k - 1) + (if Valid(x, y, DirOf(k - 1), OffsetOf(k - 1)) then 1 else 0)
  }

  /** The builder keeps one mask per window on the board. */
  lemma {:induction false} KeptCount(x: int, y: int, k: nat)
    requires k <= VISITS
    ensures |WindowsUpTo(x, y, k)| == ValidCount(x, y, k)
  {
    if k > 0 {
      KeptCount(x, y, k - 1);
    }
  }

  /** Direction 0 contributes 3 windows to cell (3, 2). */
  lemma Cell17Dir0()
    ensures ValidCount(3, 2, 4) == ValidCount(3, 2, 0) + 3
  {
    assert Valid(3, 2, 0, -3);
    assert Valid(3, 2, 0, -2);
    assert Valid(3, 2, 0, -1);
    assert !Valid(3, 2, 0, 0);
  }

  /** Direction 1 contributes 4 windows to cell (3, 2). */
  lemma Cell17Dir1()
    ensures ValidCount(3, 2, 8) == ValidCount(3, 2, 4) + 4
  {
    assert Valid(3, 2, 1, -3);
    assert Valid(3, 2, 1, -2);
    assert Valid(3, 2, 1, -1);
    assert Valid(3, 2, 1, 0);
  }

  /** Direction 2 contributes 3 windows to cell (3, 2). */
  lemma Cell17Dir2()
    ensures ValidCount(3, 2, 12) == ValidCount(3, 2, 8) + 3
  {
    assert !Valid(3, 2, 2, -3);
    assert Valid(3, 2, 2, -2);
    assert Valid(3, 2, 2, -1);
    assert Valid(3, 2, 2, 0);
  }

  /** Direction 3 contributes 3 windows to cell (3, 2). */
  lemma Cell17Dir3()
    ensures ValidCount(3, 2, 16) == ValidCount(3, 2, 12) + 3
  {
    assert !Valid(3, 2, 3, -3);
    assert Valid(3, 2, 3, -2);
    assert Valid(3, 2, 3, -1);
    assert Valid(3, 2, 3, 0);
  }

  /** Direction 4 contributes 3 windows to cell (3, 2). */
  lemma Cell17Dir4()
    ensures ValidCount(3, 2, 20) == ValidCount(3, 2, 16) + 3
  {
    assert Valid(3, 2, 4, -3);
    assert Valid(3, 2, 4, -2);
    assert Valid(3, 2, 4, -1);
    assert !Valid(3, 2, 4, 0);
  }

  /** Direction 5 contributes 3 windows to cell (3, 2). */
  lemma Cell17Dir5()
    ensures ValidCount(3, 2, 24) == ValidCount(3, 2, 20) + 3
  {
    assert !Valid(3, 2, 5, -3);
    assert Valid(3, 2, 5, -2);
    assert Valid(3, 2, 5, -1);
    assert Valid(3, 2, 5, 0);
  }

  /** Direction 6 contributes 4 windows to cell (3, 2). */
  lemma Cell17Dir6()
    ensures ValidCount(3, 2, 28) == ValidCount(3, 2, 24) + 4
  {
    assert Valid(3, 2, 6, -3);
    assert Valid(3, 2, 6, -2);
    assert Valid(3, 2, 6, -1);
    assert Valid(3, 2, 6, 0);
  }

  /** Direction 7 contributes 3 windows to cell (3, 2). */
  lemma Cell17Dir7()
    ensures ValidCount(3, 2, 32) == ValidCount(3, 2, 28) + 3
  {
    assert Valid(3, 2, 7, -3);
    assert Valid(3, 2, 7, -2);
    assert Valid(3, 2, 7, -1);
    assert !Valid(3, 2, 7, 0);
  }

  /**
    Where the store `connect4_wins[c][i]` lands in the table's contiguous
    storage of 42 rows of 16 slots: slot `i` past the row's end is a slot
    of a later row.
  */
  function SlotOf(c: nat, i: nat): nat
  {
    c * SLOTS + i
  }

  /**
    Cell 17, (3, 2), lies on 26 windows, each stored from both of its
    directions: its row receives 26 masks for 16 slots, and the 17th store
    lands in the first slot of row 18.
  */
  lemma OverflowAtCell17()
    ensures |Windows(17)| == 26 > SLOTS
    ensures SlotOf(17, SLOTS) == SlotOf(18, 0)
  {
    CellCoords(3, 2);
    KeptCount(3, 2, VISITS);
    Cell17Dir0();
    Cell17Dir1();
    Cell17Dir2();
    Cell17Dir3();
    Cell17Dir4();
    Cell17Dir5();
    Cell17Dir6();
    Cell17Dir7();
  }
}
