/** The 20 x 10 playfield and the pure rules over it: the collision test,
    locking a piece, clearing full rows and its score table, garbage rows
    and the handicap grid. */
module Playfield {
  import opened Shapes

  type Grid = seq<seq<Cell>>

  /** PLAY_HEIGHT rows of PLAY_WIDTH cells each. */
  predicate IsGrid(g: Grid) {
    |g| == PlayHeight && forall y :: 0 <= y < |g| ==> |g[y]| == PlayWidth
  }

  function EmptyRow(width: nat): seq<Cell> {
    seq(width, _ => E)
  }

  function EmptyRows(n: nat, width: nat): Grid {
    seq(n, _ => EmptyRow(width))
  }

  /** Every cell of the row holds a block. */
  predicate FullRow(row: seq<Cell>) {
    forall x :: 0 <= x < |row| ==> row[x] != E
  }

  predicate NoFullRows(g: Grid) {
    forall y :: 0 <= y < |g| ==> !FullRow(g[y])
  }

  /** The occupied cells of state s, placed with its top-left corner at
      (r, c), all lie inside the playfield. */
  ghost predicate InBounds(s: Shape, r: int, c: int) {
    forall ty, tx :: Occupies(s, ty, tx) ==>
      0 <= r + ty < PlayHeight && 0 <= c + tx < PlayWidth
  }

  /** The collision test of can_move: every occupied cell of the state lands
      inside the side walls, above the floor, and on an empty grid cell.
      Empty cells of the state are not looked at, and rows above the top
      are never reached because pieces never have a negative row. */
  ghost predicate Fits(g: Grid, s: Shape, r: int, c: int)
    requires IsGrid(g) && r >= 0
  {
    forall ty, tx :: Occupies(s, ty, tx) ==> Free(g, r + ty, c + tx)
  }

  /** Grid cell (y, x) is inside the walls, above the floor and empty. */
  ghost predicate Free(g: Grid, y: int, x: int)
    requires IsGrid(g) && y >= 0
  {
    0 <= x < PlayWidth && y < PlayHeight && g[y][x] == E
  }

  lemma FitsInBounds(g: Grid, s: Shape, r: int, c: int)
    requires IsGrid(g) && r >= 0 && Fits(g, s, r, c)
    ensures InBounds(s, r, c)
  {
  }

  /** The grid after writing the occupied cells of s at (r, c). */
  function Locked(g: Grid, s: Shape, r: int, c: int): (h: Grid)
    ensures |h| == |g| && forall y :: 0 <= y < |g| ==> |h[y]| == |g[y]|
  {
    seq(|g|, y requires 0 <= y < |g| =>
      seq(|g[y]|, x requires 0 <= x < |g[y]| =>
        if Occupies(s, y - r, x - c) then s[y - r][x - c] else g[y][x]))
  }

  /** Locking writes exactly the piece's occupied cells: each of them now
      holds the piece's cell, and every other cell is what it was. */
  lemma LockedCells(g: Grid, s: Shape, r: int, c: int)
    requires IsGrid(g) && InBounds(s, r, c)
    ensures IsGrid(Locked(g, s, r, c))
    ensures forall ty, tx :: Occupies(s, ty, tx) ==> Locked(g, s, r, c)[r + ty][c + tx] == s[ty][tx]
    ensures forall y, x :: 0 <= y < PlayHeight && 0 <= x < PlayWidth && !Occupies(s, y - r, x - c) ==>
      Locked(g, s, r, c)[y][x] == g[y][x]
  {
  }

  /** Cell (a, b) of a state grid comes before (ty, tx) in the row-major
      order lock_tetromino visits the cells in. */
  predicate Before(a: int, b: int, ty: nat, tx: nat) {
    a < ty || (a == ty && b < tx)
  }

  /** The grid while lock_tetromino is at cell (ty, tx): the occupied cells
      visited so far are written, nothing else. */
  function LockedUpTo(g: Grid, s: Shape, r: int, c: int, ty: nat, tx: nat): (h: Grid)
    ensures |h| == |g| && forall y :: 0 <= y < |g| ==> |h[y]| == |g[y]|
  {
    seq(|g|, y requires 0 <= y < |g| =>
      seq(|g[y]|, x requires 0 <= x < |g[y]| =>
        if Occupies(s, y - r, x - c) && Before(y - r, x - c, ty, tx) then s[y - r][x - c] else g[y][x]))
  }

  lemma LockedUpToStart(g: Grid, s: Shape, r: int, c: int)
    ensures LockedUpTo(g, s, r, c, 0, 0) == g
  {
    var h := LockedUpTo(g, s, r, c, 0, 0);
    forall y | 0 <= y < |g|
      ensures h[y] == g[y]
    {
      forall x | 0 <= x < |g[y]|
        ensures h[y][x] == g[y][x]
      {
        assert !Before(y - r, x - c, 0, 0) || !Occupies(s, y - r, x - c);
      }
    }
  }

  lemma LockedUpToRow(g: Grid, s: Shape, r: int, c: int, ty: nat)
    requires ty < |s|
    ensures LockedUpTo(g, s, r, c, ty, |s[ty]|) == LockedUpTo(g, s, r, c, ty + 1, 0)
  {
    var h := LockedUpTo(g, s, r, c, ty, |s[ty]|);
    var h' := LockedUpTo(g, s, r, c, ty + 1, 0);
    forall y | 0 <= y < |g|
      ensures h[y] == h'[y]
    {
      forall x | 0 <= x < |g[y]|
        ensures h[y][x] == h'[y][x]
      {
        assert (Occupies(s, y - r, x - c) && Before(y - r, x - c, ty, |s[ty]|)) == (Occupies(s, y - r, x - c) && Before(y - r, x - c, ty + 1, 0));
      }
    }
  }

  lemma LockedUpToDone(g: Grid, s: Shape, r: int, c: int)
    ensures LockedUpTo(g, s, r, c, |s|, 0) == Locked(g, s, r, c)
  {
    var h := LockedUpTo(g, s, r, c, |s|, 0);
    var h' := Locked(g, s, r, c);
    forall y | 0 <= y < |g|
      ensures h[y] == h'[y]
    {
      forall x | 0 <= x < |g[y]|
        ensures h[y][x] == h'[y][x]
      {
        assert Occupies(s, y - r, x - c) ==> Before(y - r, x - c, |s|, 0);
      }
    }
  }

  /** Visiting an empty cell of the state changes nothing. */
  lemma LockedUpToSkip(g: Grid, s: Shape, r: int, c: int, ty: nat, tx: nat)
    requires ty < |s| && tx < |s[ty]| && s[ty][tx] == E
    ensures LockedUpTo(g, s, r, c, ty, tx + 1) == LockedUpTo(g, s, r, c, ty, tx)
  {
    var h := LockedUpTo(g, s, r, c, ty, tx + 1);
    var h' := LockedUpTo(g, s, r, c, ty, tx);
    forall y | 0 <= y < |g|
      ensures h[y] == h'[y]
    {
      forall x | 0 <= x < |g[y]|
        ensures h[y][x] == h'[y][x]
      {
        assert (Occupies(s, y - r, x - c) && Before(y - r, x - c, ty, tx + 1)) == (Occupies(s, y - r, x - c) && Before(y - r, x - c, ty, tx));
      }
    }
  }

  /** Visiting an occupied cell writes that one grid cell. */
  lemma LockedUpToWrite(g: Grid, s: Shape, r: int, c: int, ty: nat, tx: nat)
    requires IsGrid(g) && InBounds(s, r, c) && Occupies(s, ty, tx)
    ensures var h := LockedUpTo(g, s, r, c, ty, tx);
      LockedUpTo(g, s, r, c, ty, tx + 1) == h[r + ty := h[r + ty][c + tx := s[ty][tx]]]
  {
    var h := LockedUpTo(g, s, r, c, ty, tx);
    var h' := LockedUpTo(g, s, r, c, ty, tx + 1);
    var w := h[r + ty := h[r + ty][c + tx := s[ty][tx]]];
    assert |h'| == |w|;
    forall y | 0 <= y < |w|
      ensures h'[y] == w[y]
    {
      assert |h'[y]| == |w[y]|;
      forall x | 0 <= x < |w[y]|
        ensures h'[y][x] == w[y][x]
      {
        if y == r + ty && x == c + tx {
        } else {
          assert Before(y - r, x - c, ty, tx + 1) == Before(y - r, x - c, ty, tx) || !Occupies(s, y - r, x - c);
        }
      }
    }
  }

  // ---------------------------------------------------------------------
  // Clearing full rows

  /** The rows of g that are not full, in their original order. */
  function KeepNonFull(g: Grid): Grid {
    if g == [] then []
    else KeepNonFull(g[..|g| - 1]) + (if FullRow(g[|g| - 1]) then [] else [g[|g| - 1]])
  }

  /** The number of full rows of g. */
  function FullCount(g: Grid): nat {
    if g == [] then 0
    else FullCount(g[..|g| - 1]) + (if FullRow(g[|g| - 1]) then 1 else 0)
  }

  /** The grid clear_filled_rows leaves: the full rows dropped and as many
      empty rows put on top. */
  function Cleared(g: Grid): Grid {
    EmptyRows(FullCount(g), PlayWidth) + KeepNonFull(g)
  }

  lemma {:induction false} KeepNonFullSize(g: Grid)
    ensures |KeepNonFull(g)| + FullCount(g) == |g|
    ensures NoFullRows(KeepNonFull(g))
    ensures forall y :: 0 <= y < |KeepNonFull(g)| ==> KeepNonFull(g)[y] in g
  {
    if g != [] {
      KeepNonFullSize(g[..|g| - 1]);
    }
  }

  /** Filtering distributes over concatenation. */
  lemma {:induction false} KeepNonFullAppend(a: Grid, b: Grid)
    ensures KeepNonFull(a + b) == KeepNonFull(a) + KeepNonFull(b)
    ensures FullCount(a + b) == FullCount(a) + FullCount(b)
    decreases |b|
  {
    if b == [] {
      assert a + b == a;
    } else {
      var b' := b[..|b| - 1];
      assert (a + b)[..|a + b| - 1] == a + b';
      KeepNonFullAppend(a, b');
    }
  }

  /** A grid without full rows is left as it is. */
  lemma {:induction false} KeepNonFullNoFull(g: Grid)
    requires NoFullRows(g)
    ensures KeepNonFull(g) == g && FullCount(g) == 0
  {
    if g != [] {
      var n := |g| - 1;
      assert NoFullRows(g[..n]) by {
        assert forall y :: 0 <= y < n ==> g[..n][y] == g[y];
      }
      KeepNonFullNoFull(g[..n]);
      assert !FullRow(g[n]);
      assert g[..n] + [g[n]] == g;
    }
  }

  /** The rows of g that are full all lie in [lo, hi): then there are at most
      hi - lo of them. */
  lemma {:induction false} FullCountWindow(g: Grid, lo: nat, hi: nat)
    requires lo <= hi
    requires forall y :: 0 <= y < |g| && FullRow(g[y]) ==> lo <= y < hi
    ensures FullCount(g) <= hi - lo
  {
    if g != [] {
      var n := |g| - 1;
      var g' := g[..n];
      if FullRow(g[n]) {
        FullCountWindow(g', lo, if hi < n then hi else n);
      } else {
        FullCountWindow(g', lo, if hi < n then (if lo < hi then hi else lo) else (if lo < n then n else lo));
      }
    }
  }

  lemma EmptyRowNotFull(width: nat)
    requires width > 0
    ensures !FullRow(EmptyRow(width))
  {
    assert EmptyRow(width)[0] == E;
  }

  /** Clearing keeps the 20 x 10 shape and leaves no full row behind. */
  lemma ClearedShape(g: Grid)
    requires IsGrid(g)
    ensures IsGrid(Cleared(g))
    ensures NoFullRows(Cleared(g))
  {
    KeepNonFullSize(g);
    EmptyRowNotFull(PlayWidth);
    var h := Cleared(g);
    var k := FullCount(g);
    forall y | 0 <= y < |h|
      ensures |h[y]| == PlayWidth && !FullRow(h[y])
    {
      if y >= k {
        assert h[y] == KeepNonFull(g)[y - k];
      }
    }
  }

  /** Clearing is idempotent, and the identity on a grid without full rows. */
  lemma ClearedIdempotent(g: Grid)
    requires IsGrid(g)
    ensures Cleared(Cleared(g)) == Cleared(g)
    ensures NoFullRows(g) ==> Cleared(g) == g
  {
    ClearedShape(g);
    KeepNonFullNoFull(Cleared(g));
    if NoFullRows(g) {
      KeepNonFullNoFull(g);
    }
  }

  /** Number of blocks in a grid. */
  function GridBlocks(g: Grid): nat {
    if g == [] then 0 else GridBlocks(g[..|g| - 1]) + RowBlocks(g[|g| - 1], |g[|g| - 1]|)
  }

  lemma {:induction false} RowBlocksFull(row: seq<Cell>, n: nat)
    requires n <= |row| && forall x :: 0 <= x < n ==> row[x] != E
    ensures RowBlocks(row, n) == n
  {
    if n > 0 {
      RowBlocksFull(row, n - 1);
    }
  }

  lemma {:induction false} RowBlocksEmpty(row: seq<Cell>, n: nat)
    requires n <= |row| && forall x :: 0 <= x < n ==> row[x] == E
    ensures RowBlocks(row, n) == 0
  {
    if n > 0 {
      RowBlocksEmpty(row, n - 1);
    }
  }

  lemma {:induction false} GridBlocksAppend(a: Grid, b: Grid)
    ensures GridBlocks(a + b) == GridBlocks(a) + GridBlocks(b)
    decreases |b|
  {
    if b == [] {
      assert a + b == a;
    } else {
      var b' := b[..|b| - 1];
      assert (a + b)[..|a + b| - 1] == a + b';
      GridBlocksAppend(a, b');
    }
  }

  lemma {:induction false} EmptyRowsBlocks(n: nat, width: nat)
    ensures GridBlocks(EmptyRows(n, width)) == 0
  {
    if n > 0 {
      assert EmptyRows(n, width)[..n - 1] == EmptyRows(n - 1, width);
      EmptyRowsBlocks(n - 1, width);
      RowBlocksEmpty(EmptyRow(width), width);
    }
  }

  /** Every full row of g contributes width blocks; dropping them takes
      exactly those blocks away. */
  lemma {:induction false} KeepNonFullBlocks(g: Grid, width: nat)
    requires forall y :: 0 <= y < |g| ==> |g[y]| == width
    ensures GridBlocks(KeepNonFull(g)) + width * FullCount(g) == GridBlocks(g)
  {
    if g != [] {
      var n := |g| - 1;
      var prefix := g[..n];
      KeepNonFullBlocks(prefix, width);
      LastRowBlocks(g, width);
    }
  }

  /** One step of KeepNonFullBlocks: the contribution of the last row. */
  lemma LastRowBlocks(g: Grid, width: nat)
    requires g != [] && |g[|g| - 1]| == width
    ensures GridBlocks(KeepNonFull(g)) + width * FullCount(g) ==
      GridBlocks(KeepNonFull(g[..|g| - 1])) + width * FullCount(g[..|g| - 1]) + RowBlocks(g[|g| - 1], width)
  {
    if FullRow(g[|g| - 1]) {
      LastRowFull(g, width);
    } else {
      LastRowOpen(g, width);
    }
  }

  /** A full last row is dropped and counted: it holds width blocks. */
  lemma LastRowFull(g: Grid, width: nat)
    requires g != [] && |g[|g| - 1]| == width && FullRow(g[|g| - 1])
    ensures KeepNonFull(g) == KeepNonFull(g[..|g| - 1])
    ensures FullCount(g) == FullCount(g[..|g| - 1]) + 1
    ensures RowBlocks(g[|g| - 1], width) == width
  {
    var n := |g| - 1;
    assert KeepNonFull(g) == KeepNonFull(g[..n]) + [];
    RowBlocksFull(g[n], width);
  }

  /** A last row that is not full is kept and not counted. */
  lemma LastRowOpen(g: Grid, width: nat)
    requires g != [] && |g[|g| - 1]| == width && !FullRow(g[|g| - 1])
    ensures GridBlocks(KeepNonFull(g)) == GridBlocks(KeepNonFull(g[..|g| - 1])) + RowBlocks(g[|g| - 1], width)
    ensures FullCount(g) == FullCount(g[..|g| - 1])
  {
    var n := |g| - 1;
    var tail := [g[n]];
    assert KeepNonFull(g) == KeepNonFull(g[..n]) + tail;
    GridBlocksAppend(KeepNonFull(g[..n]), tail);
    assert GridBlocks(tail) == RowBlocks(g[n], width) by {
      assert tail[..0] == [];
    }
  }

  /** Clearing k full rows removes exactly 10 k blocks from the grid. */
  lemma ClearedBlocks(g: Grid)
    requires IsGrid(g)
    ensures GridBlocks(Cleared(g)) + PlayWidth * FullCount(g) == GridBlocks(g)
  {
    GridBlocksAppend(EmptyRows(FullCount(g), PlayWidth), KeepNonFull(g));
    EmptyRowsBlocks(FullCount(g), PlayWidth);
    KeepNonFullBlocks(g, PlayWidth);
  }

  /** A piece at most four rows tall locked onto a grid without full rows
      completes at most four rows. */
  lemma LockedFullCount(g: Grid, s: Shape, r: int, c: int)
    requires IsGrid(g) && NoFullRows(g) && InBounds(s, r, c)
    requires |s| <= 4 && r >= 0
    ensures FullCount(Locked(g, s, r, c)) <= 4
  {
    var h := Locked(g, s, r, c);
    LockedCells(g, s, r, c);
    forall y | 0 <= y < |h| && !(r <= y < r + |s|)
      ensures h[y] == g[y]
    {
      forall x | 0 <= x < PlayWidth
        ensures h[y][x] == g[y][x]
      {
        assert !Occupies(s, y - r, x - c);
      }
    }
    FullCountWindow(h, r, r + |s|);
  }

  /** Points for clearing k rows at once at the given level. */
  function ScoreFor(k: nat, level: nat): nat {
    if k == 1 then 100 * (level + 1)
    else if k == 2 then 300 * (level + 1)
    else if k == 3 then 500 * (level + 1)
    else if k == 4 then 800 * (level + 1)
    else 0
  }

  /** Clearing rows together pays more than clearing them one at a time,
      each row cleared pays, and a higher level pays more. */
  lemma ScoreForBonus(k: nat, level: nat)
    requires 1 <= k <= 4
    ensures ScoreFor(k, level) >= k * ScoreFor(1, level)
    ensures k >= 2 ==> ScoreFor(k, level) > k * ScoreFor(1, level)
    ensures ScoreFor(k, level) < ScoreFor(k, level + 1)
    ensures k < 4 ==> ScoreFor(k, level) < ScoreFor(k + 1, level)
  {
  }

  // ---------------------------------------------------------------------
  // Garbage rows and the handicap grid

  /** The cells garbage and handicap rows are drawn from: T appears twice
      and J never. */
  const Palette: seq<Cell> := [I, O, T, S, Z, T, L]

  lemma PaletteCells()
    ensures |Palette| == KindCount
    ensures forall i :: 0 <= i < |Palette| ==> Palette[i] != E && Palette[i] != J
    ensures Palette[2] == Palette[5]
  {
  }

  /** A row of the given cell with one hole. */
  function GarbageRow(cell: Cell, hole: nat): seq<Cell> {
    seq(PlayWidth, x => if x == hole then E else cell)
  }

  /** A garbage row of a block cell has exactly one empty cell, at the hole. */
  lemma GarbageRowHole(cell: Cell, hole: nat)
    requires cell != E && hole < PlayWidth
    ensures |GarbageRow(cell, hole)| == PlayWidth
    ensures forall x :: 0 <= x < PlayWidth ==> (GarbageRow(cell, hole)[x] == E <==> x == hole)
    ensures !FullRow(GarbageRow(cell, hole))
  {
    assert GarbageRow(cell, hole)[hole] == E;
  }

  /** The grid after the garbage branch of handle_event repeats n times
      "remove row 0, append row at the bottom". */
  function Raised(g: Grid, row: seq<Cell>, n: nat): (h: Grid)
    ensures |h| == |g|
  {
    if n <= |g| then g[n..] + seq(n, _ => row) else seq(|g|, _ => row)
  }

  lemma RaisedStep(g: Grid, row: seq<Cell>, n: nat)
    requires |g| > 0
    ensures Raised(g, row, n)[1..] + [row] == Raised(g, row, n + 1)
  {
  }

  /** Garbage pushes every row up by n, puts min(n, 20) copies of the row
      at the bottom, and keeps the grid 20 x 10 without full rows. */
  lemma RaisedShape(g: Grid, row: seq<Cell>, n: nat)
    requires IsGrid(g) && NoFullRows(g) && |row| == PlayWidth && !FullRow(row)
    ensures IsGrid(Raised(g, row, n)) && NoFullRows(Raised(g, row, n))
    ensures forall y :: 0 <= y < PlayHeight && y + n < PlayHeight ==> Raised(g, row, n)[y] == g[y + n]
    ensures forall y :: 0 <= y < PlayHeight && y + n >= PlayHeight ==> Raised(g, row, n)[y] == row
  {
  }

  /** The grid create_grid builds: height - k empty rows of the given width,
      then k garbage rows, the i-th drawn from draws 2i (cell) and 2i + 1
      (hole column) of the random stream starting at `from`. */
  function HandicapGrid(width: nat, height: nat, k: nat, rng: nat -> nat, from: nat): Grid
    requires k <= height
  {
    EmptyRows(height - k, width) + HandicapRows(k, rng, from)
  }

  /** The garbage row built from draws d (palette index) and d + 1 (hole
      column): the row create_grid appends and a ClearedRows message pushes
      up from the bottom. */
  function GarbageFor(rng: nat -> nat, d: nat): seq<Cell> {
    GarbageRow(Palette[rng(d) % 7], rng(d + 1) % 10)
  }

  /** Such a row is ten cells wide with exactly one hole, so it is never full. */
  lemma GarbageForShape(rng: nat -> nat, d: nat) returns (hole: nat)
    ensures hole < PlayWidth && |GarbageFor(rng, d)| == PlayWidth && !FullRow(GarbageFor(rng, d))
    ensures forall x :: 0 <= x < PlayWidth ==> (GarbageFor(rng, d)[x] == E <==> x == hole)
  {
    hole := rng(d + 1) % 10;
    PaletteCells();
    GarbageRowHole(Palette[rng(d) % 7], hole);
  }

  function HandicapRows(k: nat, rng: nat -> nat, from: nat): Grid {
    if k == 0 then []
    else HandicapRows(k - 1, rng, from) + [GarbageFor(rng, from + 2 * (k - 1))]
  }

  /** Every handicap row has width 10 and exactly one hole. */
  lemma {:induction false} HandicapRowsShape(k: nat, rng: nat -> nat, from: nat)
    ensures |HandicapRows(k, rng, from)| == k
    ensures forall y :: 0 <= y < k ==>
      |HandicapRows(k, rng, from)[y]| == PlayWidth && !FullRow(HandicapRows(k, rng, from)[y]) &&
      |set x | 0 <= x < PlayWidth && HandicapRows(k, rng, from)[y][x] == E| == 1
  {
    if k > 0 {
      HandicapRowsShape(k - 1, rng, from);
      var hole := GarbageForShape(rng, from + 2 * (k - 1));
      var rows := HandicapRows(k, rng, from);
      forall y | 0 <= y < k
        ensures |set x | 0 <= x < PlayWidth && rows[y][x] == E| == 1
      {
        if y == k - 1 {
          assert (set x | 0 <= x < PlayWidth && rows[y][x] == E) == {hole};
        } else {
          assert rows[y] == HandicapRows(k - 1, rng, from)[y];
        }
      }
    }
  }

  /** The handicap grid is 20 x 10: empty rows on top, the k bottom rows
      with exactly one hole each, and no full row. */
  lemma HandicapGridShape(k: nat, rng: nat -> nat, from: nat)
    requires k <= PlayHeight
    ensures IsGrid(HandicapGrid(PlayWidth, PlayHeight, k, rng, from))
    ensures NoFullRows(HandicapGrid(PlayWidth, PlayHeight, k, rng, from))
    ensures forall y :: 0 <= y < PlayHeight - k ==> HandicapGrid(PlayWidth, PlayHeight, k, rng, from)[y] == EmptyRow(PlayWidth)
    ensures forall y :: PlayHeight - k <= y < PlayHeight ==>
      |set x | 0 <= x < PlayWidth && HandicapGrid(PlayWidth, PlayHeight, k, rng, from)[y][x] == E| == 1
  {
    HandicapRowsShape(k, rng, from);
    EmptyRowNotFull(PlayWidth);
    var g := HandicapGrid(PlayWidth, PlayHeight, k, rng, from);
    forall y | PlayHeight - k <= y < PlayHeight
      ensures g[y] == HandicapRows(k, rng, from)[y - (PlayHeight - k)]
    {
    }
  }
  /** create_grid: the empty rows, then k rows each filled with a random
      palette cell and emptied at one random column. */
  method CreateGrid(width: nat, height: nat, k: nat, rng: nat -> nat, from: nat) returns (grid: Grid)
    requires k <= height
    ensures grid == HandicapGrid(width, height, k, rng, from)
  {
    grid := EmptyRows(height - k, width);
    var i := 0;
    while i < k
      invariant i <= k
      invariant grid == EmptyRows(height - k, width) + HandicapRows(i, rng, from)
    {
      var cell := Palette[rng(from + 2 * i) % 7];
      var newRow := seq(PlayWidth, _ => cell);
      var column := rng(from + 2 * i + 1) % 10;
      newRow := newRow[column := E];
      assert newRow == GarbageRow(cell, column);
      grid := grid + [newRow];
      i := i + 1;
    }
  }

  // ---------------------------------------------------------------------
  // The index bookkeeping of clear_filled_rows

  /** The indices of the full rows at or below row lo, in the order the
      bottom-up scan collects them (largest first). */
  function FullDesc(g: Grid, lo: nat): seq<nat>
    requires lo <= |g|
    decreases |g| - lo
  {
    if lo == |g| then [] else FullDesc(g, lo + 1) + (if FullRow(g[lo]) then [lo] else [])
  }

  /** Every collected index is that of a full row at or below lo. */
  lemma {:induction false} FullDescRows(g: Grid, lo: nat)
    requires lo <= |g|
    ensures RowIndices(FullDesc(g, lo), |g|)
    ensures forall i :: 0 <= i < |FullDesc(g, lo)| ==> lo <= FullDesc(g, lo)[i] && FullRow(g[FullDesc(g, lo)[i]])
    decreases |g| - lo
  {
    if lo < |g| {
      FullDescRows(g, lo + 1);
    }
  }

  /** The last collected index is the topmost full row at or below lo. */
  lemma {:induction false} FullDescLast(g: Grid, lo: nat)
    requires lo <= |g| && FullDesc(g, lo) != []
    ensures var f := FullDesc(g, lo); var idx := f[|f| - 1];
      lo <= idx < |g| && FullRow(g[idx]) &&
      (forall y :: lo <= y < idx ==> !FullRow(g[y])) &&
      f[..|f| - 1] == FullDesc(g, idx + 1)
    decreases |g| - lo
  {
    if !FullRow(g[lo]) {
      FullDescLast(g, lo + 1);
    }
  }

  /** Nothing collected at or below lo: no full row there. */
  lemma {:induction false} FullDescEmpty(g: Grid, lo: nat)
    requires lo <= |g| && FullDesc(g, lo) == []
    ensures forall y :: lo <= y < |g| ==> !FullRow(g[y])
    decreases |g| - lo
  {
    if lo < |g| {
      FullDescEmpty(g, lo + 1);
    }
  }

  /** One iteration of the removal loop: with the rows above p already
      processed, removing the next full row idx and putting an empty row on
      top leaves the rows above idx + 1 processed. */
  lemma ClearStep(g0: Grid, grid: Grid, p: nat, idx: nat, m: nat)
    requires p <= idx < |g0| && FullRow(g0[idx])
    requires forall y :: p <= y < idx ==> !FullRow(g0[y])
    requires FullCount(g0[..p]) == m
    requires grid == EmptyRows(m, PlayWidth) + KeepNonFull(g0[..p]) + g0[p..]
    ensures idx < |grid| && grid[idx] == g0[idx]
    ensures [EmptyRow(PlayWidth)] + (grid[..idx] + grid[idx + 1..]) ==
      EmptyRows(m + 1, PlayWidth) + KeepNonFull(g0[..idx + 1]) + g0[idx + 1..]
    ensures FullCount(g0[..idx + 1]) == m + 1
  {
    KeepNonFullSize(g0[..p]);
    var empties, kept := EmptyRows(m, PlayWidth), KeepNonFull(g0[..p]);
    KeepNonFullStep(g0, p, idx);
    SpliceRow(empties + kept, g0, p, idx);
    assert [EmptyRow(PlayWidth)] + empties == EmptyRows(m + 1, PlayWidth);
    Regroup(EmptyRow(PlayWidth), empties, kept, g0[p..idx], g0[idx + 1..]);
  }

  lemma Regroup<T>(e: T, a: seq<T>, b: seq<T>, c: seq<T>, d: seq<T>)
    ensures [e] + ((a + b + c) + d) == ([e] + a) + (b + c) + d
  {
  }

  /** Extending the processed prefix over non-full rows up to and including
      the full row idx keeps those rows and counts one more full row. */
  lemma KeepNonFullStep(g0: Grid, p: nat, idx: nat)
    requires p <= idx < |g0| && FullRow(g0[idx])
    requires forall y :: p <= y < idx ==> !FullRow(g0[y])
    ensures KeepNonFull(g0[..idx + 1]) == KeepNonFull(g0[..p]) + g0[p..idx]
    ensures FullCount(g0[..idx + 1]) == FullCount(g0[..p]) + 1
  {
    var between := g0[p..idx];
    NoFullBetween(g0, p, idx);
    KeepNonFullNoFull(between);
    assert g0[..idx + 1] == g0[..p] + between + [g0[idx]];
    KeepNonFullAppend(g0[..p] + between, [g0[idx]]);
    KeepNonFullAppend(g0[..p], between);
    assert [g0[idx]][..0] == [];
  }

  /** Removing row idx from prefix + g0[p..], where the prefix has p rows. */
  lemma SpliceRow(prefix: Grid, g0: Grid, p: nat, idx: nat)
    requires |prefix| == p && p <= idx < |g0|
    ensures (prefix + g0[p..])[idx] == g0[idx]
    ensures (prefix + g0[p..])[..idx] == prefix + g0[p..idx]
    ensures (prefix + g0[p..])[idx + 1..] == g0[idx + 1..]
  {
  }

  /** The state of the removal loop of clear_filled_rows: the first j
      collected indices (those at or below row p) remain, and the rows above
      p have been processed into m = |filled| - j empty rows on top of the
      non-full ones. */
  ghost predicate RemovalState(g0: Grid, grid: Grid, filled: seq<nat>, j: nat, p: nat)
  {
    j <= |filled| && p <= |g0| && filled[..j] == FullDesc(g0, p) &&
    FullCount(g0[..p]) == |filled| - j &&
    grid == EmptyRows(|filled| - j, PlayWidth) + KeepNonFull(g0[..p]) + g0[p..]
  }

  /** One iteration of that loop keeps its state, with p moved past the
      removed row. */
  lemma RemovalStep(g0: Grid, grid: Grid, filled: seq<nat>, j: nat, p: nat)
    requires 0 < j && RemovalState(g0, grid, filled, j, p)
    ensures var idx := filled[j - 1];
      idx < |grid| &&
      RemovalState(g0, [EmptyRow(PlayWidth)] + (grid[..idx] + grid[idx + 1..]), filled, j - 1, idx + 1)
  {
    FullDescLast(g0, p);
    var idx := filled[j - 1];
    assert filled[..j][j - 1] == idx && filled[..j][..j - 1] == filled[..j - 1];
    ClearStep(g0, grid, p, idx, |filled| - j);
  }

  /** The loop starts in that state and, once j reaches 0, has built the
      cleared grid. */
  lemma RemovalBounds(g0: Grid, filled: seq<nat>, grid: Grid, p: nat)
    requires IsGrid(g0) && filled == FullDesc(g0, 0)
    ensures RemovalState(g0, g0, filled, |filled|, 0)
    ensures RemovalState(g0, grid, filled, 0, p) ==>
      grid == Cleared(g0) && |filled| == FullCount(g0)
  {
    assert g0[..0] == [] && g0[0..] == g0 && filled[..|filled|] == filled;
    assert EmptyRows(0, PlayWidth) == [];
    if RemovalState(g0, grid, filled, 0, p) {
      ClearDone(g0, grid, p, |filled|);
    }
  }

  /** One iteration of the removal loop: row idx taken out and an empty
      row put on top. */
  function RemoveRow(rows: Grid, idx: nat): (r: Grid)
    requires idx < |rows|
    ensures |r| == |rows| && r[0] == EmptyRow(PlayWidth)
    ensures r[1..] == rows[..idx] + rows[idx + 1..]
  {
    [EmptyRow(PlayWidth)] + (rows[..idx] + rows[idx + 1..])
  }

  /** Every index of the list names a row of a grid of the given height. */
  predicate RowIndices(filled: seq<nat>, height: nat) {
    forall i :: 0 <= i < |filled| ==> filled[i] < height
  }

  /** The rows once the loop has handled filled[j..], the last collected
      index (the topmost row) first. */
  function RemovedFrom(g: Grid, filled: seq<nat>, j: nat): (r: Grid)
    requires j <= |filled| && RowIndices(filled, |g|)
    ensures |r| == |g|
    decreases |filled| - j
  {
    if j == |filled| then g else RemoveRow(RemovedFrom(g, filled, j + 1), filled[j])
  }

  /** The loop state reached after handling filled[j..], with p just past the
      last row removed. */
  lemma {:induction false} RemovedFromState(g0: Grid, j: nat) returns (p: nat)
    requires IsGrid(g0) && j <= |FullDesc(g0, 0)| && RowIndices(FullDesc(g0, 0), |g0|)
    ensures RemovalState(g0, RemovedFrom(g0, FullDesc(g0, 0), j), FullDesc(g0, 0), j, p)
    decreases |FullDesc(g0, 0)| - j
  {
    var filled := FullDesc(g0, 0);
    if j == |filled| {
      RemovalBounds(g0, filled, g0, 0);
      p := 0;
    } else {
      var q := RemovedFromState(g0, j + 1);
      RemovalStep(g0, RemovedFrom(g0, filled, j + 1), filled, j + 1, q);
      p := filled[j] + 1;
    }
  }

  /** Removing every collected row, the topmost first, clears the grid, and
      as many rows are removed as there are full rows. */
  lemma RemovedFromClears(g0: Grid)
    requires IsGrid(g0) && RowIndices(FullDesc(g0, 0), |g0|)
    ensures RemovedFrom(g0, FullDesc(g0, 0), 0) == Cleared(g0)
    ensures |FullDesc(g0, 0)| == FullCount(g0)
  {
    var p := RemovedFromState(g0, 0);
    RemovalBounds(g0, FullDesc(g0, 0), RemovedFrom(g0, FullDesc(g0, 0), 0), p);
  }

  lemma NoFullBetween(g: Grid, lo: nat, hi: nat)
    requires lo <= hi <= |g| && forall y :: lo <= y < hi ==> !FullRow(g[y])
    ensures NoFullRows(g[lo..hi])
  {
    forall y | 0 <= y < hi - lo
      ensures !FullRow(g[lo..hi][y])
    {
      assert g[lo..hi][y] == g[lo + y];
    }
  }

  /** When the removal loop has processed everything, what it built is the
      cleared grid. */
  lemma ClearDone(g0: Grid, grid: Grid, p: nat, m: nat)
    requires IsGrid(g0) && p <= |g0| && FullDesc(g0, p) == []
    requires FullCount(g0[..p]) == m
    requires grid == EmptyRows(m, PlayWidth) + KeepNonFull(g0[..p]) + g0[p..]
    ensures grid == Cleared(g0) && FullCount(g0) == m
  {
    FullDescEmpty(g0, p);
    NoFullBetween(g0, p, |g0|);
    assert g0[p..|g0|] == g0[p..];
    CleanTail(g0, p);
    assert grid == EmptyRows(m, PlayWidth) + (KeepNonFull(g0[..p]) + g0[p..]);
  }

  /** A grid whose rows from p on are not full keeps all of them. */
  lemma CleanTail(g0: Grid, p: nat)
    requires p <= |g0| && NoFullRows(g0[p..])
    ensures KeepNonFull(g0) == KeepNonFull(g0[..p]) + g0[p..]
    ensures FullCount(g0) == FullCount(g0[..p])
  {
    var pre, suf := g0[..p], g0[p..];
    KeepNonFullNoFull(suf);
    assert g0 == pre + suf;
    KeepNonFullAppend(pre, suf);
  }
}
