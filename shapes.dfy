/** The cell model, the catalog of the seven tetromino kinds with their
    rotation states, the occupied-column width used for spawn centering,
    and the tetromino value (states, current state, position). */
module Shapes {

  const PlayWidth: nat := 10
  const PlayHeight: nat := 20
  const NextWidth: nat := 6
  const KindCount: nat := 7

  /** gen_range(0..7) on a draw: the kind index spawn uses. */
  function KindOf(x: nat): (k: nat)
    ensures k < KindCount
  {
    x % 7
  }

  /** A cell is either empty (E, the blank symbol) or the block of one of
      the seven kinds; blocks differ only by colour, which is that of the kind. */
  datatype Cell = E | I | O | T | S | Z | J | L

  /** One rotation state: a small grid of cells, row 0 at the top. */
  type Shape = seq<seq<Cell>>

  /** A piece: its rotation states, the index of the current one and the
      position of the state grid's top-left corner in the playfield. */
  datatype Tetromino = Tetromino(states: seq<Shape>, currentState: nat, row: int, col: int)

  predicate HasState(t: Tetromino) {
    t.currentState < |t.states|
  }

  /** The grid of the current rotation state. */
  function Cells(t: Tetromino): Shape
    requires HasState(t)
  {
    t.states[t.currentState]
  }

  /** Cell (ty, tx) of the state grid exists and holds a block. */
  predicate Occupies(s: Shape, ty: int, tx: int) {
    0 <= ty < |s| && 0 <= tx < |s[ty]| && s[ty][tx] != E
  }

  predicate Rectangular(s: Shape) {
    |s| > 0 && forall r :: 0 <= r < |s| ==> |s[r]| == |s[0]|
  }

  /** Number of rows whose column c holds a block. */
  function ColumnCount(s: Shape, c: nat): nat
    requires forall r :: 0 <= r < |s| ==> c < |s[r]|
  {
    if s == [] then 0 else (if s[0][c] != E then 1 else 0) + ColumnCount(s[1..], c)
  }

  /** Number of the first n columns that hold at least one block. */
  function SpanUpTo(s: Shape, n: nat): nat
    requires Rectangular(s) && n <= |s[0]|
  {
    if n == 0 then 0 else SpanUpTo(s, n - 1) + (if ColumnCount(s, n - 1) > 0 then 1 else 0)
  }

  /** The occupied-column width of a state grid. */
  function Span(s: Shape): nat
    requires Rectangular(s)
  {
    SpanUpTo(s, |s[0]|)
  }

  /** Some row of the state grid holds a block in column c. */
  ghost predicate ColumnHasBlock(s: Shape, c: nat) {
    exists r :: 0 <= r < |s| && c < |s[r]| && s[r][c] != E
  }

  /** The set of columns that contain a block: the independent reference for Span. */
  ghost function OccupiedColumns(s: Shape, n: nat): set<nat>
    requires Rectangular(s)
  {
    set c: nat | c < n && c < |s[0]| && ColumnHasBlock(s, c)
  }

  lemma {:induction false} ColumnCountPositive(s: Shape, c: nat)
    requires forall r :: 0 <= r < |s| ==> c < |s[r]|
    ensures ColumnCount(s, c) > 0 <==> ColumnHasBlock(s, c)
    decreases |s|
  {
    if s != [] {
      ColumnCountPositive(s[1..], c);
      if ColumnCount(s[1..], c) > 0 {
        var r :| 0 <= r < |s[1..]| && s[1..][r][c] != E;
        assert s[r + 1][c] != E;
      }
      if s[0][c] == E && ColumnHasBlock(s, c) {
        var r :| 0 <= r < |s| && c < |s[r]| && s[r][c] != E;
        assert s[1..][r - 1][c] != E;
      }
    }
  }

  /** The width is the number of columns holding at least one block. */
  lemma {:induction false} SpanCountsOccupiedColumns(s: Shape, n: nat)
    requires Rectangular(s) && n <= |s[0]|
    ensures SpanUpTo(s, n) == |OccupiedColumns(s, n)|
  {
    if n == 0 {
      assert OccupiedColumns(s, 0) == {};
    } else {
      SpanCountsOccupiedColumns(s, n - 1);
      ColumnCountPositive(s, n - 1);
      OccupiedColumnsStep(s, n);
    }
  }

  /** Column n - 1 joins the set exactly when it holds a block. */
  lemma OccupiedColumnsStep(s: Shape, n: nat)
    requires Rectangular(s) && 0 < n <= |s[0]|
    ensures ColumnHasBlock(s, n - 1) ==>
      OccupiedColumns(s, n) == OccupiedColumns(s, n - 1) + {n - 1} && n - 1 !in OccupiedColumns(s, n - 1)
    ensures !ColumnHasBlock(s, n - 1) ==> OccupiedColumns(s, n) == OccupiedColumns(s, n - 1)
  {
  }

  /** tetromino_width: counts, column by column, the columns that hold a block. */
  method TetrominoWidth(s: Shape) returns (width: nat)
    requires Rectangular(s)
    ensures width == Span(s)
    ensures width == |OccupiedColumns(s, |s[0]|)|
  {
    width := 0;
    var col := 0;
    while col < |s[0]|
      invariant 0 <= col <= |s[0]|
      invariant width == SpanUpTo(s, col)
    {
      var colWidth := ColumnCount(s, col);
      if colWidth > 0 {
        width := width + 1;
      }
      col := col + 1;
    }
    SpanCountsOccupiedColumns(s, |s[0]|);
  }

  /** The rotation states of every kind, in the order I, O, T, S, Z, J, L. */
  const Catalog: seq<seq<Shape>> := [
      [ [[E, E, E, E], [I, I, I, I], [E, E, E, E], [E, E, E, E]],
        [[E, E, I, E], [E, E, I, E], [E, E, I, E], [E, E, I, E]],
        [[E, E, E, E], [E, E, E, E], [I, I, I, I], [E, E, E, E]],
        [[E, I, E, E], [E, I, E, E], [E, I, E, E], [E, I, E, E]] ],
      [ [[O, O], [O, O]] ],
      [ [[E, T, E], [T, T, T], [E, E, E]],
        [[E, T, E], [E, T, T], [E, T, E]],
        [[E, E, E], [T, T, T], [E, T, E]],
        [[E, T, E], [T, T, E], [E, T, E]] ],
      [ [[E, S, S], [S, S, E], [E, E, E]],
        [[E, S, E], [E, S, S], [E, E, S]],
        [[E, E, E], [E, S, S], [S, S, E]],
        [[S, E, E], [S, S, E], [E, S, E]] ],
      [ [[Z, Z, E], [E, Z, Z], [E, E, E]],
        [[E, E, Z], [E, Z, Z], [E, Z, E]],
        [[E, E, E], [Z, Z, E], [E, Z, Z]],
        [[E, Z, E], [Z, Z, E], [Z, E, E]] ],
      [ [[J, E, E], [J, J, J], [E, E, E]],
        [[E, J, J], [E, J, E], [E, J, E]],
        [[E, E, E], [J, J, J], [E, E, J]],
        [[E, J, E], [E, J, E], [J, J, E]] ],
      [ [[E, E, L], [L, L, L], [E, E, E]],
        [[E, L, E], [E, L, E], [E, L, L]],
        [[E, E, E], [L, L, L], [L, E, E]],
        [[L, L, E], [E, L, E], [E, L, E]] ]
  ]

  /** The rotation states of kind k. */
  function KindStates(k: nat): seq<Shape>
    requires k < KindCount
  {
    Catalog[k]
  }

  /** Number of blocks among the first n cells of a row. */
  function RowBlocks(row: seq<Cell>, n: nat): nat
    requires n <= |row|
  {
    if n == 0 then 0 else RowBlocks(row, n - 1) + (if row[n - 1] != E then 1 else 0)
  }

  /** Number of blocks in the first n rows of a state grid. */
  function BlockCountUpTo(s: Shape, n: nat): nat
    requires n <= |s|
  {
    if n == 0 then 0 else BlockCountUpTo(s, n - 1) + RowBlocks(s[n - 1], |s[n - 1]|)
  }

  function BlockCount(s: Shape): nat {
    BlockCountUpTo(s, |s|)
  }

  /** What every state of the catalog satisfies: a square grid of at most
      4 x 4 cells holding exactly four blocks. */
  predicate CatalogShape(s: Shape) {
    Rectangular(s) && |s| == |s[0]| <= 4 && BlockCount(s) == 4
  }

  lemma {:induction false} RowBlocksWitness(row: seq<Cell>, n: nat) returns (x: nat)
    requires n <= |row| && RowBlocks(row, n) > 0
    ensures x < n && row[x] != E
  {
    if row[n - 1] != E {
      x := n - 1;
    } else {
      x := RowBlocksWitness(row, n - 1);
    }
  }

  lemma {:induction false} BlockWitnessUpTo(s: Shape, n: nat) returns (ty: nat, tx: nat)
    requires n <= |s| && BlockCountUpTo(s, n) > 0
    ensures ty < n && Occupies(s, ty, tx)
  {
    if RowBlocks(s[n - 1], |s[n - 1]|) > 0 {
      ty := n - 1;
      tx := RowBlocksWitness(s[n - 1], |s[n - 1]|);
    } else {
      ty, tx := BlockWitnessUpTo(s, n - 1);
    }
  }

  /** A grid with a block has an occupied cell (used for termination of falling). */
  lemma BlockWitness(s: Shape) returns (ty: nat, tx: nat)
    requires BlockCount(s) > 0
    ensures Occupies(s, ty, tx)
  {
    ty, tx := BlockWitnessUpTo(s, |s|);
  }

  /** Every kind has at least one state, every state is a catalog shape,
      and every column of state 0 holds a block, so that the width used for
      centering is the full width of the state-0 grid. */
  lemma CatalogWellFormed(k: nat)
    requires k < KindCount
    ensures |KindStates(k)| >= 1
    ensures forall i :: 0 <= i < |KindStates(k)| ==> CatalogShape(KindStates(k)[i])
    ensures Span(KindStates(k)[0]) == |KindStates(k)[0][0]|
  {
    var states := KindStates(k);
    forall i | 0 <= i < |states|
      ensures CatalogShape(states[i])
    {
      StateIsCatalogShape(k, i);
    }
  }

  lemma StateIsCatalogShape(k: nat, i: nat)
    requires k < KindCount && i < |KindStates(k)|
    ensures CatalogShape(KindStates(k)[i])
  {
    if k == 0 {
      CatalogI();
    } else if k == 1 {
      CatalogO();
    } else if k == 2 {
      CatalogT();
    } else if k == 3 {
      CatalogS();
    } else if k == 4 {
      CatalogZ();
    } else if k == 5 {
      CatalogJ();
    } else if k == 6 {
      CatalogL();
    }
  }

  lemma CatalogI()
    ensures forall i :: 0 <= i < |KindStates(0)| ==> CatalogShape(KindStates(0)[i])
  {
    assert BlockCountUpTo(KindStates(0)[0], 4) == 4;
    assert BlockCountUpTo(KindStates(0)[1], 4) == 4;
    assert BlockCountUpTo(KindStates(0)[2], 4) == 4;
    assert BlockCountUpTo(KindStates(0)[3], 4) == 4;
  }

  lemma CatalogO()
    ensures forall i :: 0 <= i < |KindStates(1)| ==> CatalogShape(KindStates(1)[i])
  {
    assert BlockCountUpTo(KindStates(1)[0], 2) == 4;
  }

  lemma CatalogT()
    ensures forall i :: 0 <= i < |KindStates(2)| ==> CatalogShape(KindStates(2)[i])
  {
    assert BlockCountUpTo(KindStates(2)[0], 3) == 4;
    assert BlockCountUpTo(KindStates(2)[1], 3) == 4;
    assert BlockCountUpTo(KindStates(2)[2], 3) == 4;
    assert BlockCountUpTo(KindStates(2)[3], 3) == 4;
  }

  lemma CatalogS()
    ensures forall i :: 0 <= i < |KindStates(3)| ==> CatalogShape(KindStates(3)[i])
  {
    assert BlockCountUpTo(KindStates(3)[0], 3) == 4;
    assert BlockCountUpTo(KindStates(3)[1], 3) == 4;
    assert BlockCountUpTo(KindStates(3)[2], 3) == 4;
    assert BlockCountUpTo(KindStates(3)[3], 3) == 4;
  }

  lemma CatalogZ()
    ensures forall i :: 0 <= i < |KindStates(4)| ==> CatalogShape(KindStates(4)[i])
  {
    assert BlockCountUpTo(KindStates(4)[0], 3) == 4;
    assert BlockCountUpTo(KindStates(4)[1], 3) == 4;
    assert BlockCountUpTo(KindStates(4)[2], 3) == 4;
    assert BlockCountUpTo(KindStates(4)[3], 3) == 4;
  }

  lemma CatalogJ()
    ensures forall i :: 0 <= i < |KindStates(5)| ==> CatalogShape(KindStates(5)[i])
  {
    assert BlockCountUpTo(KindStates(5)[0], 3) == 4;
    assert BlockCountUpTo(KindStates(5)[1], 3) == 4;
    assert BlockCountUpTo(KindStates(5)[2], 3) == 4;
    assert BlockCountUpTo(KindStates(5)[3], 3) == 4;
  }

  lemma CatalogL()
    ensures forall i :: 0 <= i < |KindStates(6)| ==> CatalogShape(KindStates(6)[i])
  {
    assert BlockCountUpTo(KindStates(6)[0], 3) == 4;
    assert BlockCountUpTo(KindStates(6)[1], 3) == 4;
    assert BlockCountUpTo(KindStates(6)[2], 3) == 4;
    assert BlockCountUpTo(KindStates(6)[3], 3) == 4;
  }
  /** A piece drawn from the catalog: at least one state, a valid current
      state, and every state a catalog shape. */
  predicate Piece(t: Tetromino) {
    |t.states| >= 1 && t.currentState < |t.states| &&
    forall i :: 0 <= i < |t.states| ==> CatalogShape(t.states[i])
  }

  /** A freshly spawned piece: in state 0, whose grid spans all its columns. */
  predicate SpawnReady(t: Tetromino) {
    Piece(t) && t.currentState == 0 && Span(t.states[0]) == |t.states[0][0]|
  }

  /** The piece RandomTetromino::spawn builds for kind k: state 0, row 0 and
      centred in the playfield, or row 2 and centred in the preview box. */
  function Spawned(k: nat, isNext: bool): (t: Tetromino)
    requires k < KindCount
    ensures SpawnReady(t) && t.states == KindStates(k)
    ensures t.row == (if isNext then 2 else 0)
    ensures t.col == ((if isNext then NextWidth else PlayWidth) - |t.states[0][0]|) / 2
    ensures 0 <= t.col && t.col + |t.states[0][0]| <= (if isNext then NextWidth else PlayWidth)
  {
    CatalogWellFormed(k);
    var states := KindStates(k);
    var area := if isNext then NextWidth else PlayWidth;
    Tetromino(states, 0, if isNext then 2 else 0, (area - Span(states[0])) / 2)
  }
}
