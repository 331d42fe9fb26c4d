/** The moves of a piece as functions of the grid: the shifts and the
    rotation tried by the key handlers, the game-over test, where a hard
    drop lands, and where move_to_next places the preview piece. */
module Moves {
  import opened Shapes
  import opened Playfield

  /** The piece shifted by (dr, dc) when it fits there, else unchanged. */
  ghost function Shifted(g: Grid, t: Tetromino, dr: int, dc: int): Tetromino
    requires IsGrid(g) && HasState(t) && t.row + dr >= 0
  {
    if Fits(g, Cells(t), t.row + dr, t.col + dc) then t.(row := t.row + dr, col := t.col + dc) else t
  }

  /** The state rotate and is_game_over try: the following one, wrapping
      from the last state to the first. */
  function NextState(t: Tetromino): (n: nat)
    requires HasState(t)
    ensures n < |t.states|
  {
    if t.currentState + 1 < |t.states| then t.currentState + 1 else 0
  }

  /** It is the source's (current_state + 1) % states.len(). */
  lemma NextStateIsModulo(t: Tetromino)
    requires HasState(t)
    ensures NextState(t) == (t.currentState + 1) % |t.states|
  {
  }

  /** The piece after n successful rotations: only the state index moves,
      n places around the cycle of states (wrapping past the last one),
      so as many rotations as there are states bring the piece back to
      where it started. */
  function Turned(t: Tetromino, n: nat): (u: Tetromino)
    requires HasState(t)
    ensures u == t.(currentState := u.currentState)
    ensures n <= |t.states| ==>
              u.currentState == if t.currentState + n < |t.states| then t.currentState + n
                                else t.currentState + n - |t.states|
    ensures n == |t.states| ==> u == t
    decreases n
  {
    if n == 0 then t else Turned(t.(currentState := NextState(t)), n - 1)
  }

  /** The piece in its next state when that state fits in place, else unchanged. */
  ghost function Rotated(g: Grid, t: Tetromino): Tetromino
    requires IsGrid(g) && HasState(t) && t.row >= 0
  {
    var n := NextState(t);
    if Fits(g, t.states[n], t.row, t.col) then t.(currentState := n) else t
  }

  /** The condition of is_game_over: the piece can move neither left, nor
      right, nor down, nor rotate in place. */
  ghost predicate Stuck(g: Grid, t: Tetromino)
    requires IsGrid(g) && HasState(t) && t.row >= 0
  {
    !Fits(g, Cells(t), t.row, t.col - 1) && !Fits(g, Cells(t), t.row, t.col + 1) &&
    !Fits(g, Cells(t), t.row + 1, t.col) && !Fits(g, t.states[NextState(t)], t.row, t.col)
  }

  /** A piece inside the playfield has its row above the floor. */
  lemma PieceRowBound(t: Tetromino)
    requires Piece(t) && InBounds(Cells(t), t.row, t.col)
    ensures t.row < PlayHeight
  {
    var ty, tx := BlockWitness(Cells(t));
  }

  /** Where hard_drop leaves the piece: it moves down while the row below
      fits, so it ends on a row from which it cannot move down, having
      passed only through rows where it fits. */
  ghost function Landing(g: Grid, t: Tetromino): (d: Tetromino)
    requires IsGrid(g) && Piece(t) && t.row >= 0 && InBounds(Cells(t), t.row, t.col)
    ensures d == t.(row := d.row) && d.row >= t.row && InBounds(Cells(d), d.row, d.col)
    ensures forall r :: t.row < r <= d.row ==> Fits(g, Cells(t), r, t.col)
    ensures !Fits(g, Cells(t), d.row + 1, t.col)
    decreases PlayHeight - t.row
  {
    PieceRowBound(t);
    if Fits(g, Cells(t), t.row + 1, t.col) then
      FitsInBounds(g, Cells(t), t.row + 1, t.col);
      Landing(g, t.(row := t.row + 1))
    else t
  }

  /** A shift that succeeded from a fitting position is undone by the
      opposite shift. */
  lemma ShiftBack(g: Grid, t: Tetromino, dc: int)
    requires IsGrid(g) && HasState(t) && t.row >= 0 && Fits(g, Cells(t), t.row, t.col)
    requires Shifted(g, t, 0, dc) != t
    ensures Shifted(g, Shifted(g, t, 0, dc), 0, -dc) == t
  {
  }

  /** A rotation keeps the piece where it is and leaves it inside the
      playfield; a piece with a single state (the O) never changes. */
  lemma RotatedProps(g: Grid, t: Tetromino)
    requires IsGrid(g) && Piece(t) && t.row >= 0 && InBounds(Cells(t), t.row, t.col)
    ensures var u := Rotated(g, t);
      u.states == t.states && u.row == t.row && u.col == t.col && Piece(u) &&
      InBounds(Cells(u), u.row, u.col)
    ensures |t.states| == 1 ==> Rotated(g, t) == t
  {
    var n := NextState(t);
    if Fits(g, t.states[n], t.row, t.col) {
      FitsInBounds(g, t.states[n], t.row, t.col);
    }
  }

  /** move_to_next's placement of the preview piece: row 0, centred by its
      width, so inside the playfield. */
  function Promoted(t: Tetromino): (p: Tetromino)
    requires SpawnReady(t)
    ensures Piece(p) && p.states == t.states && p.currentState == 0 && p.row == 0
    ensures p.col == (PlayWidth - |t.states[0][0]|) / 2
    ensures InBounds(Cells(p), p.row, p.col)
  {
    var p := t.(row := 0, col := (PlayWidth - Span(t.states[0])) / 2);
    assert forall ty, tx :: Occupies(Cells(p), ty, tx) ==> tx < |p.states[0][0]| && ty < |p.states[0]|;
    p
  }

  /** The piece promoted from the preview is the piece spawn would have
      made for the playfield. */
  lemma PromotedIsSpawned(k: nat)
    requires k < KindCount
    ensures Promoted(Spawned(k, true)) == Spawned(k, false)
  {
  }
}
