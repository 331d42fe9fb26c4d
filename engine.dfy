/** The Game object: its playfield, current and next piece, statistics,
    multiplayer link and high-score table, updated in place by the methods
    of the event loop. Each method is proved to leave the object in the
    state the matching function of module GameState computes, so what is
    proved about those functions holds of the object. */
module Engine {
  import opened Wrappers
  import opened Shapes
  import opened Playfield
  import opened Moves
  import opened Levels
  import opened Multiplayer
  import opened HighScores
  import opened GameState

  /** RandomTetromino::spawn with the kind taken from draw `draw`. */
  method Spawn(rng: nat -> nat, draw: nat, isNext: bool) returns (t: Tetromino)
    ensures t == Spawned(KindOf(rng(draw)), isNext)
  {
    var k := KindOf(rng(draw));
    CatalogWellFormed(k);
    var states := KindStates(k);
    var width := TetrominoWidth(states[0]);
    var area := if isNext then NextWidth else PlayWidth;
    t := Tetromino(states, 0, if isNext then 2 else 0, (area - width) / 2);
  }

  /** MultiplayerScore: the match points of this player and of the peer. */
  datatype MultiplayerScore = MultiplayerScore(my: nat, competitor: nat)

  /** Where the program stands in its blocking loops, with the local
      variables of those loops: the loop that has the keyboard, the name
      being typed on the entry screen and the cursor in it, reset_needed of
      handle_event (set by 'r' on a notification), and the clock readings
      (ms) at the last gravity step and the last soft drop. */
  datatype Control = Control(mode: Mode, name: string, cursor: nat, resetPending: bool,
                             dropTimer: nat, softDropTimer: nat)

  class Game {
    var grid: Grid
    var current: Tetromino
    var next: Tetromino
    var lines: nat
    /** start_with_number_of_filled_lines */
    const startFilled: nat
    const startLevel: nat
    var level: nat
    var score: nat
    /** Gravity interval in milliseconds. */
    var dropInterval: nat
    var paused: bool
    var multiplayerScore: MultiplayerScore
    /** Whether a peer is connected (stream and receiver are present). */
    const networked: bool
    /** Everything written to the peer, in order. */
    var outbound: seq<string>
    /** Messages the listener thread has sent and the loop has not taken. */
    var inbox: seq<Message>
    /** The high-score table. */
    var records: seq<Player>
    var control: Control
    /** The random stream, and how many draws have been taken from it. */
    const rng: nat -> nat
    var drawn: nat

    /** What the object fixed at creation. */
    function En(): Env {
      Env(startFilled, startLevel, networked, rng)
    }

    /** The value of the fields. */
    ghost function St(): State
      reads this
    {
      State(grid, current, next, lines, level, score, dropInterval, paused,
            multiplayerScore.my, multiplayerScore.competitor, outbound, inbox, records,
            control.mode, control.name, control.cursor, control.resetPending,
            control.dropTimer, control.softDropTimer, drawn)
    }

    ghost predicate Valid()
      reads this
    {
      Inv(En(), St())
    }

    /** Game::new, with the clock reading taken by handle_event. */
    constructor (startFilled: nat, startLevel: nat, networked: bool, records: seq<Player>,
                 rng: nat -> nat, now: nat)
      requires startFilled <= PlayHeight && Ranked(records)
      ensures En() == Env(startFilled, startLevel, networked, rng)
      ensures St() == Initial(En(), records, now) && Valid()
    {
      var g := CreateGrid(PlayWidth, PlayHeight, startFilled, rng, 0);
      var c := Spawn(rng, 2 * startFilled, false);
      var n := Spawn(rng, 2 * startFilled + 1, true);
      var interval := InitialDropInterval(startLevel);
      this.grid := g;
      this.current := c;
      this.next := n;
      this.lines := 0;
      this.startFilled := startFilled;
      this.startLevel := startLevel;
      this.level := startLevel;
      this.score := 0;
      this.dropInterval := interval;
      this.paused := false;
      this.multiplayerScore := MultiplayerScore(0, 0);
      this.networked := networked;
      this.outbound := [];
      this.inbox := [];
      this.records := records;
      this.control := Control(Playing, "", 0, false, now, now);
      this.rng := rng;
      this.drawn := 2 * startFilled + 2;
    }

    // -------------------------------------------------------------------
    // Collision test and moves

    /** can_move: whether every occupied cell of the piece's current state,
        placed at (r, c), is inside the walls, above the floor and on an
        empty cell. */
    method CanMove(t: Tetromino, r: int, c: int) returns (ok: bool)
      requires IsGrid(grid) && HasState(t) && r >= 0
      ensures ok == Fits(grid, Cells(t), r, c)
    {
      var s := Cells(t);
      for ty := 0 to |s|
        invariant forall y, x :: 0 <= y < ty && Occupies(s, y, x) ==> Free(grid, r + y, c + x)
      {
        for tx := 0 to |s[ty]|
          invariant forall y, x :: 0 <= y < ty && Occupies(s, y, x) ==> Free(grid, r + y, c + x)
          invariant forall x :: 0 <= x < tx && Occupies(s, ty, x) ==> Free(grid, r + ty, c + x)
        {
          if s[ty][tx] != E {
            var gx := c + tx;
            var gy := r + ty;
            if gx < 0 || gx >= PlayWidth || gy >= PlayHeight || grid[gy][gx] != E {
              assert Occupies(s, ty, tx) && !Free(grid, gy, gx);
              return false;
            }
          }
        }
      }
      return true;
    }

    /** Tetromino::move_left. */
    method MoveLeft(t: Tetromino) returns (moved: Tetromino)
      requires IsGrid(grid) && HasState(t) && t.row >= 0
      ensures moved == Shifted(grid, t, 0, -1)
      ensures InBounds(Cells(t), t.row, t.col) ==> InBounds(Cells(moved), moved.row, moved.col)
    {
      moved := t;
      var ok := CanMove(t, t.row, t.col - 1);
      if ok {
        FitsInBounds(grid, Cells(t), t.row, t.col - 1);
        moved := t.(col := t.col - 1);
      }
    }

    /** Tetromino::move_right. */
    method MoveRight(t: Tetromino) returns (moved: Tetromino)
      requires IsGrid(grid) && HasState(t) && t.row >= 0
      ensures moved == Shifted(grid, t, 0, 1)
      ensures InBounds(Cells(t), t.row, t.col) ==> InBounds(Cells(moved), moved.row, moved.col)
    {
      moved := t;
      var ok := CanMove(t, t.row, t.col + 1);
      if ok {
        FitsInBounds(grid, Cells(t), t.row, t.col + 1);
        moved := t.(col := t.col + 1);
      }
    }

    /** Tetromino::move_down. */
    method MoveDown(t: Tetromino) returns (moved: Tetromino)
      requires IsGrid(grid) && HasState(t) && t.row >= 0
      ensures moved == Shifted(grid, t, 1, 0)
      ensures InBounds(Cells(t), t.row, t.col) ==> InBounds(Cells(moved), moved.row, moved.col)
    {
      moved := t;
      var ok := CanMove(t, t.row + 1, t.col);
      if ok {
        FitsInBounds(grid, Cells(t), t.row + 1, t.col);
        moved := t.(row := t.row + 1);
      }
    }

    /** Tetromino::rotate: try the next state at the same position. */
    method Rotate(t: Tetromino) returns (moved: Tetromino)
      requires IsGrid(grid) && Piece(t) && t.row >= 0
      ensures moved == Rotated(grid, t)
    {
      moved := t;
      var n := NextState(t);
      var ok := CanMove(t.(currentState := n), t.row, t.col);
      if ok {
        moved := t.(currentState := n);
      }
    }

    /** Tetromino::hard_drop. */
    method HardDrop(t: Tetromino) returns (dropped: Tetromino)
      requires IsGrid(grid) && Piece(t) && t.row >= 0 && InBounds(Cells(t), t.row, t.col)
      ensures dropped == Landing(grid, t)
    {
      dropped := t;
      var ok := CanMove(dropped, dropped.row + 1, dropped.col);
      while ok
        invariant Piece(dropped) && dropped.row >= 0 && InBounds(Cells(dropped), dropped.row, dropped.col)
        invariant Landing(grid, dropped) == Landing(grid, t)
        invariant ok == Fits(grid, Cells(dropped), dropped.row + 1, dropped.col)
        decreases PlayHeight - dropped.row
      {
        PieceRowBound(dropped);
        FitsInBounds(grid, Cells(dropped), dropped.row + 1, dropped.col);
        dropped := dropped.(row := dropped.row + 1);
        ok := CanMove(dropped, dropped.row + 1, dropped.col);
      }
    }

    /** is_game_over, checked with the piece just moved to the top. */
    method IsGameOver() returns (over: bool)
      requires IsGrid(grid) && Piece(current) && current.row >= 0
      ensures over == Stuck(grid, current)
    {
      var t := current;
      var left := CanMove(t, t.row, t.col - 1);
      if left { return false; }
      var right := CanMove(t, t.row, t.col + 1);
      if right { return false; }
      var down := CanMove(t, t.row + 1, t.col);
      if down { return false; }
      var turned := CanMove(t.(currentState := NextState(t)), t.row, t.col);
      return !turned;
    }

    // -------------------------------------------------------------------
    // Locking, clearing and the next piece

    /** clear_filled_rows: collect the full rows bottom-up, then, from the
        topmost, remove each and put an empty row on top, counting a line
        each time; score the count and report it to the peer. */
    method ClearFilledRows()
      modifies this`grid, this`lines, this`score, this`outbound
      requires IsGrid(grid)
      ensures grid == Cleared(old(grid))
      ensures lines == old(lines) + FullCount(old(grid))
      ensures score == old(score) + ScoreFor(FullCount(old(grid)), level)
      ensures outbound == old(outbound) + ClearedReport(networked, FullCount(old(grid)))
    {
      var filled := FilledRows();
      RemoveRows(filled);
      var k := |filled|;
      AddScore(k);
      if networked && k > 0 {
        outbound := outbound + [Encode(ClearedRows(k))];
      }
    }

    /** The first loop of clear_filled_rows: the indices of the full rows,
        scanned from the bottom row up. */
    method FilledRows() returns (filled: seq<nat>)
      requires IsGrid(grid)
      ensures filled == FullDesc(grid, 0)
    {
      filled := [];
      var ri: nat := PlayHeight;
      while ri > 0
        invariant ri <= |grid| && filled == FullDesc(grid, ri)
      {
        ri := ri - 1;
        if FullRow(grid[ri]) {
          filled := filled + [ri];
        }
      }
    }

    /** The second loop of clear_filled_rows: for each collected index, the
        topmost first, remove that row and insert an empty row at the top. */
    method RemoveRows(filled: seq<nat>)
      modifies this`grid, this`lines
      requires IsGrid(grid) && filled == FullDesc(grid, 0)
      ensures grid == Cleared(old(grid)) && |filled| == FullCount(old(grid))
      ensures lines == old(lines) + FullCount(old(grid))
    {
      ghost var g0 := grid;
      FullDescRows(g0, 0);
      var newRow := EmptyRow(PlayWidth);
      var j: nat := |filled|;
      while j > 0
        invariant j <= |filled| && grid == RemovedFrom(g0, filled, j)
        invariant lines == old(lines) + (|filled| - j)
      {
        var idx := filled[j - 1];
        grid := [newRow] + (grid[..idx] + grid[idx + 1..]);
        lines := lines + 1;
        j := j - 1;
      }
      RemovedFromClears(g0);
    }

    /** The score match of clear_filled_rows. */
    method AddScore(k: nat)
      modifies this`score
      ensures score == old(score) + ScoreFor(k, level)
    {
      if k == 1 {
        score := score + 100 * (level + 1);
      } else if k == 2 {
        score := score + 300 * (level + 1);
      } else if k == 3 {
        score := score + 500 * (level + 1);
      } else if k == 4 {
        score := score + 800 * (level + 1);
      }
    }

    /** lock_tetromino: write the piece's occupied cells into the grid, then
        clear the full rows. */
    method LockTetromino(t: Tetromino)
      modifies this`grid, this`lines, this`score, this`outbound
      requires IsGrid(grid) && Piece(t) && t.row >= 0 && InBounds(Cells(t), t.row, t.col)
      ensures St() == Lock(En(), old(St()), t)
    {
      PlaceTetromino(t);
      ClearFilledRows();
    }

    /** The loops of lock_tetromino: every occupied cell of the piece's
        current state is written at its place in the grid. */
    method PlaceTetromino(t: Tetromino)
      modifies this`grid
      requires IsGrid(grid) && Piece(t) && t.row >= 0 && InBounds(Cells(t), t.row, t.col)
      ensures grid == Locked(old(grid), Cells(t), t.row, t.col) && IsGrid(grid)
    {
      var s := Cells(t);
      ghost var g0 := grid;
      LockedUpToStart(g0, s, t.row, t.col);
      for ty := 0 to |s|
        invariant grid == LockedUpTo(g0, s, t.row, t.col, ty, 0)
      {
        for tx := 0 to |s[ty]|
          invariant grid == LockedUpTo(g0, s, t.row, t.col, ty, tx)
        {
          if s[ty][tx] != E {
            assert Occupies(s, ty, tx);
            LockedUpToWrite(g0, s, t.row, t.col, ty, tx);
            var gx := t.col + tx;
            var gy := t.row + ty;
            grid := grid[gy := grid[gy][gx := s[ty][tx]]];
          } else {
            LockedUpToSkip(g0, s, t.row, t.col, ty, tx);
          }
        }
        LockedUpToRow(g0, s, t.row, t.col, ty);
      }
      LockedUpToDone(g0, s, t.row, t.col);
      LockedCells(g0, s, t.row, t.col);
    }

    /** move_to_next: the preview piece goes to the top of the playfield and
        a new preview is spawned. */
    method MoveToNext()
      modifies this`current, this`next, this`drawn
      requires SpawnReady(next)
      ensures St() == Advance(En(), old(St()))
    {
      var width := TetrominoWidth(next.states[0]);
      current := next.(row := 0, col := (PlayWidth - width) / 2);
      next := Spawn(rng, drawn, true);
      drawn := drawn + 1;
    }

    /** handle_game_over: tell the peer it has won and count a point for it,
        then open the name entry when the score qualifies for the table and
        the high-score screen otherwise. */
    method HandleGameOver()
      modifies this`outbound, this`multiplayerScore, this`control
      ensures St() == GameOver(En(), old(St()))
    {
      if networked {
        outbound := outbound + [Encode(Notification(WinText))];
        multiplayerScore := multiplayerScore.(competitor := multiplayerScore.competitor + 1);
      }
      if score == 0 {
        control := control.(mode := ScoreScreen);
      } else if |records| < TopCount {
        control := control.(mode := NameEntry, name := "", cursor := 0);
      } else {
        var player := records[TopCount - 1];
        if score <= player.score {
          control := control.(mode := ScoreScreen);
        } else {
          control := control.(mode := NameEntry, name := "", cursor := 0);
        }
      }
    }

    /** lock_and_move_to_next: lock the piece, bring in the preview piece,
        and run handle_game_over when the new piece is stuck. */
    method LockAndMoveToNext(t: Tetromino)
      modifies this
      requires IsGrid(grid) && Piece(t) && t.row >= 0 && InBounds(Cells(t), t.row, t.col) && SpawnReady(next)
      ensures St() == LockAndNext(En(), old(St()), t)
    {
      LockTetromino(t);
      MoveToNext();
      var over := IsGameOver();
      if over {
        HandleGameOver();
      }
    }

    /** The gravity step and the soft drop of handle_event: move down when
        the row below fits, else lock. */
    method DropOrLock()
      modifies this
      requires Playable(St())
      ensures St() == Fall(En(), old(St()))
    {
      var t := current;
      var down := CanMove(t, t.row + 1, t.col);
      if down {
        StepDown();
      } else {
        LockAndMoveToNext(t);
      }
    }

    /** Tetromino::move_down on the current piece, when the row below fits. */
    method StepDown()
      modifies this`current
      requires IsGrid(grid) && HasState(current) && current.row >= 0
      requires Fits(grid, Cells(current), current.row + 1, current.col)
      ensures current == old(current).(row := old(current).row + 1)
    {
      var t := MoveDown(current);
      current := t;
    }

    /** The level step at the top of a running iteration. */
    method LevelStep()
      modifies this`level, this`dropInterval
      ensures St() == LevelUp(old(St()))
    {
      if level <= MaxLevel && lines >= LinesPerLevel * (level + 1) {
        level := level + 1;
        dropInterval := dropInterval - dropInterval / 10;
      }
    }

    /** The gravity step, once the interval has elapsed since the last. */
    method GravityStep(now: nat)
      modifies this
      requires Playable(St())
      ensures St() == Gravity(En(), old(St()), now)
    {
      if now >= control.dropTimer + dropInterval {
        DropOrLock();
        control := control.(dropTimer := now);
      }
    }

    /** The key match of handle_event. */
    method HandleKey(key: Key, now: nat)
      modifies this
      requires Playable(St())
      ensures St() == PlayKey(En(), old(St()), key, now)
    {
      if LeftKey(key) || RightKey(key) || RotateKey(key) {
        MoveKey(key, now);
      } else if SoftDropKey(key) {
        SoftDropArm(now);
      } else if HardDropKey(key) {
        HardDropArm();
      } else if key == Char('p') {
        paused := !paused;
      } else if key == Char('q') {
        control := control.(mode := QuitPrompt);
      }
    }

    /** The arms of the key match that shift or rotate the piece. */
    method MoveKey(key: Key, now: nat)
      modifies this`current
      requires Playable(St()) && (LeftKey(key) || RightKey(key) || RotateKey(key))
      ensures St() == PlayKey(En(), old(St()), key, now)
    {
      var t := current;
      if LeftKey(key) {
        t := MoveLeft(t);
      } else if RightKey(key) {
        t := MoveRight(t);
      } else {
        t := Rotate(t);
      }
      current := t;
    }

    /** The soft drop arm: a gravity step once an eighth of the interval
        has elapsed since the last soft drop. */
    method SoftDropArm(now: nat)
      modifies this
      requires Playable(St())
      ensures St() == if now >= old(control.softDropTimer) + old(dropInterval) / 8
                      then Fall(En(), old(St())).(softDropTimer := now) else old(St())
    {
      if now >= control.softDropTimer + dropInterval / 8 {
        DropOrLock();
        control := control.(softDropTimer := now);
      }
    }

    /** The hard drop arm: drop the piece as far as it goes and lock it. */
    method HardDropArm()
      modifies this
      requires Playable(St())
      ensures St() == LockAndNext(En(), old(St()), Landing(old(grid), old(current)))
    {
      var t := HardDrop(current);
      LockAndMoveToNext(t);
    }

    // -------------------------------------------------------------------
    // The receiver drain

    /** A ClearedRows message: build one garbage row from the next two
        draws, then rows times drop the top row and append it at the
        bottom. */
    method ReceiveClearedRows(rows: nat)
      modifies this`grid, this`drawn
      ensures St() == Garbage(En(), old(St()), rows)
    {
      var cell := Palette[rng(drawn) % 7];
      var newRow := seq(PlayWidth, _ => cell);
      var column := rng(drawn + 1) % 10;
      newRow := newRow[column := E];
      assert newRow == GarbageFor(rng, drawn);
      ghost var g0 := grid;
      var i := 0;
      while i < rows
        invariant i <= rows && grid == Raised(g0, newRow, i) && drawn == old(drawn)
      {
        if grid != [] {
          RaisedStep(g0, newRow, i);
          grid := grid[1..] + [newRow];
        } else {
          assert g0 == [];
        }
        i := i + 1;
      }
      drawn := drawn + 2;
    }

    /** A Notification message: flip the pause flag, count the match point
        and open the notification prompt. */
    method ReceiveNotification(text: string)
      modifies this`paused, this`multiplayerScore, this`control
      ensures St() == Notice(old(St()), text)
    {
      paused := !paused;
      multiplayerScore := multiplayerScore.(my := multiplayerScore.my + 1);
      control := control.(mode := NoticePrompt(text));
    }

    /** The try_iter loop: take the queued messages in order until one of
        them opens the notification prompt. */
    method DrainInbox()
      modifies this
      ensures St() == Drain(En(), old(St()))
    {
      var stopped := false;
      while inbox != [] && !stopped
        invariant (if stopped then St() else Drain(En(), St())) == Drain(En(), old(St()))
        decreases |inbox|
      {
        var m := inbox[0];
        inbox := inbox[1..];
        match m
        case ClearedRows(rows) =>
          ReceiveClearedRows(rows);
        case Notification(text) =>
          ReceiveNotification(text);
          stopped := true;
      }
    }

    /** Game::reset. */
    method Reset()
      modifies this
      requires startFilled <= PlayHeight
      ensures St() == GameState.Reset(En(), old(St()))
    {
      var g := CreateGrid(PlayWidth, PlayHeight, startFilled, rng, drawn);
      grid, drawn := g, drawn + 2 * startFilled;
      assert St() == ResetGrid(En(), old(St()));
      ResetCurrent();
      ResetNext();
      ResetStatistics();
    }

    /** The first spawn of Game::reset. */
    method ResetCurrent()
      modifies this`current, this`drawn
      ensures St() == GameState.ResetCurrent(En(), old(St()))
    {
      var c := Spawn(rng, drawn, false);
      current, drawn := c, drawn + 1;
    }

    /** The second spawn of Game::reset. */
    method ResetNext()
      modifies this`next, this`drawn
      ensures St() == GameState.ResetNext(En(), old(St()))
    {
      var n := Spawn(rng, drawn, true);
      next, drawn := n, drawn + 1;
    }

    /** The statistics, the interval loop, the receiver drain and the pause
        of Game::reset. */
    method ResetStatistics()
      modifies this
      ensures St() == ResetStats(En(), old(St()))
    {
      var interval := InitialDropInterval(startLevel);
      lines, level, score, dropInterval := 0, startLevel, 0, interval;
      inbox, paused := [], false;
    }

    /** reset_game: reset, then a fresh handle_event. */
    method ResetGame(now: nat)
      modifies this
      requires startFilled <= PlayHeight
      ensures St() == Restart(En(), old(St()), now)
    {
      Reset();
      control := control.(mode := Playing, resetPending := false, dropTimer := now, softDropTimer := now);
    }

    /** The end of a running iteration: the drain, then the reset asked for. */
    method Finish(now: nat)
      modifies this
      requires startFilled <= PlayHeight
      ensures St() == Continue(En(), old(St()), now)
    {
      DrainInbox();
      if control.mode == Playing && control.resetPending {
        ResetGame(now);
      }
    }

    // -------------------------------------------------------------------
    // The prompts

    /** handle_pause_event, given the key pressed. */
    method PauseKey(key: Key)
      modifies this`paused, this`control
      ensures St() == GameState.PauseKey(old(St()), key)
    {
      if key == Enter || key == Char('c') {
        paused := false;
      } else if key == Char('q') {
        control := control.(mode := Exited);
      }
    }

    /** handle_quit_event, given the key pressed; on a resume the running
        iteration goes on with the drain. */
    method QuitKey(key: Key, now: nat)
      modifies this
      requires startFilled <= PlayHeight
      ensures St() == GameState.QuitKey(En(), old(St()), key, now)
    {
      if key == Enter || key == Char('y') {
        control := control.(mode := Exited);
      } else if key == Esc || key == Char('n') {
        paused, control := false, control.(mode := Playing);
        Finish(now);
      }
    }

    /** The notification prompt, given the key pressed. */
    method NoticeKey(key: Key, now: nat)
      modifies this
      requires startFilled <= PlayHeight
      ensures St() == GameState.NoticeKey(En(), old(St()), key, now)
    {
      ghost var s0 := St();
      if key == Enter || key == Char('c') {
        paused, control := false, control.(mode := Playing);
        assert St() == s0.(paused := false, mode := Playing);
        Finish(now);
      } else if key == Char('r') {
        control := control.(resetPending := true, mode := Playing);
        assert St() == s0.(resetPending := true, mode := Playing);
        Finish(now);
      } else if key == Char('q') {
        control := control.(mode := Exited);
      }
    }

    /** The loop of show_high_scores, given the key pressed. */
    method ScoreKey(key: Key, now: nat)
      modifies this
      requires startFilled <= PlayHeight
      ensures St() == GameState.ScoreKey(En(), old(St()), key, now)
    {
      if key == Char('q') {
        control := control.(mode := Exited);
      } else if key == Char('r') {
        ResetGame(now);
      }
    }

    /** The loop of new_high_score, given the key pressed. */
    method NameKey(key: Key)
      modifies this`records, this`control
      requires control.cursor <= |control.name|
      ensures St() == GameState.NameKey(old(St()), key)
    {
      if key == Enter {
        var p := Player(control.name, score);
        InsertRankedMultiset(records, p);
        records, control := InsertRanked(records, p), control.(mode := ScoreScreen);
        return;
      }
      var n, c := control.name, control.cursor;
      match key {
      case Backspace =>
        if |n| > 0 && c > 0 {
          n, c := RemoveBefore(n, c), c - 1;
        }
      case Left =>
        if c > 0 {
          c := c - 1;
        }
      case Right =>
        if c < |n| {
          c := c + 1;
        }
      case Char(ch) =>
        if |n| < MaxNameLength {
          n, c := InsertAt(n, c, ch), c + 1;
        }
      case _ =>
      }
      control := control.(name := n, cursor := c);
    }

    // -------------------------------------------------------------------
    // The loop

    /** One iteration of the loop of handle_event. */
    method Tick(now: nat, key: Option<Key>)
      modifies this
      requires Playable(St()) && startFilled <= PlayHeight
      ensures St() == GameState.Tick(En(), old(St()), now, key)
    {
      if paused {
        if key.Some? {
          PauseKey(key.value);
        }
        return;
      }
      LevelStep();
      GravityStep(now);
      if control.mode != Playing {
        return;
      }
      if key.Some? {
        HandleKey(key.value, now);
      }
      if control.mode != Playing {
        return;
      }
      Finish(now);
    }

    /** One step of the program: the key goes to the loop that has the
        keyboard. The invariant is kept. */
    method Step(now: nat, key: Option<Key>)
      modifies this
      requires Valid()
      ensures St() == GameState.Step(En(), old(St()), now, key) && Valid()
    {
      StepKeepsInv(En(), St(), now, key);
      match control.mode
      case Playing => Tick(now, key);
      case Exited =>
      case QuitPrompt => if key.Some? { QuitKey(key.value, now); }
      case NoticePrompt(_) => if key.Some? { NoticeKey(key.value, now); }
      case ScoreScreen => if key.Some? { ScoreKey(key.value, now); }
      case NameEntry => if key.Some? { NameKey(key.value); }
    }

    /** The listener thread on the connection: what it decodes from the
        reads is queued for the loop. */
    method Listen(results: seq<ReadResult>)
      modifies this`inbox
      requires networked
      ensures St() == Deliver(old(St()), results)
    {
      var sent := ForwardToMainThread(results);
      inbox := inbox + sent;
    }
  }
}
