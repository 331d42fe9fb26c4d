/** The game as a state machine: the value of every field the event loop
    changes, and one function per step of the loop, of its prompts and of
    the helpers they call. The Game class in module Engine runs the same
    steps in place and is proved to produce exactly these states. */
module GameState {
  import opened Wrappers
  import opened Shapes
  import opened Playfield
  import opened Moves
  import opened Levels
  import opened Multiplayer
  import opened HighScores

  /** The key presses the loops react to; every other key is Other. */
  datatype Key = Char(ch: char) | Enter | Esc | Backspace | Left | Right | Up | Down | Other

  /** Which loop has the keyboard: the play loop (running or paused), one of
      the blocking prompts, or none because the process has exited. */
  datatype Mode = Playing | QuitPrompt | NoticePrompt(text: string) | ScoreScreen | NameEntry | Exited

  /** The text a losing player sends to the winner. */
  const WinText: string := "YOU WIN!"

  predicate LeftKey(k: Key) { k == Char('h') || k == Left }
  predicate RightKey(k: Key) { k == Char('l') || k == Right }
  predicate RotateKey(k: Key) { k == Char(' ') }
  predicate SoftDropKey(k: Key) { k == Char('s') || k == Up }
  predicate HardDropKey(k: Key) { k == Char('j') || k == Down }

  /** What Game::new fixes for the whole session: the number of handicap rows,
      the start level, whether a peer is connected, and the random stream. */
  datatype Env = Env(startFilled: nat, startLevel: nat, networked: bool, rng: nat -> nat)

  /** The fields the loop changes. `drawn` counts the draws taken from the
      random stream; `outbound` is everything written to the peer and
      `inbox` what the listener thread has queued and the loop has not yet
      taken; `name` and `cursor` belong to the name entry screen;
      `resetPending` is reset_needed of the running handle_event. */
  datatype State = State(
    grid: Grid, current: Tetromino, next: Tetromino,
    lines: nat, level: nat, score: nat, dropInterval: nat, paused: bool,
    myScore: nat, competitorScore: nat,
    outbound: seq<string>, inbox: seq<Message>, records: seq<Player>,
    mode: Mode, name: string, cursor: nat, resetPending: bool,
    dropTimer: nat, softDropTimer: nat, drawn: nat)

  /** A 20 x 10 grid without full rows, a current piece inside the walls
      and above the floor, and a freshly spawned preview piece. */
  ghost predicate Playable(s: State) {
    IsGrid(s.grid) && NoFullRows(s.grid) &&
    Piece(s.current) && s.current.row >= 0 && InBounds(Cells(s.current), s.current.row, s.current.col) &&
    SpawnReady(s.next)
  }

  /** What every step keeps: a playable board, the interval of the current
      level, a ranked table, a name of at most 12 characters with the
      cursor inside it, and no messages without a peer. */
  ghost predicate Inv(e: Env, s: State) {
    Playable(s) && e.startFilled <= PlayHeight &&
    e.startLevel <= s.level && s.dropInterval == DecayTimes(DefaultInterval, s.level) &&
    Ranked(s.records) && s.cursor <= |s.name| <= MaxNameLength &&
    (e.networked || s.inbox == [])
  }

  /** What the moves of the running loop leave alone: the level and its
      interval, the table, the queue, and the name, unless a game over
      restarted it empty. */
  predicate Steady(s: State, r: State) {
    r.level == s.level && r.dropInterval == s.dropInterval && r.records == s.records && r.inbox == s.inbox &&
    ((r.name == s.name && r.cursor == s.cursor) || (r.name == "" && r.cursor == 0))
  }

  /** Nothing is taken back: the match points only grow, every row of the
      table stays, and everything sent to the peer stays sent. */
  ghost predicate Grows(s: State, r: State) {
    r.myScore >= s.myScore && r.competitorScore >= s.competitorScore &&
    multiset(s.records) <= multiset(r.records) && s.outbound <= r.outbound
  }

  lemma GrowsTrans(s: State, r: State, u: State)
    requires Grows(s, r) && Grows(r, u)
    ensures Grows(s, u)
  {
    assert s.outbound == u.outbound[..|s.outbound|] by {
      assert r.outbound[..|s.outbound|] == u.outbound[..|r.outbound|][..|s.outbound|];
    }
  }

  /** The message clear_filled_rows sends for k cleared rows. */
  function ClearedReport(networked: bool, k: nat): seq<string> {
    if networked && k > 0 then [Encode(ClearedRows(k))] else []
  }

  /** The message handle_game_over sends. */
  function WinReport(networked: bool): seq<string> {
    if networked then [Encode(Notification(WinText))] else []
  }

  // ---------------------------------------------------------------------
  // Creating and resetting a game

  /** Game::new: the handicap grid from the first 2 * startFilled draws,
      then the current and the preview piece, the interval of the start
      level, and zero lines, score and match points. */
  function Initial(e: Env, records: seq<Player>, now: nat): (s: State)
    requires e.startFilled <= PlayHeight && Ranked(records)
    ensures Inv(e, s) && s.mode == Playing && !s.paused && !s.resetPending
    ensures s.lines == 0 && s.score == 0 && s.level == e.startLevel && s.inbox == [] && s.outbound == []
    ensures s.drawn == 2 * e.startFilled + 2 && s.records == records
  {
    var k := e.startFilled;
    HandicapGridShape(k, e.rng, 0);
    PromotedIsSpawned(KindOf(e.rng(2 * k)));
    State(HandicapGrid(PlayWidth, PlayHeight, k, e.rng, 0),
          Spawned(KindOf(e.rng(2 * k)), false), Spawned(KindOf(e.rng(2 * k + 1)), true),
          0, e.startLevel, 0, DecayTimes(DefaultInterval, e.startLevel), false,
          0, 0, [], [], records, Playing, "", 0, false, now, now, 2 * k + 2)
  }

  /** Game::reset: a new handicap grid and two new pieces from the next
      draws, zero lines and score, the start level and its interval, the
      receiver emptied and the pause lifted; the match points, the table
      and the prompt state stay. */
  function Reset(e: Env, s: State): (r: State)
    requires e.startFilled <= PlayHeight
    ensures Playable(r) && r.lines == 0 && r.score == 0 && r.level == e.startLevel
    ensures r.dropInterval == DecayTimes(DefaultInterval, e.startLevel) && r.inbox == [] && !r.paused
    ensures r.drawn == s.drawn + 2 * e.startFilled + 2
    ensures r.(grid := s.grid, current := s.current, next := s.next, lines := s.lines, level := s.level,
               score := s.score, dropInterval := s.dropInterval, inbox := s.inbox, paused := s.paused,
               drawn := s.drawn) == s
  {
    var k := e.startFilled;
    HandicapGridShape(k, e.rng, s.drawn);
    PromotedIsSpawned(KindOf(e.rng(s.drawn + 2 * k)));
    ResetStats(e, ResetNext(e, ResetCurrent(e, ResetGrid(e, s))))
  }

  /** The first step of Game::reset: create_grid from the next
      2 * startFilled draws. */
  function ResetGrid(e: Env, s: State): (r: State)
    requires e.startFilled <= PlayHeight
  {
    s.(grid := HandicapGrid(PlayWidth, PlayHeight, e.startFilled, e.rng, s.drawn), drawn := s.drawn + 2 * e.startFilled)
  }

  /** The second step: the current piece from the next draw. */
  function ResetCurrent(e: Env, s: State): (r: State) {
    s.(current := Spawned(KindOf(e.rng(s.drawn)), false), drawn := s.drawn + 1)
  }

  /** The third step: the preview piece from the next draw. */
  function ResetNext(e: Env, s: State): (r: State) {
    s.(next := Spawned(KindOf(e.rng(s.drawn)), true), drawn := s.drawn + 1)
  }

  /** The last step: the statistics, the interval, the receiver and the pause. */
  function ResetStats(e: Env, s: State): (r: State) {
    s.(lines := 0, level := e.startLevel, score := 0, dropInterval := DecayTimes(DefaultInterval, e.startLevel),
       inbox := [], paused := false)
  }

  /** reset_game: reset, then a fresh handle_event with new timers and no
      restart pending. */
  function Restart(e: Env, s: State, now: nat): (r: State)
    requires e.startFilled <= PlayHeight
    ensures Grows(s, r)
  {
    Reset(e, s).(mode := Playing, resetPending := false, dropTimer := now, softDropTimer := now)
  }

  // ---------------------------------------------------------------------
  // Locking a piece

  /** lock_tetromino: the piece's occupied cells written into the grid,
      then the full rows cleared, counted, scored and reported. */
  function Lock(e: Env, s: State, t: Tetromino): (r: State)
    requires IsGrid(s.grid) && Piece(t) && t.row >= 0 && InBounds(Cells(t), t.row, t.col)
    ensures IsGrid(r.grid) && NoFullRows(r.grid)
    ensures r.(grid := s.grid, lines := s.lines, score := s.score, outbound := s.outbound) == s
    ensures Grows(s, r)
  {
    var placed := Locked(s.grid, Cells(t), t.row, t.col);
    var k := FullCount(placed);
    LockedCells(s.grid, Cells(t), t.row, t.col);
    ClearedShape(placed);
    s.(grid := Cleared(placed), lines := s.lines + k, score := s.score + ScoreFor(k, s.level),
       outbound := s.outbound + ClearedReport(e.networked, k))
  }

  /** move_to_next: the preview piece goes to the top of the playfield and
      the next draw gives the new preview. */
  function Advance(e: Env, s: State): (r: State)
    requires SpawnReady(s.next)
    ensures Piece(r.current) && r.current.row == 0 && InBounds(Cells(r.current), 0, r.current.col)
    ensures SpawnReady(r.next) && r.current.states == s.next.states
    ensures r.(current := s.current, next := s.next, drawn := s.drawn) == s
  {
    s.(current := Promoted(s.next), next := Spawned(KindOf(e.rng(s.drawn)), true), drawn := s.drawn + 1)
  }

  /** The screen handle_game_over opens. */
  function GameOverMode(score: nat, records: seq<Player>): Mode {
    if Qualifies(score, records) then NameEntry else ScoreScreen
  }

  /** handle_game_over: the win reported to the peer and counted for it,
      then the name entry (with an empty name) when the score qualifies
      for the table, the high-score screen otherwise. */
  function GameOver(e: Env, s: State): (r: State)
    ensures Grows(s, r)
  {
    var o := s.(outbound := s.outbound + WinReport(e.networked),
                competitorScore := s.competitorScore + (if e.networked then 1 else 0));
    if Qualifies(s.score, s.records) then o.(mode := NameEntry, name := "", cursor := 0)
    else o.(mode := ScoreScreen)
  }

  /** lock_and_move_to_next: lock, bring in the preview piece, and end the
      game when the new piece can move neither left, right nor down and
      cannot rotate. */
  ghost function LockAndNext(e: Env, s: State, t: Tetromino): (r: State)
    requires IsGrid(s.grid) && Piece(t) && t.row >= 0 && InBounds(Cells(t), t.row, t.col)
    requires SpawnReady(s.next)
    ensures Playable(r) && Steady(s, r) && Grows(s, r)
  {
    var l := Lock(e, s, t);
    var a := Advance(e, l);
    GrowsTrans(s, l, a);
    if Stuck(a.grid, a.current) then GrowsTrans(s, a, GameOver(e, a)); GameOver(e, a) else a
  }

  /** The gravity step and the soft drop: one row down when the piece fits
      there, else locked where it is. */
  ghost function Fall(e: Env, s: State): (r: State)
    requires Playable(s)
    ensures Playable(r) && Steady(s, r) && Grows(s, r)
  {
    var t := s.current;
    if Fits(s.grid, Cells(t), t.row + 1, t.col) then
      FitsInBounds(s.grid, Cells(t), t.row + 1, t.col);
      s.(current := t.(row := t.row + 1))
    else LockAndNext(e, s, t)
  }

  // ---------------------------------------------------------------------
  // One iteration of the running loop

  /** The level step: one level up, and a tenth off the interval, once
      enough lines are cleared. */
  function LevelUp(s: State): (r: State) {
    if LevelDue(s.level, s.lines) then s.(level := s.level + 1, dropInterval := Decay(s.dropInterval)) else s
  }

  /** A gravity step once the drop interval has elapsed since the last one. */
  ghost function Gravity(e: Env, s: State, now: nat): (r: State)
    requires Playable(s)
    ensures Playable(r) && Steady(s, r) && Grows(s, r)
  {
    if now >= s.dropTimer + s.dropInterval then Fall(e, s).(dropTimer := now) else s
  }

  /** The key match of the running loop. A soft drop waits an eighth of the
      interval since the last one; 'q' opens the quit prompt. */
  ghost function PlayKey(e: Env, s: State, key: Key, now: nat): (r: State)
    requires Playable(s)
    ensures Playable(r) && Steady(s, r) && Grows(s, r)
  {
    var t := s.current;
    var g := s.grid;
    if LeftKey(key) || RightKey(key) then
      var dc := if LeftKey(key) then -1 else 1;
      if Fits(g, Cells(t), t.row, t.col + dc) then FitsInBounds(g, Cells(t), t.row, t.col + dc); s.(current := Shifted(g, t, 0, dc))
      else s
    else if RotateKey(key) then
      RotatedProps(g, t);
      s.(current := Rotated(g, t))
    else if SoftDropKey(key) then
      if now >= s.softDropTimer + s.dropInterval / 8 then Fall(e, s).(softDropTimer := now) else s
    else if HardDropKey(key) then
      LockAndNext(e, s, Landing(g, t))
    else if key == Char('p') then s.(paused := !s.paused)
    else if key == Char('q') then s.(mode := QuitPrompt)
    else s
  }

  /** A ClearedRows(rows) message from the peer: one garbage row, from the
      next two draws, pushed up from the bottom rows times. */
  function Garbage(e: Env, s: State, rows: nat): (r: State) {
    s.(grid := Raised(s.grid, GarbageFor(e.rng, s.drawn), rows), drawn := s.drawn + 2)
  }

  /** A Notification(text) from the peer: the pause flag flips, a match
      point is counted, and the notification prompt opens. */
  function Notice(s: State, text: string): (r: State) {
    s.(paused := !s.paused, myScore := s.myScore + 1, mode := NoticePrompt(text))
  }

  /** The drain of the receiver: messages are taken in order; garbage is
      applied at once, and a notification opens its prompt, which holds
      the rest of the queue until it is answered. */
  function Drain(e: Env, s: State): (r: State)
    ensures Grows(s, r)
    decreases |s.inbox|
  {
    if s.inbox == [] then s
    else
      var rest := s.(inbox := s.inbox[1..]);
      match s.inbox[0]
      case ClearedRows(rows) =>
        var g := Garbage(e, rest, rows);
        GrowsTrans(s, g, Drain(e, g));
        Drain(e, g)
      case Notification(text) => Notice(rest, text)
  }

  /** The end of a running iteration: the drain, then reset_game when a
      notification was answered with 'r' and no prompt is open. */
  function Continue(e: Env, s: State, now: nat): (r: State)
    requires e.startFilled <= PlayHeight
    ensures Grows(s, r)
  {
    var d := Drain(e, s);
    if d.mode == Playing && d.resetPending then GrowsTrans(s, d, Restart(e, d, now)); Restart(e, d, now) else d
  }

  /** One iteration of the play loop for the key read in it, if any. When
      paused, the key goes to the pause prompt and the iteration ends.
      Otherwise: the level step, the gravity step, the key, the drain and
      the reset, stopping where a prompt takes over. */
  ghost function Tick(e: Env, s: State, now: nat, key: Option<Key>): (r: State)
    requires Playable(s) && e.startFilled <= PlayHeight
    ensures Grows(s, r)
  {
    if s.paused then
      if key.Some? then PauseKey(s, key.value) else s
    else
      var a := Gravity(e, LevelUp(s), now);
      if a.mode != Playing then a
      else
        var b := if key.Some? then PlayKey(e, a, key.value, now) else a;
        GrowsTrans(s, a, b);
        if b.mode != Playing then b else GrowsTrans(s, b, Continue(e, b, now)); Continue(e, b, now)
  }

  // ---------------------------------------------------------------------
  // The prompts

  /** handle_pause_event: Enter or 'c' resumes, 'q' exits. */
  function PauseKey(s: State, key: Key): (r: State) {
    if key == Enter || key == Char('c') then s.(paused := false)
    else if key == Char('q') then s.(mode := Exited)
    else s
  }

  /** handle_quit_event: Enter or 'y' exits; Esc or 'n' resumes and the
      iteration goes on with the drain. */
  function QuitKey(e: Env, s: State, key: Key, now: nat): (r: State)
    requires e.startFilled <= PlayHeight
    ensures Grows(s, r)
  {
    if key == Enter || key == Char('y') then s.(mode := Exited)
    else if key == Esc || key == Char('n') then
      var resumed := s.(paused := false, mode := Playing);
      GrowsTrans(s, resumed, Continue(e, resumed, now));
      Continue(e, resumed, now)
    else s
  }

  /** The notification prompt: Enter or 'c' resumes, 'r' asks for a reset
      once the drain is over, 'q' exits. */
  function NoticeKey(e: Env, s: State, key: Key, now: nat): (r: State)
    requires e.startFilled <= PlayHeight
    ensures Grows(s, r)
  {
    if key == Enter || key == Char('c') then
      var resumed := s.(paused := false, mode := Playing);
      GrowsTrans(s, resumed, Continue(e, resumed, now));
      Continue(e, resumed, now)
    else if key == Char('r') then
      var restarting := s.(resetPending := true, mode := Playing);
      GrowsTrans(s, restarting, Continue(e, restarting, now));
      Continue(e, restarting, now)
    else if key == Char('q') then s.(mode := Exited)
    else s
  }

  /** The high-score screen: 'q' exits, 'r' starts a new game. */
  function ScoreKey(e: Env, s: State, key: Key, now: nat): (r: State)
    requires e.startFilled <= PlayHeight
    ensures Grows(s, r)
  {
    if key == Char('q') then s.(mode := Exited)
    else if key == Char('r') then Restart(e, s, now)
    else s
  }

  /** The editor of new_high_score: Backspace erases before the cursor,
      Enter stores the name with the score and shows the high scores, the
      arrows move the cursor, and a character is inserted at the cursor
      while the name is shorter than 12. */
  function NameKey(s: State, key: Key): (r: State)
    requires s.cursor <= |s.name|
    ensures Grows(s, r)
  {
    match key
    case Backspace =>
      if |s.name| > 0 && s.cursor > 0 then s.(name := RemoveBefore(s.name, s.cursor), cursor := s.cursor - 1) else s
    case Enter =>
      InsertRankedMultiset(s.records, Player(s.name, s.score));
      s.(records := InsertRanked(s.records, Player(s.name, s.score)), mode := ScoreScreen)
    case Left => if s.cursor > 0 then s.(cursor := s.cursor - 1) else s
    case Right => if s.cursor < |s.name| then s.(cursor := s.cursor + 1) else s
    case Char(c) =>
      if |s.name| < MaxNameLength then s.(name := InsertAt(s.name, s.cursor, c), cursor := s.cursor + 1) else s
    case _ => s
  }

  /** One step of the program for the clock reading and the key read, if
      any: an iteration of the play loop, or the key given to the open
      prompt. Once exited nothing changes. */
  ghost function Step(e: Env, s: State, now: nat, key: Option<Key>): (r: State)
    requires Inv(e, s)
    ensures Grows(s, r)
  {
    match s.mode
    case Playing => Tick(e, s, now, key)
    case Exited => s
    case QuitPrompt => if key.Some? then QuitKey(e, s, key.value, now) else s
    case NoticePrompt(_) => if key.Some? then NoticeKey(e, s, key.value, now) else s
    case ScoreScreen => if key.Some? then ScoreKey(e, s, key.value, now) else s
    case NameEntry => if key.Some? then NameKey(s, key.value) else s
  }

  /** forward_to_main_thread: the listener queues what the reads decode to. */
  function Deliver(s: State, results: seq<ReadResult>): (r: State) {
    s.(inbox := s.inbox + Forwarded(results))
  }

  // ---------------------------------------------------------------------
  // What the steps keep

  /** Garbage keeps the board playable: the rows it pushes in are never full. */
  lemma GarbageKeepsPlayable(e: Env, s: State, rows: nat)
    requires Playable(s)
    ensures Playable(Garbage(e, s, rows))
  {
    var hole := GarbageForShape(e.rng, s.drawn);
    RaisedShape(s.grid, GarbageFor(e.rng, s.drawn), rows);
  }

  lemma {:induction false} DrainKeepsInv(e: Env, s: State)
    requires Inv(e, s)
    ensures Inv(e, Drain(e, s))
    decreases |s.inbox|
  {
    if s.inbox != [] {
      var rest := s.(inbox := s.inbox[1..]);
      match s.inbox[0]
      case ClearedRows(rows) =>
        GarbageKeepsPlayable(e, rest, rows);
        DrainKeepsInv(e, Garbage(e, rest, rows));
      case Notification(text) =>
    }
  }

  lemma ContinueKeepsInv(e: Env, s: State, now: nat)
    requires Inv(e, s)
    ensures Inv(e, Continue(e, s, now))
  {
    DrainKeepsInv(e, s);
  }

  lemma LevelUpKeepsInv(e: Env, s: State)
    requires Inv(e, s)
    ensures Inv(e, LevelUp(s))
  {
    var r := LevelUp(s);
    assert r.grid == s.grid && r.current == s.current && r.next == s.next && r.records == s.records;
    assert r.dropInterval == DecayTimes(DefaultInterval, r.level);
  }

  /** The level step raises the level by exactly one and takes one decay
      off the interval when it is due, and changes nothing otherwise; the
      level never falls and the interval never grows, and since the step
      is due only up to level 20, no level beyond 21 is reached. */
  lemma LevelUpEffect(s: State)
    ensures var r := LevelUp(s);
      r.(level := s.level, dropInterval := s.dropInterval) == s &&
      (LevelDue(s.level, s.lines) ==> r.level == s.level + 1 && r.dropInterval == Decay(s.dropInterval)) &&
      (!LevelDue(s.level, s.lines) ==> r == s) &&
      r.level >= s.level && r.dropInterval <= s.dropInterval &&
      (s.dropInterval >= 1 ==> r.dropInterval >= 1) &&
      (s.level <= MaxLevel + 1 ==> r.level <= MaxLevel + 1)
  {
    DecayBounds(s.dropInterval);
  }

  lemma SteadyKeepsInv(e: Env, s: State, r: State)
    requires Inv(e, s) && Playable(r) && Steady(s, r)
    ensures Inv(e, r)
  {
  }

  lemma TickKeepsInv(e: Env, s: State, now: nat, key: Option<Key>)
    requires Inv(e, s)
    ensures Inv(e, Tick(e, s, now, key))
  {
    if !s.paused {
      LevelUpKeepsInv(e, s);
      var a := Gravity(e, LevelUp(s), now);
      SteadyKeepsInv(e, LevelUp(s), a);
      if a.mode == Playing {
        var b := if key.Some? then PlayKey(e, a, key.value, now) else a;
        SteadyKeepsInv(e, a, b);
        if b.mode == Playing {
          ContinueKeepsInv(e, b, now);
        }
      }
    }
  }

  lemma NameKeyKeepsInv(e: Env, s: State, key: Key)
    requires Inv(e, s)
    ensures Inv(e, NameKey(s, key))
  {
    if key == Enter {
      InsertRankedProps(s.records, Player(s.name, s.score));
    }
  }

  lemma QuitKeyKeepsInv(e: Env, s: State, key: Key, now: nat)
    requires Inv(e, s)
    ensures Inv(e, QuitKey(e, s, key, now))
  {
    ContinueKeepsInv(e, s.(paused := false, mode := Playing), now);
  }

  lemma NoticeKeyKeepsInv(e: Env, s: State, key: Key, now: nat)
    requires Inv(e, s)
    ensures Inv(e, NoticeKey(e, s, key, now))
  {
    if key == Enter || key == Char('c') {
      ContinueKeepsInv(e, s.(paused := false, mode := Playing), now);
    } else if key == Char('r') {
      ContinueKeepsInv(e, s.(resetPending := true, mode := Playing), now);
    } else if key == Char('q') {
      assert NoticeKey(e, s, key, now) == s.(mode := Exited);
    }
  }

  /** Every step keeps the invariant. */
  lemma StepKeepsInv(e: Env, s: State, now: nat, key: Option<Key>)
    requires Inv(e, s)
    ensures Inv(e, Step(e, s, now, key))
  {
    match s.mode
    case Playing => TickKeepsInv(e, s, now, key);
    case QuitPrompt => if key.Some? { QuitKeyKeepsInv(e, s, key.value, now); }
    case NoticePrompt(_) => if key.Some? { NoticeKeyKeepsInv(e, s, key.value, now); }
    case ScoreScreen =>
    case NameEntry => if key.Some? { NameKeyKeepsInv(e, s, key.value); }
    case Exited =>
  }

  /** The listener only queues messages. */
  lemma DeliverKeepsInv(e: Env, s: State, results: seq<ReadResult>)
    requires Inv(e, s) && e.networked
    ensures Inv(e, Deliver(s, results))
  {
  }

  // ---------------------------------------------------------------------
  // What the steps do

  /** Locking a piece onto a grid without full rows completes at most four
      rows; the lines and the score grow by that count and its points, and
      the blocks of the completed rows leave the grid. */
  lemma LockCounts(e: Env, s: State, t: Tetromino)
    requires IsGrid(s.grid) && NoFullRows(s.grid) && Piece(t) && t.row >= 0 && InBounds(Cells(t), t.row, t.col)
    ensures var placed := Locked(s.grid, Cells(t), t.row, t.col);
      var k := FullCount(placed);
      var r := Lock(e, s, t);
      k <= 4 && r.lines == s.lines + k && r.score == s.score + ScoreFor(k, s.level) &&
      GridBlocks(r.grid) + PlayWidth * k == GridBlocks(placed)
  {
    var placed := Locked(s.grid, Cells(t), t.row, t.col);
    LockedFullCount(s.grid, Cells(t), t.row, t.col);
    LockedCells(s.grid, Cells(t), t.row, t.col);
    ClearedBlocks(placed);
  }

  /** lock_and_move_to_next keeps the counts of the lock, brings the
      preview piece in at the top with a new preview from the next draw,
      and ends the game exactly when that piece is stuck. */
  lemma LockAndNextEffect(e: Env, s: State, t: Tetromino)
    requires Playable(s) && Piece(t) && t.row >= 0 && InBounds(Cells(t), t.row, t.col)
    ensures var l := Lock(e, s, t);
      var r := LockAndNext(e, s, t);
      r.grid == l.grid && r.lines == l.lines && r.score == l.score &&
      r.current == Promoted(s.next) && r.next == Spawned(KindOf(e.rng(s.drawn)), true) &&
      r.drawn == s.drawn + 1 &&
      r.mode == (if Stuck(r.grid, r.current) then GameOverMode(r.score, r.records) else s.mode)
  {
  }

  /** handle_game_over opens the name entry exactly when the score is
      positive and fewer than five rows of the table score at least as
      much, and the high-score screen otherwise; a connected peer always
      hears of its win. */
  lemma GameOverScreen(e: Env, s: State)
    requires Ranked(s.records)
    ensures var r := GameOver(e, s);
      (r.mode == NameEntry <==> s.score > 0 && CountAtLeast(s.records, s.score) < TopCount) &&
      (r.mode != NameEntry ==> r.mode == ScoreScreen) &&
      r.outbound == s.outbound + WinReport(e.networked) && r.grid == s.grid && r.score == s.score &&
      r.competitorScore == s.competitorScore + (if e.networked then 1 else 0) && r.myScore == s.myScore &&
      (r.mode == NameEntry ==> r.name == "" && r.cursor == 0)
  {
    QualifiesMeansFewerBetter(s.score, s.records);
  }

  /** Enter on the name entry stores exactly one new row, keeps the table
      ranked, and a score that qualified is on the screen that follows;
      nothing but the table and the mode changes. */
  lemma NameEntryStores(e: Env, s: State)
    requires Inv(e, s)
    ensures var r := NameKey(s, Enter);
      var p := Player(s.name, s.score);
      r.mode == ScoreScreen && Ranked(r.records) &&
      multiset(r.records) == multiset(s.records) + multiset{p} &&
      (Qualifies(s.score, s.records) ==> p in TopPlayers(r.records))
    ensures var r := NameKey(s, Enter);
      r.(records := s.records, mode := s.mode) == s
  {
    var p := Player(s.name, s.score);
    InsertRankedProps(s.records, p);
    if Qualifies(s.score, s.records) {
      QualifyingScoreShown(s.records, p);
    }
  }

  /** The gravity step and the soft drop move the piece exactly one row
      down when it fits there, and otherwise lock it where it is and bring
      in the next piece. */
  lemma FallEffect(e: Env, s: State)
    requires Playable(s)
    ensures var t := s.current;
      Fits(s.grid, Cells(t), t.row + 1, t.col) ==> Fall(e, s) == s.(current := t.(row := t.row + 1))
    ensures var t := s.current;
      !Fits(s.grid, Cells(t), t.row + 1, t.col) ==> Fall(e, s) == LockAndNext(e, s, t)
  {
  }

  /** Gravity acts only once the drop interval has passed since the last
      gravity step, and then restarts the drop timer. */
  lemma GravityEffect(e: Env, s: State, now: nat)
    requires Playable(s)
    ensures now < s.dropTimer + s.dropInterval ==> Gravity(e, s, now) == s
    ensures now >= s.dropTimer + s.dropInterval ==> Gravity(e, s, now) == Fall(e, s).(dropTimer := now)
  {
  }

  /** 'h'/Left and 'l'/Right shift the piece by one column when it fits
      there and change nothing otherwise. */
  lemma PlayKeyShift(e: Env, s: State, key: Key, now: nat)
    requires Playable(s) && (LeftKey(key) || RightKey(key))
    ensures var t := s.current; var dc := if LeftKey(key) then -1 else 1;
      (Fits(s.grid, Cells(t), t.row, t.col + dc) ==> PlayKey(e, s, key, now) == s.(current := t.(col := t.col + dc))) &&
      (!Fits(s.grid, Cells(t), t.row, t.col + dc) ==> PlayKey(e, s, key, now) == s)
  {
  }

  /** Space turns the piece to its next state when that state fits in
      place and changes nothing otherwise. */
  lemma PlayKeyRotate(e: Env, s: State, key: Key, now: nat)
    requires Playable(s) && RotateKey(key)
    ensures var t := s.current; var n := NextState(t);
      (Fits(s.grid, t.states[n], t.row, t.col) ==> PlayKey(e, s, key, now) == s.(current := t.(currentState := n))) &&
      (!Fits(s.grid, t.states[n], t.row, t.col) ==> PlayKey(e, s, key, now) == s)
  {
  }

  /** 's'/Up falls one step once an eighth of the interval has passed since
      the last soft drop and waits otherwise. */
  lemma PlayKeySoftDrop(e: Env, s: State, key: Key, now: nat)
    requires Playable(s) && SoftDropKey(key)
    ensures now >= s.softDropTimer + s.dropInterval / 8 ==> PlayKey(e, s, key, now) == Fall(e, s).(softDropTimer := now)
    ensures now < s.softDropTimer + s.dropInterval / 8 ==> PlayKey(e, s, key, now) == s
  {
  }

  /** 'j'/Down drops the piece to where it lands, locks it there and brings
      in the next one. */
  lemma PlayKeyHardDrop(e: Env, s: State, key: Key, now: nat)
    requires Playable(s) && HardDropKey(key)
    ensures PlayKey(e, s, key, now) == LockAndNext(e, s, Landing(s.grid, s.current))
  {
  }

  /** 'p' flips the pause, 'q' opens the quit prompt, and a key the loop
      does not know changes nothing. */
  lemma PlayKeyOther(e: Env, s: State, key: Key, now: nat)
    requires Playable(s)
    requires !LeftKey(key) && !RightKey(key) && !RotateKey(key) && !SoftDropKey(key) && !HardDropKey(key)
    ensures key == Char('p') ==> PlayKey(e, s, key, now) == s.(paused := !s.paused)
    ensures key == Char('q') ==> PlayKey(e, s, key, now) == s.(mode := QuitPrompt)
    ensures key != Char('p') && key != Char('q') ==> PlayKey(e, s, key, now) == s
  {
  }

  /** The pause prompt: Enter or 'c' lifts the pause, 'q' exits, and any
      other key keeps the game paused and unchanged. */
  lemma PauseKeyEffect(s: State, key: Key)
    ensures (key == Enter || key == Char('c')) ==> PauseKey(s, key) == s.(paused := false)
    ensures key == Char('q') ==> PauseKey(s, key) == s.(mode := Exited)
    ensures key != Enter && key != Char('c') && key != Char('q') ==> PauseKey(s, key) == s
  {
  }

  /** The quit prompt: Enter or 'y' exits; Esc or 'n' lifts the pause,
      returns to the play loop and finishes its iteration with the drain;
      any other key changes nothing. */
  lemma QuitKeyEffect(e: Env, s: State, key: Key, now: nat)
    requires e.startFilled <= PlayHeight
    ensures (key == Enter || key == Char('y')) ==> QuitKey(e, s, key, now) == s.(mode := Exited)
    ensures (key == Esc || key == Char('n')) ==>
      QuitKey(e, s, key, now) == Continue(e, s.(paused := false, mode := Playing), now)
    ensures key != Enter && key != Char('y') && key != Esc && key != Char('n') ==> QuitKey(e, s, key, now) == s
  {
  }

  /** The notification prompt: Enter or 'c' resumes, 'r' resumes with a
      reset asked for, 'q' exits, any other key changes nothing. */
  lemma NoticeKeyEffect(e: Env, s: State, key: Key, now: nat)
    requires e.startFilled <= PlayHeight
    ensures (key == Enter || key == Char('c')) ==>
      NoticeKey(e, s, key, now) == Continue(e, s.(paused := false, mode := Playing), now)
    ensures key == Char('r') ==> NoticeKey(e, s, key, now) == Continue(e, s.(resetPending := true, mode := Playing), now)
    ensures key == Char('q') ==> NoticeKey(e, s, key, now) == s.(mode := Exited)
    ensures key != Enter && key != Char('c') && key != Char('r') && key != Char('q') ==> NoticeKey(e, s, key, now) == s
  {
  }

  /** The high-score screen: 'q' exits, 'r' starts a new game, any other
      key changes nothing. */
  lemma ScoreKeyEffect(e: Env, s: State, key: Key, now: nat)
    requires e.startFilled <= PlayHeight
    ensures key == Char('q') ==> ScoreKey(e, s, key, now) == s.(mode := Exited)
    ensures key == Char('r') ==> ScoreKey(e, s, key, now) == Restart(e, s, now)
    ensures key != Char('q') && key != Char('r') ==> ScoreKey(e, s, key, now) == s
  {
  }

  /** reset_game gives a fresh running game: a playable board, zero lines
      and score at the start level and its interval, an empty receiver, no
      pause, no reset pending and new timers, while the match points, the
      table, the sent messages and the name stay. */
  lemma RestartEffect(e: Env, s: State, now: nat)
    requires e.startFilled <= PlayHeight
    ensures var r := Restart(e, s, now);
      Playable(r) && r.mode == Playing && !r.resetPending && !r.paused &&
      r.dropTimer == now && r.softDropTimer == now &&
      r.lines == 0 && r.score == 0 && r.level == e.startLevel &&
      r.dropInterval == DecayTimes(DefaultInterval, e.startLevel) && r.inbox == [] &&
      r.myScore == s.myScore && r.competitorScore == s.competitorScore &&
      r.records == s.records && r.outbound == s.outbound && r.name == s.name
  {
  }

  /** The end of an iteration restarts the game exactly when the drain
      leaves the loop running with a reset asked for. */
  lemma ContinueEffect(e: Env, s: State, now: nat)
    requires e.startFilled <= PlayHeight
    ensures var d := Drain(e, s);
      (d.mode == Playing && d.resetPending ==> Continue(e, s, now) == Restart(e, d, now)) &&
      (!(d.mode == Playing && d.resetPending) ==> Continue(e, s, now) == d)
  {
  }

  /** The editor keys other than Enter: Backspace erases the character
      before the cursor, the arrows move the cursor within the name, a
      character is inserted at the cursor while the name is shorter than
      12; the table and the screen stay. */
  lemma NameKeyEdits(s: State, key: Key)
    requires s.cursor <= |s.name|
    ensures key == Backspace && s.cursor > 0 ==>
      NameKey(s, key) == s.(name := RemoveBefore(s.name, s.cursor), cursor := s.cursor - 1)
    ensures key == Left && s.cursor > 0 ==> NameKey(s, key) == s.(cursor := s.cursor - 1)
    ensures key == Right && s.cursor < |s.name| ==> NameKey(s, key) == s.(cursor := s.cursor + 1)
    ensures key.Char? && |s.name| < MaxNameLength ==>
      NameKey(s, key) == s.(name := InsertAt(s.name, s.cursor, key.ch), cursor := s.cursor + 1)
    ensures ((key == Backspace && s.cursor == 0) || (key == Left && s.cursor == 0) ||
             (key == Right && s.cursor == |s.name|) || (key.Char? && |s.name| >= MaxNameLength) ||
             key == Esc || key == Up || key == Down || key == Other) ==>
      NameKey(s, key) == s
  {
  }

  /** One iteration of the play loop: while paused the key goes to the
      pause prompt and nothing else happens; otherwise the level step and
      gravity come first, and when gravity ends the game the key of this
      step is not used by the loop. Otherwise the key goes through the key
      match, and the drain and an asked-for reset follow unless the key
      left play. */
  lemma TickEffect(e: Env, s: State, now: nat, key: Option<Key>)
    requires Playable(s) && e.startFilled <= PlayHeight
    ensures s.paused ==> Tick(e, s, now, key) == (if key.Some? then PauseKey(s, key.value) else s)
    ensures !s.paused && Gravity(e, LevelUp(s), now).mode != Playing ==>
      Tick(e, s, now, key) == Gravity(e, LevelUp(s), now)
    ensures !s.paused && key.None? && Gravity(e, LevelUp(s), now).mode == Playing ==>
      Tick(e, s, now, key) == Continue(e, Gravity(e, LevelUp(s), now), now)
    ensures !s.paused && key.Some? && Gravity(e, LevelUp(s), now).mode == Playing ==>
      var b := PlayKey(e, Gravity(e, LevelUp(s), now), key.value, now);
      Tick(e, s, now, key) == (if b.mode == Playing then Continue(e, b, now) else b)
  {
  }

  /** Each step goes to the loop that has the keyboard: the play loop while
      playing, otherwise the open prompt; a prompt without a key waits. */
  lemma StepRoutes(e: Env, s: State, now: nat, key: Option<Key>)
    requires Inv(e, s)
    ensures s.mode == Playing ==> Step(e, s, now, key) == Tick(e, s, now, key)
    ensures s.mode != Playing && key.None? ==> Step(e, s, now, key) == s
    ensures s.mode == QuitPrompt && key.Some? ==> Step(e, s, now, key) == QuitKey(e, s, key.value, now)
    ensures s.mode.NoticePrompt? && key.Some? ==> Step(e, s, now, key) == NoticeKey(e, s, key.value, now)
    ensures s.mode == ScoreScreen && key.Some? ==> Step(e, s, now, key) == ScoreKey(e, s, key.value, now)
    ensures s.mode == NameEntry && key.Some? ==> Step(e, s, now, key) == NameKey(s, key.value)
  {
  }

  /** The garbage row taken from draws d and d + 1. */
  function GarbageRows(rng: nat -> nat): nat -> seq<Cell> {
    (d: nat) => GarbageFor(rng, d)
  }

  /** The grid after the garbage of a run of ClearedRows messages, applied
      from the last one back: the i-th message pushes up its number of
      copies of the garbage row row(from + 2i). */
  function RaisedBy(g: Grid, msgs: seq<Message>, row: nat -> seq<Cell>, from: nat): (h: Grid)
    requires forall i :: 0 <= i < |msgs| ==> msgs[i].ClearedRows?
    ensures |h| == |g|
  {
    if msgs == [] then g
    else Raised(RaisedBy(g, msgs[..|msgs| - 1], row, from), row(from + 2 * (|msgs| - 1)), msgs[|msgs| - 1].rows)
  }

  /** Index of the first Notification, or the length when there is none. */
  function FirstNotice(msgs: seq<Message>): (n: nat)
    ensures n <= |msgs| && (n < |msgs| ==> msgs[n].Notification?)
    ensures forall i :: 0 <= i < n ==> msgs[i].ClearedRows?
  {
    if msgs == [] || msgs[0].Notification? then 0 else 1 + FirstNotice(msgs[1..])
  }

  /** Applying the first message, then the rest from two draws later, is
      applying them all. */
  lemma {:induction false} RaisedByCons(g: Grid, m: Message, ms: seq<Message>, row: nat -> seq<Cell>, from: nat)
    requires m.ClearedRows? && forall i :: 0 <= i < |ms| ==> ms[i].ClearedRows?
    ensures RaisedBy(g, [m] + ms, row, from) == RaisedBy(Raised(g, row(from), m.rows), ms, row, from + 2)
    decreases |ms|
  {
    var all := [m] + ms;
    if ms == [] {
      assert all[..0] == [];
    } else {
      var h := Raised(g, row(from), m.rows);
      var init := ms[..|ms| - 1];
      var last := ms[|ms| - 1];
      var k := row(from + 2 * |ms|);
      assert all[..|all| - 1] == [m] + init && all[|all| - 1] == last;
      assert RaisedBy(g, all, row, from) == Raised(RaisedBy(g, [m] + init, row, from), k, last.rows);
      assert RaisedBy(h, ms, row, from + 2) == Raised(RaisedBy(h, init, row, from + 2), k, last.rows);
      RaisedByCons(g, m, init, row, from);
    }
  }

  /** What the drain does: it applies, in order, the garbage of the
      messages before the first notification, taking two draws for each,
      and stops on that notification, opening its prompt and counting the
      match point; the messages after it stay queued. */
  ghost predicate Drains(e: Env, s: State, d: State) {
    GarbageDrained(s.grid, s.inbox, GarbageRows(e.rng), s.drawn, d.grid, d.drawn) &&
    NoticeDrained(s.inbox, s.mode, s.myScore, s.paused, d.inbox, d.mode, d.myScore, d.paused)
  }

  /** The grid and draw counter part of Drains. */
  ghost predicate GarbageDrained(g: Grid, q: seq<Message>, row: nat -> seq<Cell>, from: nat, dg: Grid, drawn: nat) {
    var n := FirstNotice(q);
    dg == RaisedBy(g, q[..n], row, from) && drawn == from + 2 * n
  }

  /** The queue and prompt part of Drains. */
  ghost predicate NoticeDrained(q: seq<Message>, mode: Mode, myScore: nat, paused: bool,
                                dq: seq<Message>, dmode: Mode, dmyScore: nat, dpaused: bool) {
    var n := FirstNotice(q);
    dq == (if n < |q| then q[n + 1..] else []) &&
    if n < |q| then dmode == NoticePrompt(q[n].text) && dmyScore == myScore + 1 && dpaused == !paused
    else dmode == mode && dmyScore == myScore && dpaused == paused
  }

  lemma {:induction false} DrainRaises(e: Env, s: State)
    ensures Drains(e, s, Drain(e, s))
    decreases |s.inbox|
  {
    var n := FirstNotice(s.inbox);
    if s.inbox == [] {
      assert s.inbox[..n] == [];
    } else {
      match s.inbox[0]
      case ClearedRows(rows) =>
        var s1 := Garbage(e, s.(inbox := s.inbox[1..]), rows);
        DrainRaises(e, s1);
        GarbageFirst(e, s, rows, Drain(e, s1));
      case Notification(text) =>
        assert s.inbox[..n] == [];
    }
  }

  /** The inductive step of DrainRaises: garbage first, then the rest. */
  lemma GarbageFirst(e: Env, s: State, rows: nat, d: State)
    requires s.inbox != [] && s.inbox[0] == ClearedRows(rows)
    requires Drains(e, Garbage(e, s.(inbox := s.inbox[1..]), rows), d)
    ensures Drains(e, s, d)
  {
    GarbageDrainedCons(s.grid, s.inbox, GarbageRows(e.rng), s.drawn, d.grid, d.drawn);
    NoticeDrainedCons(s.inbox, s.mode, s.myScore, s.paused, d.inbox, d.mode, d.myScore, d.paused);
  }

  lemma GarbageDrainedCons(g: Grid, q: seq<Message>, row: nat -> seq<Cell>, from: nat, dg: Grid, drawn: nat)
    requires q != [] && q[0].ClearedRows?
    requires GarbageDrained(Raised(g, row(from), q[0].rows), q[1..], row, from + 2, dg, drawn)
    ensures GarbageDrained(g, q, row, from, dg, drawn)
  {
    var tail := q[1..];
    var m := FirstNotice(tail);
    assert FirstNotice(q) == m + 1;
    assert q[..m + 1] == [q[0]] + tail[..m];
    RaisedByCons(g, q[0], tail[..m], row, from);
  }

  lemma NoticeDrainedCons(q: seq<Message>, mode: Mode, myScore: nat, paused: bool,
                          dq: seq<Message>, dmode: Mode, dmyScore: nat, dpaused: bool)
    requires q != [] && q[0].ClearedRows?
    requires NoticeDrained(q[1..], mode, myScore, paused, dq, dmode, dmyScore, dpaused)
    ensures NoticeDrained(q, mode, myScore, paused, dq, dmode, dmyScore, dpaused)
  {
    var tail := q[1..];
    var m := FirstNotice(tail);
    assert FirstNotice(q) == m + 1;
    if m < |tail| {
      assert tail[m] == q[m + 1];
      assert tail[m + 1..] == q[m + 2..];
    }
  }

  /** Rows cleared on one side arrive on the other as garbage: the report
      is read back as the same count, and the drain pushes that many
      copies of one garbage row up from the bottom. */
  lemma ClearedRowsArrive(e: Env, s: State, k: nat)
    requires 0 < k <= UsizeMax && s.inbox == []
    ensures var sent := ClearedReport(true, k);
      var d := Drain(e, Deliver(s, [Read(sent[0]), Read("")]));
      d.grid == Raised(s.grid, GarbageFor(e.rng, s.drawn), k) && d.drawn == s.drawn + 2 &&
      d.inbox == [] && d.mode == s.mode && d.myScore == s.myScore
  {
    var m := ClearedRows(k);
    EncodedYield(m);
    ForwardedOne(m);
    var s1 := Deliver(s, [Read(Encode(m)), Read("")]);
    assert s1.inbox == [m];
    var s2 := Garbage(e, s1.(inbox := []), k);
    assert Drain(e, s1) == Drain(e, s2) == s2;
  }

  /** The win a loser reports opens the notification prompt on the
      winner's side with "YOU WIN!" and counts the winner's point. */
  lemma WinArrives(e: Env, s: State)
    requires s.inbox == []
    ensures var sent := WinReport(true);
      var d := Drain(e, Deliver(s, [Read(sent[0]), Read("")]));
      d.mode == NoticePrompt(WinText) && d.myScore == s.myScore + 1 && d.paused == !s.paused &&
      d.grid == s.grid && d.inbox == []
  {
    var m := Notification(WinText);
    YouWinRoundTrip();
    EncodedYield(m);
    ForwardedOne(m);
    var s1 := Deliver(s, [Read(Encode(m)), Read("")]);
    assert s1.inbox == [m];
  }

  /** One transmitted message followed by the end of the stream is
      forwarded as that message alone. */
  lemma ForwardedOne(m: Message)
    requires Transmittable(m)
    ensures Forwarded([Read(Encode(m)), Read("")]) == [m]
  {
    EncodedYield(m);
    var results := [Read(Encode(m)), Read("")];
    assert results[1..] == [Read("")];
  }

  /** Once exited, nothing changes. */
  lemma ExitedIsFinal(e: Env, s: State, now: nat, key: Option<Key>)
    requires Inv(e, s) && s.mode == Exited
    ensures Step(e, s, now, key) == s
  {
  }
}
