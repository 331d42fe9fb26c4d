/** The command line of the older entry point: the two range checks made
    before any game is built, and the choice between a single game, hosting
    a two-player game and joining one. */
module Cli {
  import opened Wrappers
  import opened Shapes
  import opened Levels
  import opened Multiplayer

  /** The largest handicap (pre-filled lines) the command line accepts. */
  const MaxFilledLines: nat := 10

  /** The parsed options: --multiplayer, --server-address,
      --number-of-lines-already-filled and --level. */
  datatype Args = Args(multiplayer: bool, serverAddress: Option<string>, filled: nat, level: nat)

  /** How the program goes on once the options are read. */
  datatype Launch =
    | Rejected(message: string)
    | Single(filled: nat, level: nat)
    | Host(filled: nat, level: nat)
    | Join(address: string, filled: nat, level: nat)

  const FilledMessage: string := "The number of lines already filled must be less than or equal 10."

  /** The message names the largest level in decimal. */
  function LevelMessage(): string {
    "Level must be between 0 and " + Decimal(MaxLevel) + "."
  }

  /** The handicap is checked first, then the level; each failure has its
      own message and stops the program. */
  function CheckArgs(filled: nat, level: nat): (r: Option<string>)
    ensures r.None? <==> filled <= MaxFilledLines && level <= MaxLevel
    ensures filled > MaxFilledLines ==> r == Some(FilledMessage)
    ensures filled <= MaxFilledLines && level > MaxLevel ==> r == Some(LevelMessage())
  {
    if filled > MaxFilledLines then Some(FilledMessage)
    else if level > MaxLevel then Some(LevelMessage())
    else None
  }

  /** main: reject out-of-range options; otherwise a multiplayer game with
      no server address hosts, one with an address joins it, and without
      --multiplayer the address is ignored. */
  function LaunchOf(a: Args): (r: Launch)
    ensures r.Rejected? <==> CheckArgs(a.filled, a.level).Some?
    ensures !r.Rejected? ==> r.filled == a.filled && r.level == a.level
    ensures r.Host? <==> !r.Rejected? && a.multiplayer && a.serverAddress.None?
    ensures r.Join? <==> !r.Rejected? && a.multiplayer && a.serverAddress.Some?
    ensures r.Join? ==> r.address == a.serverAddress.value
    ensures r.Single? <==> !r.Rejected? && !a.multiplayer
  {
    match CheckArgs(a.filled, a.level)
    case Some(msg) => Rejected(msg)
    case None =>
      if !a.multiplayer then Single(a.filled, a.level)
      else if a.serverAddress.None? then Host(a.filled, a.level)
      else Join(a.serverAddress.value, a.filled, a.level)
  }

  /** Whatever is launched can be built: the handicap fits in the playfield,
      which is what building the grid needs, and the start level is one the
      level guard still raises. */
  lemma LaunchedFits(a: Args)
    requires !LaunchOf(a).Rejected?
    ensures LaunchOf(a).filled <= PlayHeight && LaunchOf(a).level <= MaxLevel
  {
  }

  /** The level message reads "... 0 and 20.". */
  lemma LevelMessageText()
    ensures LevelMessage() == "Level must be between 0 and 20."
  {
    assert Decimal(20) == "20" by {
      assert Decimal(2) == "2";
    }
  }
}
