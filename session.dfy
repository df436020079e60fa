/**
 The session state of the creepy-maze skill and the two intents that change it.

 The skill keeps its state in module-level variables: the flags `initialized`
 and `standUp`, the player's position and life, and a `maze` variable. `reset`
 clears the flags and puts the player back at (0, 0) with five lives; the play
 intent resets and then marks the session initialized; the stand-up intent
 refuses while the player is still sleeping and otherwise marks the player as
 standing. Replies are modelled by which narration they choose, not by their
 wording.
 */
module Session {
  import opened Maze

  datatype Option<T> = None | Some(value: T)

  datatype Position = Position(x: int, y: int)

  /** The reply of the play intent: the wake-up narration, prefixed with the
      "you've been here before" line when a session was already initialized. */
  datatype PlayReply = WokeUp(beenHereBefore: bool)

  /** The reply of the stand-up intent: the "still sleeping" reply of
      `buildNotInitializedResponse`, or the look-around narration, prefixed with
      the "already stand up" line when the player was already standing. */
  datatype StandUpReply = StillSleeping | LookAround(alreadyStanding: bool)

  const StartPosition := Position(0, 0)
  const StartLife := 5

  /** The side of the maze `reset` asks for. */
  const MazeSize := 5

  /** The module-level state. */
  class Game {
    /** The module-level `maze`: declared without a value and never assigned. */
    var maze: Option<seq<seq<Tile>>>
    var initialized: bool
    var standUp: bool
    var position: Position
    var life: int

    /** A player stands only in an initialized session. */
    ghost predicate Valid()
      reads this
    {
      standUp ==> initialized
    }

    /** The state as the module is loaded. */
    constructor ()
      ensures Valid()
      ensures maze == None && !initialized && !standUp
      ensures position == StartPosition && life == StartLife
    {
      maze := None;
      initialized := false;
      standUp := false;
      position := StartPosition;
      life := StartLife;
    }

    /** `reset(player, maze)`: a fresh 5 x 5 maze is generated from `draws` but
        bound only to the parameter, so the module-level `maze` keeps its value. */
    method Reset(draws: seq<seq<nat>>)
      requires WellFormedDraws(MazeSize, MazeSize, draws)
      modifies this
      ensures Valid()
      ensures position == StartPosition && life == StartLife
      ensures !initialized && !standUp
      ensures maze == old(maze)
    {
      var parameterMaze := CreateMaze(MazeSize, MazeSize, draws);
      position := StartPosition;
      life := StartLife;
      initialized := false;
      standUp := false;
    }

    /** The play intent: always succeeds, resets, then marks the session
        initialized. */
    method Play(draws: seq<seq<nat>>) returns (reply: PlayReply)
      requires WellFormedDraws(MazeSize, MazeSize, draws)
      modifies this
      ensures Valid()
      ensures reply == WokeUp(old(initialized))
      ensures initialized && !standUp
      ensures position == StartPosition && life == StartLife
      ensures maze == old(maze)
    {
      var beenHereBefore := initialized;
      Reset(draws);
      initialized := true;
      reply := WokeUp(beenHereBefore);
    }

    /** The stand-up intent: while not initialized, the "still sleeping" reply and
        no change; otherwise the player stands, with the "already stand up" prefix
        exactly when they already stood. */
    method StandUp() returns (reply: StandUpReply)
      requires Valid()
      modifies this
      ensures Valid()
      ensures !old(initialized) ==> reply == StillSleeping && unchanged(this)
      ensures old(initialized) ==> reply == LookAround(old(standUp)) && standUp
      ensures initialized == old(initialized)
      ensures position == old(position) && life == old(life) && maze == old(maze)
    {
      if !initialized {
        reply := StillSleeping;
        return;
      }
      var alreadyStanding := standUp;
      standUp := true;
      reply := LookAround(alreadyStanding);
    }
  }

  /** Standing up twice in an initialized session: the second call reports that
      the player already stands and leaves the state the first call made. */
  method StandUpTwice(g: Game) returns (first: StandUpReply, second: StandUpReply)
    requires g.Valid() && g.initialized
    modifies g
    ensures g.Valid()
    ensures first == LookAround(old(g.standUp)) && second == LookAround(true)
    ensures g.initialized && g.standUp
    ensures g.position == old(g.position) && g.life == old(g.life) && g.maze == old(g.maze)
  {
    first := g.StandUp();
    ghost var afterFirst := (g.initialized, g.standUp, g.position, g.life, g.maze);
    second := g.StandUp();
    assert (g.initialized, g.standUp, g.position, g.life, g.maze) == afterFirst;
  }

  /** An example client with no contract of its own: a skill session from load.
      Standing up before playing is refused, playing wakes the player with no
      "been here" line, standing up then succeeds, and playing again forgets the
      standing player. */
  method PlayThrough(draws: seq<seq<nat>>, again: seq<seq<nat>>)
    requires WellFormedDraws(MazeSize, MazeSize, draws) && WellFormedDraws(MazeSize, MazeSize, again)
  {
    var g := new Game();
    var s0 := g.StandUp();
    assert s0 == StillSleeping;
    var p1 := g.Play(draws);
    assert p1 == WokeUp(false);
    var s1 := g.StandUp();
    assert s1 == LookAround(false) && g.standUp;
    var p2 := g.Play(again);
    assert p2 == WokeUp(true) && !g.standUp && g.maze == None;
  }
}
