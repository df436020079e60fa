/**
 The maze generator of the creepy-maze skill: `createMaze(w, h)`.

 A `w` x `h` grid of tile names is filled cell by cell, outer index first, each
 cell from one call to the random source. A flag `exitCreated` is threaded
 through all the cells: while it is false a draw picks among five tile kinds
 (the fifth being "exit"), once it is true only among the first four. Two
 post-passes follow: an exit is forced into the last cell when none was drawn,
 and the old `[0][0]` value is copied into `[1][1]` while `[0][0]` becomes the
 player marker "p".

 The random source is injected. A value `u` stands for `Math.random() == u / RandomScale`,
 and the index a draw yields is `Math.ceil(u / RandomScale * k) - 1`, computed
 exactly. A value of 0 gives the index -1, and `tiles[-1]` is `undefined`.
 */
module Maze {

  /** What a cell of the grid can hold. `Player` is the "p" marker written into
      `[0][0]`; `Undefined` is the value of `tiles[-1]`. */
  datatype Tile = Bat | Wolf | Empty | Bonfire | Exit | Player | Undefined

  /** The tile names a draw indexes, in the order of the source's `tiles` array. */
  const Tiles: seq<Tile> := [Bat, Wolf, Empty, Bonfire, Exit]

  /** `Math.random()` returns `u / RandomScale` for an integer `0 <= u < RandomScale`. */
  const RandomScale: nat := 0x10_0000_0000_0000

  /** The index of "exit" in `Tiles`: a draw of this index sets `exitCreated`. */
  const ExitIndex: int := 4

  /** Every injected value is a possible result of `Math.random()`. */
  predicate InRange(us: seq<nat>) {
    forall j :: 0 <= j < |us| ==> us[j] < RandomScale
  }

  predicate AllInRange(draws: seq<seq<nat>>) {
    forall r :: 0 <= r < |draws| ==> InRange(draws[r])
  }

  /** One draw per cell of a `w` x `h` grid. */
  predicate WellFormedDraws(w: nat, h: nat, draws: seq<seq<nat>>) {
    |draws| == w && AllInRange(draws) && forall r :: 0 <= r < w ==> |draws[r]| == h
  }

  predicate IsGrid(g: seq<seq<Tile>>, w: nat, h: nat) {
    |g| == w && forall r :: 0 <= r < w ==> |g[r]| == h
  }

  lemma CeilDivBounds(n: nat, d: nat)
    requires 0 < d
    ensures ((n + d - 1) / d - 1) * d < n <= ((n + d - 1) / d) * d
  {
  }

  lemma BelowBound(i: int, s: nat, u: nat, k: nat)
    requires 0 < k && u < s && i * s < u * k
    ensures i < k
  {
  }

  /** `Math.ceil(Math.random() * k) - 1` for `Math.random() == u / RandomScale`:
      `i + 1` is the least integer not below `u * k / RandomScale`. */
  function DrawIndex(u: nat, k: nat): (i: int)
    requires u < RandomScale && 0 < k
    ensures i * RandomScale < u * k <= (i + 1) * RandomScale
    ensures -1 <= i < k
    ensures i == -1 <==> u == 0
  {
    CeilDivBounds(u * k, RandomScale);
    var i := (u * k + RandomScale - 1) / RandomScale - 1;
    BelowBound(i, RandomScale, u, k);
    i
  }

  /** `tiles[i]`: an index outside the array yields `undefined`. */
  function TileOf(i: int): (t: Tile)
    ensures t == Exit <==> i == ExitIndex
    ensures t == Undefined <==> !(0 <= i < |Tiles|)
    ensures t != Player
  {
    if 0 <= i < |Tiles| then Tiles[i] else Undefined
  }

  /** The tile one cell receives and the value of `exitCreated` after it. */
  datatype Cell = Cell(tile: Tile, exitCreated: bool)

  /** One cell of the random phase, drawn with the flag as it stands. */
  function Draw(u: nat, exitCreated: bool): (c: Cell)
    requires u < RandomScale
    ensures exitCreated ==> c.tile != Exit
    ensures c.exitCreated <==> exitCreated || c.tile == Exit
    ensures c.tile == Undefined <==> u == 0
    ensures c.tile != Player
  {
    var i := DrawIndex(u, if exitCreated then 4 else 5);
    Cell(TileOf(i), exitCreated || i == ExitIndex)
  }

  /** The tiles of one row, drawn left to right from the flag `exitCreated`. */
  function FillRow(us: seq<nat>, exitCreated: bool): (row: seq<Tile>)
    requires InRange(us)
    ensures |row| == |us|
    decreases |us|
  {
    if us == [] then []
    else
      var init := us[..|us| - 1];
      FillRow(init, exitCreated) + [Draw(us[|us| - 1], RowFlag(init, exitCreated)).tile]
  }

  /** The flag after one row has been drawn: once set, no draw clears it. */
  function RowFlag(us: seq<nat>, exitCreated: bool): (e: bool)
    requires InRange(us)
    ensures exitCreated ==> e
    decreases |us|
  {
    if us == [] then exitCreated
    else
      var init := us[..|us| - 1];
      Draw(us[|us| - 1], RowFlag(init, exitCreated)).exitCreated
  }

  /** The random phase: the rows, drawn top to bottom, the flag carried across them. */
  function Fill(draws: seq<seq<nat>>, exitCreated: bool): (g: seq<seq<Tile>>)
    requires AllInRange(draws)
    ensures |g| == |draws|
    ensures forall r :: 0 <= r < |draws| ==> |g[r]| == |draws[r]|
    decreases |draws|
  {
    if draws == [] then []
    else
      var init := draws[..|draws| - 1];
      Fill(init, exitCreated) + [FillRow(draws[|draws| - 1], FillFlag(init, exitCreated))]
  }

  /** The flag after the random phase: once set, no row clears it. */
  function FillFlag(draws: seq<seq<nat>>, exitCreated: bool): (e: bool)
    requires AllInRange(draws)
    ensures exitCreated ==> e
    decreases |draws|
  {
    if draws == [] then exitCreated
    else
      var init := draws[..|draws| - 1];
      RowFlag(draws[|draws| - 1], FillFlag(init, exitCreated))
  }

  /** The flag in force when cell `[r][c]` is drawn. */
  function FlagBefore(draws: seq<seq<nat>>, exitCreated: bool, r: nat, c: nat): bool
    requires AllInRange(draws) && r < |draws| && c <= |draws[r]|
  {
    RowFlag(draws[r][..c], FillFlag(draws[..r], exitCreated))
  }

  /** The grid with cell `[r][c]` overwritten by `t`. */
  function SetCell(g: seq<seq<Tile>>, r: nat, c: nat, t: Tile): seq<seq<Tile>>
    requires r < |g| && c < |g[r]|
  {
    g[r := g[r][c := t]]
  }

  /** Post-pass 1: when no exit was drawn, the cell `[w-1][h-1]` becomes "exit",
      with `h` read off the first row. */
  function ForceExit(g: seq<seq<Tile>>, exitCreated: bool): (f: seq<seq<Tile>>)
    requires 0 < |g| && 0 < |g[0]| && |g[|g| - 1]| == |g[0]|
    ensures |f| == |g| && forall r :: 0 <= r < |g| ==> |f[r]| == |g[r]|
    ensures !exitCreated ==> f[|g| - 1][|g[0]| - 1] == Exit
    ensures forall r, c :: 0 <= r < |g| && 0 <= c < |g[r]| && (r, c) != (|g| - 1, |g[0]| - 1) ==>
              f[r][c] == g[r][c]
    ensures exitCreated ==> f == g
  {
    if exitCreated then g else SetCell(g, |g| - 1, |g[0]| - 1, Exit)
  }

  /** Post-pass 2: `[0][0]` becomes "p" and its old value goes to `[1][1]`. */
  function PlacePlayer(g: seq<seq<Tile>>): (p: seq<seq<Tile>>)
    requires 2 <= |g| && 1 <= |g[0]| && 2 <= |g[1]|
    ensures |p| == |g| && forall r :: 0 <= r < |g| ==> |p[r]| == |g[r]|
    ensures p[0][0] == Player && p[1][1] == g[0][0]
    ensures forall r, c :: 0 <= r < |g| && 0 <= c < |g[r]| && (r, c) != (0, 0) && (r, c) != (1, 1) ==>
              p[r][c] == g[r][c]
  {
    var aux := g[0][0];
    SetCell(SetCell(g, 0, 0, Player), 1, 1, aux)
  }

  /** The grid before the player is placed. */
  function PreSwap(w: nat, h: nat, draws: seq<seq<nat>>): (g: seq<seq<Tile>>)
    requires 2 <= w && 2 <= h && WellFormedDraws(w, h, draws)
    ensures IsGrid(g, w, h)
  {
    ForceExit(Fill(draws, false), FillFlag(draws, false))
  }

  /** The grid `createMaze(w, h)` returns for the given draws. */
  function Generate(w: nat, h: nat, draws: seq<seq<nat>>): (g: seq<seq<Tile>>)
    requires 2 <= w && 2 <= h && WellFormedDraws(w, h, draws)
    ensures IsGrid(g, w, h)
  {
    PlacePlayer(PreSwap(w, h, draws))
  }

  /** Drawing one more cell extends the row by that cell. */
  lemma FillRowStep(us: seq<nat>, e: bool, c: nat)
    requires InRange(us) && c < |us|
    ensures FillRow(us[..c + 1], e) == FillRow(us[..c], e) + [Draw(us[c], RowFlag(us[..c], e)).tile]
    ensures RowFlag(us[..c + 1], e) == Draw(us[c], RowFlag(us[..c], e)).exitCreated
  {
    assert us[..c + 1][..c] == us[..c];
  }

  /** Drawing one more row extends the grid by that row. */
  lemma FillStep(draws: seq<seq<nat>>, e: bool, r: nat)
    requires AllInRange(draws) && r < |draws|
    ensures Fill(draws[..r + 1], e) == Fill(draws[..r], e) + [FillRow(draws[r], FillFlag(draws[..r], e))]
    ensures FillFlag(draws[..r + 1], e) == RowFlag(draws[r], FillFlag(draws[..r], e))
  {
    assert draws[..r + 1][..r] == draws[..r];
  }

  /** One row of the random phase: the inner `map` over the cells of a row,
      reading and setting the shared `exitCreated`. */
  method DrawRow(us: seq<nat>, exitCreatedIn: bool) returns (row: seq<Tile>, exitCreated: bool)
    requires InRange(us)
    ensures row == FillRow(us, exitCreatedIn) && exitCreated == RowFlag(us, exitCreatedIn)
  {
    exitCreated := exitCreatedIn;
    row := [];
    var c := 0;
    while c < |us|
      invariant 0 <= c <= |us|
      invariant row == FillRow(us[..c], exitCreatedIn)
      invariant exitCreated == RowFlag(us[..c], exitCreatedIn)
    {
      var rand := DrawIndex(us[c], if exitCreated then 4 else 5);
      if rand == ExitIndex {
        exitCreated := true;
      }
      row := row + [TileOf(rand)];
      FillRowStep(us, exitCreatedIn, c);
      c := c + 1;
    }
    assert us[..c] == us;
  }

  /** The random phase of `createMaze(w, h)`: the outer `map` over the rows,
      carrying `exitCreated` from each row to the next. */
  method DrawCells(w: nat, h: nat, draws: seq<seq<nat>>) returns (maze: seq<seq<Tile>>, exitCreated: bool)
    requires WellFormedDraws(w, h, draws)
    ensures maze == Fill(draws, false) && exitCreated == FillFlag(draws, false)
  {
    exitCreated := false;
    maze := [];
    var r := 0;
    while r < w
      invariant 0 <= r <= w
      invariant maze == Fill(draws[..r], false)
      invariant exitCreated == FillFlag(draws[..r], false)
    {
      var row;
      FillStep(draws, false, r);
      row, exitCreated := DrawRow(draws[r], exitCreated);
      maze := maze + [row];
      r := r + 1;
    }
    assert draws[..w] == draws;
  }

  /** `createMaze(w, h)`: the random phase, then the two post-passes as writes
      into the grid. */
  method CreateMaze(w: nat, h: nat, draws: seq<seq<nat>>) returns (maze: seq<seq<Tile>>)
    requires 2 <= w && 2 <= h && WellFormedDraws(w, h, draws)
    ensures maze == Generate(w, h, draws)
    ensures IsGrid(maze, w, h) && maze[0][0] == Player
  {
    var exitCreated;
    maze, exitCreated := DrawCells(w, h, draws);
    if !exitCreated {
      maze := maze[w - 1 := maze[w - 1][|maze[0]| - 1 := Exit]];
    }
    var aux := maze[0][0];
    maze := maze[0 := maze[0][0 := Player]];
    maze := maze[1 := maze[1][1 := aux]];
  }

  // ---------------------------------------------------------------------------
  // Counting exits

  function ExitCount(t: Tile): nat {
    if t == Exit then 1 else 0
  }

  function RowExits(row: seq<Tile>): nat
    decreases |row|
  {
    if row == [] then 0 else RowExits(row[..|row| - 1]) + ExitCount(row[|row| - 1])
  }

  /** The number of "exit" cells in a grid. */
  function Exits(g: seq<seq<Tile>>): nat
    decreases |g|
  {
    if g == [] then 0 else Exits(g[..|g| - 1]) + RowExits(g[|g| - 1])
  }

  // ---------------------------------------------------------------------------
  // The random phase

  /** Cell `[c]` of a row comes from draw `[c]`, drawn with the flag the cells
      before it left. */
  lemma {:induction false} FillRowCell(us: seq<nat>, e: bool, c: nat)
    requires InRange(us) && c < |us|
    ensures FillRow(us, e)[c] == Draw(us[c], RowFlag(us[..c], e)).tile
    decreases |us|
  {
    var init := us[..|us| - 1];
    if c < |us| - 1 {
      FillRowCell(init, e, c);
      assert init[..c] == us[..c];
    } else {
      assert init == us[..c];
    }
  }

  /** Row-major order, one draw per cell: cell `[r][c]` comes from draw `[r][c]`,
      drawn with the flag every cell before it in row-major order left. */
  lemma {:induction false} FillCell(draws: seq<seq<nat>>, e: bool, r: nat, c: nat)
    requires AllInRange(draws) && r < |draws| && c < |draws[r]|
    ensures Fill(draws, e)[r][c] == Draw(draws[r][c], FlagBefore(draws, e, r, c)).tile
    decreases |draws|
  {
    var init := draws[..|draws| - 1];
    if r < |draws| - 1 {
      FillCell(init, e, r, c);
      assert init[..r] == draws[..r];
    } else {
      assert init == draws[..r];
      FillRowCell(draws[r], FillFlag(init, e), c);
    }
  }

  /** A row adds an exit exactly when it turns the flag on. */
  lemma {:induction false} RowExitsMatchFlag(us: seq<nat>, e: bool)
    requires InRange(us)
    ensures RowExits(FillRow(us, e)) + (if e then 1 else 0) == (if RowFlag(us, e) then 1 else 0)
    decreases |us|
  {
    if us != [] {
      var init := us[..|us| - 1];
      RowExitsMatchFlag(init, e);
      var row := FillRow(us, e);
      assert row[..|row| - 1] == FillRow(init, e);
    }
  }

  /** The random phase adds an exit exactly when it turns the flag on. */
  lemma {:induction false} ExitsMatchFlag(draws: seq<seq<nat>>, e: bool)
    requires AllInRange(draws)
    ensures Exits(Fill(draws, e)) + (if e then 1 else 0) == (if FillFlag(draws, e) then 1 else 0)
    decreases |draws|
  {
    if draws != [] {
      var init := draws[..|draws| - 1];
      ExitsMatchFlag(init, e);
      RowExitsMatchFlag(draws[|draws| - 1], FillFlag(init, e));
      var g := Fill(draws, e);
      assert g[..|g| - 1] == Fill(init, e);
    }
  }

  /** The random phase places at most one exit, and it places one exactly when
      it ends with `exitCreated` set. */
  lemma RandomPhaseAtMostOneExit(draws: seq<seq<nat>>)
    requires AllInRange(draws)
    ensures Exits(Fill(draws, false)) <= 1
    ensures Exits(Fill(draws, false)) == 1 <==> FillFlag(draws, false)
  {
    ExitsMatchFlag(draws, false);
  }

  // ---------------------------------------------------------------------------
  // Overwriting a cell

  lemma {:induction false} RowExitsUpdate(row: seq<Tile>, c: nat, t: Tile)
    requires c < |row|
    ensures RowExits(row[c := t]) + ExitCount(row[c]) == RowExits(row) + ExitCount(t)
    decreases |row|
  {
    var n := |row|;
    if c == n - 1 {
      assert row[c := t][..n - 1] == row[..n - 1];
    } else {
      RowExitsUpdate(row[..n - 1], c, t);
      assert row[c := t][..n - 1] == row[..n - 1][c := t];
    }
  }

  /** Overwriting one cell changes the exit count only by what left and what came. */
  lemma {:induction false} ExitsUpdate(g: seq<seq<Tile>>, r: nat, c: nat, t: Tile)
    requires r < |g| && c < |g[r]|
    ensures Exits(SetCell(g, r, c, t)) + ExitCount(g[r][c]) == Exits(g) + ExitCount(t)
    decreases |g|
  {
    var n := |g|;
    var g' := SetCell(g, r, c, t);
    if r == n - 1 {
      assert g'[..n - 1] == g[..n - 1];
      RowExitsUpdate(g[r], c, t);
    } else {
      ExitsUpdate(g[..n - 1], r, c, t);
      assert g'[..n - 1] == SetCell(g[..n - 1], r, c, t);
    }
  }

  /** A grid that holds an exit somewhere counts it. */
  lemma {:induction false} ExitCellCounted(g: seq<seq<Tile>>, r: nat, c: nat)
    requires r < |g| && c < |g[r]| && g[r][c] == Exit
    ensures Exits(g) >= 1
  {
    ExitsUpdate(g, r, c, Empty);
  }

  // ---------------------------------------------------------------------------
  // The post-passes

  /** Before the player is placed the grid holds exactly one exit: the drawn one,
      or else the one forced into `[w-1][h-1]`. */
  lemma ForcedExactlyOneExit(w: nat, h: nat, draws: seq<seq<nat>>)
    requires 2 <= w && 2 <= h && WellFormedDraws(w, h, draws)
    ensures Exits(PreSwap(w, h, draws)) == 1
    ensures !FillFlag(draws, false) ==> PreSwap(w, h, draws)[w - 1][h - 1] == Exit
    ensures FillFlag(draws, false) ==> PreSwap(w, h, draws) == Fill(draws, false)
  {
    var g := Fill(draws, false);
    RandomPhaseAtMostOneExit(draws);
    if !FillFlag(draws, false) {
      ExitsUpdate(g, w - 1, h - 1, Exit);
    }
  }

  /** Placing the player: `[0][0]` is "p", `[1][1]` holds the old `[0][0]`, every
      other cell is as it was, and the exits lose exactly what `[1][1]` held. */
  lemma PlacePlayerEffect(g: seq<seq<Tile>>, w: nat, h: nat)
    requires 2 <= w && 2 <= h && IsGrid(g, w, h)
    ensures IsGrid(PlacePlayer(g), w, h)
    ensures PlacePlayer(g)[0][0] == Player
    ensures PlacePlayer(g)[1][1] == g[0][0]
    ensures forall r, c :: 0 <= r < w && 0 <= c < h && (r, c) != (0, 0) && (r, c) != (1, 1) ==>
              PlacePlayer(g)[r][c] == g[r][c]
    ensures Exits(PlacePlayer(g)) + ExitCount(g[1][1]) == Exits(g)
  {
    var g1 := SetCell(g, 0, 0, Player);
    ExitsUpdate(g, 0, 0, Player);
    ExitsUpdate(g1, 1, 1, g[0][0]);
  }

  /** The maze ends with no exit exactly when the one exit sat at `[1][1]` before
      the player was placed: when the random phase drew it there, or when none
      was drawn and the grid is 2 x 2 so that the forced exit lands there. */
  lemma ExitLostIff(w: nat, h: nat, draws: seq<seq<nat>>)
    requires 2 <= w && 2 <= h && WellFormedDraws(w, h, draws)
    ensures Exits(Generate(w, h, draws)) <= 1
    ensures Exits(Generate(w, h, draws)) == 0 <==>
              Fill(draws, false)[1][1] == Exit || (!FillFlag(draws, false) && w == 2 && h == 2)
  {
    var g := Fill(draws, false);
    var pre := PreSwap(w, h, draws);
    ForcedExactlyOneExit(w, h, draws);
    PlacePlayerEffect(pre, w, h);
    RandomPhaseAtMostOneExit(draws);
    if g[1][1] == Exit {
      ExitCellCounted(g, 1, 1);
    }
  }

  /** An exit at `[0][0]` before the player is placed moves to `[1][1]`, and the
      maze keeps exactly one exit. */
  lemma ExitMovedFromOrigin(w: nat, h: nat, draws: seq<seq<nat>>)
    requires 2 <= w && 2 <= h && WellFormedDraws(w, h, draws)
    requires PreSwap(w, h, draws)[0][0] == Exit
    ensures Generate(w, h, draws)[1][1] == Exit
    ensures Exits(Generate(w, h, draws)) == 1
  {
    var pre := PreSwap(w, h, draws);
    ForcedExactlyOneExit(w, h, draws);
    PlacePlayerEffect(pre, w, h);
    if pre[1][1] == Exit {
      ExitsUpdate(pre, 0, 0, Empty);
      ExitCellCounted(SetCell(pre, 0, 0, Empty), 1, 1);
    }
  }

  /** An exit anywhere but `[0][0]` and `[1][1]` stays where it is, and the maze
      keeps exactly one exit. */
  lemma ExitKeptElsewhere(w: nat, h: nat, draws: seq<seq<nat>>, r: nat, c: nat)
    requires 2 <= w && 2 <= h && WellFormedDraws(w, h, draws)
    requires r < w && c < h && (r, c) != (0, 0) && (r, c) != (1, 1)
    requires PreSwap(w, h, draws)[r][c] == Exit
    ensures Generate(w, h, draws)[r][c] == Exit
    ensures Exits(Generate(w, h, draws)) == 1
  {
    var pre := PreSwap(w, h, draws);
    ForcedExactlyOneExit(w, h, draws);
    PlacePlayerEffect(pre, w, h);
    if pre[1][1] == Exit {
      ExitsUpdate(pre, r, c, Empty);
      ExitCellCounted(SetCell(pre, r, c, Empty), 1, 1);
    }
  }

  /** A 2 x 2 maze whose draws give three bats and then an exit at `[1][1]`:
      the exit is drawn, so none is forced, and placing the player overwrites it. */
  lemma ExitLostExample()
    ensures var draws := [[1, 1], [1, RandomScale - 1]];
            WellFormedDraws(2, 2, draws) && Exits(Generate(2, 2, draws)) == 0
  {
    var draws := [[1, 1], [1, RandomScale - 1]];
    assert WellFormedDraws(2, 2, draws);
    assert DrawIndex(1, 5) == 0;
    assert Draw(1, false) == Cell(Bat, false);
    assert DrawIndex(RandomScale - 1, 5) == 4;
    assert Draw(RandomScale - 1, false).tile == Exit;
    assert RowFlag([1], false) == false by {
      assert [1][..0] == [];
    }
    assert RowFlag([1, 1], false) == false by {
      assert [1, 1][..1] == [1];
    }
    assert FillFlag(draws[..1], false) == false by {
      assert draws[..1] == [[1, 1]];
      assert draws[..1][..0] == [];
    }
    assert draws[1][..1] == [1];
    FillCell(draws, false, 1, 1);
    ExitLostIff(2, 2, draws);
  }
}
