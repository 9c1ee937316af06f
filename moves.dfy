/** What one player action does to the round and the board, as functions on values: the level
    start, the end-of-move check, a pop and a special's blast. */
module Moves {
  import opened Board
  import opened Gravity
  import opened Areas
  import opened Goals

  /** The random draws a new level consumes: goal A's colour, the successive draws for goal B's
      colour (redrawn while it equals goal A's), and one colour per tile of the new board. */
  datatype LevelDraws = LevelDraws(first: Color, redraws: seq<Color>, board: seq<Color>) {
    predicate Usable() {
      IsGrid(board) && HasOther(first, redraws)
    }
  }

  /** A freshly generated board: tile i holds colour colors[i] and no special. */
  function NewBoard(colors: seq<Color>): (g: seq<Tile>)
    requires IsGrid(colors)
    ensures IsGrid(g) && Full(g)
    ensures forall i :: 0 <= i < Cells ==> g[i].special == Plain && g[i].color == Some(colors[i])
  {
    FreshTiles(colors)
  }

  /** The round a level starts with: no score, the full move budget, and two goals of distinct
      colours with the level's target. */
  function LevelStart(lvl: int, next: LevelDraws): Round
    requires next.Usable()
  {
    var need := GoalTarget(lvl);
    Round(0, MoveBudget, lvl, Goal(next.first, need, 0), Goal(SecondColor(next.first, next.redraws), need, 0))
  }

  /** A round the player can still act in: moves are left, the level is not yet cleared, the two
      goals ask for different colours and the level is at least 1. */
  predicate Live(r: Round) {
    r.moves > 0 && !Won(r.goalA, r.goalB) && r.goalA.color != r.goalB.color && r.level >= 1
  }

  /** The end-of-move check: a cleared level moves on to the next level, running out of moves
      restarts the level (never below level 1), otherwise nothing changes. */
  function Conclude(r: Round, g: seq<Tile>, next: LevelDraws): (Round, seq<Tile>)
    requires next.Usable()
  {
    if Won(r.goalA, r.goalB) then (LevelStart(r.level + 1, next), NewBoard(next.board))
    else if r.moves <= 0 then (LevelStart(if 1 < r.level then r.level else 1, next), NewBoard(next.board))
    else (r, g)
  }

  /** Every level from 1 on starts live, with a target above zero. */
  lemma LevelStartLive(lvl: int, next: LevelDraws)
    requires next.Usable() && lvl >= 1
    ensures Live(LevelStart(lvl, next))
    ensures LevelStart(lvl, next).goalA.need == LevelStart(lvl, next).goalB.need >= 13
  {
  }

  /** After the end-of-move check the game is live again and the board full, whatever the move did
      to moves and goals, as long as the level was at least 1 and the goal colours distinct. */
  lemma ConcludeLive(r: Round, g: seq<Tile>, next: LevelDraws)
    requires next.Usable() && r.level >= 1 && r.goalA.color != r.goalB.color
    requires IsGrid(g) && Full(g)
    ensures Live(Conclude(r, g, next).0)
    ensures IsGrid(Conclude(r, g, next).1) && Full(Conclude(r, g, next).1)
  {
    if Won(r.goalA, r.goalB) {
      LevelStartLive(r.level + 1, next);
    } else if r.moves <= 0 {
      LevelStartLive(r.level, next);
    }
  }

  /** The level goes up by exactly one when both goals are met and is otherwise kept; a new level
      starts from a fresh board with no score and the full move budget; a move that neither clears
      the level nor uses the last move changes nothing here. */
  lemma ConcludeLevel(r: Round, g: seq<Tile>, next: LevelDraws)
    requires next.Usable() && r.level >= 1
    ensures Conclude(r, g, next).0.level == r.level + (if Won(r.goalA, r.goalB) then 1 else 0)
    ensures Won(r.goalA, r.goalB) || r.moves <= 0 ==>
              Conclude(r, g, next).0.score == 0 && Conclude(r, g, next).0.moves == MoveBudget &&
              Conclude(r, g, next).1 == NewBoard(next.board)
    ensures !Won(r.goalA, r.goalB) && r.moves > 0 ==> Conclude(r, g, next) == (r, g)
  {
  }

  /** The board with special sp put on the bottom tile of column x. */
  function Mark(g: seq<Tile>, x: int, sp: Special): seq<Tile>
    requires IsGrid(g) && 0 <= x < Width
  {
    g[Idx(x, Width - 1) := g[Idx(x, Width - 1)].(special := sp)]
  }

  /** The colour of a group: that of its first tile. */
  function GroupColor(g: seq<Tile>, group: seq<Coord>): Option<Color>
    requires IsGrid(g) && AllInBounds(group) && |group| > 0
  {
    g[Idx(group[0].0, group[0].1)].color
  }

  /** The board after popping group: cleared, settled with the refill, and, for a group that earns a
      special, that special put on the bottom tile of the column of the group's tile number pick. */
  function PopBoard(g: seq<Tile>, group: seq<Coord>, pick: int, refill: seq<Color>): seq<Tile>
    requires IsGrid(g) && IsGrid(refill) && AllInBounds(group) && 0 <= pick < |group|
  {
    var settled := Fall(Clear(g, group), refill);
    var sp := SpecialFor(|group|);
    if sp == Plain then settled else Mark(settled, group[pick].0, sp)
  }

  /** After a pop the board is full; it is the settled board except that a group of five or more
      tiles leaves its special (a rocket from 5, a bomb from 7) on the bottom tile of the picked
      tile's column, keeping that tile's colour. */
  lemma PopBoardShape(g: seq<Tile>, group: seq<Coord>, pick: int, refill: seq<Color>)
    requires IsGrid(g) && IsGrid(refill) && AllInBounds(group) && 0 <= pick < |group|
    ensures IsGrid(PopBoard(g, group, pick, refill)) && Full(PopBoard(g, group, pick, refill))
    ensures forall i :: 0 <= i < Cells && (i != Idx(group[pick].0, Width - 1) || |group| < 5) ==>
              PopBoard(g, group, pick, refill)[i] == Fall(Clear(g, group), refill)[i]
    ensures |group| >= 5 ==>
              var spot := Idx(group[pick].0, Width - 1);
              PopBoard(g, group, pick, refill)[spot] == Tile(Fall(Clear(g, group), refill)[spot].color, SpecialFor(|group|))
  {
    var settled := Fall(Clear(g, group), refill);
    FallFull(Clear(g, group), refill);
    if |group| >= 5 {
      assert PopBoard(g, group, pick, refill) == Mark(settled, group[pick].0, SpecialFor(|group|));
    } else {
      assert PopBoard(g, group, pick, refill) == settled;
    }
  }

  /** The whole of a pop: score, move, goals, the new board, then the end-of-move check. */
  function Pop(r: Round, g: seq<Tile>, group: seq<Coord>, pick: int, refill: seq<Color>, next: LevelDraws): (Round, seq<Tile>)
    requires IsGrid(g) && IsGrid(refill) && AllInBounds(group) && 0 <= pick < |group| && next.Usable()
  {
    Conclude(AfterPop(r, GroupColor(g, group), |group|), PopBoard(g, group, pick, refill), next)
  }

  /** A pop from a live game leaves a live game on a full board. */
  lemma PopLive(r: Round, g: seq<Tile>, group: seq<Coord>, pick: int, refill: seq<Color>, next: LevelDraws)
    requires IsGrid(g) && IsGrid(refill) && AllInBounds(group) && 0 <= pick < |group| && next.Usable()
    requires Live(r)
    ensures Live(Pop(r, g, group, pick, refill, next).0)
    ensures IsGrid(Pop(r, g, group, pick, refill, next).1) && Full(Pop(r, g, group, pick, refill, next).1)
  {
    PopBoardShape(g, group, pick, refill);
    ConcludeLive(AfterPop(r, GroupColor(g, group), |group|), PopBoard(g, group, pick, refill), next);
  }

  /** The tiles a special at (x, y) affects: its row or its column for a rocket, the 3×3 block
      around it for a bomb. */
  function SpecialArea(x: int, y: int, kind: Special, horizontal: bool): seq<Coord> {
    if kind == Rocket then (if horizontal then RowCells(y) else ColumnCells(x)) else BombArea(x, y)
  }

  /** A special's area lists distinct on-board tiles, the special's own tile among them: a rocket's
      has Width tiles, a bomb's between 4 and 9. */
  lemma SpecialAreaShape(x: int, y: int, kind: Special, horizontal: bool)
    requires InBounds(x, y) && kind != Plain
    ensures var area := SpecialArea(x, y, kind, horizontal);
            Distinct(area) && AllInBounds(area) && (x, y) in area &&
            (kind == Rocket ==> |area| == Width) &&
            (kind == Bomb ==> 4 <= |area| <= 9)
  {
    var area := SpecialArea(x, y, kind, horizontal);
    if kind == Rocket && horizontal {
      RowCellsShape(y);
      assert area[x] == (x, y);
    } else if kind == Rocket {
      ColumnCellsShape(x);
      assert area[y] == (x, y);
    } else {
      BombAreaShape(x, y);
      BombAreaSize(x, y);
    }
  }

  /** What a blast of the listed tiles does to the round: 3 points per coloured tile, and each goal
      collects the tiles of its colour. */
  function BlastRound(r: Round, g: seq<Tile>, cs: seq<Coord>): Round
    requires IsGrid(g) && AllInBounds(cs)
  {
    r.(score := r.score + 3 * Colored(g, cs),
       goalA := Gain(r.goalA, CountColor(g, cs, r.goalA.color)),
       goalB := Gain(r.goalB, CountColor(g, cs, r.goalB.color)))
  }

  /** Two different colours together are at most the coloured tiles of a list. */
  lemma {:induction false} CountTwo(g: seq<Tile>, cs: seq<Coord>, a: Color, b: Color)
    requires IsGrid(g) && AllInBounds(cs) && a != b
    ensures CountColor(g, cs, a) + CountColor(g, cs, b) <= Colored(g, cs)
  {
    if cs != [] {
      CountTwo(g, cs[..|cs| - 1], a, b);
    }
  }

  /** A blast never credits the goals with more tiles than it clears, never takes a goal back, and on
      a full board scores exactly 3 points per tile. */
  lemma BlastGains(r: Round, g: seq<Tile>, cs: seq<Coord>)
    requires IsGrid(g) && AllInBounds(cs) && r.goalA.color != r.goalB.color
    ensures var after := BlastRound(r, g, cs);
            var gained := (after.goalA.have - r.goalA.have) + (after.goalB.have - r.goalB.have);
            0 <= gained <= Colored(g, cs) <= |cs| &&
            r.goalA.have <= after.goalA.have && r.goalB.have <= after.goalB.have &&
            after.score - r.score == 3 * Colored(g, cs) &&
            (Full(g) ==> after.score - r.score == 3 * |cs|)
  {
    CountTwo(g, cs, r.goalA.color, r.goalB.color);
    CountsAddUp(g, cs);
    if Full(g) {
      ColoredOfFull(g, cs);
    }
  }

  /** The whole of triggering a special at (x, y): one move, the blast, gravity and refill, then the
      end-of-move check. */
  function SpecialMove(r: Round, g: seq<Tile>, x: int, y: int, kind: Special, horizontal: bool,
                       refill: seq<Color>, next: LevelDraws): (Round, seq<Tile>)
    requires IsGrid(g) && IsGrid(refill) && InBounds(x, y) && kind != Plain && next.Usable()
  {
    var area := SpecialArea(x, y, kind, horizontal);
    SpecialAreaShape(x, y, kind, horizontal);
    Conclude(BlastRound(r.(moves := r.moves - 1), g, area), Fall(Clear(g, area), refill), next)
  }

  /** A special's move, step by step: the move spent, the blast's bookkeeping, the settled board,
      then the end-of-move check. */
  lemma SpecialMoveSteps(r: Round, g: seq<Tile>, x: int, y: int, kind: Special, horizontal: bool,
                         refill: seq<Color>, next: LevelDraws, area: seq<Coord>)
    requires IsGrid(g) && IsGrid(refill) && InBounds(x, y) && kind != Plain && next.Usable()
    requires area == SpecialArea(x, y, kind, horizontal)
    ensures AllInBounds(area)
    ensures SpecialMove(r, g, x, y, kind, horizontal, refill, next) ==
            Conclude(BlastRound(r.(moves := r.moves - 1), g, area), Fall(Clear(g, area), refill), next)
  {
    SpecialAreaShape(x, y, kind, horizontal);
  }

  /** Before the end-of-move check, a special's move spends exactly one move, keeps the level and
      the goals' colours and targets, scores 3 points per coloured tile of its area and credits
      each goal with the area's tiles of its colour. On a full board a rocket scores exactly 30
      and a bomb between 12 and 27. */
  lemma SpecialMoveDeltas(r: Round, g: seq<Tile>, x: int, y: int, kind: Special, horizontal: bool)
    requires IsGrid(g) && InBounds(x, y) && kind != Plain
    ensures var area := SpecialArea(x, y, kind, horizontal);
            AllInBounds(area) &&
            var after := BlastRound(r.(moves := r.moves - 1), g, area);
            after.moves == r.moves - 1 && after.level == r.level &&
            after.score == r.score + 3 * Colored(g, area) &&
            after.goalA == Gain(r.goalA, CountColor(g, area, r.goalA.color)) &&
            after.goalB == Gain(r.goalB, CountColor(g, area, r.goalB.color)) &&
            (Full(g) && kind == Rocket ==> after.score == r.score + 3 * Width) &&
            (Full(g) && kind == Bomb ==> r.score + 12 <= after.score <= r.score + 27)
  {
    var area := SpecialArea(x, y, kind, horizontal);
    SpecialAreaShape(x, y, kind, horizontal);
    if Full(g) {
      ColoredOfFull(g, area);
    }
  }

  /** Triggering a special in a live game leaves a live game on a full board. */
  lemma SpecialMoveLive(r: Round, g: seq<Tile>, x: int, y: int, kind: Special, horizontal: bool,
                        refill: seq<Color>, next: LevelDraws)
    requires IsGrid(g) && IsGrid(refill) && InBounds(x, y) && kind != Plain && next.Usable()
    requires Live(r)
    ensures Live(SpecialMove(r, g, x, y, kind, horizontal, refill, next).0)
    ensures IsGrid(SpecialMove(r, g, x, y, kind, horizontal, refill, next).1)
    ensures Full(SpecialMove(r, g, x, y, kind, horizontal, refill, next).1)
  {
    var area := SpecialArea(x, y, kind, horizontal);
    SpecialAreaShape(x, y, kind, horizontal);
    FallFull(Clear(g, area), refill);
    ConcludeLive(BlastRound(r.(moves := r.moves - 1), g, area), Fall(Clear(g, area), refill), next);
  }
}
