/** The Zoo Pop engine: one game's board and round state, and the operations a player triggers,
    updating them in place. */
module Game {
  import opened Board
  import opened Groups
  import opened Gravity
  import opened Areas
  import opened Shuffling
  import opened Goals
  import opened Moves

  class Game {
    var grid: array<Tile>
    var score: int
    var moves: int
    var level: int
    var goalA: Goal
    var goalB: Goal
    var busy: bool

    /** The round part of the state. */
    ghost function Snapshot(): Round
      reads this
    {
      Round(score, moves, level, goalA, goalB)
    }

    /** Between player actions the board is fully populated and the round is live. */
    ghost predicate Valid()
      reads this, grid
    {
      grid.Length == Cells && Full(grid[..]) && Live(Snapshot())
    }

    /** A new game: level 1, started with the given draws. */
    constructor (next: LevelDraws)
      requires next.Usable()
      ensures Valid() && !busy && fresh(grid)
      ensures Snapshot() == LevelStart(1, next) && grid[..] == NewBoard(next.board)
    {
      grid := new Tile[Cells](_ => Empty);
      score := 0;
      moves := MoveBudget;
      level := 1;
      goalA := Goal(Red, 15, 0);
      goalB := Goal(Blue, 15, 0);
      busy := false;
      new;
      NewLevel(next);
      LevelStartLive(1, next);
    }

    /** Starts the current level afresh: full moves, no score, new goals and a new board. */
    method NewLevel(next: LevelDraws)
      requires grid.Length == Cells && next.Usable()
      modifies this, grid
      ensures grid == old(grid) && busy == old(busy)
      ensures Snapshot() == LevelStart(old(level), next) && grid[..] == NewBoard(next.board)
    {
      moves := MoveBudget;
      score := 0;
      RandomGoals(next.first, next.redraws);
      CreateBoard(next.board);
    }

    /** Goal A takes colour c1; goal B takes the first of the redraws that differs from c1; both
        need the level's target. */
    method RandomGoals(c1: Color, redraws: seq<Color>)
      requires HasOther(c1, redraws)
      modifies this
      ensures goalA == Goal(c1, GoalTarget(level), 0)
      ensures goalB == Goal(SecondColor(c1, redraws), GoalTarget(level), 0) && goalB.color != c1
      ensures grid == old(grid) && score == old(score) && moves == old(moves) && level == old(level) && busy == old(busy)
    {
      SecondColorIsFirst(c1, redraws);
      ghost var k :| 0 <= k < |redraws| && redraws[k] == SecondColor(c1, redraws) &&
                     forall j :: 0 <= j < k ==> redraws[j] == c1;
      var i := 0;
      var c2 := redraws[0];
      while c2 == c1
        invariant 0 <= i <= k && c2 == redraws[i]
        invariant forall j :: 0 <= j < i ==> redraws[j] == c1
        decreases k - i
      {
        i := i + 1;
        c2 := redraws[i];
      }
      var need := 12 + (3 * level) / 2;
      goalA := Goal(c1, need, 0);
      goalB := Goal(c2, need, 0);
    }

    /** Fills the board row by row with plain tiles of the given colours. */
    method CreateBoard(colors: seq<Color>)
      requires grid.Length == Cells && IsGrid(colors)
      modifies grid
      ensures grid[..] == NewBoard(colors)
    {
      for y := 0 to Width
        invariant forall i :: 0 <= i < Idx(0, y) ==> grid[i] == Tile(Some(colors[i]), Plain)
      {
        for x := 0 to Width
          invariant forall i :: 0 <= i < Idx(x, y) ==> grid[i] == Tile(Some(colors[i]), Plain)
        {
          grid[Idx(x, y)] := Tile(Some(colors[Idx(x, y)]), Plain);
        }
      }
    }

    /** The end-of-move check: next level when both goals are met, the same level again when the
        moves are used up. */
    method CheckEnd(next: LevelDraws)
      requires grid.Length == Cells && next.Usable()
      modifies this, grid
      ensures grid == old(grid) && busy == old(busy)
      ensures (Snapshot(), grid[..]) == Conclude(old(Snapshot()), old(grid[..]), next)
    {
      var won := goalA.have >= goalA.need && goalB.have >= goalB.need;
      if won {
        level := level + 1;
        NewLevel(next);
        return;
      }
      if moves <= 0 {
        level := if 1 < level then level else 1;
        NewLevel(next);
      }
    }

    /** Tiles matching target reachable from (x, y), each listed once: the flood fill. */
    method FloodGroup(x: int, y: int, target: Option<Color>) returns (group: seq<Coord>)
      requires grid.Length == Cells
      ensures Distinct(group)
      ensures forall c :: c in group ==> Matches(grid[..], target, c)
      ensures Matches(grid[..], target, (x, y)) ==> (x, y) in group
      ensures forall v, n :: v in group && Adjacent(v, n) && Matches(grid[..], target, n) ==> n in group
      ensures forall c :: c in group <==> Reach(grid[..], target, (x, y), c)
      ensures Matches(grid[..], target, (x, y)) ==> |group| > 0 && group[0] == (x, y)
    {
      ghost var g := grid[..];
      var stack: seq<Coord> := [(x, y)];
      var visited: set<Coord> := {};
      group := [];
      FillingStart(g, target, (x, y));
      while |stack| > 0
        invariant Filling(g, target, (x, y), visited, group, stack)
        decreases AllTiles() - visited, |stack|
      {
        var c := stack[|stack| - 1];
        ghost var whole := stack;
        stack := stack[..|stack| - 1];
        assert whole == stack + [c];
        if c in visited {
          FillingSkip(g, target, (x, y), visited, group, stack, c);
          continue;
        }
        if !InBounds(c.0, c.1) {
          FillingSkip(g, target, (x, y), visited, group, stack, c);
          continue;
        }
        var s := grid[Idx(c.0, c.1)];
        if s.color != target {
          FillingSkip(g, target, (x, y), visited, group, stack, c);
          continue;
        }
        FillingVisit(g, target, (x, y), visited, group, stack, c);
        visited := visited + {c};
        group := group + [c];
        stack := stack + Neighbours(c);
      }
      FillDone(g, target, (x, y), visited);
    }

    /** The bottom-most coloured row of column x, if any: the search for the tile that takes a new
        special. */
    method BottomOccupied(x: int) returns (ty: Option<int>)
      requires grid.Length == Cells && 0 <= x < Width
      ensures ty.Some? ==> 0 <= ty.value < Width && grid[Idx(x, ty.value)].color.Some? &&
                           forall r :: ty.value < r < Width ==> grid[Idx(x, r)].color.None?
      ensures ty.None? ==> forall r :: 0 <= r < Width ==> grid[Idx(x, r)].color.None?
    {
      var yy := Width - 1;
      while yy >= 0
        invariant -1 <= yy < Width
        invariant forall r :: yy < r < Width ==> grid[Idx(x, r)].color.None?
      {
        if grid[Idx(x, yy)].color.Some? {
          return Some(yy);
        }
        yy := yy - 1;
      }
      return None;
    }

    /** Moves the tile at row y of column x down to row write, leaving a cleared tile behind. */
    method MoveDown(x: int, y: int, write: int)
      requires grid.Length == Cells && InBounds(x, y) && InBounds(x, write) && write != y
      modifies grid
      ensures grid[..] == old(grid[..])[Idx(x, write) := old(grid[Idx(x, y)])][Idx(x, y) := Empty]
    {
      var s := grid[Idx(x, y)];
      grid[Idx(x, write)] := s;
      grid[Idx(x, y)] := Empty;
    }

    /** One step of the compaction of column x: the tile in row y, if coloured, is moved down to
        the write pointer (where it may already be) and the pointer goes up one row. */
    method ScanRow(x: int, y: int, write: int, ghost g0: seq<Tile>, ghost kept: seq<Tile>)
      returns (write': int, ghost kept': seq<Tile>)
      requires grid.Length == Cells && IsGrid(g0) && 0 <= x < Width && 0 <= y
      requires Compacting(grid[..], g0, x, y, write, kept)
      modifies grid
      ensures Compacting(grid[..], g0, x, y - 1, write', kept')
    {
      var s := grid[Idx(x, y)];
      if s.color.Some? {
        if write != y {
          CompactMove(grid[..], g0, x, y, write, kept);
          MoveDown(x, y, write);
        } else {
          CompactStay(grid[..], g0, x, y, write, kept);
        }
        write', kept' := write - 1, [s] + kept;
      } else {
        CompactSkip(grid[..], g0, x, y, write, kept);
        write', kept' := write, kept;
      }
    }

    /** The first half of `fall` for column x: scanning up from the bottom row, every coloured tile
        is moved down to a write pointer that starts at the bottom row. Returns the final pointer,
        the lowest row that is left to refill; it and every row above it are left cleared. */
    method CompactColumn(x: int) returns (write: int)
      requires grid.Length == Cells && 0 <= x < Width
      modifies grid
      ensures forall i :: 0 <= i < Cells && i % Width != x ==> grid[i] == old(grid[i])
      ensures write == Width - 1 - |Occupied(Column(old(grid[..]), x))|
      ensures forall r :: write < r < Width ==> grid[Idx(x, r)] == Occupied(Column(old(grid[..]), x))[r - write - 1]
      ensures forall r :: 0 <= r <= write ==> grid[Idx(x, r)].color.None?
    {
      ghost var g0 := grid[..];
      ghost var kept: seq<Tile> := [];
      write := Width - 1;
      var y := Width - 1;
      CompactStart(g0, x);
      while y >= 0
        invariant grid.Length == Cells
        invariant Compacting(grid[..], g0, x, y, write, kept)
      {
        write, kept := ScanRow(x, y, write, g0, kept);
        y := y - 1;
      }
      assert Column(g0, x)[0..] == Column(g0, x);
      assert kept == Occupied(Column(g0, x));
      forall i | 0 <= i < Cells && i % Width != x ensures grid[i] == g0[i] {
        assert grid[..][i] == g0[i];
      }
      forall r | write < r < Width ensures grid[Idx(x, r)] == kept[r - write - 1] {
        assert grid[..][Idx(x, r)] == kept[r - write - 1];
      }
      forall r | 0 <= r <= write ensures grid[Idx(x, r)].color.None? {
        assert grid[..][Idx(x, r)].color.None?;
      }
    }

    /** The second half of `fall` for column x: rows top .. 0 get fresh plain tiles of the refill
        colours; nothing else changes. */
    method RefillColumn(x: int, top: int, refill: seq<Color>)
      requires grid.Length == Cells && IsGrid(refill) && 0 <= x < Width && top < Width
      modifies grid
      ensures forall i :: 0 <= i < Cells && !(i % Width == x && i / Width <= top) ==> grid[i] == old(grid[i])
      ensures forall r :: 0 <= r <= top ==> grid[Idx(x, r)] == Tile(Some(refill[Idx(x, r)]), Plain)
    {
      var fy := top;
      while fy >= 0
        invariant fy <= top
        invariant forall r :: fy < r <= top && r >= 0 ==> grid[Idx(x, r)] == Tile(Some(refill[Idx(x, r)]), Plain)
        invariant forall i :: 0 <= i < Cells && !(i % Width == x && fy < i / Width <= top) ==> grid[i] == old(grid[i])
      {
        grid[Idx(x, fy)] := Tile(Some(refill[Idx(x, fy)]), Plain);
        fy := fy - 1;
      }
    }

    /** `fall` for one column: column x becomes FallColumn of its old contents and its refill
        colours; every other column is left as it was. */
    method SettleColumn(x: int, refill: seq<Color>)
      requires grid.Length == Cells && IsGrid(refill) && 0 <= x < Width
      modifies grid
      ensures forall i :: 0 <= i < Cells && i % Width != x ==> grid[i] == old(grid[i])
      ensures Column(grid[..], x) == FallColumn(Column(old(grid[..]), x), Column(refill, x))
    {
      ghost var col := Column(grid[..], x);
      ghost var kept := Occupied(col);
      var write := CompactColumn(x);
      RefillColumn(x, write, refill);
      ghost var fell := FallColumn(col, Column(refill, x));
      forall r | 0 <= r < Width ensures Column(grid[..], x)[r] == fell[r] {
        if r > write {
          assert grid[Idx(x, r)] == kept[r - write - 1];
        }
      }
    }

    /** Gravity and refill (`fall`): every column is settled in turn, left to right. */
    method DropAndFill(refill: seq<Color>)
      requires grid.Length == Cells && IsGrid(refill)
      modifies grid
      ensures grid[..] == Fall(old(grid[..]), refill)
    {
      ghost var g0 := grid[..];
      for x := 0 to Width
        invariant forall i :: 0 <= i < Cells && i % Width < x ==> grid[i] == Fall(g0, refill)[i]
        invariant forall i :: 0 <= i < Cells && x <= i % Width ==> grid[i] == g0[i]
      {
        ghost var before := grid[..];
        assert Column(before, x) == Column(g0, x);
        SettleColumn(x, refill);
        forall i | 0 <= i < Cells && i % Width == x ensures grid[i] == Fall(g0, refill)[i] {
          IdxOnto(i);
          assert grid[i] == Column(grid[..], x)[i / Width];
        }
      }
    }

    /** The first half of `blast`: clears the listed tiles, scoring 3 points per coloured one, and
        returns how many tiles of each colour were cleared. */
    method ClearCounting(cs: seq<Coord>) returns (counts: map<Color, int>)
      requires grid.Length == Cells && AllInBounds(cs) && Distinct(cs)
      modifies this, grid
      ensures grid == old(grid) && grid[..] == Clear(old(grid[..]), cs)
      ensures score == old(score) + 3 * Colored(old(grid[..]), cs)
      ensures forall c :: (if c in counts then counts[c] else 0) == CountColor(old(grid[..]), cs, c)
      ensures busy == old(busy) && moves == old(moves) && level == old(level)
      ensures goalA == old(goalA) && goalB == old(goalB)
    {
      ghost var g0 := grid[..];
      counts := map[];
      for k := 0 to |cs|
        invariant grid == old(grid) && grid[..] == Clear(g0, cs[..k])
        invariant score == old(score) + 3 * Colored(g0, cs[..k])
        invariant forall c :: (if c in counts then counts[c] else 0) == CountColor(g0, cs[..k], c)
        invariant busy == old(busy) && moves == old(moves) && level == old(level)
        invariant goalA == old(goalA) && goalB == old(goalB)
      {
        var p := cs[k];
        assert cs[..k + 1][..k] == cs[..k] && cs[..k + 1][k] == p;
        assert p !in cs[..k];
        ClearAt(g0, cs[..k], p.0, p.1);
        var t := grid[Idx(p.0, p.1)];
        if t.color.Some? {
          var c := t.color.value;
          counts := counts[c := (if c in counts then counts[c] else 0) + 1];
          score := score + 3;
        }
        grid[Idx(p.0, p.1)] := Empty;
      }
      assert cs[..|cs|] == cs;
    }

    /** The second half of `blast`'s bookkeeping: each goal collects the count of its colour. */
    method CreditGoals(counts: map<Color, int>)
      modifies this
      ensures goalA == Gain(old(goalA), if old(goalA).color in counts then counts[old(goalA).color] else 0)
      ensures goalB == Gain(old(goalB), if old(goalB).color in counts then counts[old(goalB).color] else 0)
      ensures grid == old(grid) && busy == old(busy) && score == old(score) && moves == old(moves) && level == old(level)
    {
      ghost var a0, b0 := goalA, goalB;
      var pending := counts.Keys;
      while pending != {}
        invariant pending <= counts.Keys
        invariant goalA == Gain(a0, if a0.color in counts.Keys - pending then counts[a0.color] else 0)
        invariant goalB == Gain(b0, if b0.color in counts.Keys - pending then counts[b0.color] else 0)
        invariant grid == old(grid) && busy == old(busy) && score == old(score) && moves == old(moves) && level == old(level)
        decreases |pending|
      {
        var c :| c in pending;
        if goalA.color == c {
          goalA := goalA.(have := goalA.have + counts[c]);
        }
        if goalB.color == c {
          goalB := goalB.(have := goalB.have + counts[c]);
        }
        pending := pending - {c};
      }
    }

    /** Clears the listed tiles, scoring 3 points per coloured one and crediting each goal with the
        tiles of its colour, then lets the board settle. */
    method Blast(cs: seq<Coord>, refill: seq<Color>)
      requires grid.Length == Cells && IsGrid(refill) && AllInBounds(cs) && Distinct(cs)
      modifies this, grid
      ensures grid == old(grid) && busy == old(busy)
      ensures Snapshot() == BlastRound(old(Snapshot()), old(grid[..]), cs)
      ensures grid[..] == Fall(Clear(old(grid[..]), cs), refill)
    {
      var counts := ClearCounting(cs);
      CreditGoals(counts);
      DropAndFill(refill);
    }

    /** The bookkeeping of a pop of n tiles of the given colour: n² points, one move, and each goal
        of that colour credited with n tiles. */
    method ScorePop(n: int, color: Option<Color>)
      modifies this
      ensures Snapshot() == AfterPop(old(Snapshot()), color, n)
      ensures grid == old(grid) && busy == old(busy)
    {
      score := score + n * n;
      moves := moves - 1;
      if Some(goalA.color) == color {
        goalA := goalA.(have := goalA.have + n);
      }
      if Some(goalB.color) == color {
        goalB := goalB.(have := goalB.have + n);
      }
    }

    /** Clears the listed tiles, in order. */
    method ClearTiles(cs: seq<Coord>)
      requires grid.Length == Cells && AllInBounds(cs)
      modifies grid
      ensures grid[..] == Clear(old(grid[..]), cs)
    {
      ghost var g0 := grid[..];
      for k := 0 to |cs|
        invariant grid[..] == Clear(g0, cs[..k])
      {
        var p := cs[k];
        assert cs[..k + 1][..k] == cs[..k] && cs[..k + 1][k] == p;
        grid[Idx(p.0, p.1)] := Empty;
      }
      assert cs[..|cs|] == cs;
    }

    /** Puts special sp on the bottom-most coloured tile of column x; on a full board that is the
        bottom tile. */
    method PlaceSpecial(x: int, sp: Special)
      requires grid.Length == Cells && Full(grid[..]) && 0 <= x < Width
      modifies grid
      ensures grid[..] == Mark(old(grid[..]), x, sp)
    {
      assert grid[..][Idx(x, Width - 1)].color.Some?;
      var targetY := BottomOccupied(x);
      if targetY.Some? {
        var ty := targetY.value;
        grid[Idx(x, ty)] := grid[Idx(x, ty)].(special := sp);
      }
    }

    /** Pops a group: n² points, one move, goal credit for the group's colour, the group cleared,
        the board settled, a special for a group of five or more on the bottom tile of the column of
        the group's tile number pick, then the end-of-move check. Does nothing while busy. */
    method PopGroup(group: seq<Coord>, pick: int, refill: seq<Color>, next: LevelDraws)
      requires grid.Length == Cells && IsGrid(refill) && AllInBounds(group) && 0 <= pick < |group|
      requires next.Usable()
      modifies this, grid
      ensures grid == old(grid)
      ensures old(busy) ==> busy && Snapshot() == old(Snapshot()) && grid[..] == old(grid[..])
      ensures !old(busy) ==>
                !busy && (Snapshot(), grid[..]) == Pop(old(Snapshot()), old(grid[..]), group, pick, refill, next)
    {
      if busy {
        return;
      }
      busy := true;
      var n := |group|;
      var color := grid[Idx(group[0].0, group[0].1)].color;
      ScorePop(n, color);
      SettlePop(group, pick, refill);
      busy := false;
      CheckEnd(next);
    }

    /** The board half of a pop: the group cleared, the board settled, and for a group of five or
        more (a bomb from seven) the special put on the bottom-most coloured tile of the column of
        the group's tile number pick. */
    method SettlePop(group: seq<Coord>, pick: int, refill: seq<Color>)
      requires grid.Length == Cells && IsGrid(refill) && AllInBounds(group) && 0 <= pick < |group|
      modifies grid
      ensures grid[..] == PopBoard(old(grid[..]), group, pick, refill)
    {
      var n := |group|;
      var specialToCreate := Plain;
      if n >= 7 {
        specialToCreate := Bomb;
      } else if n >= 5 {
        specialToCreate := Rocket;
      }
      var sx := if specialToCreate != Plain then group[pick].0 else -1;
      ghost var g0 := grid[..];
      ClearTiles(group);
      DropAndFill(refill);
      if specialToCreate != Plain {
        FallFull(Clear(g0, group), refill);
        PlaceSpecial(sx, specialToCreate);
      }
    }

    /** Triggers the special sp at (x, y): one move, a blast of its area (a rocket's row or column as
        horizontal says, a bomb's 3×3 block), then the end-of-move check. Does nothing while busy. */
    method ApplySpecial(x: int, y: int, kind: Special, horizontal: bool, refill: seq<Color>, next: LevelDraws)
      requires grid.Length == Cells && IsGrid(refill) && InBounds(x, y) && kind != Plain && next.Usable()
      modifies this, grid
      ensures grid == old(grid)
      ensures old(busy) ==> busy && Snapshot() == old(Snapshot()) && grid[..] == old(grid[..])
      ensures !old(busy) ==>
                !busy && (Snapshot(), grid[..]) == SpecialMove(old(Snapshot()), old(grid[..]), x, y, kind, horizontal, refill, next)
    {
      if busy {
        return;
      }
      ghost var r0, g0 := Snapshot(), grid[..];
      busy := true;
      SpendAndBlast(x, y, kind, horizontal, refill);
      SpecialMoveSteps(r0, g0, x, y, kind, horizontal, refill, next, SpecialArea(x, y, kind, horizontal));
      busy := false;
      CheckEnd(next);
    }

    /** The body of a special's move before the end-of-move check: one move spent, then the blast
        of the special's area. */
    method SpendAndBlast(x: int, y: int, kind: Special, horizontal: bool, refill: seq<Color>)
      requires grid.Length == Cells && IsGrid(refill) && InBounds(x, y) && kind != Plain
      modifies this, grid
      ensures grid == old(grid) && busy == old(busy) && AllInBounds(SpecialArea(x, y, kind, horizontal))
      ensures Snapshot() == BlastRound(old(Snapshot()).(moves := old(moves) - 1), old(grid[..]), SpecialArea(x, y, kind, horizontal))
      ensures grid[..] == Fall(Clear(old(grid[..]), SpecialArea(x, y, kind, horizontal)), refill)
    {
      moves := moves - 1;
      var affected := AreaOf(x, y, kind, horizontal);
      Blast(affected, refill);
    }

    /** Deals the colours of the coloured tiles back out after a Fisher–Yates shuffle with draws js;
        every coloured tile loses its special. Does nothing while busy. */
    method Shuffle(js: seq<int>)
      requires grid.Length == Cells && DrawsFit(js, |Pool(grid[..])|)
      modifies grid
      ensures old(busy) ==> grid[..] == old(grid[..])
      ensures !old(busy) ==> grid[..] == Shuffled(old(grid[..]), js)
      ensures Full(old(grid[..])) ==> Full(grid[..]) && multiset(Pool(grid[..])) == multiset(Pool(old(grid[..])))
    {
      if busy {
        return;
      }
      ghost var g0 := grid[..];
      var pool := CollectPool();
      var p := FisherYatesInPlace(pool, js);
      DealColors(p);
      assert grid[..] == Shuffled(g0, js);
      if Full(g0) {
        ShufflePermutes(g0, js);
      }
    }

    /** The colours of the coloured tiles, in grid order. */
    method CollectPool() returns (pool: seq<Color>)
      requires grid.Length == Cells
      ensures pool == Pool(grid[..])
    {
      pool := [];
      for i := 0 to grid.Length
        invariant pool == Pool(grid[..i])
      {
        assert grid[..i + 1][..i] == grid[..i];
        if grid[i].color.Some? {
          pool := pool + [grid[i].color.value];
        }
      }
      assert grid[..grid.Length] == grid[..];
    }

    /** Gives each coloured tile i the colour p[i mod |p|] and no special. */
    method DealColors(p: seq<Color>)
      requires grid.Length == Cells && |p| == |Pool(grid[..])|
      modifies grid
      ensures grid[..] == Deal(old(grid[..]), p)
    {
      ghost var g0 := grid[..];
      for k := 0 to grid.Length
        invariant forall m :: 0 <= m < k ==> grid[m] == Deal(g0, p)[m]
        invariant forall m :: k <= m < grid.Length ==> grid[m] == g0[m]
      {
        if grid[k].color.Some? {
          PoolNonEmpty(g0, k);
          grid[k] := Tile(Some(p[k % |p|]), Plain);
        }
      }
    }

    /** Back to level 1 with a new level. */
    method Reset(next: LevelDraws)
      requires grid.Length == Cells && next.Usable()
      modifies this, grid
      ensures Valid() && grid == old(grid) && busy == old(busy)
      ensures Snapshot() == LevelStart(1, next) && grid[..] == NewBoard(next.board)
    {
      level := 1;
      NewLevel(next);
      LevelStartLive(1, next);
    }

    /** Skips to the next level. */
    method NewGame(next: LevelDraws)
      requires Valid() && next.Usable()
      modifies this, grid
      ensures Valid() && grid == old(grid) && busy == old(busy)
      ensures Snapshot() == LevelStart(old(level) + 1, next) && grid[..] == NewBoard(next.board)
    {
      level := level + 1;
      NewLevel(next);
      LevelStartLive(level, next);
    }

    /** A tap on (x, y): a special tile fires; otherwise the tile's group is popped when it has at
        least two tiles, pick choosing (modulo the group's size) the tile whose column gets any new
        special. Does nothing while busy. */
    method Tap(x: int, y: int, pick: nat, horizontal: bool, refill: seq<Color>, next: LevelDraws)
      requires Valid() && InBounds(x, y) && IsGrid(refill) && next.Usable()
      modifies this, grid
      ensures Valid() && grid == old(grid)
      ensures old(busy) ==> busy && Snapshot() == old(Snapshot()) && grid[..] == old(grid[..])
      ensures !old(busy) && old(grid[Idx(x, y)]).special != Plain ==>
                !busy && (Snapshot(), grid[..]) ==
                         SpecialMove(old(Snapshot()), old(grid[..]), x, y, old(grid[Idx(x, y)]).special, horizontal, refill, next)
      ensures !old(busy) && old(grid[Idx(x, y)]).special == Plain &&
              |Component(old(grid[..]), old(grid[Idx(x, y)]).color, (x, y))| < 2 ==>
                !busy && Snapshot() == old(Snapshot()) && grid[..] == old(grid[..])
      ensures !old(busy) && old(grid[Idx(x, y)]).special == Plain &&
              |Component(old(grid[..]), old(grid[Idx(x, y)]).color, (x, y))| >= 2 ==>
                !busy &&
                exists group: seq<Coord> ::
                  |group| == |Component(old(grid[..]), old(grid[Idx(x, y)]).color, (x, y))| &&
                  Distinct(group) && AllInBounds(group) && group[0] == (x, y) &&
                  (forall c :: c in group <==> Reach(old(grid[..]), old(grid[Idx(x, y)]).color, (x, y), c)) &&
                  (Snapshot(), grid[..]) == Pop(old(Snapshot()), old(grid[..]), group, pick % |group|, refill, next)
    {
      if busy {
        return;
      }
      var tile := grid[Idx(x, y)];
      if tile.special != Plain {
        ApplySpecial(x, y, tile.special, horizontal, refill, next);
        SpecialMoveLive(old(Snapshot()), old(grid[..]), x, y, tile.special, horizontal, refill, next);
        return;
      }
      ghost var g0 := grid[..];
      assert g0[Idx(x, y)].color.Some?;
      var group := FloodGroup(x, y, tile.color);
      EnumerationSize(g0, tile.color, (x, y), group);
      if |group| < 2 {
        return;
      }
      assert AllInBounds(group) by {
        forall k | 0 <= k < |group| ensures InBounds(group[k].0, group[k].1) {
          assert Matches(g0, tile.color, group[k]);
        }
      }
      PopGroup(group, pick % |group|, refill, next);
      PopLive(old(Snapshot()), g0, group, pick % |group|, refill, next);
    }
  }

  /** The tiles the special kind at (x, y) affects: a rocket's row or column, as horizontal says,
      or a bomb's 3×3 block. */
  method AreaOf(x: int, y: int, kind: Special, horizontal: bool) returns (affected: seq<Coord>)
    requires InBounds(x, y) && kind != Plain
    ensures affected == SpecialArea(x, y, kind, horizontal)
    ensures Distinct(affected) && AllInBounds(affected) && (x, y) in affected
  {
    SpecialAreaShape(x, y, kind, horizontal);
    if kind == Rocket {
      affected := RocketCells(x, y, horizontal);
    } else {
      affected := BombCells(x, y);
    }
  }

  /** The tiles a rocket at (x, y) affects: row y left to right, or column x top to bottom. */
  method RocketCells(x: int, y: int, horizontal: bool) returns (affected: seq<Coord>)
    ensures affected == if horizontal then RowCells(y) else ColumnCells(x)
  {
    affected := [];
    if horizontal {
      for cx := 0 to Width
        invariant affected == RowCells(y)[..cx]
      {
        affected := affected + [(cx, y)];
      }
    } else {
      for cy := 0 to Width
        invariant affected == ColumnCells(x)[..cy]
      {
        affected := affected + [(x, cy)];
      }
    }
  }

  /** The tiles a bomb at (x, y) affects: the on-board tiles of the 3×3 block around it, row by row. */
  method BombCells(x: int, y: int) returns (affected: seq<Coord>)
    ensures affected == BombArea(x, y)
  {
    affected := [];
    for dy := -1 to 2
      invariant affected == Block(x, y - 1, y + dy)
    {
      for dx := -1 to 2
        invariant affected == Block(x, y - 1, y + dy) + RowSpan(y + dy, x - 1, x + dx)
      {
        var nx, ny := x + dx, y + dy;
        if InBounds(nx, ny) {
          affected := affected + [(nx, ny)];
        }
      }
    }
  }

  /** Fisher–Yates on an array holding s: for i from the last index down to 1, swap positions i
      and js[i]. */
  method FisherYatesInPlace(s: seq<Color>, js: seq<int>) returns (r: seq<Color>)
    requires DrawsFit(js, |s|)
    ensures r == FisherYates(s, js, |s| - 1)
    ensures multiset(r) == multiset(s)
  {
    var a := new Color[|s|](k requires 0 <= k < |s| => s[k]);
    assert a[..] == s;
    var i := |s| - 1;
    while i > 0
      invariant i < |s| && a.Length == |s|
      invariant FisherYates(a[..], js, i) == FisherYates(s, js, |s| - 1)
    {
      var j := js[i];
      var tmp := a[i];
      a[i] := a[j];
      a[j] := tmp;
      i := i - 1;
    }
    r := a[..];
    FisherYatesPermutes(s, js, |s| - 1);
  }
}
