/** Gravity and refill: what `fall` does to each column, as functions on values. */
module Gravity {
  import opened Board

  /** The tiles of s that hold a colour, in their order. */
  function Occupied(s: seq<Tile>): (r: seq<Tile>)
    ensures |r| <= |s|
    ensures forall k :: 0 <= k < |r| ==> r[k].color.Some?
  {
    if s == [] then [] else (if s[0].color.Some? then [s[0]] else []) + Occupied(s[1..])
  }

  /** The number of cleared tiles of s. */
  function Holes(s: seq<Tile>): (h: nat)
    ensures h <= |s|
  {
    if s == [] then 0 else (if s[0].color.None? then 1 else 0) + Holes(s[1..])
  }

  /** A column keeps one tile per occupied slot and loses one per hole. */
  lemma {:induction false} OccupiedCount(s: seq<Tile>)
    ensures |Occupied(s)| + Holes(s) == |s|
  {
    if s != [] {
      OccupiedCount(s[1..]);
    }
  }

  /** Nothing is dropped from a fully populated column. */
  lemma {:induction false} OccupiedOfFull(s: seq<Tile>)
    requires Full(s)
    ensures Occupied(s) == s
  {
    if s != [] {
      OccupiedOfFull(s[1..]);
    }
  }

  /** Occupied of a suffix, one tile at a time: the scan order of the compaction. */
  lemma OccupiedUnfold(s: seq<Tile>, y: int)
    requires 0 <= y < |s|
    ensures Occupied(s[y..]) == (if s[y].color.Some? then [s[y]] else []) + Occupied(s[y + 1..])
  {
    assert s[y..][1..] == s[y + 1..];
  }

  /** Halfway through compacting column x of g0 into g: rows y+1 .. Width-1 have been scanned and
      their coloured tiles, kept, sit below the write pointer in their order, the scanned rows at
      and above the pointer are cleared, and rows 0 .. y and every other column are untouched. */
  ghost predicate Compacting(g: seq<Tile>, g0: seq<Tile>, x: int, y: int, write: int, kept: seq<Tile>)
    requires IsGrid(g) && IsGrid(g0) && 0 <= x < Width
  {
    -1 <= y <= write < Width &&
    kept == Occupied(Column(g0, x)[y + 1..]) &&
    write == Width - 1 - |kept| &&
    (forall r :: write < r < Width ==> g[Idx(x, r)] == kept[r - write - 1]) &&
    (forall r :: y < r <= write ==> g[Idx(x, r)].color.None?) &&
    (forall r :: 0 <= r <= y ==> g[Idx(x, r)] == g0[Idx(x, r)]) &&
    (forall i :: 0 <= i < Cells && i % Width != x ==> g[i] == g0[i])
  }

  lemma CompactStart(g0: seq<Tile>, x: int)
    requires IsGrid(g0) && 0 <= x < Width
    ensures Compacting(g0, g0, x, Width - 1, Width - 1, [])
  {
  }

  /** Scanning a cleared tile moves nothing. */
  lemma CompactSkip(g: seq<Tile>, g0: seq<Tile>, x: int, y: int, write: int, kept: seq<Tile>)
    requires IsGrid(g) && IsGrid(g0) && 0 <= x < Width && Compacting(g, g0, x, y, write, kept)
    requires y >= 0 && g[Idx(x, y)].color.None?
    ensures Compacting(g, g0, x, y - 1, write, kept)
  {
    OccupiedUnfold(Column(g0, x), y);
  }

  /** Scanning a coloured tile that already sits at the write pointer leaves it there. */
  lemma CompactStay(g: seq<Tile>, g0: seq<Tile>, x: int, y: int, write: int, kept: seq<Tile>)
    requires IsGrid(g) && IsGrid(g0) && 0 <= x < Width && Compacting(g, g0, x, y, write, kept)
    requires y >= 0 && write == y && g[Idx(x, y)].color.Some?
    ensures Compacting(g, g0, x, y - 1, write - 1, [g[Idx(x, y)]] + kept)
  {
    OccupiedUnfold(Column(g0, x), y);
    var kept' := [g[Idx(x, y)]] + kept;
    forall r | write - 1 < r < Width ensures g[Idx(x, r)] == kept'[r - write] {
      if r > write {
        assert kept'[r - write] == kept[r - write - 1];
      }
    }
  }

  /** Scanning a coloured tile above the write pointer moves it down to the pointer and clears the
      row it left. */
  lemma CompactMove(g: seq<Tile>, g0: seq<Tile>, x: int, y: int, write: int, kept: seq<Tile>)
    requires IsGrid(g) && IsGrid(g0) && 0 <= x < Width && Compacting(g, g0, x, y, write, kept)
    requires y >= 0 && write != y && g[Idx(x, y)].color.Some?
    ensures var s := g[Idx(x, y)];
            Compacting(g[Idx(x, write) := s][Idx(x, y) := Empty], g0, x, y - 1, write - 1, [s] + kept)
  {
    var s := g[Idx(x, y)];
    OccupiedUnfold(Column(g0, x), y);
    var moved := g[Idx(x, write) := s][Idx(x, y) := Empty];
    forall r | write - 1 < r < Width ensures moved[Idx(x, r)] == ([s] + kept)[r - write] {
      if r > write {
        IdxInjective(x, r, x, y);
        IdxInjective(x, r, x, write);
      }
    }
    forall r | 0 <= r <= y - 1 ensures moved[Idx(x, r)] == g0[Idx(x, r)] {
      IdxInjective(x, r, x, y);
      IdxInjective(x, r, x, write);
    }
    forall i | 0 <= i < Cells && i % Width != x ensures moved[i] == g0[i] {
      assert i != Idx(x, write) && i != Idx(x, y);
    }
  }

  /** Plain tiles freshly drawn in the given colours. */
  function FreshTiles(cs: seq<Color>): seq<Tile> {
    seq(|cs|, k requires 0 <= k < |cs| => Tile(Some(cs[k]), Plain))
  }

  /** A column after gravity: the occupied tiles sink to the bottom in their order and the rows
      left above them take fresh tiles; drawn[y] is the colour drawn for row y. */
  function FallColumn(col: seq<Tile>, drawn: seq<Color>): (r: seq<Tile>)
    requires |col| == Width && |drawn| == Width
    ensures |r| == Width && Full(r)
  {
    FreshTiles(drawn[..Width - |Occupied(col)|]) + Occupied(col)
  }

  /** The whole board after gravity; refill[Idx(x, y)] is the colour drawn if row y of column x is refilled. */
  function Fall(g: seq<Tile>, refill: seq<Color>): (r: seq<Tile>)
    requires IsGrid(g) && IsGrid(refill)
    ensures IsGrid(r)
  {
    seq(Cells, i requires 0 <= i < Cells =>
      FallColumn(Column(g, i % Width), Column(refill, i % Width))[i / Width])
  }

  /** Column x of the settled board depends on column x of the board and of the refill only. */
  lemma FallAt(g: seq<Tile>, refill: seq<Color>, x: int, y: int)
    requires IsGrid(g) && IsGrid(refill) && InBounds(x, y)
    ensures Fall(g, refill)[Idx(x, y)] == FallColumn(Column(g, x), Column(refill, x))[y]
  {
  }

  /** Gravity is column-local: two boards (and refills) that agree on column x settle to the same column x. */
  lemma FallColumnLocal(g: seq<Tile>, h: seq<Tile>, r1: seq<Color>, r2: seq<Color>, x: int)
    requires IsGrid(g) && IsGrid(h) && IsGrid(r1) && IsGrid(r2) && 0 <= x < Width
    requires Column(g, x) == Column(h, x) && Column(r1, x) == Column(r2, x)
    ensures Column(Fall(g, r1), x) == Column(Fall(h, r2), x)
  {
    forall y | 0 <= y < Width ensures Column(Fall(g, r1), x)[y] == Column(Fall(h, r2), x)[y] {
      FallAt(g, r1, x, y);
      FallAt(h, r2, x, y);
    }
  }

  /** No tile is left cleared after gravity and refill. */
  lemma FallFull(g: seq<Tile>, refill: seq<Color>)
    requires IsGrid(g) && IsGrid(refill)
    ensures Full(Fall(g, refill))
  {
    forall i | 0 <= i < Cells ensures Fall(g, refill)[i].color.Some? {
      IdxOnto(i);
      FallAt(g, refill, i % Width, i / Width);
    }
  }

  /** In column x the surviving tiles (colour and special) end up in the bottom rows in their
      top-to-bottom order; the rows above, one per hole, hold plain tiles of the refill colours. */
  lemma FallKeepsOrder(g: seq<Tile>, refill: seq<Color>, x: int)
    requires IsGrid(g) && IsGrid(refill) && 0 <= x < Width
    ensures var col := Column(g, x);
            var after := Column(Fall(g, refill), x);
            var h := Holes(col);
            h + |Occupied(col)| == Width &&
            after[h..] == Occupied(col) &&
            forall y :: 0 <= y < h ==> after[y] == Tile(Some(refill[Idx(x, y)]), Plain)
  {
    var col := Column(g, x);
    OccupiedCount(col);
    var fell := FallColumn(col, Column(refill, x));
    forall y | 0 <= y < Width ensures Column(Fall(g, refill), x)[y] == fell[y] {
      FallAt(g, refill, x, y);
    }
    assert Column(Fall(g, refill), x) == fell;
  }

  /** A fully populated column does not move, and draws nothing from the refill. */
  lemma FallColumnStable(col: seq<Tile>, drawn: seq<Color>)
    requires |col| == Width && |drawn| == Width && Full(col)
    ensures FallColumn(col, drawn) == col
  {
    OccupiedOfFull(col);
  }

  /** Gravity leaves a fully populated board as it is. */
  lemma FallStable(g: seq<Tile>, refill: seq<Color>)
    requires IsGrid(g) && IsGrid(refill) && Full(g)
    ensures Fall(g, refill) == g
  {
    forall i | 0 <= i < Cells ensures Fall(g, refill)[i] == g[i] {
      IdxOnto(i);
      var x, y := i % Width, i / Width;
      FallAt(g, refill, x, y);
      assert Full(Column(g, x));
      FallColumnStable(Column(g, x), Column(refill, x));
    }
  }

  /** Settling a settled board changes nothing, whatever colours the second refill would draw. */
  lemma FallIdempotent(g: seq<Tile>, r1: seq<Color>, r2: seq<Color>)
    requires IsGrid(g) && IsGrid(r1) && IsGrid(r2)
    ensures Fall(Fall(g, r1), r2) == Fall(g, r1)
  {
    FallFull(g, r1);
    FallStable(Fall(g, r1), r2);
  }
}
