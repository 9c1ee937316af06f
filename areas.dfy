/** The tiles a special affects, clearing tiles, and counting what a clear collects. */
module Areas {
  import opened Board

  /** Row y, left to right: what a horizontal rocket affects. */
  function RowCells(y: int): seq<Coord> {
    seq(Width, cx requires 0 <= cx < Width => (cx, y))
  }

  /** Column x, top to bottom: what a vertical rocket affects. */
  function ColumnCells(x: int): seq<Coord> {
    seq(Width, cy requires 0 <= cy < Width => (x, cy))
  }

  /** A horizontal rocket affects exactly the Width tiles of its row, each once. */
  lemma RowCellsShape(y: int)
    requires 0 <= y < Width
    ensures |RowCells(y)| == Width && Distinct(RowCells(y)) && AllInBounds(RowCells(y))
    ensures forall c :: c in RowCells(y) <==> InBounds(c.0, c.1) && c.1 == y
  {
    forall c: Coord | InBounds(c.0, c.1) && c.1 == y ensures c in RowCells(y) {
      assert RowCells(y)[c.0] == c;
    }
  }

  /** A vertical rocket affects exactly the Width tiles of its column, each once. */
  lemma ColumnCellsShape(x: int)
    requires 0 <= x < Width
    ensures |ColumnCells(x)| == Width && Distinct(ColumnCells(x)) && AllInBounds(ColumnCells(x))
    ensures forall c :: c in ColumnCells(x) <==> InBounds(c.0, c.1) && c.0 == x
  {
    forall c: Coord | InBounds(c.0, c.1) && c.0 == x ensures c in ColumnCells(x) {
      assert ColumnCells(x)[c.1] == c;
    }
  }

  /** The in-bounds tiles (nx, ny) with lo <= nx < hi, left to right. */
  function RowSpan(ny: int, lo: int, hi: int): seq<Coord>
    decreases hi - lo
  {
    if hi <= lo then [] else RowSpan(ny, lo, hi - 1) + (if InBounds(hi - 1, ny) then [(hi - 1, ny)] else [])
  }

  /** The in-bounds tiles of rows lo .. hi-1 within columns x-1 .. x+1, row by row. */
  function Block(x: int, lo: int, hi: int): seq<Coord>
    decreases hi - lo
  {
    if hi <= lo then [] else Block(x, lo, hi - 1) + RowSpan(hi - 1, x - 1, x + 2)
  }

  /** What a bomb at (x, y) affects: the 3×3 block around it, clipped to the board. */
  function BombArea(x: int, y: int): seq<Coord> {
    Block(x, y - 1, y + 2)
  }

  /** How many of the columns lo .. hi-1 lie on the board. */
  function OnBoard(lo: int, hi: int): nat {
    var a := if lo < 0 then 0 else lo;
    var b := if hi > Width then Width else hi;
    if b > a then b - a else 0
  }

  /** How many of v-1, v, v+1 lie on the board. */
  function Span(v: int): int {
    (if 0 <= v - 1 < Width then 1 else 0) + (if 0 <= v < Width then 1 else 0) + (if 0 <= v + 1 < Width then 1 else 0)
  }

  lemma {:induction false} RowSpanShape(ny: int, lo: int, hi: int)
    ensures Distinct(RowSpan(ny, lo, hi)) && AllInBounds(RowSpan(ny, lo, hi))
    ensures forall c :: c in RowSpan(ny, lo, hi) <==> InBounds(c.0, c.1) && c.1 == ny && lo <= c.0 < hi
    decreases hi - lo
  {
    if hi > lo {
      RowSpanShape(ny, lo, hi - 1);
    }
  }

  lemma {:induction false} RowSpanLength(ny: int, lo: int, hi: int)
    ensures |RowSpan(ny, lo, hi)| == if 0 <= ny < Width then OnBoard(lo, hi) else 0
    decreases hi - lo
  {
    if hi > lo {
      RowSpanLength(ny, lo, hi - 1);
    }
  }

  lemma {:induction false} BlockShape(x: int, lo: int, hi: int)
    ensures Distinct(Block(x, lo, hi)) && AllInBounds(Block(x, lo, hi))
    ensures forall c :: c in Block(x, lo, hi) <==>
              InBounds(c.0, c.1) && x - 1 <= c.0 <= x + 1 && lo <= c.1 < hi
    decreases hi - lo
  {
    if hi > lo {
      BlockShape(x, lo, hi - 1);
      RowSpanShape(hi - 1, x - 1, x + 2);
      var a, b := Block(x, lo, hi - 1), RowSpan(hi - 1, x - 1, x + 2);
      forall i, j | 0 <= i < j < |a + b| ensures (a + b)[i] != (a + b)[j] {
        if j >= |a| && i < |a| {
          assert (a + b)[i] in a && (a + b)[j] in b;
        }
      }
    }
  }

  /** The bomb's area, row by row: the rows above, at and below the bomb. */
  lemma BombAreaRows(x: int, y: int)
    ensures BombArea(x, y) ==
              RowSpan(y - 1, x - 1, x + 2) + RowSpan(y, x - 1, x + 2) + RowSpan(y + 1, x - 1, x + 2)
  {
    assert Block(x, y - 1, y - 1) == [];
    assert Block(x, y - 1, y) == RowSpan(y - 1, x - 1, x + 2);
    assert Block(x, y - 1, y + 1) == RowSpan(y - 1, x - 1, x + 2) + RowSpan(y, x - 1, x + 2);
  }

  /** A bomb at (x, y) affects each in-bounds tile of the 3×3 block around it exactly once, and no
      other tile. */
  lemma BombAreaShape(x: int, y: int)
    requires InBounds(x, y)
    ensures Distinct(BombArea(x, y)) && AllInBounds(BombArea(x, y))
    ensures forall c :: c in BombArea(x, y) <==>
              InBounds(c.0, c.1) && -1 <= c.0 - x <= 1 && -1 <= c.1 - y <= 1
  {
    BlockShape(x, y - 1, y + 2);
  }

  /** A bomb affects Span(x) · Span(y) tiles: 4 at a corner, 6 on an edge, 9 in the interior. */
  lemma BombAreaSize(x: int, y: int)
    requires InBounds(x, y)
    ensures |BombArea(x, y)| == Span(x) * Span(y)
    ensures (x == 0 || x == Width - 1) && (y == 0 || y == Width - 1) ==> |BombArea(x, y)| == 4
    ensures (x == 0 || x == Width - 1) != (y == 0 || y == Width - 1) ==> |BombArea(x, y)| == 6
    ensures 0 < x < Width - 1 && 0 < y < Width - 1 ==> |BombArea(x, y)| == 9
    ensures 4 <= |BombArea(x, y)| <= 9
  {
    BombAreaRows(x, y);
    RowSpanLength(y - 1, x - 1, x + 2);
    RowSpanLength(y, x - 1, x + 2);
    RowSpanLength(y + 1, x - 1, x + 2);
    var w := OnBoard(x - 1, x + 2);
    assert w == Span(x) && 2 <= w <= 3;
    if y == 0 {
      assert |BombArea(x, y)| == w + w;
    } else if y == Width - 1 {
      assert |BombArea(x, y)| == w + w;
    } else {
      assert |BombArea(x, y)| == w + w + w;
    }
  }

  /** The grid with every tile listed in cs cleared, in order. */
  function Clear(g: seq<Tile>, cs: seq<Coord>): (r: seq<Tile>)
    requires IsGrid(g) && AllInBounds(cs)
    ensures IsGrid(r)
  {
    if cs == [] then g
    else
      var last := cs[|cs| - 1];
      Clear(g, cs[..|cs| - 1])[Idx(last.0, last.1) := Empty]
  }

  /** A clear empties exactly the listed tiles and leaves every other tile as it was. */
  lemma {:induction false} ClearAt(g: seq<Tile>, cs: seq<Coord>, x: int, y: int)
    requires IsGrid(g) && AllInBounds(cs) && InBounds(x, y)
    ensures Clear(g, cs)[Idx(x, y)] == if (x, y) in cs then Empty else g[Idx(x, y)]
  {
    if cs != [] {
      var last := cs[|cs| - 1];
      ClearAt(g, cs[..|cs| - 1], x, y);
      IdxInjective(x, y, last.0, last.1);
      assert cs == cs[..|cs| - 1] + [last];
    }
  }

  /** How many of the listed tiles hold a colour. */
  function Colored(g: seq<Tile>, cs: seq<Coord>): nat
    requires IsGrid(g) && AllInBounds(cs)
  {
    if cs == [] then 0
    else
      var last := cs[|cs| - 1];
      Colored(g, cs[..|cs| - 1]) + if g[Idx(last.0, last.1)].color.Some? then 1 else 0
  }

  /** How many of the listed tiles hold colour c. */
  function CountColor(g: seq<Tile>, cs: seq<Coord>, c: Color): nat
    requires IsGrid(g) && AllInBounds(cs)
  {
    if cs == [] then 0
    else
      var last := cs[|cs| - 1];
      CountColor(g, cs[..|cs| - 1], c) + if g[Idx(last.0, last.1)].color == Some(c) then 1 else 0
  }

  /** The per-colour counts of a blast add up to the number of coloured tiles it scores. */
  lemma {:induction false} CountsAddUp(g: seq<Tile>, cs: seq<Coord>)
    requires IsGrid(g) && AllInBounds(cs)
    ensures CountColor(g, cs, Red) + CountColor(g, cs, Orange) + CountColor(g, cs, Yellow) +
            CountColor(g, cs, Green) + CountColor(g, cs, Blue) + CountColor(g, cs, Purple)
            == Colored(g, cs) <= |cs|
  {
    if cs != [] {
      CountsAddUp(g, cs[..|cs| - 1]);
      var last := cs[|cs| - 1];
      match g[Idx(last.0, last.1)].color
      case None =>
      case Some(c) =>
        match c
        case Red => case Orange => case Yellow => case Green => case Blue => case Purple =>
    }
  }

  /** On a fully populated board every listed tile is coloured. */
  lemma {:induction false} ColoredOfFull(g: seq<Tile>, cs: seq<Coord>)
    requires IsGrid(g) && AllInBounds(cs) && Full(g)
    ensures Colored(g, cs) == |cs|
  {
    if cs != [] {
      ColoredOfFull(g, cs[..|cs| - 1]);
    }
  }
}
