/** The Zoo Pop board: a flat, row-major grid of Width × Width tiles. Row Width-1 is the bottom. */
module Board {

  datatype Option<+T> = None | Some(value: T)

  /** The six colours of the palette (each shown as an animal). */
  datatype Color = Red | Orange | Yellow | Green | Blue | Purple

  /** The special a tile carries; `Plain` is the absence of one. */
  datatype Special = Plain | Rocket | Bomb

  /** A tile: its colour (`None` only while the tile is cleared) and its special. */
  datatype Tile = Tile(color: Option<Color>, special: Special)

  /** What a cleared tile holds between a clear and the refill. */
  const Empty: Tile := Tile(None, Plain)

  const Width: int := 10
  const Cells: int := Width * Width

  type Coord = (int, int)

  predicate InBounds(x: int, y: int) {
    0 <= x < Width && 0 <= y < Width
  }

  /** Position of tile (x, y) in the flat grid. */
  function Idx(x: int, y: int): (i: int)
    ensures InBounds(x, y) ==> 0 <= i < Cells
    ensures InBounds(x, y) ==> i % Width == x && i / Width == y
  {
    y * Width + x
  }

  /** Every slot of the flat grid is the position of exactly one in-bounds tile. */
  lemma IdxOnto(i: int)
    requires 0 <= i < Cells
    ensures InBounds(i % Width, i / Width) && Idx(i % Width, i / Width) == i
  {
  }

  lemma IdxInjective(x: int, y: int, x': int, y': int)
    requires InBounds(x, y) && InBounds(x', y')
    ensures Idx(x, y) == Idx(x', y') <==> x == x' && y == y'
  {
    if Idx(x, y) == Idx(x', y') {
      assert x == Idx(x, y) % Width && x' == Idx(x', y') % Width;
    }
  }

  predicate IsGrid<T>(g: seq<T>) {
    |g| == Cells
  }

  /** The board is fully populated: no tile is cleared. */
  predicate Full(g: seq<Tile>) {
    forall i :: 0 <= i < |g| ==> g[i].color.Some?
  }

  /** Column x of a grid, top (y = 0) to bottom (y = Width-1). */
  function Column<T>(g: seq<T>, x: int): (col: seq<T>)
    requires IsGrid(g) && 0 <= x < Width
    ensures |col| == Width
    ensures forall y :: 0 <= y < Width ==> col[y] == g[Idx(x, y)]
  {
    seq(Width, y requires 0 <= y < Width => g[Idx(x, y)])
  }

  predicate Distinct<T(==)>(s: seq<T>) {
    forall i, j :: 0 <= i < j < |s| ==> s[i] != s[j]
  }

  predicate AllInBounds(cs: seq<Coord>) {
    forall k :: 0 <= k < |cs| ==> InBounds(cs[k].0, cs[k].1)
  }

  /** A sequence without repetitions has as many elements as its set. */
  lemma {:induction false} DistinctCard<T>(s: seq<T>)
    requires Distinct(s)
    ensures |set e | e in s| == |s|
  {
    if s != [] {
      DistinctCard(s[1..]);
      assert (set e | e in s) == {s[0]} + (set e | e in s[1..]);
      assert s[0] !in (set e | e in s[1..]);
    }
  }
}
