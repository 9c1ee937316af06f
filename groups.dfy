/** Connected groups of same-coloured tiles: the 4-directional reachability that the flood fill computes. */
module Groups {
  import opened Board

  /** Tile c is on the board and has colour t. */
  predicate Matches(g: seq<Tile>, t: Option<Color>, c: Coord)
    requires IsGrid(g)
  {
    InBounds(c.0, c.1) && g[Idx(c.0, c.1)].color == t
  }

  /** The four neighbours in the order the flood fill pushes them: right, left, down, up. */
  function Neighbours(c: Coord): (ns: seq<Coord>)
    ensures |ns| == 4
  {
    [(c.0 + 1, c.1), (c.0 - 1, c.1), (c.0, c.1 + 1), (c.0, c.1 - 1)]
  }

  predicate Adjacent(a: Coord, b: Coord) {
    b in Neighbours(a)
  }

  /** A path of colour t: a non-empty walk of adjacent steps through matching tiles. */
  ghost predicate IsPath(g: seq<Tile>, t: Option<Color>, p: seq<Coord>)
    requires IsGrid(g)
  {
    |p| > 0 &&
    (forall i :: 0 <= i < |p| ==> Matches(g, t, p[i])) &&
    (forall i :: 0 < i < |p| ==> Adjacent(p[i - 1], p[i]))
  }

  /** b can be reached from a through tiles of colour t (both included). */
  ghost predicate Reach(g: seq<Tile>, t: Option<Color>, a: Coord, b: Coord)
    requires IsGrid(g)
  {
    exists p :: IsPath(g, t, p) && p[0] == a && p[|p| - 1] == b
  }

  /** The connected component of colour t around start. */
  ghost function Component(g: seq<Tile>, t: Option<Color>, start: Coord): set<Coord>
    requires IsGrid(g)
  {
    set x, y | 0 <= x < Width && 0 <= y < Width && Reach(g, t, start, (x, y)) :: (x, y)
  }

  lemma ReachSelf(g: seq<Tile>, t: Option<Color>, a: Coord)
    requires IsGrid(g) && Matches(g, t, a)
    ensures Reach(g, t, a, a)
  {
    assert IsPath(g, t, [a]);
  }

  /** Reachability extends by one step onto a matching neighbour. */
  lemma ReachStep(g: seq<Tile>, t: Option<Color>, a: Coord, v: Coord, e: Coord)
    requires IsGrid(g) && Reach(g, t, a, v) && Adjacent(v, e) && Matches(g, t, e)
    ensures Reach(g, t, a, e)
  {
    var p :| IsPath(g, t, p) && p[0] == a && p[|p| - 1] == v;
    var q := p + [e];
    assert IsPath(g, t, q) by {
      forall i | 0 < i < |q| ensures Adjacent(q[i - 1], q[i]) {
        if i < |p| {
          assert q[i - 1] == p[i - 1] && q[i] == p[i];
        }
      }
    }
    assert q[0] == a && q[|q| - 1] == e;
  }

  /** Both ends of a reachability fact match the colour. */
  lemma ReachMatches(g: seq<Tile>, t: Option<Color>, a: Coord, b: Coord)
    requires IsGrid(g) && Reach(g, t, a, b)
    ensures Matches(g, t, a) && Matches(g, t, b)
  {
    var p :| IsPath(g, t, p) && p[0] == a && p[|p| - 1] == b;
    assert Matches(g, t, p[0]) && Matches(g, t, p[|p| - 1]);
  }

  /** Every set that holds a and is closed under matching neighbours holds all that a reaches. */
  lemma ReachInClosed(g: seq<Tile>, t: Option<Color>, a: Coord, b: Coord, s: set<Coord>)
    requires IsGrid(g) && Reach(g, t, a, b) && a in s
    requires forall v, n :: v in s && Adjacent(v, n) && Matches(g, t, n) ==> n in s
    ensures b in s
  {
    var p :| IsPath(g, t, p) && p[0] == a && p[|p| - 1] == b;
    var k := 0;
    while k < |p| - 1
      invariant 0 <= k < |p|
      invariant p[k] in s
    {
      assert Adjacent(p[k], p[k + 1]) && Matches(g, t, p[k + 1]);
      k := k + 1;
    }
  }

  /** A cell on the stack of the flood fill: the start, or a neighbour of a reached cell. */
  ghost predicate Frontier(g: seq<Tile>, t: Option<Color>, start: Coord, c: Coord)
    requires IsGrid(g)
  {
    c == start || exists v :: Reach(g, t, start, v) && Adjacent(v, c)
  }

  /** A frontier cell that matches the colour is reached. */
  lemma FrontierReached(g: seq<Tile>, t: Option<Color>, start: Coord, c: Coord)
    requires IsGrid(g) && Frontier(g, t, start, c) && Matches(g, t, c)
    ensures Reach(g, t, start, c)
  {
    if c == start {
      ReachSelf(g, t, c);
    } else {
      var v :| Reach(g, t, start, v) && Adjacent(v, c);
      ReachStep(g, t, start, v, c);
    }
  }

  /** A sequence that lists a component without repetition has the component's size. */
  lemma EnumerationSize(g: seq<Tile>, t: Option<Color>, start: Coord, group: seq<Coord>)
    requires IsGrid(g) && Distinct(group)
    requires forall c :: c in group <==> Reach(g, t, start, c)
    ensures |group| == |Component(g, t, start)|
  {
    DistinctCard(group);
    forall c | c in Component(g, t, start) ensures c in group {
    }
    forall c | c in group ensures c in Component(g, t, start) {
      ReachMatches(g, t, start, c);
      assert (c.0, c.1) == c;
    }
    assert (set e | e in group) == Component(g, t, start);
  }

  /** What the flood fill keeps true of its visited set and stack: every visited tile matches and is
      reached, every stacked tile is on the frontier, the start is visited, stacked or not matching,
      and every matching neighbour of a visited tile is visited or stacked. */
  ghost predicate FillInvariant(g: seq<Tile>, t: Option<Color>, start: Coord, visited: set<Coord>, stack: seq<Coord>)
    requires IsGrid(g)
  {
    (forall c :: c in visited ==> Matches(g, t, c) && Reach(g, t, start, c)) &&
    (forall c :: c in stack ==> Frontier(g, t, start, c)) &&
    (start in visited || start in stack || !Matches(g, t, start)) &&
    (forall v, n :: v in visited && Adjacent(v, n) && Matches(g, t, n) ==> n in visited || n in stack)
  }

  lemma FillStart(g: seq<Tile>, t: Option<Color>, start: Coord)
    requires IsGrid(g)
    ensures FillInvariant(g, t, start, {}, [start])
  {
  }

  /** Popping a tile that is already visited or does not match keeps the invariant. */
  lemma FillSkip(g: seq<Tile>, t: Option<Color>, start: Coord, visited: set<Coord>, stack: seq<Coord>, c: Coord)
    requires IsGrid(g) && FillInvariant(g, t, start, visited, stack + [c])
    requires c in visited || !Matches(g, t, c)
    ensures FillInvariant(g, t, start, visited, stack)
  {
    forall e | e in stack ensures Frontier(g, t, start, e) {
      assert e in stack + [c];
    }
    forall v, n | v in visited && Adjacent(v, n) && Matches(g, t, n) ensures n in visited || n in stack {
      assert n in visited || n in stack + [c];
    }
    assert start in visited || start in stack + [c] || !Matches(g, t, start);
  }

  /** Visiting a matching, unvisited tile and stacking its neighbours keeps the invariant. */
  lemma FillVisit(g: seq<Tile>, t: Option<Color>, start: Coord, visited: set<Coord>, stack: seq<Coord>, c: Coord)
    requires IsGrid(g) && FillInvariant(g, t, start, visited, stack + [c])
    requires Matches(g, t, c)
    ensures Reach(g, t, start, c)
    ensures FillInvariant(g, t, start, visited + {c}, stack + Neighbours(c))
  {
    assert c in stack + [c];
    FrontierReached(g, t, start, c);
    var stack' := stack + Neighbours(c);
    forall e | e in stack' ensures Frontier(g, t, start, e) {
      if e in stack {
        assert e in stack + [c];
      } else {
        assert Adjacent(c, e);
      }
    }
    forall v, n | v in visited + {c} && Adjacent(v, n) && Matches(g, t, n)
      ensures n in visited + {c} || n in stack'
    {
      if v == c {
        assert n in Neighbours(c);
      } else {
        assert n in visited || n in stack + [c];
      }
    }
  }

  /** Every on-board tile. */
  ghost function AllTiles(): set<Coord> {
    set x, y | 0 <= x < Width && 0 <= y < Width :: (x, y)
  }

  /** The whole state of the flood fill: FillInvariant, plus the group listing the visited tiles
      once each, with the start first. */
  ghost predicate Filling(g: seq<Tile>, t: Option<Color>, start: Coord, visited: set<Coord>,
                          group: seq<Coord>, stack: seq<Coord>)
    requires IsGrid(g)
  {
    FillInvariant(g, t, start, visited, stack) &&
    (forall c :: c in visited <==> c in group) && Distinct(group) && visited <= AllTiles() &&
    (group == [] ==> stack == [start] || stack == []) &&
    (group != [] ==> group[0] == start)
  }

  lemma FillingStart(g: seq<Tile>, t: Option<Color>, start: Coord)
    requires IsGrid(g)
    ensures Filling(g, t, start, {}, [], [start])
  {
    FillStart(g, t, start);
  }

  /** Popping a tile that is visited, off the board or of another colour changes nothing else. */
  lemma FillingSkip(g: seq<Tile>, t: Option<Color>, start: Coord, visited: set<Coord>, group: seq<Coord>,
                    stack: seq<Coord>, c: Coord)
    requires IsGrid(g) && Filling(g, t, start, visited, group, stack + [c])
    requires c in visited || !Matches(g, t, c)
    ensures Filling(g, t, start, visited, group, stack)
  {
    FillSkip(g, t, start, visited, stack, c);
    if group == [] {
      assert stack + [c] == [start] || stack + [c] == [];
      assert |stack| == 0;
    }
  }

  /** Popping an unvisited tile of the colour adds it to the group and stacks its four neighbours;
      the visited set grows within the board. */
  lemma FillingVisit(g: seq<Tile>, t: Option<Color>, start: Coord, visited: set<Coord>, group: seq<Coord>,
                     stack: seq<Coord>, c: Coord)
    requires IsGrid(g) && Filling(g, t, start, visited, group, stack + [c])
    requires c !in visited && Matches(g, t, c)
    ensures Filling(g, t, start, visited + {c}, group + [c], stack + Neighbours(c))
    ensures visited < visited + {c} <= AllTiles()
  {
    FillVisit(g, t, start, visited, stack, c);
    if group == [] {
      assert stack + [c] == [start];
    }
    assert (c.0, c.1) == c;
  }

  /** With the stack empty, the visited tiles are exactly those reachable from the start. */
  lemma FillDone(g: seq<Tile>, t: Option<Color>, start: Coord, visited: set<Coord>)
    requires IsGrid(g) && FillInvariant(g, t, start, visited, [])
    ensures forall c :: c in visited <==> Reach(g, t, start, c)
  {
    forall c | Reach(g, t, start, c) ensures c in visited {
      ReachMatches(g, t, start, c);
      ReachInClosed(g, t, start, c, visited);
    }
  }
}
