/** Shuffle: the colours of the occupied tiles are permuted by Fisher–Yates and dealt back. */
module Shuffling {
  import opened Board

  /** The colours of the occupied tiles of g, in grid order: the pool the shuffle builds. */
  function Pool(g: seq<Tile>): (p: seq<Color>)
    ensures |p| <= |g|
  {
    if g == [] then []
    else Pool(g[..|g| - 1]) + if g[|g| - 1].color.Some? then [g[|g| - 1].color.value] else []
  }

  /** On a fully populated board the pool is every tile's colour, in grid order. */
  lemma {:induction false} PoolOfFull(g: seq<Tile>)
    requires Full(g)
    ensures |Pool(g)| == |g| && forall i :: 0 <= i < |g| ==> Pool(g)[i] == g[i].color.value
  {
    if g != [] {
      PoolOfFull(g[..|g| - 1]);
    }
  }

  /** The pool is empty only when no tile holds a colour. */
  lemma {:induction false} PoolNonEmpty(g: seq<Tile>, i: int)
    requires 0 <= i < |g| && g[i].color.Some?
    ensures |Pool(g)| > 0
  {
    if i < |g| - 1 {
      PoolNonEmpty(g[..|g| - 1], i);
    }
  }

  /** The draws the shuffle may make: at step i the index j lies in [0, i]. */
  predicate DrawsFit(js: seq<int>, n: int) {
    |js| >= n && forall i :: 0 < i < n ==> 0 <= js[i] <= i
  }

  function Swap(s: seq<Color>, i: int, j: int): seq<Color>
    requires 0 <= i < |s| && 0 <= j < |s|
  {
    s[i := s[j]][j := s[i]]
  }

  /** Fisher–Yates from step i down to step 1: step k swaps positions k and js[k]. */
  function FisherYates(s: seq<Color>, js: seq<int>, i: int): (r: seq<Color>)
    requires i < |s| && DrawsFit(js, i + 1)
    ensures |r| == |s|
    decreases i
  {
    if i <= 0 then s else FisherYates(Swap(s, i, js[i]), js, i - 1)
  }

  /** Fisher–Yates permutes: it keeps every colour's number of occurrences. */
  lemma {:induction false} FisherYatesPermutes(s: seq<Color>, js: seq<int>, i: int)
    requires i < |s| && DrawsFit(js, i + 1)
    ensures multiset(FisherYates(s, js, i)) == multiset(s)
    decreases i
  {
    if i > 0 {
      var t := Swap(s, i, js[i]);
      assert multiset(t) == multiset(s) by {
        var j := js[i];
        assert multiset(s[i := s[j]]) == multiset(s) - multiset{s[i]} + multiset{s[j]};
      }
      FisherYatesPermutes(t, js, i - 1);
    }
  }

  /** The board with each occupied tile i given colour p[i mod |p|] and no special. */
  function Deal(g: seq<Tile>, p: seq<Color>): seq<Tile> {
    seq(|g|, i requires 0 <= i < |g| =>
      if g[i].color.Some? && |p| > 0 then Tile(Some(p[i % |p|]), Plain) else g[i])
  }

  /** The board after a shuffle with draws js. */
  function Shuffled(g: seq<Tile>, js: seq<int>): seq<Tile>
    requires DrawsFit(js, |Pool(g)|)
  {
    Deal(g, FisherYates(Pool(g), js, |Pool(g)| - 1))
  }

  /** A cleared tile stays cleared, a coloured one stays coloured, and no special survives a shuffle. */
  lemma ShuffleKeepsShape(g: seq<Tile>, js: seq<int>)
    requires DrawsFit(js, |Pool(g)|)
    ensures |Shuffled(g, js)| == |g|
    ensures forall i :: 0 <= i < |g| ==> Shuffled(g, js)[i].color.Some? == g[i].color.Some?
    ensures forall i :: 0 <= i < |g| && g[i].color.Some? ==> Shuffled(g, js)[i].special == Plain
  {
    forall i | 0 <= i < |g| && g[i].color.Some? ensures |Pool(g)| > 0 {
      PoolNonEmpty(g, i);
    }
  }

  lemma ModSmall(i: int, n: int)
    requires 0 <= i < n
    ensures i % n == i
  {
  }

  /** Dealing a pool as long as a full board gives tile i the pool's colour i. */
  lemma DealFull(g: seq<Tile>, p: seq<Color>)
    requires Full(g) && |p| == |g|
    ensures Full(Deal(g, p)) && Pool(Deal(g, p)) == p
    ensures forall i :: 0 <= i < |g| ==> Deal(g, p)[i].special == Plain
  {
    var h := Deal(g, p);
    forall i | 0 <= i < |g| ensures h[i] == Tile(Some(p[i]), Plain) {
      ModSmall(i, |p|);
    }
    PoolOfFull(h);
  }

  /** On a fully populated board a shuffle is a permutation: it keeps the board full and every
      colour's number of tiles, and clears every special. */
  lemma ShufflePermutes(g: seq<Tile>, js: seq<int>)
    requires Full(g) && DrawsFit(js, |Pool(g)|)
    ensures Full(Shuffled(g, js))
    ensures multiset(Pool(Shuffled(g, js))) == multiset(Pool(g))
    ensures forall i :: 0 <= i < |g| ==> Shuffled(g, js)[i].special == Plain
  {
    PoolOfFull(g);
    FisherYatesPermutes(Pool(g), js, |Pool(g)| - 1);
    DealFull(g, FisherYates(Pool(g), js, |Pool(g)| - 1));
  }
}
