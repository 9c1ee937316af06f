/** Goals, level targets, the special a pop earns, and the round state a move changes. */
module Goals {
  import opened Board

  /** A colour-collection goal: `have` tiles of `color` collected towards `need`. */
  datatype Goal = Goal(color: Color, need: int, have: int)

  /** Moves a level starts with. */
  const MoveBudget: int := 30

  /** The per-goal target of a level: 12 + ⌊1.5 · level⌋. */
  function GoalTarget(level: int): (need: int)
    ensures 2 * (need - 12) <= 3 * level < 2 * (need - 12) + 2
  {
    12 + (3 * level) / 2
  }

  /** A level is cleared when both goals have reached their targets. */
  predicate Won(a: Goal, b: Goal) {
    a.have >= a.need && b.have >= b.need
  }

  /** The goal with k more tiles collected. */
  function Gain(goal: Goal, k: int): Goal {
    goal.(have := goal.have + k)
  }

  /** What popping n tiles of the given colour does to a goal: they count only if the colours agree. */
  function Credit(goal: Goal, color: Option<Color>, n: int): (r: Goal)
    ensures r.color == goal.color && r.need == goal.need
    ensures r.have == goal.have + n <==> color == Some(goal.color) || n == 0
    ensures r.have == goal.have <==> color != Some(goal.color) || n == 0
  {
    if color == Some(goal.color) then Gain(goal, n) else goal
  }

  /** The special a popped group of n tiles earns. */
  function SpecialFor(n: int): (sp: Special)
    ensures sp == Bomb <==> n >= 7
    ensures sp == Rocket <==> 5 <= n < 7
    ensures sp == Plain <==> n < 5
  {
    if n >= 7 then Bomb else if n >= 5 then Rocket else Plain
  }

  /** Some draw differs from c1, so the redraw loop for goal B's colour ends. */
  predicate HasOther(c1: Color, draws: seq<Color>) {
    exists k :: 0 <= k < |draws| && draws[k] != c1
  }

  /** Goal B's colour: the first draw that differs from goal A's colour c1. */
  function SecondColor(c1: Color, draws: seq<Color>): (c2: Color)
    requires HasOther(c1, draws)
    ensures c2 != c1 && c2 in draws
  {
    if draws[0] != c1 then draws[0]
    else
      var k :| 0 <= k < |draws| && draws[k] != c1;
      assert draws[1..][k - 1] == draws[k];
      SecondColor(c1, draws[1..])
  }

  /** Every draw before the one SecondColor picks equals c1. */
  lemma {:induction false} SecondColorIsFirst(c1: Color, draws: seq<Color>)
    requires HasOther(c1, draws)
    ensures exists k :: 0 <= k < |draws| && draws[k] == SecondColor(c1, draws) &&
                        forall j :: 0 <= j < k ==> draws[j] == c1
  {
    if draws[0] != c1 {
      assert draws[0] == SecondColor(c1, draws);
    } else {
      var k :| 0 <= k < |draws| && draws[k] != c1;
      assert draws[1..][k - 1] == draws[k];
      SecondColorIsFirst(c1, draws[1..]);
      var k' :| 0 <= k' < |draws| - 1 && draws[1..][k'] == SecondColor(c1, draws[1..]) &&
                forall j :: 0 <= j < k' ==> draws[1..][j] == c1;
      assert draws[k' + 1] == SecondColor(c1, draws);
      forall j | 0 <= j < k' + 1 ensures draws[j] == c1 {
        if j > 0 { assert draws[j] == draws[1..][j - 1]; }
      }
    }
  }

  /** The round state that moves change: score, moves left, level and the two goals. */
  datatype Round = Round(score: int, moves: int, level: int, goalA: Goal, goalB: Goal)

  /** The round after popping n tiles of the given colour. */
  function AfterPop(r: Round, color: Option<Color>, n: int): Round {
    r.(score := r.score + n * n, moves := r.moves - 1,
       goalA := Credit(r.goalA, color, n), goalB := Credit(r.goalB, color, n))
  }

  /** Popping a group of n >= 1 tiles scores n², spends a move and never takes a goal back. */
  lemma AfterPopDeltas(r: Round, color: Option<Color>, n: int)
    requires n >= 1
    ensures AfterPop(r, color, n).score - r.score == n * n >= n
    ensures AfterPop(r, color, n).moves == r.moves - 1 && AfterPop(r, color, n).level == r.level
    ensures r.goalA.have <= AfterPop(r, color, n).goalA.have && r.goalB.have <= AfterPop(r, color, n).goalB.have
  {
    assert n * n >= n * 1;
  }
}
