/** A dice-game player (Quiz1/src/Player.java): a fixed name, a score that
    grows by the sum of both dice unless either die shows 1, and an in-game
    flag that starts true and is never changed. The score is a Java `int`,
    so its 32-bit wrap-around is modelled. */
module DiceGame {

  const MinInt: int := -0x8000_0000
  const MaxInt: int := 0x7fff_ffff

  /** A value a Java `int` can hold. */
  predicate IsInt32(x: int)
  {
    MinInt <= x <= MaxInt
  }

  /** Java `int` arithmetic: the one `int` that agrees with `x` in its low-order
      32 bits, that is, congruent to `x` modulo 2^32. */
  function Wrap(x: int): (r: int)
    ensures IsInt32(r)
    ensures IsInt32(x) ==> r == x
    ensures (r - x) % 0x1_0000_0000 == 0
  {
    (x - MinInt) % 0x1_0000_0000 + MinInt
  }

  /** The score after one throw: unchanged when either die shows 1, otherwise
      increased by `d1 + d2`, both additions in `int` arithmetic. */
  function Throw(score: int, d1: int, d2: int): int
  {
    if d1 == 1 || d2 == 1 then score else Wrap(score + Wrap(d1 + d2))
  }

  /** A throw changes the score by exactly the dice sum when neither die
      shows 1 and nothing overflows, and not at all when a die shows 1. */
  lemma ThrowEffect(score: int, d1: int, d2: int)
    requires IsInt32(score) && IsInt32(d1 + d2) && IsInt32(score + d1 + d2)
    ensures d1 == 1 || d2 == 1 ==> Throw(score, d1, d2) == score
    ensures d1 != 1 && d2 != 1 ==> Throw(score, d1, d2) == score + d1 + d2
  {
  }

  /** Near the top of the `int` range a scoring throw wraps the score around
      to a negative number. */
  lemma ThrowCanWrap()
    ensures Throw(MaxInt - 1, 2, 2) == MinInt + 2
  {
  }

  /** The score after a sequence of throws `(d1, d2)`, in order. */
  function ScoreAfter(score: int, throws: seq<(int, int)>): int
  {
    if |throws| == 0 then score
    else
      var (d1, d2) := throws[|throws| - 1];
      Throw(ScoreAfter(score, throws[..|throws| - 1]), d1, d2)
  }

  /** The sum of all dice of the throws. */
  function Pips(throws: seq<(int, int)>): int
  {
    if |throws| == 0 then 0 else Pips(throws[..|throws| - 1]) + throws[|throws| - 1].0 + throws[|throws| - 1].1
  }

  /** The sum of the dice of the throws in which no die shows 1. */
  function ScoredPips(throws: seq<(int, int)>): int
  {
    if |throws| == 0 then 0
    else
      var (d1, d2) := throws[|throws| - 1];
      ScoredPips(throws[..|throws| - 1]) + (if d1 == 1 || d2 == 1 then 0 else d1 + d2)
  }

  /** Positive dice. */
  predicate PositiveDice(throws: seq<(int, int)>)
  {
    forall i :: 0 <= i < |throws| ==> throws[i].0 >= 1 && throws[i].1 >= 1
  }

  /** With positive dice and no overflow, the score after a sequence of
      throws is the starting score plus the dice of the scoring throws. */
  lemma {:induction false} ScoreIsStartPlusScoredPips(score: int, throws: seq<(int, int)>)
    requires PositiveDice(throws)
    requires 0 <= score && score + Pips(throws) <= MaxInt
    ensures 0 <= ScoredPips(throws) <= Pips(throws)
    ensures ScoreAfter(score, throws) == score + ScoredPips(throws)
  {
    if |throws| > 0 {
      var init := throws[..|throws| - 1];
      assert PositiveDice(init) by {
        forall i | 0 <= i < |init| ensures init[i].0 >= 1 && init[i].1 >= 1 {
          assert init[i] == throws[i];
        }
      }
      var (d1, d2) := throws[|throws| - 1];
      assert d1 >= 1 && d2 >= 1;
      ScoreIsStartPlusScoredPips(score, init);
      ThrowEffect(ScoreAfter(score, init), d1, d2);
    }
  }

  /** Scored dice only accumulate: a longer run of positive throws has scored
      at least as much as any of its prefixes. */
  lemma {:induction false} ScoredPipsMonotone(throws: seq<(int, int)>, i: nat)
    requires PositiveDice(throws) && i <= |throws|
    ensures ScoredPips(throws[..i]) <= ScoredPips(throws)
    decreases |throws|
  {
    if i < |throws| {
      var init := throws[..|throws| - 1];
      assert PositiveDice(init) by {
        forall k | 0 <= k < |init| ensures init[k].0 >= 1 && init[k].1 >= 1 {
          assert init[k] == throws[k];
        }
      }
      assert init[..i] == throws[..i];
      ScoredPipsMonotone(init, i);
    } else {
      assert throws[..i] == throws;
    }
  }

  /** The sum of all dice of a prefix is at most the sum over all throws. */
  lemma {:induction false} PipsMonotone(throws: seq<(int, int)>, i: nat)
    requires PositiveDice(throws) && i <= |throws|
    ensures Pips(throws[..i]) <= Pips(throws)
    decreases |throws|
  {
    if i < |throws| {
      var init := throws[..|throws| - 1];
      assert PositiveDice(init) by {
        forall k | 0 <= k < |init| ensures init[k].0 >= 1 && init[k].1 >= 1 {
          assert init[k] == throws[k];
        }
      }
      assert init[..i] == throws[..i];
      PipsMonotone(init, i);
    } else {
      assert throws[..i] == throws;
    }
  }

  /** With positive dice the score never decreases over a game, as long as
      the total of all dice thrown stays within the `int` range. */
  lemma ScoreNeverDecreases(score: int, throws: seq<(int, int)>, i: nat, j: nat)
    requires PositiveDice(throws)
    requires 0 <= score && score + Pips(throws) <= MaxInt
    requires i <= j <= |throws|
    ensures ScoreAfter(score, throws[..i]) <= ScoreAfter(score, throws[..j])
  {
    var tj := throws[..j];
    assert PositiveDice(tj) by {
      forall k | 0 <= k < |tj| ensures tj[k].0 >= 1 && tj[k].1 >= 1 {
        assert tj[k] == throws[k];
      }
    }
    PipsMonotone(throws, j);
    assert tj[..i] == throws[..i];
    PipsMonotone(tj, i);
    ScoreIsStartPlusScoredPips(score, tj);
    ScoreIsStartPlusScoredPips(score, throws[..i]);
    ScoredPipsMonotone(tj, i);
  }

  /** A player of the dice game. */
  class Player {
    const name: string
    var score: int
    var inGame: bool

    /** The score fits a Java `int`, and the player is in the game: no
        operation ever clears the flag. */
    ghost predicate Valid()
      reads this
    {
      IsInt32(score) && inGame
    }

    /** A new player: the given name, score 0, in the game. */
    constructor (name: string)
      ensures Valid()
      ensures this.name == name && score == 0 && inGame
    {
      this.name := name;
      score := 0;
      inGame := true;
    }

    /** Adds both dice to the score unless either shows 1; nothing else of
        the player changes. */
    method ThrowDice(d1: int, d2: int)
      requires Valid() && IsInt32(d1) && IsInt32(d2)
      modifies this`score
      ensures Valid()
      ensures score == Throw(old(score), d1, d2)
      ensures inGame == old(inGame)
      ensures inGame
    {
      if !(d1 == 1 || d2 == 1) {
        score := Wrap(score + Wrap(d1 + d2));
      }
    }

    /** The name given at construction. */
    function GetName(): (n: string)
      ensures n == name
    {
      name
    }

    /** Whether the player is in the game, which is always the case. */
    function InGame(): (g: bool)
      reads this
      requires Valid()
      ensures g == inGame
      ensures g
    {
      inGame
    }

    /** The score, always a Java `int`. */
    function GetScore(): (s: int)
      reads this
      requires Valid()
      ensures IsInt32(s)
    {
      score
    }
  }
}
