/**
 * The sushi tower and the rule that generates its pieces.
 *
 * A tower is listed bottom to top: index 0 is the piece resting on the base
 * (the next one the player must cut), the last index is the top, where new
 * pieces are stacked.
 */
module Pieces {

  /** The open side of a piece, or the side the character stands on. */
  datatype Side = Left | Right | None

  /** A random draw in [0, 1] scaled to whole percent: roll = floor(rand * 100). */
  type Roll = nat

  const LeftBelow: Roll := 45   // rand < 0.45 gives Left
  const RightBelow: Roll := 90  // 0.45 <= rand < 0.9 gives Right, the rest None

  /** No two neighbouring pieces both carry chopsticks (a side). */
  ghost predicate NoAdjacentSided(t: seq<Side>)
  {
    forall i | 0 <= i < |t| - 1 :: t[i] == None || t[i + 1] == None
  }

  /**
   * The side of the piece stacked on a tower whose top piece has side `top`,
   * given the random draw `roll`. A sided top forces an empty piece; an empty
   * top gives Left, Right or None with odds 45 : 45 : 10.
   */
  function NextSide(top: Side, roll: Roll): (s: Side)
    ensures top != None ==> s == None
  {
    if top != None then None
    else if roll < LeftBelow then Left
    else if roll < RightBelow then Right
    else None
  }

  /**
   * The tower after stacking one generated piece per roll on `t`, each piece
   * chosen from the piece directly below it.
   */
  function Extend(t: seq<Side>, rolls: seq<Roll>): (r: seq<Side>)
    requires |t| > 0
    ensures |r| == |t| + |rolls|
    ensures r[..|t|] == t
    ensures forall k | |t| <= k < |r| :: r[k] == NextSide(r[k - 1], rolls[k - |t|])
    ensures NoAdjacentSided(t) ==> NoAdjacentSided(r)
    decreases |rolls|
  {
    if rolls == [] then t
    else
      var u := Extend(t, rolls[..|rolls| - 1]);
      u + [NextSide(u[|u| - 1], rolls[|rolls| - 1])]
  }

  /** Removing the bottom piece keeps the no-adjacent-sided property. */
  lemma DropBottomKeepsNoAdjacent(t: seq<Side>)
    requires |t| > 0
    ensures NoAdjacentSided(t) ==> NoAdjacentSided(t[1..])
  {
  }

  /** How many of the rolls 0 .. n-1 make NextSide(top, roll) equal `side`. */
  function CountRolls(top: Side, side: Side, n: nat): (c: nat)
    ensures c <= n
  {
    if n == 0 then 0
    else CountRolls(top, side, n - 1) + (if NextSide(top, n - 1) == side then 1 else 0)
  }

  function Min(a: int, b: int): (m: int)
    ensures m <= a && m <= b && (m == a || m == b)
  {
    if a <= b then a else b
  }

  /** Among the first n rolls on an empty top: the Left, Right and None shares. */
  lemma {:induction false} EmptyTopShares(n: nat)
    ensures CountRolls(None, Left, n) == Min(n, LeftBelow)
    ensures CountRolls(None, Right, n) == Min(n, RightBelow) - Min(n, LeftBelow)
    ensures CountRolls(None, None, n) == n - Min(n, RightBelow)
  {
    if n > 0 {
      EmptyTopShares(n - 1);
    }
  }

  /** On a sided top every roll gives None. */
  lemma {:induction false} SidedTopShares(top: Side, n: nat)
    requires top != None
    ensures CountRolls(top, None, n) == n
  {
    if n > 0 {
      SidedTopShares(top, n - 1);
    }
  }

  /**
   * Over the hundred whole-percent rolls: an empty top gives Left 45 times,
   * Right 45 times and None 10 times; a sided top gives None every time.
   */
  lemma GenerationOdds(top: Side)
    ensures top == None ==>
      CountRolls(top, Left, 100) == 45 && CountRolls(top, Right, 100) == 45 && CountRolls(top, None, 100) == 10
    ensures top != None ==> CountRolls(top, None, 100) == 100
  {
    if top == None {
      EmptyTopShares(100);
    } else {
      SidedTopShares(top, 100);
    }
  }
}
