/**
 * The rules of one game session as functions on a session value: what a
 * touch, a frame tick and the play button do to the tower, the game state,
 * the score and the health. The GameScene class in module Scene performs
 * the same steps in place and is proved against these functions.
 *
 * Health is kept in whole hundredths: 100 is a full bar (1.0), a cut adds
 * 10 (0.1) and a frame takes 1 (0.01).
 */
module Rules {
  import opened Pieces

  datatype GameState = Title | Ready | Playing | GameOver

  datatype Session = Session(
    tower: seq<Side>,
    state: GameState,
    score: int,
    health: int,
    character: Side)

  const FullHealth: int := 100
  const CutBonus: int := 10
  const FrameDecay: int := 1

  /** Pieces generated at setup on top of the two stacked by hand. */
  const SeedPieces: nat := 10
  /** Pieces in the tower after setup, and after every cut. */
  const TowerDepth: nat := 12

  /**
   * What holds of every session reachable from setup: the tower has its
   * full depth and no two neighbouring sided pieces, the score is not
   * negative, and health is below zero only after the frame that ended the
   * game, and then by at most one decay step.
   */
  ghost predicate Inv(s: Session)
  {
    |s.tower| == TowerDepth &&
    NoAdjacentSided(s.tower) &&
    s.character != None &&
    s.score >= 0 &&
    s.health >= -FrameDecay &&
    (s.state != GameOver ==> s.health >= 0)
  }

  /**
   * The session after the scene is set up: empty, then Right stacked by
   * hand, then ten generated pieces; title screen, no score, full health.
   */
  function Initial(rolls: seq<Roll>): (s: Session)
    requires |rolls| == SeedPieces
    ensures Inv(s)
    ensures |s.tower| == TowerDepth && s.tower[0] == None && s.tower[1] == Right && s.tower[2] == None
    ensures forall k | 2 <= k < TowerDepth :: s.tower[k] == NextSide(s.tower[k - 1], rolls[k - 2])
    ensures s.state == Title && s.score == 0 && s.health == FullHealth
  {
    Session(Extend([None, Right], rolls), Title, 0, FullHealth, Left)
  }

  /** The side a touch at `x` puts the character on; the midpoint counts as Left. */
  function TouchSide(x: real, width: real): (s: Side)
    ensures s != None
    ensures s == Right <==> x > width / 2.0
  {
    if x > width / 2.0 then Right else Left
  }

  /**
   * The session after game over: the state is GameOver and nothing else
   * changes.
   */
  function EndGame(s: Session): (r: Session)
    ensures r.state == GameOver
    ensures r.tower == s.tower && r.score == s.score && r.health == s.health && r.character == s.character
  {
    s.(state := GameOver)
  }

  /**
   * One touch while playing, with the character moved to `side`: it collides
   * exactly when the bottom piece is on that side, ending the game and
   * leaving tower, score and health as they were; otherwise it scores, adds
   * health without a cap, drops the bottom piece and stacks one generated
   * piece on top.
   */
  function Chop(s: Session, side: Side, roll: Roll): (r: Session)
    requires |s.tower| >= 2 && s.state == Playing && side != None
    ensures r.character == side && |r.tower| == |s.tower|
    ensures r.state == GameOver <==> side == s.tower[0]
    ensures side == s.tower[0] ==> r.tower == s.tower && r.score == s.score && r.health == s.health
    ensures side != s.tower[0] ==>
      r.state == Playing &&
      r.score == s.score + 1 &&
      r.health == s.health + CutBonus &&
      r.tower[..|s.tower| - 1] == s.tower[1..] &&
      r.tower[|s.tower| - 1] == NextSide(s.tower[|s.tower| - 1], roll)
    ensures Inv(s) ==> Inv(r)
  {
    var moved := s.(character := side);
    if side == s.tower[0] then
      EndGame(moved)
    else
      DropBottomKeepsNoAdjacent(s.tower);
      moved.(score := s.score + 1,
             health := s.health + CutBonus,
             tower := Extend(s.tower[1..], [roll]))
  }

  /**
   * The touches of one event, handled in order while playing; handling
   * stops at the first collision. Touch k uses roll k when it stacks a piece.
   */
  function Touches(s: Session, xs: seq<real>, width: real, rolls: seq<Roll>): (r: Session)
    requires |s.tower| >= 2 && s.state == Playing && |rolls| == |xs|
    ensures |r.tower| == |s.tower|
    ensures r.state == Playing || r.state == GameOver
    ensures s.score <= r.score <= s.score + |xs|
    ensures r.state == Playing ==> r.score == s.score + |xs|
    ensures r.state == GameOver ==> r.character == r.tower[0]
    ensures Inv(s) ==> Inv(r)
    decreases |xs|
  {
    if xs == [] then s
    else
      var side := TouchSide(xs[0], width);
      var next := Chop(s, side, rolls[0]);
      if next.state == GameOver then next
      else Touches(next, xs[1..], width, rolls[1..])
  }

  /**
   * The first touch of an event is handled before the rest: if it collides,
   * the event ends there in game over with the character on the colliding
   * side; otherwise the remaining touches are handled from the cut session.
   */
  lemma TouchesInOrder(s: Session, x: real, xs: seq<real>, width: real, roll: Roll, rolls: seq<Roll>)
    requires |s.tower| >= 2 && s.state == Playing && |rolls| == |xs|
    ensures var side := TouchSide(x, width);
      Touches(s, [x] + xs, width, [roll] + rolls) ==
        if side == s.tower[0] then EndGame(s.(character := side))
        else Touches(Chop(s, side, roll), xs, width, rolls)
  {
  }

  /**
   * Handling the touches `xs + ys` is handling `xs` and then, unless that
   * ended the game, handling `ys` from where `xs` left off: a collision
   * ends the event and the touches after it are ignored.
   */
  lemma {:induction false} TouchesSplit(s: Session, xs: seq<real>, ys: seq<real>, width: real, rs: seq<Roll>, qs: seq<Roll>)
    requires |s.tower| >= 2 && s.state == Playing && |rs| == |xs| && |qs| == |ys|
    ensures var mid := Touches(s, xs, width, rs);
      Touches(s, xs + ys, width, rs + qs) ==
        if mid.state == GameOver then mid else Touches(mid, ys, width, qs)
    decreases |xs|
  {
    if xs == [] {
      assert xs + ys == ys && rs + qs == qs;
    } else {
      assert (xs + ys)[0] == xs[0] && (xs + ys)[1..] == xs[1..] + ys;
      assert (rs + qs)[0] == rs[0] && (rs + qs)[1..] == rs[1..] + qs;
      var next := Chop(s, TouchSide(xs[0], width), rs[0]);
      if next.state != GameOver {
        TouchesSplit(next, xs[1..], ys, width, rs[1..], qs);
      }
    }
  }

  /**
   * A touch event: ignored on the title screen and after game over; on the
   * ready screen it first starts play; then its touches are handled.
   */
  function Touched(s: Session, xs: seq<real>, width: real, rolls: seq<Roll>): (r: Session)
    requires |s.tower| >= 2 && |rolls| == |xs|
    ensures s.state == Title || s.state == GameOver ==> r == s
    ensures s.state == Ready || s.state == Playing ==> r.state == Playing || r.state == GameOver
    ensures s.state == Ready && xs == [] ==> r == s.(state := Playing)
    ensures s.state == Ready || s.state == Playing ==> r == Touches(s.(state := Playing), xs, width, rolls)
    ensures s.state == Ready || s.state == Playing ==>
      |r.tower| == |s.tower| &&
      r.score <= s.score + |xs| &&
      (r.state == Playing ==> r.score == s.score + |xs|) &&
      (r.state == GameOver ==> r.character == r.tower[0])
    ensures s.score <= r.score
    ensures Inv(s) ==> Inv(r)
  {
    if s.state == GameOver || s.state == Title then s
    else Touches(s.(state := Playing), xs, width, rolls)
  }

  /**
   * One frame: outside play nothing happens; while playing health decays
   * by one step, is capped at full, and the game ends exactly when health
   * has dropped below zero.
   */
  function Tick(s: Session): (r: Session)
    ensures s.state != Playing ==> r == s
    ensures s.state == Playing ==>
      r.tower == s.tower && r.score == s.score && r.character == s.character &&
      r.health <= FullHealth &&
      (s.health - FrameDecay < FullHealth ==> r.health == s.health - FrameDecay) &&
      (s.health - FrameDecay >= FullHealth ==> r.health == FullHealth) &&
      (r.state == GameOver <==> r.health < 0) &&
      (r.state != GameOver ==> r.state == Playing)
    ensures Inv(s) ==> Inv(r)
  {
    if s.state != Playing then s
    else
      var decayed := s.health - FrameDecay;
      var capped := if decayed >= FullHealth then FullHealth else decayed;
      var r := s.(health := capped);
      if capped < 0 then EndGame(r) else r
  }

  /**
   * The play button. Until the game is over it shows the ready screen;
   * after game over it restarts with a freshly set-up scene.
   */
  function Press(s: Session, rolls: seq<Roll>): (r: Session)
    requires |rolls| == SeedPieces
    ensures s.state == GameOver ==> r == Initial(rolls) && r.state == Title && r.score == 0 && r.health == FullHealth
    ensures s.state != GameOver ==> r.state == Ready && r.tower == s.tower && r.score == s.score && r.health == s.health && r.character == s.character
    ensures Inv(s) ==> Inv(r)
  {
    if s.state == GameOver then Initial(rolls) else s.(state := Ready)
  }

  /** After game over, touch events and frames leave the session as it is. */
  lemma EndedGameIgnoresInput(s: Session, xs: seq<real>, width: real, rolls: seq<Roll>)
    requires |s.tower| >= 2 && |rolls| == |xs|
    ensures Touched(EndGame(s), xs, width, rolls) == EndGame(s)
    ensures Tick(EndGame(s)) == EndGame(s)
  {
  }

  /** The two handlers the game loop calls during a round. */
  datatype Event =
    | Touch(xs: seq<real>, width: real, rolls: seq<Roll>)
    | Frame

  predicate WellFormed(e: Event)
  {
    e.Touch? ==> |e.rolls| == |e.xs|
  }

  /** The session after the game loop calls the handler for `e`. */
  function Handle(s: Session, e: Event): (r: Session)
    requires |s.tower| >= 2 && WellFormed(e)
    ensures s.score <= r.score
    ensures Inv(s) ==> Inv(r)
  {
    match e
    case Touch(xs, width, rolls) => Touched(s, xs, width, rolls)
    case Frame => Tick(s)
  }

  /** The session after handling `events` in order, without pressing play. */
  function Run(s: Session, events: seq<Event>): (r: Session)
    requires Inv(s)
    requires forall k | 0 <= k < |events| :: WellFormed(events[k])
    ensures Inv(r)
    ensures s.score <= r.score
    ensures s.state == GameOver ==> r == s
    ensures r.state == Title <==> s.state == Title
    decreases |events|
  {
    if events == [] then s
    else
      assert WellFormed(events[0]);
      Run(Handle(s, events[0]), events[1..])
  }

  /**
   * Within a round the score never drops, and once the game is over no
   * touch or frame changes anything.
   */
  lemma {:induction false} GameOverIsFinal(s: Session, events: seq<Event>, more: seq<Event>)
    requires Inv(s)
    requires forall k | 0 <= k < |events| :: WellFormed(events[k])
    requires forall k | 0 <= k < |more| :: WellFormed(more[k])
    requires Run(s, events).state == GameOver
    ensures Run(s, events + more) == Run(s, events)
    decreases |events|
  {
    if events == [] {
      assert events + more == more;
    } else {
      assert WellFormed(events[0]);
      var next := Handle(s, events[0]);
      assert (events + more)[0] == events[0];
      assert (events + more)[1..] == events[1..] + more;
      GameOverIsFinal(next, events[1..], more);
    }
  }
}
