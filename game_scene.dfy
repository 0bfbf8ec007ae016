/**
 * The game scene: the tower, the game state, the score, the health and the
 * character's side as fields that the scene's handlers update in place.
 * Each handler is proved to leave the scene in the session that the
 * matching function of module Rules computes, and to keep Rules.Inv.
 */
module Scene {
  import opened Pieces
  import opened Rules

  class GameScene {
    var tower: seq<Side>
    var state: GameState
    var score: int
    var health: int  // hundredths of the health bar
    var character: Side

    /** The scene's state as a session value. */
    function Snap(): (s: Session)
      reads this
    {
      Session(tower, state, score, health, character)
    }

    ghost predicate Valid()
      reads this
    {
      Inv(Snap())
    }

    /**
     * A new scene: field defaults (title screen, score 0, full health), then
     * the tower seeded with None and Right and ten generated pieces.
     */
    constructor (rolls: seq<Roll>)
      requires |rolls| == SeedPieces
      ensures Valid()
      ensures Snap() == Initial(rolls)
    {
      tower := [];
      state := Title;
      score := 0;
      health := FullHealth;
      character := Left;
      new;
      AddTowerPiece(None);
      AddTowerPiece(Right);
      assert tower == [None, Right];
      AddRandomPieces(SeedPieces, rolls);
    }

    /** Stacks one piece with the given side on top of the tower. */
    method AddTowerPiece(side: Side)
      modifies this
      ensures tower == old(tower) + [side]
      ensures state == old(state) && score == old(score) && health == old(health) && character == old(character)
    {
      tower := tower + [side];
    }

    /** Stacks `total` generated pieces, one roll each, choosing each from the piece below it. */
    method AddRandomPieces(total: int, rolls: seq<Roll>)
      requires total >= 1 && |rolls| == total && |tower| > 0
      modifies this
      ensures tower == Extend(old(tower), rolls)
      ensures state == old(state) && score == old(score) && health == old(health) && character == old(character)
    {
      var i := 0;
      while i < total
        invariant 0 <= i <= total
        invariant tower == Extend(old(tower), rolls[..i])
        invariant state == old(state) && score == old(score) && health == old(health) && character == old(character)
      {
        var last := tower[|tower| - 1];
        if last != None {
          AddTowerPiece(None);
        } else {
          var rand := rolls[i];
          if rand < LeftBelow {
            AddTowerPiece(Left);
          } else if rand < RightBelow {
            AddTowerPiece(Right);
          } else {
            AddTowerPiece(None);
          }
        }
        assert rolls[..i + 1][..i] == rolls[..i];
        i := i + 1;
      }
      assert rolls[..total] == rolls;
    }

    /** Ends the round: only the state changes. */
    method GameOver()
      modifies this
      ensures Snap() == EndGame(old(Snap()))
    {
      state := GameState.GameOver;
    }

    /**
     * A touch event with the touches' x positions in order and the scene
     * width; roll k is drawn if touch k stacks a new piece.
     */
    method TouchesBegan(xs: seq<real>, width: real, rolls: seq<Roll>)
      requires Valid() && |rolls| == |xs|
      modifies this
      ensures Valid()
      ensures Snap() == Touched(old(Snap()), xs, width, rolls)
    {
      if state == GameState.GameOver || state == Title {
        return;
      }
      if state == Ready {
        state := Playing;
      }
      var i := 0;
      while i < |xs|
        invariant 0 <= i <= |xs|
        invariant Valid() && state == Playing
        invariant Touches(Snap(), xs[i..], width, rolls[i..]) == Touched(old(Snap()), xs, width, rolls)
      {
        var side: Side;
        if xs[i] > width / 2.0 {
          side := Right;
        } else {
          side := Left;
        }
        Cut(side, rolls[i]);
        if state == GameState.GameOver {
          return;
        }
        assert xs[i..][1..] == xs[i + 1..] && rolls[i..][1..] == rolls[i + 1..];
        i := i + 1;
      }
    }

    /**
     * One touch while playing, with the character moved to `side`: a
     * collision with the bottom piece ends the game; otherwise the score and
     * health rise, the bottom piece is removed and one generated piece is
     * stacked on top.
     */
    method Cut(side: Side, roll: Roll)
      requires Valid() && state == Playing && side != None
      modifies this
      ensures Valid()
      ensures Snap() == Chop(old(Snap()), side, roll)
    {
      character := side;
      var first := tower[0];
      if character == first {
        GameOver();
        return;
      }
      health := health + CutBonus;
      score := score + 1;
      tower := tower[1..];
      AddRandomPieces(1, [roll]);
    }

    /** The per-frame update. */
    method Update()
      requires Valid()
      modifies this
      ensures Valid()
      ensures Snap() == Tick(old(Snap()))
    {
      if state != Playing {
        return;
      }
      health := health - FrameDecay;
      if health >= FullHealth {
        health := FullHealth;
      }
      if health < 0 {
        GameOver();
      }
    }

    /**
     * The play button: shows the ready screen until game over swaps its
     * handler, after which it sets up a new scene.
     */
    method PressPlay(rolls: seq<Roll>)
      requires Valid() && |rolls| == SeedPieces
      modifies this
      ensures Valid()
      ensures Snap() == Press(old(Snap()), rolls)
    {
      if state == GameState.GameOver {
        tower := [];
        state := Title;
        score := 0;
        health := FullHealth;
        character := Left;
        AddTowerPiece(None);
        AddTowerPiece(Right);
        assert tower == [None, Right];
        AddRandomPieces(SeedPieces, rolls);
      } else {
        state := Ready;
      }
    }
  }
}
