/** Runs of several ticks and keys, from states the engine invariant allows:
    the death animation, the end of a game and a new one, a scoring run, and
    how lives are spent. */
module FroggerRuns {
  import opened Bounds
  import opened Entities
  import opened FroggerSpec
  import opened FroggerProps
  import opened FroggerEffects

  /** A dead frog with lives left stays dead, in place and with the obstacles
      standing still, for three ticks; the fourth starts a new frog. */
  lemma DeathAnimation(g: Game)
    requires Inv(g) && g.init && !g.living && g.frogs >= 1 && g.ddelay == 0
    ensures var t1 := Tick(g);
      Inv(t1) && t1 == g.(ddelay := 1) &&
      var t2 := Tick(t1);
      Inv(t2) && t2 == g.(ddelay := 2) &&
      var t3 := Tick(t2);
      Inv(t3) && t3 == g.(ddelay := 3) &&
      var t4 := Tick(t3);
      t4.living && t4.player == DefaultPlayer && t4.currenty == DefaultCurrentY && t4.ddelay == 0 &&
      t4.frogs == g.frogs && t4.obstacles == g.obstacles && t4.score == g.score
  {
    var t1 := Tick(g);
    TickDeathAnimation(g);
    TickKeepsInv(g);
    var t2 := Tick(t1);
    TickDeathAnimation(t1);
    TickKeepsInv(t1);
    var t3 := Tick(t2);
    TickDeathAnimation(t2);
    TickKeepsInv(t2);
    TickDeathAnimation(t3);
  }

  /** Once the game is over, one tick records the best score and every later
      tick and every key changes nothing until `s` is pressed. */
  lemma GameOverIsFinal(g: Game, code: KeyCode, c: char)
    requires Inv(g) && !g.started
    ensures Tick(g) == g.(ddelay := 0, hiscore := if g.score > g.hiscore then g.score else g.hiscore)
    ensures Inv(Tick(g)) && Tick(Tick(g)) == Tick(g)
    ensures Key(g, RawKey(code)) == g
    ensures c != 's' ==> Key(g, Unicode(c)) == g
  {
    TickGameOver(g);
    TickKeepsInv(g);
    TickGameOver(Tick(g));
  }

  /** After a game over, `s` and one tick give a new game: laid out, with a
      living frog at the start, seven lives, every pad free and no score, and
      the best score kept. */
  lemma RestartRun(g: Game)
    requires Inv(g) && !g.started
    ensures var s := Key(g, Unicode('s'));
      Inv(s) &&
      var t := Tick(s);
      t.started && t.init && t.living && t.frogs == DefaultFrogs && t.score == 0 &&
      t.openl == PadCount && t.player == DefaultPlayer && t.hiscore == g.hiscore &&
      (forall j :: 0 <= j < |t.lilypads| ==> !t.lilypads[j].taken)
  {
    var s := Key(g, Unicode('s'));
    KeyKeepsInv(g, Unicode('s'));
    TickInitializes(s);
  }

  /** From row 7 with a best row of 7 and one free pad above row 5: two up
      arrows score 10 for the progress, 50 for the landing and 1000 for the
      full row; the row is freed, the lives restocked and one spent on the
      landing, and the next frog starts. */
  lemma ScoringRun(g: Game)
    requires Inv(g) && g.living && g.player.py == 7 && g.currenty == 7 && g.openl == 1
    requires FirstLanding(g.lilypads, g.player.px).Some?
    ensures var a := Key(g, RawKey(ArrowUp));
      KeySafe(a) &&
      var b := Key(a, RawKey(ArrowUp));
      b.score == g.score + ProgressBonus + LandingBonus + RestockBonus &&
      b.frogs == DefaultFrogs - 1 && b.living && b.openl == PadCount && b.player == DefaultPlayer &&
      (forall j :: 0 <= j < |b.lilypads| ==> !b.lilypads[j].taken)
  {
    var a := Key(g, RawKey(ArrowUp));
    StepUpEffects(g);
    assert a.player.py == 5 && a.lilypads == g.lilypads && a.openl == 1;
    LandingStepUp(a);
    var a3 := a.(player := a.player.(py := GoalRow));
    LandingEffects(a3, FirstLanding(a3.lilypads, a3.player.px).value);
  }

  /** A landing with the last life ends the game, even with free pads left;
      the landing's 50 points count towards the best score. */
  lemma LastLifeLanding(g: Game)
    requires Inv(g) && g.living && g.frogs == 1 && g.openl >= 2 && g.player.py == 5
    requires FirstLanding(g.lilypads, g.player.px).Some?
    ensures var r := Key(g, RawKey(ArrowUp));
      !r.started && !r.init && !r.living && r.frogs == 0 && r.score == g.score + LandingBonus &&
      r.hiscore == if g.score + LandingBonus > g.hiscore then g.score + LandingBonus else g.hiscore
  {
    LandingStepUp(g);
    var g3 := g.(player := g.player.(py := GoalRow));
    LandingEffects(g3, FirstLanding(g3.lilypads, g3.player.px).value);
  }

  /** A collision during a laid-out game costs exactly one life and kills the
      frog; when that was the last life, the next tick ends the game, keeping
      the best score. */
  lemma CollisionRun(g: Game)
    requires Inv(g) && g.init && g.living
    requires exists i :: 0 <= i < |Tick(g).obstacles| && Collides(Tick(g).obstacles[i], g.player.px, g.player.py)
    ensures var t1 := Tick(g);
      Inv(t1) && !t1.living && t1.started && t1.frogs + 1 == g.frogs &&
      (g.frogs == 1 ==>
         var t2 := Tick(t1);
         !t2.started && !t2.init && !t2.living &&
         t2.hiscore == if g.score > g.hiscore then g.score else g.hiscore)
  {
    PrepareKeepsInv(g);
    TickKeepsInv(g);
    SweepEffects(g);
    LaidOutSweepCostsAtMostOne(g);
    var t1 := Tick(g);
    if g.frogs == 1 {
      TickGameOver(t1);
    }
  }

  /** During a laid-out game a tick costs at most one life and never gives one back. */
  lemma TickLives(g: Game)
    requires Inv(g) && g.init
    ensures g.frogs - 1 <= Tick(g).frogs <= g.frogs
  {
    PrepareKeepsInv(g);
    if g.living {
      LanesSweepSafe(g);
      SweepEffects(g);
      LaidOutSweepCostsAtMostOne(g);
    }
  }

  /** A key leaves the lives alone, or spends one on a landing, or, on the
      landing that fills the row, restocks them and spends one. */
  lemma KeyLives(g: Game, k: DecodedKey)
    requires Inv(g)
    ensures var r := Key(g, k);
      r.frogs == g.frogs || r.frogs + 1 == g.frogs || r.frogs == DefaultFrogs - 1
  {
    if k.RawKey? && k.code == ArrowUp && g.living {
      var g1 := g.(player := g.player.(py := Sub2(BufferHeight, g.player.py)));
      if g1.player.py == GoalRow && FirstLanding(g1.lilypads, g1.player.px).Some? {
        LandingEffects(g1, FirstLanding(g1.lilypads, g1.player.px).value);
      }
      ClimbLeavesGoalRow(g);
    }
  }
}
