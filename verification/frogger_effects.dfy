/** What each engine transition of `FroggerSpec` does, stated by its effect on
    the game rather than by the steps it takes. */
module FroggerEffects {
  import opened Bounds
  import opened Entities
  import opened FroggerSpec

  // ---------------------------------------------------------------------------
  // Moving the obstacles

  /** A sweep loses a life exactly when some obstacle collides with the frog. */
  lemma {:induction false} CountHitsPositive(obs: seq<Obstacle>, p: Player)
    ensures CountHits(obs, p) > 0 <==> exists i :: 0 <= i < |obs| && Collides(obs[i], p.px, p.py)
  {
    if |obs| > 0 {
      var front := obs[..|obs| - 1];
      CountHitsPositive(front, p);
      if CountHits(front, p) > 0 {
        var i :| 0 <= i < |front| && Collides(front[i], p.px, p.py);
        assert obs[i] == front[i];
      }
      if exists i :: 0 <= i < |obs| && Collides(obs[i], p.px, p.py) {
        var i :| 0 <= i < |obs| && Collides(obs[i], p.px, p.py);
        if i < |front| {
          assert front[i] == obs[i];
        }
      }
    }
  }

  /** `move_obstacles` moves every obstacle `speed` columns left on its ring and
      changes nothing else about it; the frog dies, and loses lives, exactly
      when a moved obstacle collides with it; nothing else in the game changes. */
  lemma SweepEffects(g: Game)
    requires SweepSafe(g)
    ensures var r := MoveObstacles(g);
      |r.obstacles| == |g.obstacles| &&
      (forall i :: 0 <= i < |g.obstacles| ==>
         r.obstacles[i].ox < LaneWidth && r.obstacles[i].oy == g.obstacles[i].oy &&
         r.obstacles[i].speed == g.obstacles[i].speed && r.obstacles[i].color == g.obstacles[i].color &&
         (g.obstacles[i].ox < LaneWidth ==> (r.obstacles[i].ox + g.obstacles[i].speed) % LaneWidth == g.obstacles[i].ox))
    ensures var r := MoveObstacles(g);
      var hit := exists i :: 0 <= i < |r.obstacles| && Collides(r.obstacles[i], g.player.px, g.player.py);
      (r.living <==> g.living && !hit) && (r.frogs < g.frogs <==> hit) &&
      r.frogs + CountHits(r.obstacles, g.player) == g.frogs
    ensures var r := MoveObstacles(g);
      r.player == g.player && r.lilypads == g.lilypads && r.score == g.score && r.hiscore == g.hiscore &&
      r.init == g.init && r.started == g.started && r.ddelay == g.ddelay && r.currenty == g.currenty &&
      r.openl == g.openl
  {
    var moved := Advanced(g.obstacles);
    forall i | 0 <= i < |g.obstacles|
      ensures moved[i] == Advance(g.obstacles[i])
    {
      SweepSafeAt(g, i);
    }
    CountHitsPositive(moved, g.player);
  }

  /** Once the lanes are laid out, a sweep costs at most one life. */
  lemma LaidOutSweepCostsAtMostOne(g: Game)
    requires SweepSafe(g) && Lanes(g.obstacles)
    ensures MoveObstacles(g).frogs + 1 >= g.frogs
  {
    AdvancedKeepsLanes(g.obstacles);
    AtMostOneHit(Advanced(g.obstacles), g.player);
  }

  /** No laid-out lane reaches the start row: a sweep never hits a frog there. */
  lemma StartRowIsSafe(g: Game)
    requires SweepSafe(g) && Lanes(g.obstacles) && g.player.py == DefaultPlayer.py
    ensures MoveObstacles(g).living == g.living && MoveObstacles(g).frogs == g.frogs
  {
    AdvancedKeepsLanes(g.obstacles);
    var moved := Advanced(g.obstacles);
    forall i | 0 <= i < |moved|
      ensures !Collides(moved[i], g.player.px, g.player.py)
    {
      assert moved[i].oy == LaneRows[i] && LaneRows[i] <= 20;
    }
    CountHitsNone(moved, g.player);
  }

  // ---------------------------------------------------------------------------
  // Landing on a lily pad

  /** `check_lilypads` changes the game exactly when the frog is on the goal
      row over a free pad. */
  lemma CheckLilyPadsChanges(g: Game)
    requires LandingSafe(g)
    ensures CheckLilyPads(g) != g <==> g.player.py == GoalRow && FirstLanding(g.lilypads, g.player.px).Some?
  {
    if g.player.py == GoalRow && FirstLanding(g.lilypads, g.player.px).Some? {
      assert CheckLilyPads(g).player == DefaultPlayer;
    }
  }

  /** Freeing every pad does not see which pads were taken. */
  lemma UntakenOfTaken(pads: seq<LilyPad>, i: nat)
    requires i < |pads|
    ensures Untaken(pads[i := pads[i].(taken := true)]) == Untaken(pads)
  {
    var q := pads[i := pads[i].(taken := true)];
    assert forall j :: 0 <= j < |pads| ==> Untaken(q)[j] == Untaken(pads)[j];
  }

  /** A landing on pad `i`, the first free pad under the frog: it scores 50
      and takes the pad; the last free pad scores 1000 more and frees the row
      with the lives restored; either way a life is used and the next frog
      starts, and with no life left the game is over with the best score kept. */
  lemma LandingEffects(g: Game, i: nat)
    requires LandingSafe(g) && g.player.py == GoalRow && FirstLanding(g.lilypads, g.player.px) == Some(i)
    ensures var r := CheckLilyPads(g);
      r.player == DefaultPlayer && r.currenty == DefaultCurrentY && r.obstacles == g.obstacles &&
      r.ddelay == g.ddelay
    ensures var r := CheckLilyPads(g);
      g.openl >= 2 ==>
        r.lilypads == g.lilypads[i := g.lilypads[i].(taken := true)] && r.openl == g.openl - 1 &&
        r.score == g.score + LandingBonus && r.frogs + 1 == g.frogs
    ensures var r := CheckLilyPads(g);
      g.openl == 1 ==>
        r.lilypads == Untaken(g.lilypads) && r.openl == PadCount &&
        r.score == g.score + LandingBonus + RestockBonus && r.frogs == DefaultFrogs - 1
    ensures var r := CheckLilyPads(g);
      (r.living <==> r.frogs > 0) &&
      (r.frogs > 0 ==> r.started == g.started && r.init == g.init && r.hiscore == g.hiscore) &&
      (r.frogs == 0 ==> !r.started && !r.init && r.hiscore == if r.score > g.hiscore then r.score else g.hiscore)
  {
    if g.openl == 1 {
      UntakenOfTaken(g.lilypads, i);
    }
  }

  // ---------------------------------------------------------------------------
  // Keys

  /** A step left and a step right undo each other, on every column. */
  lemma SideStepsCancel(px: nat)
    requires px < BufferWidth
    ensures SafeAdd(BufferWidth, SafeAdd(BufferWidth, px, BufferWidth - 5), 5) == px
    ensures SafeAdd(BufferWidth, SafeAdd(BufferWidth, px, 5), BufferWidth - 5) == px
  {
  }

  /** The left and right arrows move a living frog five columns, wrapping at
      the screen edge, and change nothing else; they undo each other. */
  lemma SideStepEffects(g: Game)
    requires KeySafe(g) && g.living && g.player.px < BufferWidth
    ensures HandleRaw(g, ArrowLeft) ==
      g.(player := g.player.(px := if g.player.px >= 5 then g.player.px - 5 else g.player.px + BufferWidth - 5))
    ensures HandleRaw(g, ArrowRight) ==
      g.(player := g.player.(px := if g.player.px + 5 < BufferWidth then g.player.px + 5 else g.player.px + 5 - BufferWidth))
    ensures HandleRaw(HandleRaw(g, ArrowLeft), ArrowRight) == g
    ensures HandleRaw(HandleRaw(g, ArrowRight), ArrowLeft) == g
  {
    SideStepsCancel(g.player.px);
  }

  /** The down arrow moves a living frog two rows down unless it is on the
      start row, and changes nothing else; the frog never goes below that row. */
  lemma StepDownEffects(g: Game)
    requires KeySafe(g) && g.living && OnGrid(g.player)
    ensures HandleRaw(g, ArrowDown) ==
      g.(player := g.player.(py := if g.player.py < BufferHeight - 2 then g.player.py + 2 else g.player.py))
    ensures HandleRaw(g, ArrowDown).player.py <= BufferHeight - 2
  {
  }

  /** Keys other than the arrows, and every key while the frog is dead, change nothing. */
  lemma IgnoredKeys(g: Game, code: KeyCode)
    requires KeySafe(g) && (!g.living || code == OtherKey)
    ensures HandleRaw(g, code) == g
  {
  }

  /** The up arrow below row 5: the frog moves two rows up, and scores 10
      when it reaches a row above its best one, which becomes its best. */
  lemma StepUpEffects(g: Game)
    requires g.openl >= 1 && g.frogs >= 1 && 7 <= g.player.py < BufferHeight
    ensures MoveUp(g) == g.(player := g.player.(py := g.player.py - 2),
                            score := g.score + (if g.player.py - 2 < g.currenty then ProgressBonus else 0),
                            currenty := if g.player.py - 2 < g.currenty then g.player.py - 2 else g.currenty)
  {
  }

  /** The up arrow from row 5 with no free pad above the frog: the frog stays
      where it is, and only the progress score can change. */
  lemma BlockedStepUp(g: Game)
    requires g.openl >= 1 && g.frogs >= 1 && g.player.py == 5
    requires FirstLanding(g.lilypads, g.player.px).None?
    ensures MoveUp(g) == if 5 < g.currenty then g.(score := g.score + ProgressBonus, currenty := 5) else g
  {
    var g1 := g.(player := g.player.(py := 3));
    assert CheckLilyPads(g1) == g1;
    assert Climb(g) == g;
  }

  /** The up arrow from row 5 over a free pad is a landing on it, and the
      frog that starts next scores no progress for its start row. */
  lemma LandingStepUp(g: Game)
    requires g.openl >= 1 && g.frogs >= 1 && g.player.py == 5
    requires FirstLanding(g.lilypads, g.player.px).Some?
    ensures MoveUp(g) == CheckLilyPads(g.(player := g.player.(py := GoalRow)))
  {
    var g1 := g.(player := g.player.(py := GoalRow));
    var r := CheckLilyPads(g1);
    assert r.player == DefaultPlayer && r.currenty == DefaultCurrentY;
    assert Climb(g) == r;
    assert Progress(r) == r;
  }

  /** The second pad check of the `ArrowUp` arm never finds a landing. */
  lemma SecondCheckIsNoOp(g: Game)
    requires g.openl >= 1 && g.frogs >= 1
    ensures CheckLilyPads(Progress(Climb(g))) == Progress(Climb(g))
  {
    ClimbLeavesGoalRow(g);
  }

  /** `s` starts a new game exactly when the last one is over: the score is
      cleared and the obstacles go back to their defaults, and nothing else
      changes; every other character, and `s` during a game, is ignored. */
  lemma RestartEffects(g: Game, c: char)
    ensures HandleUnicode(g, c) != g ==> c == 's' && !g.started
    ensures c == 's' && !g.started ==>
      HandleUnicode(g, c) == g.(started := true, score := 0, obstacles := DefaultObstacles)
  {
  }

  // ---------------------------------------------------------------------------
  // Ticks

  /** The first tick of a started game lays it out and then sweeps: the pads
      stand at columns `7 + 15 * i`, all free, and a living frog with seven
      lives is at the start, where no obstacle reaches it. */
  lemma TickInitializes(g: Game)
    requires Inv(g) && !g.init && g.started
    ensures var t := Tick(g);
      t.init && t.living && t.frogs == DefaultFrogs && t.ddelay == 0 &&
      t.player == DefaultPlayer && t.currenty == DefaultCurrentY && t.openl == PadCount &&
      |t.lilypads| == PadCount &&
      (forall i :: 0 <= i < PadCount ==> t.lilypads[i].lx == 7 + 15 * i && !t.lilypads[i].taken)
    ensures Tick(g).obstacles == Advanced(LayOutLanes(g.obstacles))
  {
    PrepareKeepsInv(g);
    var g1 := Initialize(g);
    InitializeKeepsInv(g);
    StartRowIsSafe(g1);
    assert Tick(g) == MoveObstacles(g1);
  }

  /** With the frog dead and no life left, a tick ends the game, keeping the
      best score. */
  lemma TickGameOver(g: Game)
    requires Inv(g) && !g.living && g.frogs == 0 && (g.init || !g.started)
    ensures Tick(g) ==
      g.(started := false, init := false, living := false, ddelay := 0,
         hiscore := if g.score > g.hiscore then g.score else g.hiscore)
  {
  }

  /** A dead frog with lives left: the tick counts the death animation on,
      and the fourth tick starts a new frog. */
  lemma TickDeathAnimation(g: Game)
    requires Inv(g) && g.init && !g.living && g.frogs >= 1
    ensures g.ddelay < 3 ==> Tick(g) == g.(ddelay := g.ddelay + 1)
    ensures g.ddelay == 3 ==>
      Tick(g) == g.(player := DefaultPlayer, living := true, currenty := DefaultCurrentY, ddelay := 0)
  {
  }

  /** A landing never lowers the best score. */
  lemma CheckLilyPadsKeepsHiscore(g: Game)
    requires LandingSafe(g)
    ensures CheckLilyPads(g).hiscore >= g.hiscore
  {
    if g.player.py == GoalRow && FirstLanding(g.lilypads, g.player.px).Some? {
      LandingEffects(g, FirstLanding(g.lilypads, g.player.px).value);
    }
  }

  /** A tick never lowers the best score. */
  lemma TickKeepsHiscore(g: Game)
    requires Inv(g)
    ensures Tick(g).hiscore >= g.hiscore
  {
    PrepareKeepsInv(g);
    var g1 := Prepare(g);
    assert g1.hiscore == g.hiscore;
    if g1.living {
      SweepEffects(g1);
    }
  }

  /** A key never lowers the best score. */
  lemma KeyKeepsHiscore(g: Game, k: DecodedKey)
    requires KeySafe(g)
    ensures Key(g, k).hiscore >= g.hiscore
  {
    if k.RawKey? && k.code == ArrowUp && g.living {
      var g1 := g.(player := g.player.(py := Sub2(BufferHeight, g.player.py)));
      if g1.player.py == GoalRow {
        CheckLilyPadsKeepsHiscore(g1);
      }
      ClimbLeavesGoalRow(g);
    }
  }

  /** `tick` never changes the score. */
  lemma TickKeepsScore(g: Game)
    requires Inv(g)
    ensures Tick(g).score == g.score
  {
    PrepareKeepsInv(g);
  }

  /** `key` never lowers the score, except for the reset to 0 when `s`
      starts a new game. */
  lemma KeyScore(g: Game, k: DecodedKey)
    requires KeySafe(g)
    ensures Key(g, k).score >= g.score || (k == Unicode('s') && !g.started)
  {
    if k.RawKey? && k.code == ArrowUp && g.living {
      var g1 := g.(player := g.player.(py := Sub2(BufferHeight, g.player.py)));
      if g1.player.py == GoalRow && FirstLanding(g1.lilypads, g1.player.px).Some? {
        LandingEffects(g1, FirstLanding(g1.lilypads, g1.player.px).value);
      }
      ClimbLeavesGoalRow(g);
    }
  }
}
