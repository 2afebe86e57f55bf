/** The engine invariant of `FroggerSpec`: it holds for the default game and
    every tick and key keeps it; with it, the grid facts the moves rely on. */
module FroggerProps {
  import opened Bounds
  import opened Entities
  import opened FroggerSpec

  // ---------------------------------------------------------------------------
  // The engine invariant

  /** `Frogger::default()` satisfies the engine invariant. */
  lemma DefaultGameInv()
    ensures Inv(DefaultGame)
  {
    CountOpenAllFree(DefaultLilyPads);
  }

  /** There are never more open pads than pads. */
  lemma {:induction false} CountOpenBounded(pads: seq<LilyPad>)
    ensures CountOpen(pads) <= |pads|
  {
    if |pads| > 0 {
      CountOpenBounded(pads[1..]);
    }
  }

  /** Between calls, between one and five pads are open, and `openl` counts them. */
  lemma OpenPadsCounted(g: Game)
    requires Inv(g)
    ensures g.openl == CountOpen(g.lilypads) && 1 <= g.openl <= PadCount
  {
    CountOpenBounded(g.lilypads);
  }

  /** The grid the frog moves on: the start cell is on it, every pad column
      is one of its columns, and its rows run from the start row up to row 5,
      one step below the goal row. */
  lemma GridFacts()
    ensures OnGrid(DefaultPlayer)
    ensures forall i :: 0 <= i < PadCount ==> (7 + 15 * i) % 5 == 2 && 7 + 15 * i < BufferWidth
    ensures BufferHeight % 2 == 1 && BufferWidth % 5 == 0 && Sub2(BufferHeight, 5) == GoalRow
  {
  }

  /** A successful landing, from a living frog on the goal row, keeps the invariant. */
  lemma LandingKeepsInv(g: Game)
    requires Inv(g.(player := g.player.(py := 5))) && g.living
    requires g.player.py == GoalRow && FirstLanding(g.lilypads, g.player.px).Some?
    ensures Inv(CheckLilyPads(g))
  {
    var i := FirstLanding(g.lilypads, g.player.px).value;
    CountOpenTake(g.lilypads, i);
    var pads1 := g.lilypads[i := g.lilypads[i].(taken := true)];
    if g.openl == 1 {
      CountOpenAllFree(Untaken(pads1));
    }
  }

  /** Climbing keeps the invariant: either the frog moved up to a row of the
      grid, or it landed, or, with no free pad under it, nothing changed. */
  lemma ClimbKeepsInv(g: Game)
    requires Inv(g) && g.living
    ensures Inv(Climb(g))
  {
    var g1 := g.(player := g.player.(py := Sub2(BufferHeight, g.player.py)));
    if g1.player.py == GoalRow {
      if FirstLanding(g1.lilypads, g1.player.px).Some? {
        LandingKeepsInv(g1);
      } else {
        assert Climb(g) == g;
      }
    }
  }

  /** The `ArrowUp` move keeps the invariant. */
  lemma MoveUpKeepsInv(g: Game)
    requires Inv(g) && g.living
    ensures Inv(MoveUp(g))
  {
    ClimbKeepsInv(g);
    ClimbLeavesGoalRow(g);
  }

  /** `tick` keeps the invariant. */
  lemma TickKeepsInv(g: Game)
    requires Inv(g)
    ensures Inv(Tick(g))
  {
    PrepareKeepsInv(g);
    var g1 := Prepare(g);
    if g1.living {
      AdvancedKeepsLanes(g1.obstacles);
    }
  }

  /** A step left keeps the frog on the grid; from the leftmost column it
      wraps round to the rightmost one. */
  lemma StepLeftOnGrid(p: Player)
    requires OnGrid(p)
    ensures OnGrid(p.(px := SafeAdd(BufferWidth, p.px, BufferWidth - 5)))
  {
    if p.px < 5 {
      assert p.px == 2;
    } else {
      assert (p.px - 5) % 5 == p.px % 5;
    }
  }

  /** A step right keeps the frog on the grid; from the rightmost column it
      wraps round to the leftmost one. */
  lemma StepRightOnGrid(p: Player)
    requires OnGrid(p)
    ensures OnGrid(p.(px := SafeAdd(BufferWidth, p.px, 5)))
  {
    if p.px + 5 < BufferWidth {
      assert (p.px + 5) % 5 == p.px % 5;
    } else {
      assert p.px == 77;
    }
  }

  /** `key` keeps the invariant. */
  lemma KeyKeepsInv(g: Game, k: DecodedKey)
    requires Inv(g)
    ensures Inv(Key(g, k))
  {
    match k
    case RawKey(code) =>
      if g.living {
        match code
        case ArrowLeft => StepLeftOnGrid(g.player);
        case ArrowRight => StepRightOnGrid(g.player);
        case ArrowUp => MoveUpKeepsInv(g);
        case ArrowDown =>
        case OtherKey =>
      }
    case Unicode(c) =>
  }
}
