/** The `Frogger` struct of src/lib.rs:42-55 as a class whose methods update
    its fields and its two fixed arrays in place. Each method is proved to make
    exactly the transition its function in `FroggerSpec` describes, and the two
    entry points, `Tick` and `Key`, keep the engine invariant. */
module Engine {
  import opened Bounds
  import opened Entities
  import opened FroggerSpec
  import opened FroggerProps

  class Frogger {
    var player: Player
    const obstacles: array<Obstacle>
    const lilypads: array<LilyPad>
    var frogs: nat
    var living: bool
    var init: bool
    var score: nat
    var hiscore: nat
    var ddelay: nat
    var currenty: nat
    var openl: nat
    var started: bool

    /** The engine's fields as a value. */
    function State(): Game
      reads this, obstacles, lilypads
    {
      Game(player, obstacles[..], lilypads[..], frogs, living, init, score, hiscore, ddelay, currenty, openl, started)
    }

    predicate Valid()
      reads this, obstacles, lilypads
    {
      obstacles.Length == ObstacleCount && lilypads.Length == PadCount && Inv(State())
    }

    /** `Frogger::default()` (src/lib.rs:84-102). */
    constructor ()
      ensures Valid() && State() == DefaultGame
      ensures fresh(obstacles) && fresh(lilypads)
    {
      player := DefaultPlayer;
      obstacles := new Obstacle[ObstacleCount](_ => DefaultObstacle);
      lilypads := new LilyPad[PadCount](_ => DefaultLilyPad);
      frogs := DefaultFrogs;
      living := true;
      score := 0;
      hiscore := 0;
      ddelay := 0;
      init := false;
      currenty := DefaultCurrentY;
      openl := PadCount;
      started := true;
      new;
      assert obstacles[..] == DefaultObstacles;
      assert lilypads[..] == DefaultLilyPads;
      CountOpenAllFree(lilypads[..]);
    }

    /** `reset` (src/lib.rs:262-271): the frog back at the start, alive. */
    method Reset()
      modifies this
      ensures State() == FroggerSpec.Reset(old(State()))
    {
      player := DefaultPlayer;
      living := true;
      currenty := DefaultCurrentY;
    }

    /** `makelilypads` (src/lib.rs:320-327): every pad free, lives restored. */
    method MakeLilyPads()
      modifies this, lilypads
      ensures State() == FroggerSpec.MakeLilyPads(old(State()))
    {
      ghost var g0 := State();
      var i := 0;
      while i < lilypads.Length
        modifies lilypads
        invariant 0 <= i <= lilypads.Length
        invariant forall j :: 0 <= j < i ==> lilypads[j] == g0.lilypads[j].(taken := false)
        invariant forall j :: i <= j < lilypads.Length ==> lilypads[j] == g0.lilypads[j]
      {
        lilypads[i] := lilypads[i].(taken := false);
        i := i + 1;
      }
      assert lilypads[..] == Untaken(g0.lilypads);
      frogs := DefaultFrogs;
      openl := lilypads.Length;
    }

    /** The first loop of `initialize` (src/lib.rs:274-276): pad `i` moves to column `7 + 15 * i`. */
    method LayOutPads()
      modifies lilypads
      ensures lilypads[..] == FroggerSpec.LayOutPads(old(lilypads[..]))
    {
      var i := 0;
      while i < lilypads.Length
        invariant 0 <= i <= lilypads.Length
        invariant forall j :: 0 <= j < i ==> lilypads[j] == old(lilypads[j]).(lx := 7 + j * 15)
        invariant forall j :: i <= j < lilypads.Length ==> lilypads[j] == old(lilypads[j])
      {
        lilypads[i] := lilypads[i].(lx := 7 + i * 15);
        i := i + 1;
      }
    }

    /** The lane assignments of `initialize` (src/lib.rs:279-307). */
    method LayOutLanes()
      requires obstacles.Length == ObstacleCount
      modifies obstacles
      ensures obstacles[..] == FroggerSpec.LayOutLanes(old(obstacles[..]))
    {
      obstacles[1] := obstacles[1].(ox := 30, color := LightGray);
      obstacles[2] := obstacles[2].(oy := 18, ox := 10, color := LightBlue);
      obstacles[3] := obstacles[3].(oy := 18, ox := BufferWidth - 30, color := LightCyan);
      obstacles[4] := obstacles[4].(oy := 16, ox := 22, color := Red, speed := 2);
      obstacles[5] := obstacles[5].(oy := 16, color := LightRed, speed := 2, ox := BufferWidth - 30);
      obstacles[6] := obstacles[6].(oy := 12, ox := 20, color := Yellow);
      obstacles[7] := obstacles[7].(oy := 12, color := White, ox := BufferWidth - 41);
      obstacles[8] := obstacles[8].(oy := 10, speed := 2, color := Brown);
      obstacles[9] := obstacles[9].(oy := 10, speed := 2, color := Cyan, ox := BufferWidth - 52);
    }

    /** `initialize` (src/lib.rs:273-318): lay out the pads and the lanes,
        restock, and put a living frog at the start. */
    method Initialize()
      requires obstacles.Length == ObstacleCount
      modifies this, obstacles, lilypads
      ensures State() == FroggerSpec.Initialize(old(State()))
    {
      ghost var g0 := State();
      LayOutPads();
      openl := lilypads.Length;
      LayOutLanes();
      MakeLilyPads();
      init := true;
      living := true;
      currenty := DefaultCurrentY;
      ddelay := 0;
      Reset();
      frogs := DefaultFrogs;
    }

    /** The state part of `game_over` (src/lib.rs:377-395). */
    method GameOver()
      modifies this
      ensures State() == FroggerSpec.GameOver(old(State()))
    {
      started := false;
      init := false;
      living := false;
      if score > hiscore {
        hiscore := score;
      }
    }

    /** One pass of the loop in `move_obstacles` (src/lib.rs:337-338): obstacle
        `i` advances, then is checked against the frog's position. */
    method MoveObstacle(i: nat, px: nat, py: nat) returns (hit: bool)
      requires i < obstacles.Length && obstacles[i].speed <= LaneWidth && px >= 2
      requires CollideDefined(Advance(obstacles[i]), px)
      modifies obstacles
      ensures obstacles[i] == Advance(old(obstacles[i]))
      ensures forall j :: 0 <= j < obstacles.Length && j != i ==> obstacles[j] == old(obstacles[j])
      ensures hit == Collides(obstacles[i], px, py)
    {
      var o := Advance(obstacles[i]);
      obstacles[i] := o;
      hit := CheckCollide(o, px, py);
    }

    /** `move_obstacles` (src/lib.rs:333-346): advance every obstacle in place
        and take a life for each one that then collides with the frog. */
    method MoveObstacles()
      requires SweepSafe(State())
      modifies this, obstacles
      ensures State() == FroggerSpec.MoveObstacles(old(State()))
    {
      frogs, living := Sweep(player, frogs, living);
    }

    /** The loop of `move_obstacles` (src/lib.rs:336-344) over the obstacle
        array, with the frog at `p` and the lives and liveness it starts from. */
    method Sweep(p: Player, frogs0: nat, living0: bool) returns (lives: nat, alive: bool)
      requires p.px >= 2
      requires forall j :: 0 <= j < obstacles.Length ==>
        obstacles[j].speed <= LaneWidth && CollideDefined(Advance(obstacles[j]), p.px)
      requires frogs0 >= CountHits(Advanced(obstacles[..]), p)
      modifies obstacles
      ensures obstacles[..] == Advanced(old(obstacles[..]))
      ensures lives == frogs0 - CountHits(obstacles[..], p)
      ensures alive == (living0 && CountHits(obstacles[..], p) == 0)
    {
      ghost var moved := Advanced(obstacles[..]);
      ghost var hits := 0;
      lives, alive := frogs0, living0;
      var i := 0;
      while i < obstacles.Length
        invariant 0 <= i <= obstacles.Length
        invariant forall j :: 0 <= j < i ==> obstacles[j] == moved[j]
        invariant forall j :: i <= j < obstacles.Length ==> obstacles[j] == old(obstacles[j])
        invariant hits == CountHits(moved[..i], p) <= frogs0
        invariant lives == frogs0 - hits
        invariant alive == (living0 && hits == 0)
      {
        SweepStep(moved, p, i);
        var hit := MoveObstacle(i, p.px, p.py);
        if hit {
          alive := false;
          lives := lives - 1;
          hits := hits + 1;
        }
        i := i + 1;
      }
      assert moved[..i] == moved;
      assert obstacles[..] == moved;
    }

    /** Pad `i` is taken, and the pads restocked when it was the last free one
        (src/lib.rs:401-410). */
    method TakePad(i: nat)
      requires i < lilypads.Length && openl >= 1
      modifies this, lilypads
      ensures State() == FroggerSpec.TakePad(old(State()), i)
    {
      score := score + LandingBonus;
      lilypads[i] := lilypads[i].(taken := true);
      openl := openl - 1;
      if openl == 0 {
        score := score + RestockBonus;
        MakeLilyPads();
        openl := PadCount;
      }
    }

    /** The body of `check_lilypads` for a free pad `i` under the frog
        (src/lib.rs:401-419). */
    method Land(i: nat)
      requires i < lilypads.Length && openl >= 1 && (openl == 1 || frogs >= 1)
      modifies this, lilypads
      ensures State() == FroggerSpec.Land(old(State()), i)
    {
      TakePad(i);
      frogs := frogs - 1;
      Reset();
      if frogs == 0 {
        GameOver();
      }
    }

    /** `check_lilypads` (src/lib.rs:397-424): the frog on the goal row lands on
        the first free pad under it, if there is one. */
    method CheckLilyPads()
      requires LandingSafe(State())
      modifies this, lilypads
      ensures State() == FroggerSpec.CheckLilyPads(old(State()))
    {
      if player.py == GoalRow {
        var i := 0;
        while i < lilypads.Length
          invariant 0 <= i <= lilypads.Length
          invariant forall j :: 0 <= j < i ==> !Landable(lilypads[j], player.px)
          invariant State() == old(State())
        {
          if lilypads[i].lx == player.px && !lilypads[i].taken {
            assert FirstLanding(lilypads[..], player.px) == Some(i);
            Land(i);
            break;
          }
          i := i + 1;
        }
      }
    }

    /** The rest of `tick` (src/lib.rs:227-259). */
    method TickStep()
      requires living ==> SweepSafe(State())
      modifies this, obstacles
      ensures State() == FroggerSpec.TickStep(old(State()))
    {
      if living {
        MoveObstacles();
      } else if frogs == 0 {
        started := false;
        GameOver();
        ddelay := 0;
      } else {
        if ddelay == 0 {
          ddelay := ddelay + 1;
        } else if ddelay == 3 {
          player := DefaultPlayer;
          living := true;
          currenty := DefaultCurrentY;
          ddelay := 0;
        } else {
          ddelay := ddelay + 1;
        }
      }
    }

    /** `tick` (src/lib.rs:222-260). */
    method Tick()
      requires Valid()
      modifies this, obstacles, lilypads
      ensures Valid() && State() == FroggerSpec.Tick(old(State()))
    {
      ghost var g0 := State();
      PrepareKeepsInv(g0);
      TickKeepsInv(g0);
      if !init && started {
        Initialize();
      }
      TickStep();
    }

    /** The first part of the `ArrowUp` arm of `handle_raw` (src/lib.rs:447-459):
        two rows up, then landing on a free pad of the goal row or stepping
        back down when there is none. */
    method Climb()
      requires openl >= 1 && frogs >= 1
      modifies this, lilypads
      ensures State() == FroggerSpec.Climb(old(State()))
    {
      player := player.(py := Sub2(BufferHeight, player.py));
      if player.py == GoalRow {
        var l := openl;
        CheckLilyPads();
        if openl == l {
          player := player.(py := Add2(BufferHeight, player.py));
        }
      }
    }

    /** The `ArrowUp` arm of `handle_raw` (src/lib.rs:446-471): climb, score
        progress, and check the pads again. */
    method MoveUp()
      requires openl >= 1 && frogs >= 1
      modifies this, lilypads
      ensures State() == FroggerSpec.MoveUp(old(State()))
    {
      ghost var g0 := State();
      Climb();
      ClimbLeavesGoalRow(g0);
      if player.py < currenty {
        score := score + ProgressBonus;
        currenty := player.py;
      }
      CheckLilyPads();
    }

    /** `handle_raw` (src/lib.rs:433-483). */
    method HandleRaw(code: KeyCode)
      requires KeySafe(State())
      modifies this, lilypads
      ensures State() == FroggerSpec.HandleRaw(old(State()), code)
    {
      if living {
        match code {
          case ArrowLeft =>
            player := player.(px := SafeAdd(BufferWidth, player.px, BufferWidth - 5));
          case ArrowRight =>
            player := player.(px := SafeAdd(BufferWidth, player.px, 5));
          case ArrowUp =>
            MoveUp();
          case ArrowDown =>
            if player.py < BufferHeight - 2 {
              player := player.(py := Add2(BufferHeight, player.py));
            }
          case OtherKey =>
        }
      }
    }

    /** `handle_unicode` (src/lib.rs:485-508): `s` starts a new game once the
        last one is over. */
    method HandleUnicode(c: char)
      requires obstacles.Length == ObstacleCount
      modifies this, obstacles
      ensures State() == FroggerSpec.HandleUnicode(old(State()), c)
    {
      if c == 's' {
        if !started {
          started := true;
          score := 0;
          forall j | 0 <= j < obstacles.Length {
            obstacles[j] := DefaultObstacle;
          }
          assert obstacles[..] == DefaultObstacles;
        }
      }
    }

    /** `key` (src/lib.rs:426-431). */
    method Key(k: DecodedKey)
      requires Valid()
      modifies this, obstacles, lilypads
      ensures Valid() && State() == FroggerSpec.Key(old(State()), k)
    {
      match k {
        case RawKey(code) => HandleRaw(code);
        case Unicode(c) => HandleUnicode(c);
      }
      KeyKeepsInv(old(State()), k);
    }
  }
}
