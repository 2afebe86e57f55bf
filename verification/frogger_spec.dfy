/** The `Frogger` engine of src/lib.rs as a value, with one transition function
    per engine method. Every screen write of the source is dropped; what is left
    is the bookkeeping on positions, counters and flags. The class in
    engine.dfy is proved to perform exactly these transitions in place. */
module FroggerSpec {
  import opened Bounds
  import opened Entities

  datatype Option<T> = None | Some(value: T)

  const ObstacleCount: nat := 10
  const PadCount: nat := 5
  /** Lives at the start of a game (`Frogger::default().frogs`). */
  const DefaultFrogs: nat := 7
  /** The progress marker at the start of a life (`Frogger::default().currenty`). */
  const DefaultCurrentY: nat := BufferHeight - 4
  /** The row of the lily pads. */
  const GoalRow: nat := 3
  const ProgressBonus: nat := 10
  const LandingBonus: nat := 50
  const RestockBonus: nat := 1000

  /** The key codes the engine distinguishes; every other code is `OtherKey`. */
  datatype KeyCode = ArrowLeft | ArrowRight | ArrowUp | ArrowDown | OtherKey

  /** A decoded key event: a raw control code or a printable character. */
  datatype DecodedKey = RawKey(code: KeyCode) | Unicode(c: char)

  /** The fields of `Frogger` (src/lib.rs:42-55). */
  datatype Game = Game(
    player: Player,
    obstacles: seq<Obstacle>,
    lilypads: seq<LilyPad>,
    frogs: nat,
    living: bool,
    init: bool,
    score: nat,
    hiscore: nat,
    ddelay: nat,
    currenty: nat,
    openl: nat,
    started: bool)

  const DefaultObstacles: seq<Obstacle> :=
    [DefaultObstacle, DefaultObstacle, DefaultObstacle, DefaultObstacle, DefaultObstacle,
     DefaultObstacle, DefaultObstacle, DefaultObstacle, DefaultObstacle, DefaultObstacle]
  const DefaultLilyPads: seq<LilyPad> :=
    [DefaultLilyPad, DefaultLilyPad, DefaultLilyPad, DefaultLilyPad, DefaultLilyPad]

  /** `Frogger::default()` (src/lib.rs:84-102). */
  const DefaultGame := Game(DefaultPlayer, DefaultObstacles, DefaultLilyPads, DefaultFrogs, true, false,
                            0, 0, 0, DefaultCurrentY, PadCount, true)

  // ---------------------------------------------------------------------------
  // Lily pads

  /** The frog at column `px` may land on `pad`. */
  predicate Landable(pad: LilyPad, px: nat)
  {
    pad.lx == px && !pad.taken
  }

  /** The lowest index of a pad the frog at column `px` may land on. */
  function FirstLanding(pads: seq<LilyPad>, px: nat): (r: Option<nat>)
    ensures r.Some? ==> r.value < |pads| && Landable(pads[r.value], px)
    ensures r.Some? ==> forall j :: 0 <= j < r.value ==> !Landable(pads[j], px)
    ensures r.None? ==> forall j :: 0 <= j < |pads| ==> !Landable(pads[j], px)
  {
    if |pads| == 0 then None
    else if Landable(pads[0], px) then Some(0)
    else match FirstLanding(pads[1..], px)
      case None => None
      case Some(k) => Some(k + 1)
  }

  /** The number of pads not taken. */
  function CountOpen(pads: seq<LilyPad>): nat
  {
    if |pads| == 0 then 0 else (if pads[0].taken then 0 else 1) + CountOpen(pads[1..])
  }

  /** Every pad marked free (the loop of `makelilypads`). */
  function Untaken(pads: seq<LilyPad>): seq<LilyPad>
  {
    seq(|pads|, i requires 0 <= i < |pads| => pads[i].(taken := false))
  }

  /** Pad `i` moved to column `7 + 15 * i` (the first loop of `initialize`). */
  function LayOutPads(pads: seq<LilyPad>): seq<LilyPad>
  {
    seq(|pads|, i requires 0 <= i < |pads| => pads[i].(lx := 7 + i * 15))
  }

  // ---------------------------------------------------------------------------
  // Obstacles

  /** Every obstacle advanced by one tick. */
  function Advanced(obs: seq<Obstacle>): seq<Obstacle>
    requires forall i :: 0 <= i < |obs| ==> obs[i].speed <= LaneWidth
  {
    seq(|obs|, i requires 0 <= i < |obs| => Advance(obs[i]))
  }

  /** The number of obstacles that collide with the player. */
  function CountHits(obs: seq<Obstacle>, p: Player): nat
  {
    if |obs| == 0 then 0
    else CountHits(obs[..|obs| - 1], p) + (if Collides(obs[|obs| - 1], p.px, p.py) then 1 else 0)
  }

  /** The lane assignments of `initialize` (src/lib.rs:279-307), written over
      whatever the obstacles held before. */
  function LayOutLanes(obs: seq<Obstacle>): seq<Obstacle>
    requires |obs| == ObstacleCount
  {
    obs[1 := obs[1].(ox := 30, color := LightGray)]
       [2 := obs[2].(oy := 18, ox := 10, color := LightBlue)]
       [3 := obs[3].(oy := 18, ox := BufferWidth - 30, color := LightCyan)]
       [4 := obs[4].(oy := 16, ox := 22, color := Red, speed := 2)]
       [5 := obs[5].(oy := 16, color := LightRed, speed := 2, ox := BufferWidth - 30)]
       [6 := obs[6].(oy := 12, ox := 20, color := Yellow)]
       [7 := obs[7].(oy := 12, color := White, ox := BufferWidth - 41)]
       [8 := obs[8].(oy := 10, speed := 2, color := Brown)]
       [9 := obs[9].(oy := 10, speed := 2, color := Cyan, ox := BufferWidth - 52)]
  }

  /** The row and speed of each obstacle once the lanes are laid out: two cars per lane. */
  const LaneRows: seq<nat> := [20, 20, 18, 18, 16, 16, 12, 12, 10, 10]
  const LaneSpeeds: seq<nat> := [1, 1, 1, 1, 2, 2, 1, 1, 2, 2]

  /** Two cars of one lane are at least 9 columns apart, both ways round the
      ring: more than the 9 positions from which a car can touch the frog. */
  predicate Apart(a: int, b: int)
  {
    9 <= (b - a) % LaneWidth <= LaneWidth - 9
  }

  /** The shape the obstacles keep for a whole game. */
  predicate Lanes(obs: seq<Obstacle>)
  {
    |obs| == ObstacleCount &&
    (forall i :: 0 <= i < ObstacleCount ==>
       obs[i].oy == LaneRows[i] && obs[i].speed == LaneSpeeds[i] && obs[i].ox < LaneWidth) &&
    Apart(obs[0].ox, obs[1].ox) && Apart(obs[2].ox, obs[3].ox) && Apart(obs[4].ox, obs[5].ox) &&
    Apart(obs[6].ox, obs[7].ox) && Apart(obs[8].ox, obs[9].ox)
  }

  // ---------------------------------------------------------------------------
  // Engine transitions

  /** `reset` (src/lib.rs:262-271). */
  function Reset(g: Game): Game
  {
    g.(player := DefaultPlayer, living := true, currenty := DefaultCurrentY)
  }

  /** `makelilypads` (src/lib.rs:320-327). */
  function MakeLilyPads(g: Game): Game
  {
    g.(lilypads := Untaken(g.lilypads), frogs := DefaultFrogs, openl := |g.lilypads|)
  }

  /** `initialize` (src/lib.rs:273-318). */
  function Initialize(g: Game): Game
    requires |g.obstacles| == ObstacleCount
  {
    var g1 := g.(lilypads := LayOutPads(g.lilypads), openl := |g.lilypads|, obstacles := LayOutLanes(g.obstacles));
    var g2 := MakeLilyPads(g1);
    var g3 := g2.(init := true, living := true, currenty := DefaultCurrentY, ddelay := 0);
    Reset(g3).(frogs := DefaultFrogs)
  }

  /** The state part of `game_over` (src/lib.rs:377-395). */
  function GameOver(g: Game): Game
  {
    g.(started := false, init := false, living := false,
       hiscore := if g.score > g.hiscore then g.score else g.hiscore)
  }

  /** What `move_obstacles` needs to run without a subtraction underflowing:
      `px - 2` and `oy - 1` in `checkcollide`, `bw - speed`, and `frogs - 1`
      once per collision. */
  predicate SweepSafe(g: Game)
  {
    g.player.px >= 2 &&
    (forall i :: 0 <= i < |g.obstacles| ==>
       g.obstacles[i].speed <= LaneWidth && CollideDefined(Advance(g.obstacles[i]), g.player.px)) &&
    g.frogs >= CountHits(Advanced(g.obstacles), g.player)
  }

  /** `move_obstacles` (src/lib.rs:333-346): every obstacle advances, and each
      one that then collides with the player costs a life and kills the frog. */
  function MoveObstacles(g: Game): Game
    requires SweepSafe(g)
  {
    var moved := Advanced(g.obstacles);
    var hits := CountHits(moved, g.player);
    g.(obstacles := moved, frogs := g.frogs - hits, living := if hits > 0 then false else g.living)
  }

  /** What `check_lilypads` needs to run without underflowing `openl - 1` or
      `frogs - 1`; restocking resets `frogs` before its decrement. */
  predicate LandingSafe(g: Game)
  {
    g.player.py == GoalRow && FirstLanding(g.lilypads, g.player.px).Some? ==>
      g.openl >= 1 && (g.openl == 1 || g.frogs >= 1)
  }

  /** `check_lilypads` (src/lib.rs:397-424). It either changes nothing, or the
      frog has landed: it is back at the start and `openl` has moved. */
  function CheckLilyPads(g: Game): (r: Game)
    requires LandingSafe(g)
    ensures r == g || (r.player == DefaultPlayer && r.openl != g.openl)
  {
    if g.player.py != GoalRow then g
    else match FirstLanding(g.lilypads, g.player.px)
      case None => g
      case Some(i) => Land(g, i)
  }

  /** Pad `i` is taken (src/lib.rs:401-410): the landing scores, and when it
      was the last free pad, the full row scores again and every pad is freed. */
  function TakePad(g: Game, i: nat): Game
    requires i < |g.lilypads| && g.openl >= 1
  {
    var g1 := g.(score := g.score + LandingBonus,
                 lilypads := g.lilypads[i := g.lilypads[i].(taken := true)],
                 openl := g.openl - 1);
    if g1.openl == 0 then MakeLilyPads(g1.(score := g1.score + RestockBonus)).(openl := PadCount)
    else g1
  }

  /** The frog lands on pad `i` (src/lib.rs:401-419): the pad is taken, a life
      is used up, and the next frog starts, unless that was the last. */
  function Land(g: Game, i: nat): Game
    requires i < |g.lilypads| && g.openl >= 1 && (g.openl == 1 || g.frogs >= 1)
  {
    var g2 := TakePad(g, i);
    var g3 := Reset(g2.(frogs := g2.frogs - 1));
    if g3.frogs == 0 then GameOver(g3) else g3
  }

  /** The player's cell is one the moves can reach: the column is 2 modulo 5
      and on screen, the row odd and between row 5 and the start row. */
  predicate OnGrid(p: Player)
  {
    p.px < BufferWidth && p.px % 5 == 2 &&
    p.py % 2 == 1 && 5 <= p.py <= BufferHeight - 2
  }

  /** The engine invariant, kept by `tick` and `key` from `Frogger::default()` on. */
  predicate Inv(g: Game)
  {
    |g.obstacles| == ObstacleCount && |g.lilypads| == PadCount &&
    g.openl == CountOpen(g.lilypads) && 1 <= g.openl &&
    g.ddelay <= 3 && g.frogs <= DefaultFrogs &&
    OnGrid(g.player) &&
    (g.living ==> g.frogs >= 1) &&
    (!g.started ==> !g.init && !g.living && g.frogs == 0) &&
    (g.init ==> Lanes(g.obstacles)) &&
    (!g.init && g.started ==> g.obstacles == DefaultObstacles)
  }

  /** The first statement of `tick`: a started game that is not laid out yet is initialized. */
  function Prepare(g: Game): Game
    requires |g.obstacles| == ObstacleCount
  {
    if !g.init && g.started then Initialize(g) else g
  }

  /** The rest of `tick` (src/lib.rs:227-259): a living frog sees the
      obstacles move; with no lives left the game ends; otherwise the death
      animation runs for four ticks and a new frog starts. */
  function TickStep(g: Game): Game
    requires g.living ==> SweepSafe(g)
  {
    if g.living then MoveObstacles(g)
    else if g.frogs == 0 then GameOver(g.(started := false)).(ddelay := 0)
    else if g.ddelay == 0 then g.(ddelay := g.ddelay + 1)
    else if g.ddelay == 3 then g.(player := DefaultPlayer, living := true, currenty := DefaultCurrentY, ddelay := 0)
    else g.(ddelay := g.ddelay + 1)
  }

  /** `tick` (src/lib.rs:222-260). */
  function Tick(g: Game): Game
    requires Inv(g)
  {
    PrepareKeepsInv(g);
    TickStep(Prepare(g))
  }

  /** The first part of the `ArrowUp` arm of `handle_raw` (src/lib.rs:447-459):
      two rows up; from there the frog lands on a free pad of the goal row, or
      steps back down when there is none. */
  function Climb(g: Game): Game
    requires g.openl >= 1 && g.frogs >= 1
  {
    var g1 := g.(player := g.player.(py := Sub2(BufferHeight, g.player.py)));
    if g1.player.py == GoalRow then
      var g' := CheckLilyPads(g1);
      if g'.openl == g1.openl then g'.(player := g'.player.(py := Add2(BufferHeight, g'.player.py))) else g'
    else g1
  }

  /** Reaching a row above the best one so far scores (src/lib.rs:461-468). */
  function Progress(g: Game): Game
  {
    if g.player.py < g.currenty then g.(score := g.score + ProgressBonus, currenty := g.player.py)
    else g
  }

  /** The `ArrowUp` arm of `handle_raw` (src/lib.rs:446-471). */
  function MoveUp(g: Game): Game
    requires g.openl >= 1 && g.frogs >= 1
  {
    CheckLilyPads(Progress(Climb(g)))
  }

  /** After climbing, the frog is never left on the goal row: it has landed
      and is back at the start, or it stepped back down. */
  lemma ClimbLeavesGoalRow(g: Game)
    requires g.openl >= 1 && g.frogs >= 1
    ensures Climb(g).player.py != GoalRow
  {
    var g1 := g.(player := g.player.(py := Sub2(BufferHeight, g.player.py)));
    if g1.player.py == GoalRow {
      var g' := CheckLilyPads(g1);
      if g'.openl == g1.openl {
        assert g' == g1;
      }
    }
  }

  /** What a key needs to be handled without underflowing `openl - 1` or
      `frogs - 1` in a landing: a living frog has a free pad and a life left. */
  predicate KeySafe(g: Game)
  {
    g.living ==> g.openl >= 1 && g.frogs >= 1
  }

  /** `handle_raw` (src/lib.rs:433-483). */
  function HandleRaw(g: Game, code: KeyCode): Game
    requires KeySafe(g)
  {
    if !g.living then g
    else match code
      case ArrowLeft => g.(player := g.player.(px := SafeAdd(BufferWidth, g.player.px, BufferWidth - 5)))
      case ArrowRight => g.(player := g.player.(px := SafeAdd(BufferWidth, g.player.px, 5)))
      case ArrowUp => MoveUp(g)
      case ArrowDown =>
        if g.player.py < BufferHeight - 2 then g.(player := g.player.(py := Add2(BufferHeight, g.player.py)))
        else g
      case OtherKey => g
  }

  /** `handle_unicode` (src/lib.rs:485-508). */
  function HandleUnicode(g: Game, c: char): Game
  {
    if c == 's' && !g.started then g.(started := true, score := 0, obstacles := DefaultObstacles) else g
  }

  /** `key` (src/lib.rs:426-431). */
  function Key(g: Game, k: DecodedKey): Game
    requires KeySafe(g)
  {
    match k
    case RawKey(code) => HandleRaw(g, code)
    case Unicode(c) => HandleUnicode(g, c)
  }

  // ---------------------------------------------------------------------------
  // The facts the transition functions rest on

  /** Marking a free pad taken closes exactly one pad. */
  lemma {:induction false} CountOpenTake(pads: seq<LilyPad>, i: nat)
    requires i < |pads| && !pads[i].taken
    ensures CountOpen(pads[i := pads[i].(taken := true)]) == CountOpen(pads) - 1
  {
    var q := pads[i := pads[i].(taken := true)];
    if i > 0 {
      CountOpenTake(pads[1..], i - 1);
      assert q[1..] == pads[1..][i - 1 := pads[i].(taken := true)];
    } else {
      assert q[1..] == pads[1..];
    }
  }

  /** With every pad free, all of them are open. */
  lemma {:induction false} CountOpenAllFree(pads: seq<LilyPad>)
    requires forall j :: 0 <= j < |pads| ==> !pads[j].taken
    ensures CountOpen(pads) == |pads|
  {
    if |pads| > 0 {
      CountOpenAllFree(pads[1..]);
    }
  }

  /** A prefix of the sweep loses no more lives than the whole sweep. */
  lemma {:induction false} CountHitsPrefix(obs: seq<Obstacle>, p: Player, n: nat)
    requires n <= |obs|
    ensures CountHits(obs[..n], p) <= CountHits(obs, p)
  {
    if n < |obs| {
      var front := obs[..|obs| - 1];
      CountHitsPrefix(front, p, n);
      assert front[..n] == obs[..n];
    } else {
      assert obs[..n] == obs;
    }
  }

  /** One more obstacle of the sweep adds its own hit, and stays within the whole sweep's count. */
  lemma SweepStep(obs: seq<Obstacle>, p: Player, i: nat)
    requires i < |obs|
    ensures CountHits(obs[..i + 1], p) == CountHits(obs[..i], p) + (if Collides(obs[i], p.px, p.py) then 1 else 0)
    ensures CountHits(obs[..i + 1], p) <= CountHits(obs, p)
  {
    assert obs[..i + 1][..i] == obs[..i];
    CountHitsPrefix(obs, p, i + 1);
  }

  /** What a safe sweep guarantees for obstacle `i`. */
  lemma SweepSafeAt(g: Game, i: nat)
    requires SweepSafe(g) && i < |g.obstacles|
    ensures g.obstacles[i].speed <= LaneWidth
    ensures Advanced(g.obstacles)[i] == Advance(g.obstacles[i])
    ensures CollideDefined(Advance(g.obstacles[i]), g.player.px)
  {
  }

  /** No colliding obstacle, no hit. */
  lemma {:induction false} CountHitsNone(obs: seq<Obstacle>, p: Player)
    requires forall i :: 0 <= i < |obs| ==> !Collides(obs[i], p.px, p.py)
    ensures CountHits(obs, p) == 0
  {
    if |obs| > 0 {
      CountHitsNone(obs[..|obs| - 1], p);
    }
  }

  /** When at most one obstacle collides, at most one life is lost. */
  lemma {:induction false} CountHitsAtMostOne(obs: seq<Obstacle>, p: Player)
    requires forall i, j :: 0 <= i < j < |obs| && Collides(obs[i], p.px, p.py) ==> !Collides(obs[j], p.px, p.py)
    ensures CountHits(obs, p) <= 1
  {
    if |obs| > 0 {
      var front := obs[..|obs| - 1];
      if Collides(obs[|obs| - 1], p.px, p.py) {
        CountHitsNone(front, p);
      } else {
        CountHitsAtMostOne(front, p);
      }
    }
  }

  /** The pairs of a lane have equal rows, and no other two obstacles do. */
  lemma SameRowSameLane(i: nat, j: nat)
    requires i < j < ObstacleCount && LaneRows[i] == LaneRows[j]
    ensures i % 2 == 0 && j == i + 1
  {
  }

  /** Two cars at least 9 apart cannot both touch the frog. */
  lemma ApartExcludesTwoHits(a: Obstacle, b: Obstacle, px: int, py: int)
    requires a.ox < LaneWidth && b.ox < LaneWidth && Apart(a.ox, b.ox)
    ensures !(Collides(a, px, py) && Collides(b, px, py))
  {
  }

  /** Once the lanes are laid out, a sweep costs at most one life. */
  lemma AtMostOneHit(obs: seq<Obstacle>, p: Player)
    requires Lanes(obs)
    ensures CountHits(obs, p) <= 1
  {
    forall i, j | 0 <= i < j < |obs| && Collides(obs[i], p.px, p.py)
      ensures !Collides(obs[j], p.px, p.py)
    {
      if Collides(obs[j], p.px, p.py) {
        SameRowSameLane(i, j);
        ApartExcludesTwoHits(obs[i], obs[j], p.px, p.py);
      }
    }
    CountHitsAtMostOne(obs, p);
  }

  /** A left move by `s` on the ring, written without the remainder. */
  lemma AdvanceByCases(o: Obstacle)
    requires o.ox < LaneWidth && o.speed <= LaneWidth
    ensures Advance(o).ox == if o.ox >= o.speed then o.ox - o.speed else o.ox + LaneWidth - o.speed
  {
  }

  /** The remainder modulo the ring width does not see a whole turn. */
  lemma ModTurn(d: int)
    ensures (d + LaneWidth) % LaneWidth == d % LaneWidth
    ensures (d - LaneWidth) % LaneWidth == d % LaneWidth
  {
  }

  /** Two cars moving at the same speed keep their distance on the ring. */
  lemma AdvanceKeepsApart(a: Obstacle, b: Obstacle)
    requires a.ox < LaneWidth && b.ox < LaneWidth && a.speed == b.speed <= LaneWidth
    requires Apart(a.ox, b.ox)
    ensures Apart(Advance(a).ox, Advance(b).ox)
  {
    AdvanceByCases(a);
    AdvanceByCases(b);
    var d := b.ox - a.ox;
    ModTurn(d);
  }

  /** Moving the obstacles keeps the lane shape. */
  lemma AdvancedKeepsLanes(obs: seq<Obstacle>)
    requires Lanes(obs)
    ensures Lanes(Advanced(obs))
  {
    var m := Advanced(obs);
    AdvanceKeepsApart(obs[0], obs[1]);
    AdvanceKeepsApart(obs[2], obs[3]);
    AdvanceKeepsApart(obs[4], obs[5]);
    AdvanceKeepsApart(obs[6], obs[7]);
    AdvanceKeepsApart(obs[8], obs[9]);
  }

  /** Laying out the lanes over the default obstacles gives the lane shape. */
  lemma LayOutDefaultLanes()
    ensures Lanes(LayOutLanes(DefaultObstacles))
  {
    var o := LayOutLanes(DefaultObstacles);
    assert o[0].ox == 72 && o[1].ox == 30 && o[2].ox == 10 && o[3].ox == 50 && o[4].ox == 22;
    assert o[5].ox == 50 && o[6].ox == 20 && o[7].ox == 39 && o[8].ox == 72 && o[9].ox == 28;
  }

  /** `initialize` on a started, not yet laid out game establishes the invariant. */
  lemma InitializeKeepsInv(g: Game)
    requires Inv(g) && !g.init && g.started
    ensures Inv(Initialize(g))
  {
    var r := Initialize(g);
    LayOutDefaultLanes();
    CountOpenAllFree(r.lilypads);
  }

  /** In a laid-out game, a living frog on the grid can be swept over safely. */
  lemma LanesSweepSafe(g: Game)
    requires Lanes(g.obstacles) && OnGrid(g.player) && g.frogs >= 1
    ensures SweepSafe(g)
  {
    var obs := g.obstacles;
    forall i | 0 <= i < |obs|
      ensures obs[i].speed <= LaneWidth && CollideDefined(Advance(obs[i]), g.player.px)
    {
      assert obs[i].oy == LaneRows[i] && LaneRows[i] >= 10;
      assert obs[i].speed == LaneSpeeds[i] && LaneSpeeds[i] <= 2;
    }
    AdvancedKeepsLanes(obs);
    AtMostOneHit(Advanced(obs), g.player);
  }

  /** After the first statement of `tick` the invariant holds, and a living frog
      is in a laid-out game whose sweep is safe. */
  lemma PrepareKeepsInv(g: Game)
    requires Inv(g)
    ensures Inv(Prepare(g))
    ensures Prepare(g).living ==> Prepare(g).init && SweepSafe(Prepare(g))
  {
    var g1 := Prepare(g);
    if !g.init && g.started {
      InitializeKeepsInv(g);
    }
    assert Inv(g1);
    if g1.living {
      LanesSweepSafe(g1);
    }
  }
}
