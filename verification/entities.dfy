/** The game's entities as values: the player, the obstacles and the lily pads
    (src/lib.rs:30-112), the obstacle's collision search (src/lib.rs:174-183)
    and its one-tick move (src/lib.rs:337). */
module Entities {
  import opened Bounds

  /** The foreground colours obstacles are drawn in. Colours never affect the
      game logic; they are carried so that "the colour is unchanged" can be said. */
  datatype Color = Blue | LightGray | LightBlue | LightCyan | Red | LightRed | Yellow | White | Brown | Cyan

  /** The frog: `px` is the centre column of its sprite, `py` its upper row. */
  datatype Player = Player(px: nat, py: nat)

  /** A car: `ox` is its leftmost column, `oy` its lower row (it also covers row `oy - 1`). */
  datatype Obstacle = Obstacle(ox: nat, oy: nat, color: Color, speed: nat)

  /** A goal slot on the top row. */
  datatype LilyPad = LilyPad(lx: nat, ly: nat, taken: bool)

  const DefaultPlayer := Player(37, BufferHeight - 2)
  const DefaultObstacle := Obstacle(BufferWidth - 8, 20, Blue, 1)
  const DefaultLilyPad := LilyPad(7, 3, false)

  /** Obstacles move on a ring of `BufferWidth - 3` columns. */
  const LaneWidth: nat := BufferWidth - 3

  /** The car body's columns `[ox, ox + 6)` meet the frog's columns `[px - 2, px + 2)`. */
  predicate SpansOverlap(ox: int, px: int)
  {
    ox < px + 2 && px - 2 < ox + 6
  }

  /** Closed form of `checkcollide`: the frog stands on the car's upper row and
      the two column intervals intersect. */
  predicate Collides(o: Obstacle, px: int, py: int)
  {
    o.oy - 1 == py && SpansOverlap(o.ox, px)
  }

  /** The innermost test of the search: column `x` of the car is a column of
      the frog and the rows agree. */
  predicate CellCollides(o: Obstacle, x: int, px: int, py: int)
  {
    px - 2 <= x < px + 2 && o.oy - 1 == py
  }

  /** `self.oy - 1` is only evaluated when a car column equals a frog column,
      so it underflows only for a car on row 0 whose span meets the frog's. */
  predicate CollideDefined(o: Obstacle, px: int)
  {
    o.oy >= 1 || !SpansOverlap(o.ox, px)
  }

  /** `checkcollide`: the nested search over car columns and frog columns.
      `px - 2` must not underflow, nor `oy - 1` when it is reached. */
  method CheckCollide(o: Obstacle, px: nat, py: nat) returns (hit: bool)
    requires px >= 2
    requires CollideDefined(o, px)
    ensures hit == Collides(o, px, py)
  {
    var lo: nat := px - 2;
    var x := o.ox;
    while x < o.ox + 6
      invariant o.ox <= x <= o.ox + 6
      invariant forall x' :: o.ox <= x' < x ==> !CellCollides(o, x', px, py)
    {
      var p := lo;
      while p < px + 2
        invariant lo <= p <= px + 2
        invariant !(lo <= x < p && o.oy - 1 == py)
      {
        if x == p {
          var row: nat := o.oy - 1;
          if row == py {
            return true;
          }
        }
        p := p + 1;
      }
      x := x + 1;
    }
    if Collides(o, px, py) {
      var w := if o.ox < lo then lo else o.ox;
      assert CellCollides(o, w, px, py);
    }
    return false;
  }

  /** One tick of motion: the car moves `speed` columns to the left on its
      ring, by adding `LaneWidth - speed` modulo `LaneWidth`. */
  function Advance(o: Obstacle): (r: Obstacle)
    requires o.speed <= LaneWidth
    ensures r.ox < LaneWidth
    ensures r.oy == o.oy && r.speed == o.speed && r.color == o.color
    ensures o.ox < LaneWidth ==> (r.ox + o.speed) % LaneWidth == o.ox
  {
    o.(ox := SafeAdd(LaneWidth, o.ox, LaneWidth - o.speed))
  }
}
