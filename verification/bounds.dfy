/** Wrap-around arithmetic on screen coordinates (src/lib.rs:18-28) and the
    size of the VGA text buffer the game draws on. */
module Bounds {

  /** The VGA text-mode buffer is 80 columns by 25 rows. */
  const BufferWidth: nat := 80
  const BufferHeight: nat := 25

  /** `safe_add::<LIMIT>`: addition modulo `limit`. When the sum overflows the
      range by less than one period, it wraps round exactly once. */
  function SafeAdd(limit: nat, a: nat, b: nat): (r: nat)
    requires limit > 0
    ensures r < limit
    ensures a + b < limit ==> r == a + b
    ensures limit <= a + b < 2 * limit ==> r == a + b - limit
  {
    (a + b) % limit
  }

  /** `add2::<LIMIT>`: one step of two cells forward, wrapping. */
  function Add2(limit: nat, v: nat): (r: nat)
    requires limit > 0
    ensures r < limit
    ensures v + 2 < limit ==> r == v + 2
  {
    SafeAdd(limit, v, 2)
  }

  /** `sub2::<LIMIT>`: one step of two cells back, wrapping; `LIMIT - 2` in the
      source must not underflow. */
  function Sub2(limit: nat, v: nat): (r: nat)
    requires limit >= 2
    ensures r < limit
    ensures 2 <= v < limit ==> r == v - 2
  {
    SafeAdd(limit, v, limit - 2)
  }

  /** Stepping forward and then back returns to the same cell. */
  lemma Sub2OfAdd2(limit: nat, v: nat)
    requires limit >= 2 && v < limit
    ensures Sub2(limit, Add2(limit, v)) == v
  {
    var w := Add2(limit, v);
    if v + 2 < limit {
      assert w == v + 2;
    } else {
      assert w == v + 2 - limit;
      assert Sub2(limit, w) == SafeAdd(limit, w, limit - 2);
    }
  }

  /** Stepping back and then forward returns to the same cell. */
  lemma Add2OfSub2(limit: nat, v: nat)
    requires limit >= 2 && v < limit
    ensures Add2(limit, Sub2(limit, v)) == v
  {
    var w := Sub2(limit, v);
    if v >= 2 {
      assert w == v - 2;
    } else {
      assert w == v + limit - 2;
    }
  }
}
