/** Midpoint circles: what the error-term loops of ssd1306_draw_circle and ssd1306_fill_circle visit, in closed form. */
module Circle {
  import opened Arith
  import opened Framebuffer

  /** The threshold of the midpoint decision: a pixel (a, b) with a*a + b*b below it lies inside the drawn octant. */
  function Threshold(r: int): int {
    r * r - r + 4
  }

  /** (a, b) is the octant pixel of height b: the leftmost pixel whose squared distance reaches the threshold. The first
      row is always drawn at a == r (which is that same pixel once r >= 3). */
  ghost predicate Octant(r: int, a: int, b: int) {
    1 <= b <= a && if b == 1 then a == r else (a - 1) * (a - 1) + b * b < Threshold(r) <= a * a + b * b
  }

  /** The loop state (x, y, err) of both midpoint loops, in and after the loop. */
  ghost predicate Midpoint(r: int, x: int, y: int, err: int) {
    && 1 <= y <= r + 1 && y - 2 <= x <= r
    && err == (y + 1) * (y + 1) + (x - 1) * (x - 1) - Threshold(r)
    && (x >= y ==> Octant(r, x, y))
    && (x < y ==> (y - 1) * (y - 1) + y * y >= Threshold(r))
  }

  lemma MidpointStart(r: int)
    requires 1 <= r
    ensures Midpoint(r, r, 1, 1 - r)
  {}

  lemma SquareWithin(v: int, n: int)
    requires -n <= v <= n
    ensures 0 <= v * v <= n * n
  {
    SquareMonotone(Abs(v), n);
  }

  lemma ThresholdWithin(r: int)
    requires 1 <= r < 128
    ensures 4 <= Threshold(r) <= 127 * 127
  {
    SquareMonotone(r, 127);
    Apart(1, r, r);
  }

  lemma ErrorWithin(r: int, u: int, v: int)
    requires 1 <= r < 128 && -129 <= u <= 129 && -127 <= v <= 127
    ensures -0x8000 <= u * u + v * v - Threshold(r) < 0x8000
  {
    SquareWithin(u, 129);
    SquareWithin(v, 127);
    ThresholdWithin(r);
    SumWithin(u * u, v * v, Threshold(r));
  }

  lemma SumWithin(a: int, b: int, k: int)
    requires 0 <= a <= 129 * 129 && 0 <= b <= 127 * 127 && 4 <= k <= 127 * 127
    ensures -0x8000 <= a + b - k < 0x8000
  {}

  /** The error term always fits the int16_t that holds it. */
  lemma ErrorFits(r: int, x: int, y: int, err: int)
    requires 1 <= r < 128 && Midpoint(r, x, y, err)
    ensures -0x8000 <= err < 0x8000
  {
    ErrorWithin(r, y + 1, x - 1);
  }

  function NextX(x: int, err: int): int {
    if err < 0 then x else x - 1
  }

  function NextErr(x: int, y: int, err: int): int {
    if err < 0 then err + 2 * (y + 1) + 1 else err + 2 * (y + 1 - (x - 1) + 1)
  }

  lemma MidpointStep(r: int, x: int, y: int, err: int)
    requires 1 <= r && Midpoint(r, x, y, err) && x >= y
    ensures Midpoint(r, NextX(x, err), y + 1, NextErr(x, y, err))
  {
    assert (y + 2) * (y + 2) == (y + 1) * (y + 1) + 2 * y + 3;
    assert (x - 2) * (x - 2) == (x - 1) * (x - 1) - 2 * x + 3;
  }

  /** The update of the error term that ends every turn of the three midpoint loops. */
  method Advance(x: int, y: int, err: int) returns (x': int, y': int, err': int)
    ensures x' == NextX(x, err) && y' == y + 1 && err' == NextErr(x, y, err)
  {
    x', y', err' := x, y + 1, err;
    if err < 0 {
      err' := err + 2 * y' + 1;
    } else {
      x' := x - 1;
      err' := err + 2 * (y' - x' + 1);
    }
  }

  /** At most one octant pixel per row. */
  lemma OctantUnique(r: int, a: int, a': int, b: int)
    requires Octant(r, a, b) && Octant(r, a', b)
    ensures a == a'
  {}

  /** When the loop has stopped at height y, the octant has no row from y on. */
  lemma OctantEnds(r: int, x: int, y: int, err: int, a: int, b: int)
    requires 1 <= r && Midpoint(r, x, y, err) && x < y && Octant(r, a, b)
    ensures b < y
  {
    if b >= y {
      if b == 1 {
        assert false;
      }
      SquareMonotone(y, b);
      SquareMonotone(y - 1, a - 1);
    }
  }

  /** Every octant pixel of a circle of radius at least 3 is close to the ideal circle. */
  lemma OctantNearCircle(r: int, a: int, b: int)
    requires 3 <= r && Octant(r, a, b)
    ensures r * r - r + 4 <= a * a + b * b <= r * r + r + 2
    ensures a <= r
  {
    assert (a - 1) * (a - 1) == a * a - 2 * a + 1;
    if a > r {
      SquareMonotone(r, a - 1);
    }
  }

  /** The four mirror images (+-a, +-b) of a pixel. */
  ghost function Mirrored(x0: int, y0: int, a: int, b: int): Region {
    (px, py) => (px == x0 - a || px == x0 + a) && (py == y0 - b || py == y0 + b)
  }

  /** The pixels of the circle outline, by absolute offset from the centre: four on the axes, and eight copies of the octant. */
  ghost predicate InRing(r: int, a: int, b: int) {
    OnAxis(r, a, b) || Octant(r, Max(a, b), Min(a, b))
  }

  ghost predicate OnAxis(r: int, a: int, b: int) {
    (a == r && b == 0) || (a == 0 && b == r)
  }

  ghost function Ring(x0: int, y0: int, r: int): Region {
    (px, py) => InRing(r, Abs(px - x0), Abs(py - y0))
  }

  /** The part of the outline already drawn when the loop reaches height y. */
  ghost predicate InRingBelow(r: int, y: int, a: int, b: int) {
    OnAxis(r, a, b) || (Octant(r, Max(a, b), Min(a, b)) && Min(a, b) < y)
  }

  ghost function RingBelow(x0: int, y0: int, r: int, y: int): Region {
    (px, py) => InRingBelow(r, y, Abs(px - x0), Abs(py - y0))
  }

  lemma RingBelowGrows(r: int, x: int, y: int, a: int, b: int)
    requires Octant(r, x, y) && a >= 0 && b >= 0 && r >= 1
    ensures InRingBelow(r, y + 1, a, b) == (InRingBelow(r, y, a, b) || (a == x && b == y) || (a == y && b == x))
    ensures InRingBelow(r, y, a, b) ==> !(a == x && b == y) && !(a == y && b == x)
  {
    if Octant(r, Max(a, b), Min(a, b)) && Min(a, b) == y {
      OctantUnique(r, Max(a, b), x, y);
    }
  }

  predicate CircleOnScreen(dev: Screen, x0: int, y0: int, r: int) {
    r <= x0 && x0 + r < dev.width && r <= y0 && y0 + r < dev.height
  }

  ghost function Pair(xa: int, ya: int, xb: int, yb: int): Region {
    (px, py) => (px == xa && py == ya) || (px == xb && py == yb)
  }

  /** Two pixels, stopping at the first that fails. */
  method DrawPair(dev: Screen, xa: int, ya: int, xb: int, yb: int, color: Color) returns (err: int)
    requires dev.Valid()
    modifies dev.fb
    ensures err == if dev.OnScreen(Int8(xa), Int8(ya)) && dev.OnScreen(Int8(xb), Int8(yb)) then 0 else -EINVAL
    ensures (xa != xb || ya != yb) && dev.OnScreen(xa, ya) && dev.OnScreen(xb, yb)
            ==> err == 0 && dev.Painted(old(dev.fb[..]), dev.fb[..], color, Pair(xa, ya, xb, yb))
  {
    ghost var s := dev.fb[..];
    err := dev.DrawPixel(xa, ya, color);
    if err != 0 { return; }
    ghost var t := dev.fb[..];
    err := dev.DrawPixel(xb, yb, color);
    if (xa != xb || ya != yb) && dev.OnScreen(xa, ya) && dev.OnScreen(xb, yb) {
      dev.PaintedUnion(s, t, dev.fb[..], color, Dot(xa, ya), Dot(xb, yb), Pair(xa, ya, xb, yb));
    }
  }

  /** The two calls for one row, when both pixels are on screen. */
  method DrawImages(dev: Screen, xa: int, xb: int, y: int, color: Color) returns (err: int)
    requires dev.Valid() && xa != xb && dev.OnScreen(xa, y) && dev.OnScreen(xb, y)
    modifies dev.fb
    ensures err == 0 && dev.Painted(old(dev.fb[..]), dev.fb[..], color, Pair(xa, y, xb, y))
  {
    err := DrawPair(dev, xa, y, xb, y, color);
  }

  /** The four calls for one loop pixel and its mirror images, which are on screen once the axes are. */
  method DrawMirrored(dev: Screen, x0: int, y0: int, a: int, b: int, color: Color) returns (err: int)
    requires dev.Valid() && a >= 1 && b >= 1 && dev.OnScreen(x0 - a, y0 - b) && dev.OnScreen(x0 + a, y0 + b)
    modifies dev.fb
    ensures err == 0 && dev.Painted(old(dev.fb[..]), dev.fb[..], color, Mirrored(x0, y0, a, b))
  {
    ghost var s := dev.fb[..];
    err := DrawImages(dev, x0 + a, x0 - a, y0 + b, color);
    if err != 0 { return; }
    ghost var t := dev.fb[..];
    err := DrawImages(dev, x0 + a, x0 - a, y0 - b, color);
    PairsMirror(dev, s, t, dev.fb[..], color, x0, y0, a, b);
  }

  lemma PairsMirror(dev: Screen, s: seq<bv8>, t: seq<bv8>, u: seq<bv8>, c: Color, x0: int, y0: int, a: int, b: int)
    requires dev.Valid() && a >= 1 && b >= 1
    requires dev.Painted(s, t, c, Pair(x0 + a, y0 + b, x0 - a, y0 + b)) && dev.Painted(t, u, c, Pair(x0 + a, y0 - b, x0 - a, y0 - b))
    ensures dev.Painted(s, u, c, Mirrored(x0, y0, a, b))
  {
    dev.PaintedUnion(s, t, u, c, Pair(x0 + a, y0 + b, x0 - a, y0 + b), Pair(x0 + a, y0 - b, x0 - a, y0 - b), Mirrored(x0, y0, a, b));
  }

  lemma RingGrows(dev: Screen, was: seq<bv8>, s: seq<bv8>, t: seq<bv8>, u: seq<bv8>, c: Color, x0: int, y0: int, r: int, x: int, y: int)
    requires dev.Valid() && r >= 1 && Octant(r, x, y)
    requires dev.Painted(was, s, c, RingBelow(x0, y0, r, y)) && dev.Painted(s, t, c, Mirrored(x0, y0, x, y))
    requires if x == y then t == u else dev.Painted(t, u, c, Mirrored(x0, y0, y, x))
    ensures dev.Painted(was, u, c, RingBelow(x0, y0, r, y + 1))
  {
    forall px, py | dev.OnScreen(px, py)
      ensures dev.LitIn(u, px, py) == if RingBelow(x0, y0, r, y + 1)(px, py) then Recolor(c, dev.LitIn(was, px, py)) else dev.LitIn(was, px, py)
    {
      var a, b := Abs(px - x0), Abs(py - y0);
      RingBelowGrows(r, x, y, a, b);
      assert Mirrored(x0, y0, x, y)(px, py) == (a == x && b == y);
      assert Mirrored(x0, y0, y, x)(px, py) == (a == y && b == x);
      assert dev.LitIn(s, px, py) == if InRingBelow(r, y, a, b) then Recolor(c, dev.LitIn(was, px, py)) else dev.LitIn(was, px, py);
    }
  }

  /** The four pixels on the axes. */
  ghost function Axes(x0: int, y0: int, r: int): Region {
    (px, py) => ((px == x0 - r || px == x0 + r) && py == y0) || (px == x0 && (py == y0 - r || py == y0 + r))
  }

  lemma AxesAreFirst(x0: int, y0: int, r: int, px: int, py: int)
    requires r >= 1
    ensures Axes(x0, y0, r)(px, py) == RingBelow(x0, y0, r, 1)(px, py)
  {
    var a, b := Abs(px - x0), Abs(py - y0);
    assert InRingBelow(r, 1, a, b) == OnAxis(r, a, b);
  }

  /** For radii that survive the narrowing to int8_t, the four narrowed axis pixels are on screen exactly when the circle is. */
  lemma AxesFit(dev: Screen, x0: int, y0: int, r: int)
    requires dev.Valid() && -128 <= x0 < 128 && -128 <= y0 < 128 && 1 <= r < 128
    ensures CircleOnScreen(dev, x0, y0, r) ==
            (dev.OnScreen(Int8(x0 - r), Int8(y0)) && dev.OnScreen(Int8(x0 + r), Int8(y0))
             && dev.OnScreen(Int8(x0), Int8(y0 - r)) && dev.OnScreen(Int8(x0), Int8(y0 + r)))
  {}

  /** The first four calls of ssd1306_draw_circle. They alone decide whether the circle fits. */
  method DrawAxes(dev: Screen, x0: int, y0: int, r: int, color: Color) returns (err: int)
    requires dev.Valid() && -128 <= x0 < 128 && -128 <= y0 < 128 && 1 <= r < 256
    modifies dev.fb
    ensures r < 128 ==> err == if CircleOnScreen(dev, x0, y0, r) then 0 else -EINVAL
    ensures CircleOnScreen(dev, x0, y0, r) ==> dev.Painted(old(dev.fb[..]), dev.fb[..], color, RingBelow(x0, y0, r, 1))
  {
    ghost var s := dev.fb[..];
    if r < 128 {
      AxesFit(dev, x0, y0, r);
    }
    err := DrawPair(dev, x0 - r, y0, x0 + r, y0, color);
    if err != 0 { return; }
    ghost var t := dev.fb[..];
    err := DrawPair(dev, x0, y0 - r, x0, y0 + r, color);
    if CircleOnScreen(dev, x0, y0, r) {
      AxesPainted(dev, s, t, dev.fb[..], color, x0, y0, r);
    }
  }

  lemma AxesPainted(dev: Screen, s: seq<bv8>, t: seq<bv8>, u: seq<bv8>, c: Color, x0: int, y0: int, r: int)
    requires dev.Valid() && r >= 1
    requires dev.Painted(s, t, c, Pair(x0 - r, y0, x0 + r, y0)) && dev.Painted(t, u, c, Pair(x0, y0 - r, x0, y0 + r))
    ensures dev.Painted(s, u, c, RingBelow(x0, y0, r, 1))
  {
    forall px, py | dev.OnScreen(px, py)
      ensures RingBelow(x0, y0, r, 1)(px, py) == (Pair(x0 - r, y0, x0 + r, y0)(px, py) || Pair(x0, y0 - r, x0, y0 + r)(px, py))
    {
      AxesAreFirst(x0, y0, r, px, py);
    }
    dev.PaintedUnion(s, t, u, c, Pair(x0 - r, y0, x0 + r, y0), Pair(x0, y0 - r, x0, y0 + r), RingBelow(x0, y0, r, 1));
  }

  /** One turn of the loop: the mirror images of (x, y) and, off the diagonal, of (y, x). */
  method DrawOctants(dev: Screen, ghost was: seq<bv8>, x0: int, y0: int, ghost r: int, x: int, y: int, color: Color) returns (err: int)
    requires dev.Valid() && CircleOnScreen(dev, x0, y0, r) && Octant(r, x, y) && 1 <= y <= x <= r
    requires dev.Painted(was, dev.fb[..], color, RingBelow(x0, y0, r, y))
    modifies dev.fb
    ensures err == 0 && dev.Painted(was, dev.fb[..], color, RingBelow(x0, y0, r, y + 1))
  {
    ghost var s := dev.fb[..];
    err := DrawMirrored(dev, x0, y0, x, y, color);
    if err != 0 {
      return;
    }
    ghost var t := dev.fb[..];
    if x != y {
      err := DrawMirrored(dev, x0, y0, y, x, color);
      if err != 0 {
        return;
      }
    }
    RingGrows(dev, was, s, t, dev.fb[..], color, x0, y0, r, x, y);
  }

  /** components/display/ssd1306.c: ssd1306_draw_circle. */
  method DrawCircle(dev: Screen, ax0: int, ay0: int, ar: int, color: Color) returns (err: int)
    requires dev.Valid()
    modifies dev.fb
    ensures var x0, y0, r := Int8(ax0), Int8(ay0), UInt8(ar);
      && (r == 0 ==> err == -EINVAL && dev.fb[..] == old(dev.fb[..]))
      && (0 < r < 128 ==> err == if CircleOnScreen(dev, x0, y0, r) then 0 else -EINVAL)
      && (0 < r && CircleOnScreen(dev, x0, y0, r) ==> dev.Painted(old(dev.fb[..]), dev.fb[..], color, Ring(x0, y0, r)))
  {
    var x0, y0, r := Int8(ax0), Int8(ay0), UInt8(ar);
    ghost var was := dev.fb[..];
    var x := Int8(r);
    var y := 1;
    var radiusErr := 1 - x;
    if r == 0 {
      return -EINVAL;
    }
    err := DrawAxes(dev, x0, y0, r, color);
    if err != 0 {
      return;
    }
    MidpointStart(r);
    while x >= y
      invariant if r < 128 then Midpoint(r, x, y, radiusErr) else x < y
      invariant r < 128 ==> dev.Painted(was, dev.fb[..], color, RingBelow(x0, y0, r, y))
      decreases x - y
    {
      err := DrawOctants(dev, was, x0, y0, r, x, y, color);
      if err != 0 {
        return;
      }
      MidpointStep(r, x, y, radiusErr);
      x, y, radiusErr := Advance(x, y, radiusErr);
    }
    if r < 128 {
      RingComplete(dev, was, dev.fb[..], color, x0, y0, r, x, y, radiusErr);
    }
    return 0;
  }

  lemma RingComplete(dev: Screen, was: seq<bv8>, s: seq<bv8>, c: Color, x0: int, y0: int, r: int, x: int, y: int, err: int)
    requires dev.Valid() && r >= 1 && Midpoint(r, x, y, err) && x < y
    requires dev.Painted(was, s, c, RingBelow(x0, y0, r, y))
    ensures dev.Painted(was, s, c, Ring(x0, y0, r))
  {
    forall px, py | dev.OnScreen(px, py)
      ensures Ring(x0, y0, r)(px, py) == RingBelow(x0, y0, r, y)(px, py)
    {
      var a, b := Abs(px - x0), Abs(py - y0);
      if InRing(r, a, b) && !OnAxis(r, a, b) {
        OctantEnds(r, x, y, err, Max(a, b), Min(a, b));
      }
      assert InRing(r, a, b) == InRingBelow(r, y, a, b);
    }
  }
}
