/** Filled circles: the column sweep that plain colours use, and the columns plus row caps that INVERT uses, both cover
    exactly the same disc. */
module FilledCircle {
  import opened Arith
  import opened Framebuffer
  import opened Circle

  /** The drawn disc, by absolute offset from the centre: every pixel whose inner neighbour along the longer offset is
      below the midpoint threshold. The rows and columns 0 and 1 always reach out to r. */
  ghost predicate InDisc(r: int, a: int, b: int) {
    var lo, hi := Min(a, b), Max(a, b);
    if lo <= 1 then hi <= r else (hi - 1) * (hi - 1) + lo * lo < Threshold(r)
  }

  ghost function Disc(x0: int, y0: int, r: int): Region {
    (px, py) => InDisc(r, Abs(px - x0), Abs(py - y0))
  }

  /** The disc is what the octant encloses. */
  lemma DiscBelowOctant(r: int, x: int, y: int, a: int)
    requires r >= 1 && Octant(r, x, y) && a >= y
    ensures InDisc(r, a, y) == (a <= x)
  {
    if y >= 2 {
      if a <= x {
        SquareMonotone(a - 1, x - 1);
      } else {
        SquareMonotone(x, a - 1);
      }
    }
  }

  lemma DiscShrinks(r: int, a: int, b: int, a': int, b': int)
    requires r >= 1 && 0 <= a' <= a && 0 <= b' <= b && InDisc(r, a, b)
    ensures InDisc(r, a', b')
  {
    var lo, hi := Min(a, b), Max(a, b);
    var lo', hi' := Min(a', b'), Max(a', b');
    assert lo' <= lo && hi' <= hi;
    if lo' <= 1 {
      if lo > 1 {
        assert lo * lo >= 4;
        if hi > r {
          SquareMonotone(r, hi - 1);
          assert false;
        }
      }
    } else {
      SquareMonotone(hi' - 1, hi - 1);
      SquareMonotone(lo', lo);
    }
  }

  /** The outline ssd1306_draw_circle draws is the rim of the disc ssd1306_fill_circle fills. */
  lemma RingIsRim(r: int, a: int, b: int)
    requires r >= 1 && a >= 0 && b >= 0
    ensures InRing(r, a, b) == (InDisc(r, a, b) && !InDisc(r, Max(a, b) + 1, Min(a, b)))
  {}

  /** Nothing of the disc lies beyond the last octant row in both directions. */
  lemma DiscEnds(r: int, x: int, y: int, err: int, a: int, b: int)
    requires r >= 1 && Midpoint(r, x, y, err) && x < y && a >= y && b >= y
    ensures !InDisc(r, a, b)
  {
    var lo, hi := Min(a, b), Max(a, b);
    if lo > 1 {
      SquareMonotone(y, lo);
      SquareMonotone(y - 1, hi - 1);
    }
  }

  /** What the column sweep has covered at column x: all columns before x and, for plain colours, the columns from p on
      (p is the last half-height) cut to the rows before x. */
  ghost predicate InSwept(r: int, x: int, p: int, wide: bool, a: int, b: int) {
    (a < x || (wide && a >= p && b < x)) && InDisc(r, a, b)
  }

  ghost function Swept(x0: int, y0: int, r: int, x: int, p: int, wide: bool): Region {
    (px, py) => InSwept(r, x, p, wide, Abs(px - x0), Abs(py - y0))
  }

  ghost function Bars(x0: int, y0: int, a: int, h: int): Region {
    (px, py) => (px == x0 - a || px == x0 + a) && y0 - h <= py < y0 + h + 1
  }

  lemma SweptGrows(r: int, x: int, y: int, p: int, a: int, b: int)
    requires r >= 1 && Octant(r, y, x) && (p == y || p == y + 1) && a >= 0 && b >= 0
    ensures InSwept(r, x + 1, y, false, a, b) == (InSwept(r, x, p, false, a, b) || (a == x && b <= y))
    ensures InSwept(r, x, p, false, a, b) ==> !(a == x && b <= y)
    ensures InSwept(r, x + 1, y, true, a, b) == (InSwept(r, x, p, true, a, b) || (a == x && b <= y) || (a == y && b <= x))
  {
    if a == x {
      DiscBelowOctant(r, y, x, Max(b, x));
      if b < x {
        DiscBelowOctant(r, y, x, x);
        DiscShrinks(r, x, x, a, b);
      }
    }
    if a == y && b <= x {
      DiscBelowOctant(r, y, x, y);
      DiscShrinks(r, y, x, a, b);
    }
    if a > y && b == x {
      DiscBelowOctant(r, y, x, a);
    }
  }

  /** One vertical bar of half-height h. */
  method DrawBar(dev: Screen, x: int, y0: int, h: int, color: Color) returns (err: int)
    requires dev.Valid()
    modifies dev.fb
    ensures 0 <= h && dev.OnScreen(x, y0 - h) && dev.OnScreen(x, y0 + h)
            ==> err == 0 && dev.Painted(old(dev.fb[..]), dev.fb[..], color, Rect(x, x + 1, y0 - h, y0 + h + 1))
  {
    err := dev.DrawVLine(x, y0 - h, 2 * h + 1, color);
    assert y0 - h + (2 * h + 1) == y0 + h + 1;
  }

  /** Two vertical bars of half-height h, as many calls of the column sweep draw them. */
  method DrawBars(dev: Screen, x0: int, y0: int, a: int, h: int, color: Color) returns (err: int)
    requires dev.Valid() && a >= 1
    modifies dev.fb
    ensures 0 <= h && dev.OnScreen(x0 - a, y0 - h) && dev.OnScreen(x0 + a, y0 + h)
            ==> err == 0 && dev.Painted(old(dev.fb[..]), dev.fb[..], color, Bars(x0, y0, a, h))
  {
    ghost var s := dev.fb[..];
    err := DrawBar(dev, x0 - a, y0, h, color);
    if err != 0 { return; }
    ghost var t := dev.fb[..];
    err := DrawBar(dev, x0 + a, y0, h, color);
    if 0 <= h && dev.OnScreen(x0 - a, y0 - h) && dev.OnScreen(x0 + a, y0 + h) {
      BarsMeet(dev, s, t, dev.fb[..], color, x0, y0, a, h);
    }
  }

  lemma BarsMeet(dev: Screen, s: seq<bv8>, t: seq<bv8>, u: seq<bv8>, c: Color, x0: int, y0: int, a: int, h: int)
    requires dev.Valid() && a >= 1
    requires dev.Painted(s, t, c, Rect(x0 - a, x0 - a + 1, y0 - h, y0 + h + 1))
    requires dev.Painted(t, u, c, Rect(x0 + a, x0 + a + 1, y0 - h, y0 + h + 1))
    ensures dev.Painted(s, u, c, Bars(x0, y0, a, h))
  {
    dev.PaintedUnion(s, t, u, c, Rect(x0 - a, x0 - a + 1, y0 - h, y0 + h + 1), Rect(x0 + a, x0 + a + 1, y0 - h, y0 + h + 1),
                     Bars(x0, y0, a, h));
  }

  lemma SweepStep(dev: Screen, was: seq<bv8>, s: seq<bv8>, t: seq<bv8>, u: seq<bv8>, c: Color,
                  x0: int, y0: int, r: int, x: int, y: int, p: int)
    requires dev.Valid() && r >= 1 && Octant(r, y, x) && (p == y || p == y + 1)
    requires dev.Painted(was, s, c, Swept(x0, y0, r, x, p, c != Invert)) && dev.Painted(s, t, c, Bars(x0, y0, x, y))
    requires if c == Invert then t == u else dev.Painted(t, u, c, Bars(x0, y0, y, x))
    ensures dev.Painted(was, u, c, Swept(x0, y0, r, x + 1, y, c != Invert))
  {
    forall px, py | dev.OnScreen(px, py)
      ensures dev.LitIn(u, px, py) == if Swept(x0, y0, r, x + 1, y, c != Invert)(px, py) then Recolor(c, dev.LitIn(was, px, py)) else dev.LitIn(was, px, py)
    {
      var a, b := Abs(px - x0), Abs(py - y0);
      SweptGrows(r, x, y, p, a, b);
      assert Bars(x0, y0, x, y)(px, py) == (a == x && b <= y);
      assert Bars(x0, y0, y, x)(px, py) == (a == y && b <= x);
      assert dev.LitIn(s, px, py) == if InSwept(r, x, p, c != Invert, a, b) then Recolor(c, dev.LitIn(was, px, py)) else dev.LitIn(was, px, py);
      assert InSwept(r, x + 1, y, c != Invert, a, b) == Swept(x0, y0, r, x + 1, y, c != Invert)(px, py);
    }
  }

  lemma SweepStart(dev: Screen, s: seq<bv8>, t: seq<bv8>, c: Color, x0: int, y0: int, r: int)
    requires dev.Valid() && r >= 1 && dev.Painted(s, t, c, Rect(x0, x0 + 1, y0 - r, y0 + r + 1))
    ensures dev.Painted(s, t, c, Swept(x0, y0, r, 1, r + 1, c != Invert))
  {
    forall px, py | dev.OnScreen(px, py)
      ensures dev.LitIn(t, px, py) == if Swept(x0, y0, r, 1, r + 1, c != Invert)(px, py) then Recolor(c, dev.LitIn(s, px, py)) else dev.LitIn(s, px, py)
    {
      var a, b := Abs(px - x0), Abs(py - y0);
      assert InSwept(r, 1, r + 1, c != Invert, a, b) == (a == 0 && b <= r);
    }
  }

  lemma SweepEnds(dev: Screen, was: seq<bv8>, s: seq<bv8>, c: Color, x0: int, y0: int, r: int, x: int, y: int, p: int, err: int)
    requires dev.Valid() && r >= 1 && Midpoint(r, y, x, err) && y < x && (p == y || p == y + 1)
    requires c != Invert && dev.Painted(was, s, c, Swept(x0, y0, r, x, p, true))
    ensures dev.Painted(was, s, c, Disc(x0, y0, r))
  {
    forall px, py | dev.OnScreen(px, py)
      ensures dev.LitIn(s, px, py) == if Disc(x0, y0, r)(px, py) then Recolor(c, dev.LitIn(was, px, py)) else dev.LitIn(was, px, py)
    {
      var a, b := Abs(px - x0), Abs(py - y0);
      if a >= x && b >= x {
        DiscEnds(r, y, x, err, a, b);
      }
      assert InSwept(r, x, p, true, a, b) == InDisc(r, a, b);
      assert dev.LitIn(s, px, py) == if InSwept(r, x, p, true, a, b) then Recolor(c, dev.LitIn(was, px, py)) else dev.LitIn(was, px, py);
    }
  }

  /** What INVERT has covered when its row caps reach row y: the columns before x1, and the rows before y. */
  ghost predicate InCapped(r: int, x1: int, y: int, a: int, b: int) {
    (a < x1 || b < y) && InDisc(r, a, b)
  }

  ghost function Capped(x0: int, y0: int, r: int, x1: int, y: int): Region {
    (px, py) => InCapped(r, x1, y, Abs(px - x0), Abs(py - y0))
  }

  /** The four pieces of the rows y0 - y and y0 + y between the offsets x1 and x; two pieces when y is 0. */
  ghost function Caps(x0: int, y0: int, x1: int, x: int, y: int): Region {
    (px, py) => (x0 + x1 <= px < x0 + x + 1 || x0 - x <= px < x0 - x1 + 1) && (py == y0 - y || py == y0 + y)
  }

  ghost function Runs(xa: int, ya: int, xb: int, yb: int, w: int): Region {
    (px, py) => (xa <= px < xa + w && py == ya) || (xb <= px < xb + w && py == yb)
  }

  /** Two horizontal runs of width w. A zero width fails at the first of them. */
  method DrawRuns(dev: Screen, xa: int, ya: int, xb: int, yb: int, w: int, color: Color) returns (err: int)
    requires dev.Valid()
    modifies dev.fb
    ensures w == 0 ==> err == -EINVAL && dev.fb[..] == old(dev.fb[..])
    ensures 0 < w < 256 && dev.OnScreen(xa, ya) && dev.OnScreen(xb, yb) && xa + w <= dev.width && xb + w <= dev.width
            && (ya != yb || xb + w <= xa)
            ==> err == 0 && dev.Painted(old(dev.fb[..]), dev.fb[..], color, Runs(xa, ya, xb, yb, w))
  {
    ghost var s := dev.fb[..];
    err := dev.DrawHLine(xa, ya, w, color);
    if err != 0 { return; }
    ghost var t := dev.fb[..];
    err := dev.DrawHLine(xb, yb, w, color);
    if 0 < w < 256 && dev.OnScreen(xa, ya) && dev.OnScreen(xb, yb) && xa + w <= dev.width && xb + w <= dev.width
      && (ya != yb || xb + w <= xa) {
      dev.PaintedUnion(s, t, dev.fb[..], color, Rect(xa, xa + w, ya, ya + 1), Rect(xb, xb + w, yb, yb + 1), Runs(xa, ya, xb, yb, w));
    }
  }

  /** The four row pieces of one step of the INVERT path. */
  method DrawCaps(dev: Screen, x0: int, y0: int, x1: int, x: int, y: int, color: Color) returns (err: int)
    requires dev.Valid() && 1 <= x1 && 1 <= y
    modifies dev.fb
    ensures x + 1 == x1 ==> err == -EINVAL && dev.fb[..] == old(dev.fb[..])
    ensures x1 <= x && dev.OnScreen(x0 - x, y0 - y) && dev.OnScreen(x0 + x, y0 + y)
            ==> err == 0 && dev.Painted(old(dev.fb[..]), dev.fb[..], color, Caps(x0, y0, x1, x, y))
  {
    ghost var s := dev.fb[..];
    var w := x - x1 + 1;
    err := DrawRuns(dev, x0 + x1, y0 - y, x0 + x1, y0 + y, w, color);
    if err != 0 { return; }
    ghost var t := dev.fb[..];
    err := DrawRuns(dev, x0 - x, y0 - y, x0 - x, y0 + y, w, color);
    if x1 <= x && dev.OnScreen(x0 - x, y0 - y) && dev.OnScreen(x0 + x, y0 + y) {
      dev.PaintedUnion(s, t, dev.fb[..], color, Runs(x0 + x1, y0 - y, x0 + x1, y0 + y, w),
                       Runs(x0 - x, y0 - y, x0 - x, y0 + y, w), Caps(x0, y0, x1, x, y));
    }
  }

  /** The last octant row n, with its pixel (p, n), as the column sweep leaves it: x1 is n + 1. */
  ghost predicate LastRow(r: int, p: int, n: int) {
    Octant(r, p, n) && p <= n + 1 && n * n + (n + 1) * (n + 1) >= Threshold(r)
  }

  lemma LastRowReached(r: int, y: int, x: int, err: int, p: int)
    requires r >= 1 && Midpoint(r, y, x, err) && y < x && (p == y || p == y + 1) && (x == 1 || Octant(r, p, x - 1))
    ensures LastRow(r, p, x - 1)
  {}

  lemma OctantDecreasing(r: int, a: int, b: int, a': int, b': int)
    requires r >= 1 && Octant(r, a, b) && Octant(r, a', b') && b <= b'
    ensures a >= a'
  {
    if a < a' {
      SquareMonotone(b, b');
      if b == 1 {
        assert b' * b' >= 4;
        SquareMonotone(r, a' - 1);
      } else {
        SquareMonotone(a, a' - 1);
      }
      assert false;
    }
  }

  /** No row after the last one. */
  lemma LastRowIsLast(r: int, p: int, n: int, a: int, b: int)
    requires r >= 1 && LastRow(r, p, n) && Octant(r, a, b)
    ensures b <= n && a >= p
  {
    if b > n {
      SquareMonotone(n + 1, b);
      SquareMonotone(n, a - 1);
      assert false;
    }
    OctantDecreasing(r, a, b, p, n);
  }

  lemma LastRowBounds(r: int, p: int, n: int, a: int, b: int)
    requires r >= 1 && LastRow(r, p, n) && a > n && b > n
    ensures !InDisc(r, a, b)
  {
    SquareMonotone(n + 1, Min(a, b));
    SquareMonotone(n, Max(a, b) - 1);
  }

  lemma CappedGrows(r: int, p: int, n: int, x: int, y: int, a: int, b: int)
    requires r >= 1 && LastRow(r, p, n) && Octant(r, x, y) && a >= 0 && b >= 0
    ensures InCapped(r, n + 1, y + 1, a, b) == (InCapped(r, n + 1, y, a, b) || (n + 1 <= a <= x && b == y))
    ensures InCapped(r, n + 1, y, a, b) ==> !(n + 1 <= a <= x && b == y)
  {
    LastRowIsLast(r, p, n, x, y);
    if a >= n + 1 && b == y {
      DiscBelowOctant(r, x, y, a);
    }
  }

  lemma CapsStep(dev: Screen, was: seq<bv8>, s: seq<bv8>, t: seq<bv8>, c: Color, x0: int, y0: int, r: int, p: int, n: int, x: int, y: int)
    requires dev.Valid() && r >= 1 && LastRow(r, p, n) && Octant(r, x, y)
    requires dev.Painted(was, s, c, Capped(x0, y0, r, n + 1, y)) && dev.Painted(s, t, c, Caps(x0, y0, n + 1, x, y))
    ensures dev.Painted(was, t, c, Capped(x0, y0, r, n + 1, y + 1))
  {
    forall px, py | dev.OnScreen(px, py)
      ensures dev.LitIn(t, px, py) == if Capped(x0, y0, r, n + 1, y + 1)(px, py) then Recolor(c, dev.LitIn(was, px, py)) else dev.LitIn(was, px, py)
    {
      var a, b := Abs(px - x0), Abs(py - y0);
      CappedGrows(r, p, n, x, y, a, b);
      assert Caps(x0, y0, n + 1, x, y)(px, py) == (n + 1 <= a <= x && b == y);
      assert dev.LitIn(s, px, py) == if InCapped(r, n + 1, y, a, b) then Recolor(c, dev.LitIn(was, px, py)) else dev.LitIn(was, px, py);
    }
  }

  /** The centre row and the caps of width zero: once the octant has shrunk to the last column, the disc is covered. */
  lemma CapsDone(dev: Screen, was: seq<bv8>, s: seq<bv8>, c: Color, x0: int, y0: int, r: int, p: int, n: int, y: int)
    requires dev.Valid() && r >= 1 && LastRow(r, p, n) && y >= 1
    requires y > n || Octant(r, n, y)
    requires dev.Painted(was, s, c, Capped(x0, y0, r, n + 1, y))
    ensures dev.Painted(was, s, c, Disc(x0, y0, r))
  {
    forall px, py | dev.OnScreen(px, py)
      ensures dev.LitIn(s, px, py) == if Disc(x0, y0, r)(px, py) then Recolor(c, dev.LitIn(was, px, py)) else dev.LitIn(was, px, py)
    {
      var a, b := Abs(px - x0), Abs(py - y0);
      if a >= n + 1 && b >= y && InDisc(r, a, b) {
        if y > n {
          LastRowBounds(r, p, n, a, b);
        } else {
          DiscShrinks(r, a, b, a, y);
          DiscBelowOctant(r, n, y, a);
        }
        assert false;
      }
      assert InCapped(r, n + 1, y, a, b) == InDisc(r, a, b);
      assert dev.LitIn(s, px, py) == if InCapped(r, n + 1, y, a, b) then Recolor(c, dev.LitIn(was, px, py)) else dev.LitIn(was, px, py);
    }
  }

  /** The sweep under INVERT followed by the two pieces of the centre row. */
  lemma CapsStart(dev: Screen, was: seq<bv8>, s: seq<bv8>, t: seq<bv8>, c: Color, x0: int, y0: int, r: int, p: int, n: int, q: int)
    requires dev.Valid() && r >= 1 && LastRow(r, p, n) && n + 1 <= r
    requires dev.Painted(was, s, c, Swept(x0, y0, r, n + 1, q, false))
    requires dev.Painted(s, t, c, Runs(x0 + n + 1, y0, x0 - r, y0, r - n))
    ensures dev.Painted(was, t, c, Capped(x0, y0, r, n + 1, 1))
  {
    forall px, py | dev.OnScreen(px, py)
      ensures dev.LitIn(t, px, py) == if Capped(x0, y0, r, n + 1, 1)(px, py) then Recolor(c, dev.LitIn(was, px, py)) else dev.LitIn(was, px, py)
    {
      var a, b := Abs(px - x0), Abs(py - y0);
      assert Runs(x0 + n + 1, y0, x0 - r, y0, r - n)(px, py) == (n + 1 <= a <= r && b == 0);
      assert InCapped(r, n + 1, 1, a, b) == (InSwept(r, n + 1, q, false, a, b) || (n + 1 <= a <= r && b == 0));
      assert dev.LitIn(s, px, py) == if InSwept(r, n + 1, q, false, a, b) then Recolor(c, dev.LitIn(was, px, py)) else dev.LitIn(was, px, py);
    }
  }

  /** The circle has a pixel on the diagonal. */
  ghost predicate OnDiagonal(r: int) {
    exists m :: Octant(r, m, m)
  }

  /** There are circles of both kinds. */
  lemma SomeHaveDiagonal()
    ensures OnDiagonal(2) && !OnDiagonal(3)
  {
    assert Octant(2, 2, 2);
    forall m ensures !Octant(3, m, m) {
      if m >= 3 {
        SquareMonotone(2, m - 1);
        SquareMonotone(3, m);
      }
    }
  }

  lemma DiagonalIsLast(r: int, p: int, n: int)
    requires r >= 1 && LastRow(r, p, n)
    ensures OnDiagonal(r) == (p == n)
  {
    if p == n {
      assert Octant(r, n, n);
    } else if OnDiagonal(r) {
      var m :| Octant(r, m, m);
      LastRowIsLast(r, p, n, m, m);
    }
  }

  /** One step of the column sweep: two bars, and two more for the outer octants unless the colour is INVERT. */
  method SweepColumn(dev: Screen, ghost was: seq<bv8>, x0: int, y0: int, ghost r: int, x: int, y: int, ghost p: int, color: Color)
    returns (err: int)
    requires dev.Valid() && x >= 1 && y >= 1
    modifies dev.fb
    ensures CircleOnScreen(dev, x0, y0, r) && Octant(r, y, x) && (p == y || p == y + 1) && y <= r
            && dev.Painted(was, old(dev.fb[..]), color, Swept(x0, y0, r, x, p, color != Invert))
            ==> err == 0 && dev.Painted(was, dev.fb[..], color, Swept(x0, y0, r, x + 1, y, color != Invert))
  {
    ghost var s := dev.fb[..];
    err := DrawBars(dev, x0, y0, x, y, color);
    if err != 0 {
      return;
    }
    ghost var t := dev.fb[..];
    if color != Invert {
      err := DrawBars(dev, x0, y0, y, x, color);
      if err != 0 {
        return;
      }
    }
    if CircleOnScreen(dev, x0, y0, r) && Octant(r, y, x) && (p == y || p == y + 1) && y <= r
       && dev.Painted(was, s, color, Swept(x0, y0, r, x, p, color != Invert)) {
      SweepStep(dev, was, s, t, dev.fb[..], color, x0, y0, r, x, y, p);
    }
  }

  /** The centre column. */
  method SweepCentre(dev: Screen, x0: int, y0: int, r: int, color: Color) returns (err: int)
    requires dev.Valid() && 0 < r < 256
    modifies dev.fb
    ensures CircleOnScreen(dev, x0, y0, r) ==>
              err == 0 && dev.Painted(old(dev.fb[..]), dev.fb[..], color, Swept(x0, y0, r, 1, r + 1, color != Invert))
  {
    ghost var was := dev.fb[..];
    err := dev.DrawVLine(x0, y0 - r, 2 * r + 1, color);
    if CircleOnScreen(dev, x0, y0, r) {
      assert y0 - r + (2 * r + 1) == y0 + r + 1;
      SweepStart(dev, was, dev.fb[..], color, x0, y0, r);
    }
  }

  /** The first loop of ssd1306_fill_circle: columns of the inner octants, and of the outer ones unless the colour is INVERT. */
  method Sweep(dev: Screen, x0: int, y0: int, r: int, color: Color) returns (err: int, x: int, ghost p: int)
    requires dev.Valid() && 0 < r < 256
    modifies dev.fb
    ensures x >= 1
    ensures CircleOnScreen(dev, x0, y0, r) ==>
      && err == 0
      && LastRow(r, p, x - 1)
      && dev.Painted(old(dev.fb[..]), dev.fb[..], color, Swept(x0, y0, r, x, p, color != Invert))
      && (color != Invert ==> dev.Painted(old(dev.fb[..]), dev.fb[..], color, Disc(x0, y0, r)))
  {
    ghost var was := dev.fb[..];
    ghost var inside := CircleOnScreen(dev, x0, y0, r);
    x := 1;
    var y := Int8(r);
    var radiusErr := 1 - y;
    p := r + 1;
    err := SweepCentre(dev, x0, y0, r, color);
    if err != 0 {
      return;
    }
    MidpointStart(r);
    while y >= x
      invariant x >= 1
      invariant inside ==> Midpoint(r, y, x, radiusErr) && (p == y || p == y + 1) && (x == 1 || Octant(r, p, x - 1))
      invariant inside ==> dev.Painted(was, dev.fb[..], color, Swept(x0, y0, r, x, p, color != Invert))
      decreases y - x
    {
      err := SweepColumn(dev, was, x0, y0, r, x, y, p, color);
      if err != 0 {
        return;
      }
      if inside {
        MidpointStep(r, y, x, radiusErr);
      }
      p := y;
      y, x, radiusErr := Advance(y, x, radiusErr);
    }
    if inside {
      LastRowReached(r, y, x, radiusErr, p);
      if color != Invert {
        SweepEnds(dev, was, dev.fb[..], color, x0, y0, r, x, y, p, radiusErr);
      }
    }
    err := 0;
  }

  /** When the last column is column r, the centre row has nothing left either. */
  lemma CapsEmpty(dev: Screen, was: seq<bv8>, s: seq<bv8>, c: Color, x0: int, y0: int, r: int, p: int, q: int)
    requires dev.Valid() && r >= 1 && LastRow(r, p, r)
    requires dev.Painted(was, s, c, Swept(x0, y0, r, r + 1, q, false))
    ensures dev.Painted(was, s, c, Disc(x0, y0, r))
  {
    forall px, py | dev.OnScreen(px, py)
      ensures dev.LitIn(s, px, py) == if Capped(x0, y0, r, r + 1, 1)(px, py) then Recolor(c, dev.LitIn(was, px, py)) else dev.LitIn(was, px, py)
    {
      var a, b := Abs(px - x0), Abs(py - y0);
      assert InCapped(r, r + 1, 1, a, b) == InSwept(r, r + 1, q, false, a, b);
      assert dev.LitIn(s, px, py) == if InSwept(r, r + 1, q, false, a, b) then Recolor(c, dev.LitIn(was, px, py)) else dev.LitIn(was, px, py);
    }
    CapsDone(dev, was, s, c, x0, y0, r, p, r, 1);
  }

  /** The two pieces of the centre row. */
  method DrawCentreRow(dev: Screen, ghost was: seq<bv8>, x0: int, y0: int, r: int, x1: int, ghost p: int, color: Color) returns (err: int)
    requires dev.Valid() && 0 < r < 256 && x1 >= 1
    modifies dev.fb
    ensures CircleOnScreen(dev, x0, y0, r) && LastRow(r, p, x1 - 1)
            && dev.Painted(was, old(dev.fb[..]), color, Swept(x0, y0, r, x1, p, false))
            ==> if x1 <= r then err == 0 && dev.Painted(was, dev.fb[..], color, Capped(x0, y0, r, x1, 1))
                else err == -EINVAL && OnDiagonal(r) && dev.Painted(was, dev.fb[..], color, Disc(x0, y0, r))
  {
    ghost var s := dev.fb[..];
    err := DrawRuns(dev, x0 + x1, y0, x0 - r, y0, r - x1 + 1, color);
    if CircleOnScreen(dev, x0, y0, r) && LastRow(r, p, x1 - 1)
       && dev.Painted(was, s, color, Swept(x0, y0, r, x1, p, false)) {
      if x1 <= r {
        CapsStart(dev, was, s, dev.fb[..], color, x0, y0, r, p, x1 - 1, p);
      } else {
        FirstRow(r);
        LastRowIsLast(r, p, x1 - 1, r, 1);
        DiagonalIsLast(r, p, x1 - 1);
        CapsEmpty(dev, was, s, color, x0, y0, r, p, p);
      }
    }
  }

  lemma FirstRow(r: int)
    requires r >= 1
    ensures Octant(r, r, 1)
  {}

  /** A piece of width zero is met exactly in circles with a diagonal pixel. */
  lemma LastPiece(r: int, p: int, n: int, x: int, y: int)
    requires r >= 1 && LastRow(r, p, n) && Octant(r, x, y) && x == n
    ensures OnDiagonal(r) && p == n
  {
    LastRowIsLast(r, p, n, x, y);
    assert Octant(r, n, n);
  }

  /** One step of the row caps. */
  method CapsRow(dev: Screen, ghost was: seq<bv8>, x0: int, y0: int, ghost r: int, x1: int, ghost p: int, x: int, y: int, color: Color)
    returns (err: int)
    requires dev.Valid() && x1 >= 1 && y >= 1
    modifies dev.fb
    ensures CircleOnScreen(dev, x0, y0, r) && r >= 1 && LastRow(r, p, x1 - 1) && Octant(r, x, y) && x <= r
            && dev.Painted(was, old(dev.fb[..]), color, Capped(x0, y0, r, x1, y))
            ==> if err == 0 then dev.Painted(was, dev.fb[..], color, Capped(x0, y0, r, x1, y + 1)) && (y == x1 - 1 ==> p >= x1)
                else err == -EINVAL && OnDiagonal(r) && dev.Painted(was, dev.fb[..], color, Disc(x0, y0, r))
  {
    ghost var s := dev.fb[..];
    err := DrawCaps(dev, x0, y0, x1, x, y, color);
    if CircleOnScreen(dev, x0, y0, r) && r >= 1 && LastRow(r, p, x1 - 1) && Octant(r, x, y) && x <= r
       && dev.Painted(was, s, color, Capped(x0, y0, r, x1, y)) {
      LastRowIsLast(r, p, x1 - 1, x, y);
      if err == 0 {
        CapsStep(dev, was, s, dev.fb[..], color, x0, y0, r, p, x1 - 1, x, y);
      } else {
        LastPiece(r, p, x1 - 1, x, y);
        CapsDone(dev, was, s, color, x0, y0, r, p, x1 - 1, y);
      }
      if y == x1 - 1 {
        OctantUnique(r, x, p, y);
      }
    }
  }

  /** The INVERT-only tail of ssd1306_fill_circle. It runs a second midpoint loop and stops with an error at the first
      row piece of width zero, when nothing is left to draw. */
  method RowCaps(dev: Screen, ghost was: seq<bv8>, x0: int, y0: int, r: int, x1: int, ghost p: int, color: Color) returns (err: int)
    requires dev.Valid() && 0 < r < 256 && x1 >= 1
    modifies dev.fb
    ensures CircleOnScreen(dev, x0, y0, r) && LastRow(r, p, x1 - 1)
            && dev.Painted(was, old(dev.fb[..]), color, Swept(x0, y0, r, x1, p, false))
            ==> err == (if OnDiagonal(r) then -EINVAL else 0) && dev.Painted(was, dev.fb[..], color, Disc(x0, y0, r))
  {
    ghost var inside := CircleOnScreen(dev, x0, y0, r) && LastRow(r, p, x1 - 1)
                        && dev.Painted(was, dev.fb[..], color, Swept(x0, y0, r, x1, p, false));
    var y := 1;
    var x := Int8(r);
    var radiusErr := 1 - x;
    err := DrawCentreRow(dev, was, x0, y0, r, x1, p, color);
    if err != 0 {
      return;
    }
    MidpointStart(r);
    while x >= y
      invariant y >= 1
      invariant inside ==> Midpoint(r, x, y, radiusErr) && (y >= x1 ==> p >= x1)
      invariant inside ==> dev.Painted(was, dev.fb[..], color, Capped(x0, y0, r, x1, y))
      decreases x - y
    {
      err := CapsRow(dev, was, x0, y0, r, x1, p, x, y, color);
      if err != 0 {
        return;
      }
      if inside {
        MidpointStep(r, x, y, radiusErr);
      }
      x, y, radiusErr := Advance(x, y, radiusErr);
    }
    err := 0;
    if inside {
      OctantEnds(r, x, y, radiusErr, p, x1 - 1);
      DiagonalIsLast(r, p, x1 - 1);
      CapsDone(dev, was, dev.fb[..], color, x0, y0, r, p, x1 - 1, y);
    }
  }

  /** components/display/ssd1306.c: ssd1306_fill_circle. */
  method FillCircle(dev: Screen, ax0: int, ay0: int, ar: int, color: Color) returns (err: int)
    requires dev.Valid()
    modifies dev.fb
    ensures var x0, y0, r := Int8(ax0), Int8(ay0), UInt8(ar);
      && (r == 0 ==> err == -EINVAL && dev.fb[..] == old(dev.fb[..]))
      && (r > 0 && CircleOnScreen(dev, x0, y0, r) ==>
            && err == (if color == Invert && OnDiagonal(r) then -EINVAL else 0)
            && dev.Painted(old(dev.fb[..]), dev.fb[..], color, Disc(x0, y0, r)))
  {
    var x0, y0, r := Int8(ax0), Int8(ay0), UInt8(ar);
    ghost var was := dev.fb[..];
    if r == 0 {
      return -EINVAL;
    }
    var x1: int;
    ghost var p: int;
    err, x1, p := Sweep(dev, x0, y0, r, color);
    if err != 0 {
      return;
    }
    if color == Invert {
      err := RowCaps(dev, was, x0, y0, r, x1, p, color);
    }
  }

  /** Two calls with INVERT leave the buffer as it was, byte for byte, even when both report the error. */
  method FillTwice(dev: Screen, ax0: int, ay0: int, ar: int)
    requires dev.Valid() && UInt8(ar) > 0 && CircleOnScreen(dev, Int8(ax0), Int8(ay0), UInt8(ar))
    modifies dev.fb
    ensures dev.fb[..] == old(dev.fb[..])
  {
    ghost var s := dev.fb[..];
    var err := FillCircle(dev, ax0, ay0, ar, Invert);
    ghost var t := dev.fb[..];
    err := FillCircle(dev, ax0, ay0, ar, Invert);
    dev.InvertedTwice(s, t, dev.fb[..], Disc(Int8(ax0), Int8(ay0), UInt8(ar)));
  }
}
