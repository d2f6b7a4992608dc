/** Filled triangles, scanline by scanline. */
module Triangle {
  import opened Arith
  import opened Framebuffer

  /** Assignment of an int to an int16_t. */
  function Int16(v: int): (r: int)
    ensures -0x8000 <= r < 0x8000
    ensures -0x8000 <= v < 0x8000 ==> r == v
  {
    if -0x8000 <= v < 0x8000 then v else (v + 0x8000) % 0x1_0000 - 0x8000
  }

  /** Three vertices, sorted from top to bottom by the three exchanges of ssd1306_fill_triangle. */
  datatype Corners = Corners(x0: int, y0: int, x1: int, y1: int, x2: int, y2: int) {
    ghost predicate Sorted() { y0 <= y1 <= y2 }

    function Swap01(): Corners { Corners(x1, y1, x0, y0, x2, y2) }

    function Swap12(): Corners { Corners(x0, y0, x2, y2, x1, y1) }

    function Sort(): (s: Corners)
      ensures s.Sorted()
    {
      var a := if y0 > y1 then Swap01() else this;
      var b := if a.y1 > a.y2 then a.Swap12() else a;
      if b.y0 > b.y1 then b.Swap01() else b
    }
  }

  /** Where the edge from (xa, ya) down to (xb, yb) crosses scanline y, rounded toward xa. */
  function Crossing(xa: int, ya: int, xb: int, yb: int, y: int): int
    requires ya < yb
  {
    xa + Quotient((xb - xa) * (y - ya), yb - ya)
  }

  /** On which side of the edge a pixel lies: positive to the right, negative to the left, zero on it. */
  function Side(xa: int, ya: int, xb: int, yb: int, px: int, py: int): int {
    (px - xa) * (yb - ya) - (xb - xa) * (py - ya)
  }

  /** The rounded crossing separates the pixels on the two sides of the edge, and is less than a pixel away from it. */
  lemma CrossingRounds(xa: int, ya: int, xb: int, yb: int, px: int, py: int)
    requires ya < yb
    ensures Side(xa, ya, xb, yb, px, py) >= 0 ==> px >= Crossing(xa, ya, xb, yb, py)
    ensures Side(xa, ya, xb, yb, px, py) <= 0 ==> px <= Crossing(xa, ya, xb, yb, py)
    ensures Abs(Side(xa, ya, xb, yb, Crossing(xa, ya, xb, yb, py), py)) < yb - ya
  {
    QuotientBounds((xb - xa) * (py - ya), yb - ya, px - xa);
  }

  lemma CrossingInRange(xa: int, ya: int, xb: int, yb: int, y: int)
    requires ya < yb && ya <= y <= yb
    ensures Min(xa, xb) <= Crossing(xa, ya, xb, yb, y) <= Max(xa, xb)
  {
    var dx, k, d := xb - xa, y - ya, yb - ya;
    Scaled(dx, k, d);
    QuotientBounds(dx * k, d, 0);
    QuotientBounds(dx * k, d, dx);
  }

  /** The two columns the scanline y of a sorted, non-flat triangle runs between, in the order the loops compute them. */
  function Ends(t: Corners, y: int): (int, int)
    requires t.Sorted() && t.y0 < t.y2
  {
    (if y < t.y1 || t.y1 == t.y2 then (if t.y0 < t.y1 then Crossing(t.x0, t.y0, t.x1, t.y1, y) else t.x1)
     else Crossing(t.x1, t.y1, t.x2, t.y2, y),
     Crossing(t.x0, t.y0, t.x2, t.y2, y))
  }

  /** The scanline as the pixels from left to right, both included. */
  function Span(t: Corners, y: int): (int, int)
    requires t.Sorted()
  {
    if t.y0 == t.y2 then (Min(t.x0, Min(t.x1, t.x2)), Max(t.x0, Max(t.x1, t.x2)))
    else (Min(Ends(t, y).0, Ends(t, y).1), Max(Ends(t, y).0, Ends(t, y).1))
  }

  ghost predicate InSorted(t: Corners, px: int, py: int)
    requires t.Sorted()
  {
    t.y0 <= py <= t.y2 && Span(t, py).0 <= px <= Span(t, py).1
  }

  /** The pixels of the filled triangle. */
  ghost predicate InTriangle(t: Corners, px: int, py: int) {
    InSorted(t.Sort(), px, py)
  }

  ghost function TriangleOf(t: Corners): Region {
    (px, py) => InTriangle(t, px, py)
  }

  /** The order in which the vertices are given does not matter: exchanging two neighbours draws the same pixels, and
      these exchanges generate every order. */
  lemma VertexOrderIrrelevant(t: Corners, px: int, py: int)
    ensures InTriangle(t.Swap01(), px, py) == InTriangle(t, px, py)
    ensures InTriangle(t.Swap12(), px, py) == InTriangle(t, px, py)
  {
    FirstTwoExchanged(t, px, py);
    LastTwoExchanged(t, px, py);
  }

  lemma FirstTwoExchanged(t: Corners, px: int, py: int)
    ensures InTriangle(t.Swap01(), px, py) == InTriangle(t, px, py)
  {}

  lemma LastTwoExchanged(t: Corners, px: int, py: int)
    ensures InTriangle(t.Swap12(), px, py) == InTriangle(t, px, py)
  {}

  /** No span leaves the columns of the vertices. */
  lemma SpanInBox(t: Corners, y: int)
    requires t.Sorted() && t.y0 <= y <= t.y2
    ensures Min(t.x0, Min(t.x1, t.x2)) <= Span(t, y).0 <= Span(t, y).1 <= Max(t.x0, Max(t.x1, t.x2))
  {
    if t.y0 < t.y2 {
      CrossingInRange(t.x0, t.y0, t.x2, t.y2, y);
      if t.y0 < t.y1 && y <= t.y1 {
        CrossingInRange(t.x0, t.y0, t.x1, t.y1, y);
      }
      if t.y1 < t.y2 && t.y1 <= y {
        CrossingInRange(t.x1, t.y1, t.x2, t.y2, y);
      }
    }
  }

  /** The pixel lies in the closed triangle itself: between the long edge and the short edge that its scanline meets. */
  ghost predicate Covered(t: Corners, px: int, py: int)
    requires t.Sorted() && t.y0 < t.y2
  {
    var long := Side(t.x0, t.y0, t.x2, t.y2, px, py);
    var short := if py < t.y1 || t.y1 == t.y2 then Side(t.x0, t.y0, t.x1, t.y1, px, py) else Side(t.x1, t.y1, t.x2, t.y2, px, py);
    t.y0 <= py <= t.y2 && ((long <= 0 <= short) || (short <= 0 <= long))
  }

  /** Filling misses no pixel of the triangle. */
  lemma TriangleCovered(t: Corners, px: int, py: int)
    requires t.Sort().y0 < t.Sort().y2 && Covered(t.Sort(), px, py)
    ensures InTriangle(t, px, py)
  {
    var s := t.Sort();
    CrossingRounds(s.x0, s.y0, s.x2, s.y2, px, py);
    if s.y0 < s.y1 {
      CrossingRounds(s.x0, s.y0, s.x1, s.y1, px, py);
    }
    if s.y1 < s.y2 {
      CrossingRounds(s.x1, s.y1, s.x2, s.y2, px, py);
    }
  }

  /** A flat triangle is the row from its leftmost to its rightmost corner. */
  lemma FlatIsRow(t: Corners, px: int, py: int)
    requires t.y0 == t.y1 == t.y2
    ensures InTriangle(t, px, py) <==> py == t.y0 && (px >= t.x0 || px >= t.x1 || px >= t.x2) && (px <= t.x0 || px <= t.x1 || px <= t.x2)
  {}

  /** Nor does it add pixels beyond rounding: a filled pixel lies in the closed triangle or less than a pixel's width from one
      of the two edges its scanline meets. */
  lemma HardlyOverfilled(t: Corners, px: int, py: int)
    ensures var s := t.Sort();
      s.y0 < s.y2 && InTriangle(t, px, py) ==>
      || Covered(s, px, py)
      || Abs(Side(s.x0, s.y0, s.x2, s.y2, px, py)) < s.y2 - s.y0
      || (if py < s.y1 || s.y1 == s.y2 then Abs(Side(s.x0, s.y0, s.x1, s.y1, px, py)) < s.y1 - s.y0
          else Abs(Side(s.x1, s.y1, s.x2, s.y2, px, py)) < s.y2 - s.y1)
  {
    var s := t.Sort();
    if s.y0 < s.y2 && InTriangle(t, px, py) {
      CrossingRounds(s.x0, s.y0, s.x2, s.y2, px, py);
      if py < s.y1 || s.y1 == s.y2 {
        CrossingRounds(s.x0, s.y0, s.x1, s.y1, px, py);
      } else {
        CrossingRounds(s.x1, s.y1, s.x2, s.y2, px, py);
      }
    }
  }

  ghost predicate InSortedAbove(t: Corners, y: int, px: int, py: int)
    requires t.Sorted()
  {
    InSorted(t, px, py) && py < y
  }

  ghost function Above(t: Corners, y: int): Region
    requires t.Sorted()
  {
    (px, py) => InSortedAbove(t, y, px, py)
  }

  predicate CornersOnScreen(dev: Screen, t: Corners) {
    dev.OnScreen(t.x0, t.y0) && dev.OnScreen(t.x1, t.y1) && dev.OnScreen(t.x2, t.y2)
  }

  lemma ScanlineAdded(dev: Screen, was: seq<bv8>, s: seq<bv8>, u: seq<bv8>, c: Color, t: Corners, y: int)
    requires dev.Valid() && t.Sorted() && t.y0 <= y <= t.y2
    requires dev.Painted(was, s, c, Above(t, y)) && dev.Painted(s, u, c, Rect(Span(t, y).0, Span(t, y).1 + 1, y, y + 1))
    ensures dev.Painted(was, u, c, Above(t, y + 1))
  {}

  /** One scanline, from its left end to its right end. */
  method DrawRow(dev: Screen, ghost was: seq<bv8>, ghost t: Corners, ghost inside: bool, a: int, b: int, y: int, color: Color)
    returns (err: int)
    requires dev.Valid() && t.Sorted()
    requires inside ==> CornersOnScreen(dev, t) && t.y0 <= y <= t.y2 && Span(t, y) == (a, b)
    requires inside ==> dev.Painted(was, dev.fb[..], color, Above(t, y))
    modifies dev.fb
    ensures y == 0x7FFF ==> err != 0
    ensures inside ==> err == 0 && dev.Painted(was, dev.fb[..], color, Above(t, y + 1))
  {
    if inside {
      SpanInBox(t, y);
      assert UInt8(b - a + 1) == b - a + 1 && Min(a + (b - a + 1), dev.width) == b + 1;
    }
    ghost var s := dev.fb[..];
    err := dev.DrawHLine(a, y, b - a + 1, color);
    if inside {
      ScanlineAdded(dev, was, s, dev.fb[..], color, t, y);
    }
  }

  /** The column an edge has reached, from its start and its running sum. */
  function Reached(x: int, s: int, d: int): int
    requires d != 0
  {
    x + Quotient(s, d)
  }

  /** The two ends of a scanline from the running sums of its edges. */
  method DrawBetween(dev: Screen, ghost was: seq<bv8>, ghost t: Corners, ghost inside: bool,
                     xa: int, sa: int, dya: int, xb: int, sb: int, dyb: int, y: int, color: Color)
    returns (err: int)
    requires dev.Valid() && t.Sorted() && dya != 0 && dyb != 0
    requires inside ==> CornersOnScreen(dev, t) && t.y0 < t.y2 && t.y0 <= y <= t.y2
    requires inside ==> Ends(t, y).0 == Reached(xa, sa, dya) && Ends(t, y).1 == Reached(xb, sb, dyb)
    requires inside ==> dev.Painted(was, dev.fb[..], color, Above(t, y))
    modifies dev.fb
    ensures y == 0x7FFF ==> err != 0
    ensures inside ==> err == 0 && dev.Painted(was, dev.fb[..], color, Above(t, y + 1))
  {
    if inside {
      SpanInBox(t, y);
    }
    var a, b := Int16(Reached(xa, sa, dya)), Int16(Reached(xb, sb, dyb));
    if a > b {
      a, b := b, a;
    }
    err := DrawRow(dev, was, t, inside, a, b, y, color);
  }

  /** A running sum of the loops after k scanlines, and the longhand form in the source's comments. */
  ghost function Along(dx: int, k: nat): int {
    if k == 0 then 0 else Along(dx, k - 1) + dx
  }

  lemma AlongIsProduct(dx: int, k: nat)
    ensures Along(dx, k) == dx * k
  {}

  /** The running sums fit their int16_t. */
  lemma AlongFits(dx: int, k: nat)
    requires -128 < dx < 128 && k <= 64
    ensures -0x8000 <= Along(dx, k + 1) < 0x8000
    ensures Int16(Along(dx, k) + dx) == Along(dx, k + 1)
  {
    AlongIsProduct(dx, k + 1);
    Scaled(dx, k + 1, 65);
  }

  lemma UpperEnds(t: Corners, y: int)
    requires t.Sorted() && t.y0 < t.y2 && t.y0 <= y && t.y0 < t.y1 && (y < t.y1 || t.y1 == t.y2)
    ensures Ends(t, y).0 == Reached(t.x0, Along(t.x1 - t.x0, y - t.y0), t.y1 - t.y0)
    ensures Ends(t, y).1 == Reached(t.x0, Along(t.x2 - t.x0, y - t.y0), t.y2 - t.y0)
  {
    AlongIsProduct(t.x1 - t.x0, y - t.y0);
    AlongIsProduct(t.x2 - t.x0, y - t.y0);
  }

  lemma LowerEnds(t: Corners, y: int)
    requires t.Sorted() && t.y1 < t.y2 && t.y1 <= y
    ensures Ends(t, y).0 == Reached(t.x1, Along(t.x2 - t.x1, y - t.y1), t.y2 - t.y1)
    ensures Ends(t, y).1 == Reached(t.x0, Along(t.x2 - t.x0, y - t.y0), t.y2 - t.y0)
  {
    AlongIsProduct(t.x2 - t.x1, y - t.y1);
    AlongIsProduct(t.x2 - t.x0, y - t.y0);
  }

  /** One turn of the first loop: the row, then the sums and the row counter move on. The counter, an int16_t, does not wrap,
      since a row beyond the screen fails. */
  method UpperTurn(dev: Screen, ghost was: seq<bv8>, t: Corners, ghost inside: bool, dxa: int, sa: int, dya: int,
                  dxb: int, sb: int, dyb: int, y: int, color: Color)
    returns (err: int, sa': int, sb': int, y': int)
    requires dev.Valid() && t.Sorted() && dya != 0 && dyb != 0 && -0x8000 <= y < 0x8000
    requires inside ==> UpperEdges(dev, t, dxa, dya, dxb, dyb) && t.y0 <= y <= t.y2 && (y < t.y1 || t.y1 == t.y2)
    requires inside ==> sa == Along(dxa, y - t.y0) && sb == Along(dxb, y - t.y0)
    requires inside ==> dev.Painted(was, dev.fb[..], color, Above(t, y))
    modifies dev.fb
    ensures inside ==> err == 0
    ensures err == 0 ==> y' == y + 1
    ensures inside ==> y' == y + 1 && sa' == Along(dxa, y' - t.y0) && sb' == Along(dxb, y' - t.y0)
    ensures inside ==> dev.Painted(was, dev.fb[..], color, Above(t, y + 1))
  {
    sa', sb', y' := sa, sb, y;
    err := UpperSpan(dev, was, t, inside, dxa, sa, dya, dxb, sb, dyb, y, color);
    if err == 0 {
      sa', sb', y' := NextRow(inside, dxa, sa, t.y0, dxb, sb, t.y0, y);
    }
  }

  /** The row of that turn. */
  method UpperSpan(dev: Screen, ghost was: seq<bv8>, t: Corners, ghost inside: bool, ghost dxa: int, sa: int, dya: int,
                 ghost dxb: int, sb: int, dyb: int, y: int, color: Color)
    returns (err: int)
    requires dev.Valid() && t.Sorted() && dya != 0 && dyb != 0
    requires inside ==> UpperEdges(dev, t, dxa, dya, dxb, dyb) && t.y0 <= y <= t.y2 && (y < t.y1 || t.y1 == t.y2)
    requires inside ==> sa == Along(dxa, y - t.y0) && sb == Along(dxb, y - t.y0)
    requires inside ==> dev.Painted(was, dev.fb[..], color, Above(t, y))
    modifies dev.fb
    ensures y == 0x7FFF ==> err != 0
    ensures inside ==> err == 0 && dev.Painted(was, dev.fb[..], color, Above(t, y + 1))
  {
    if inside {
      UpperEnds(t, y);
    }
    err := DrawBetween(dev, was, t, inside, t.x0, sa, dya, t.x0, sb, dyb, y, color);
  }

  /** One turn of the second loop. */
  method LowerTurn(dev: Screen, ghost was: seq<bv8>, t: Corners, ghost inside: bool, dxa: int, sa: int, dya: int,
                  dxb: int, sb: int, dyb: int, y: int, color: Color)
    returns (err: int, sa': int, sb': int, y': int)
    requires dev.Valid() && t.Sorted() && dya != 0 && dyb != 0 && -0x8000 <= y < 0x8000
    requires inside ==> LowerEdges(dev, t, dxa, dya, dxb, dyb) && t.y1 <= y <= t.y2 && t.y1 < t.y2
    requires inside ==> sa == Along(dxa, y - t.y1) && sb == Along(dxb, y - t.y0)
    requires inside ==> dev.Painted(was, dev.fb[..], color, Above(t, y))
    modifies dev.fb
    ensures inside ==> err == 0
    ensures err == 0 ==> y' == y + 1
    ensures inside ==> y' == y + 1 && sa' == Along(dxa, y' - t.y1) && sb' == Along(dxb, y' - t.y0)
    ensures inside ==> dev.Painted(was, dev.fb[..], color, Above(t, y + 1))
  {
    sa', sb', y' := sa, sb, y;
    err := LowerSpan(dev, was, t, inside, dxa, sa, dya, dxb, sb, dyb, y, color);
    if inside {
      LowerSmall(dev, t, dxa, dya, dxb, dyb, y);
    }
    if err == 0 {
      sa', sb', y' := NextRow(inside, dxa, sa, t.y1, dxb, sb, t.y0, y);
    }
  }

  /** The row of that turn. */
  method LowerSpan(dev: Screen, ghost was: seq<bv8>, t: Corners, ghost inside: bool, ghost dxa: int, sa: int, dya: int,
                 ghost dxb: int, sb: int, dyb: int, y: int, color: Color)
    returns (err: int)
    requires dev.Valid() && t.Sorted() && dya != 0 && dyb != 0
    requires inside ==> LowerEdges(dev, t, dxa, dya, dxb, dyb) && t.y1 <= y <= t.y2 && t.y1 < t.y2
    requires inside ==> sa == Along(dxa, y - t.y1) && sb == Along(dxb, y - t.y0)
    requires inside ==> dev.Painted(was, dev.fb[..], color, Above(t, y))
    modifies dev.fb
    ensures y == 0x7FFF ==> err != 0
    ensures inside ==> err == 0 && dev.Painted(was, dev.fb[..], color, Above(t, y + 1))
  {
    if inside {
      LowerEnds(t, y);
      assert dya == t.y2 - t.y1 && dyb == t.y2 - t.y0;
      assert Ends(t, y).0 == Reached(t.x1, sa, dya) && Ends(t, y).1 == Reached(t.x0, sb, dyb);
    }
    err := DrawBetween(dev, was, t, inside, t.x1, sa, dya, t.x0, sb, dyb, y, color);
  }

  /** The edges 0-1 and 0-2 of a triangle on screen. */
  predicate UpperEdges(dev: Screen, t: Corners, dxa: int, dya: int, dxb: int, dyb: int) {
    && CornersOnScreen(dev, t) && t.y0 < t.y1 && t.y0 < t.y2
    && dxa == t.x1 - t.x0 && dya == t.y1 - t.y0 && dxb == t.x2 - t.x0 && dyb == t.y2 - t.y0
  }

  /** The edges 1-2 and 0-2. */
  predicate LowerEdges(dev: Screen, t: Corners, dxa: int, dya: int, dxb: int, dyb: int) {
    && CornersOnScreen(dev, t) && t.y0 < t.y2
    && dxa == t.x2 - t.x1 && dya == t.y2 - t.y1 && dxb == t.x2 - t.x0 && dyb == t.y2 - t.y0
  }

  /** On screen the edges are short enough for the sums to fit. */
  lemma LowerSmall(dev: Screen, t: Corners, dxa: int, dya: int, dxb: int, dyb: int, y: int)
    requires dev.Valid() && t.Sorted() && LowerEdges(dev, t, dxa, dya, dxb, dyb) && t.y1 <= y <= t.y2
    ensures -128 < dxa < 128 && -128 < dxb < 128 && 0 <= y - t.y1 <= 64 && 0 <= y - t.y0 <= 64
  {}

  /** Coordinates of the parameters' type. */
  predicate InInt16(t: Corners) {
    && -0x8000 <= t.x0 < 0x8000 && -0x8000 <= t.x1 < 0x8000 && -0x8000 <= t.x2 < 0x8000
    && -0x8000 <= t.y0 < 0x8000 && -0x8000 <= t.y1 < 0x8000 && -0x8000 <= t.y2 < 0x8000
  }

  /** The last row of the first loop, in an int16_t. */
  function LastUpper(t: Corners): int {
    if t.y1 == t.y2 then t.y1 else Int16(t.y1 - 1)
  }

  /** The first loop of these sorted corners is entered with a zero divisor. */
  predicate UpperDividesByZero(t: Corners) {
    t.y0 < t.y2 && t.y0 <= LastUpper(t) && (Int16(t.y1 - t.y0) == 0 || Int16(t.y2 - t.y0) == 0)
  }

  /** ... or the second loop, from the row at which the first one leaves off. */
  predicate LowerDividesByZero(t: Corners) {
    var y := if t.y0 <= LastUpper(t) then LastUpper(t) + 1 else t.y0;
    t.y0 < t.y2 && y <= t.y2 && (Int16(t.y2 - t.y1) == 0 || Int16(t.y2 - t.y0) == 0)
  }

  /** The exact condition under which the source divides by zero: the two upper corners share the lowest row, so that
      y1 - 1 wraps around and the first loop is entered on an edge of height zero. */
  lemma DividesByZeroCondition(t: Corners)
    requires InInt16(t)
    ensures var s := t.Sort();
      UpperDividesByZero(s) || LowerDividesByZero(s) <==> s.y0 == s.y1 == -0x8000 < s.y2
  {
    WhenSorted(t.Sort());
  }

  lemma WhenSorted(s: Corners)
    requires s.Sorted() && -0x8000 <= s.y0 && s.y2 < 0x8000
    ensures UpperDividesByZero(s) <==> s.y0 == s.y1 == -0x8000 < s.y2
    ensures LowerDividesByZero(s) ==> s.y0 == s.y1 == -0x8000 < s.y2
  {}

  /** One such triangle. */
  lemma DividesByZeroAt()
    ensures var t := Corners(0, 0, 0, -0x8000, 1, -0x8000); InInt16(t) && UpperDividesByZero(t.Sort())
  {}

  /** The corners the source can take: every other triangle. */
  predicate Fits(t: Corners) {
    InInt16(t) && !(t.Sort().y0 == t.Sort().y1 == -0x8000 < t.Sort().y2)
  }

  /** The first loop of ssd1306_fill_triangle: edges 0-1 and 0-2. */
  method FillUpper(dev: Screen, ghost was: seq<bv8>, t: Corners, color: Color) returns (err: int, y: int)
    requires dev.Valid() && Fits(t) && t.Sorted() && t.y0 < t.y2
    requires was == dev.fb[..]
    modifies dev.fb
    ensures err == 0 ==> y == if t.y1 == t.y2 then t.y2 + 1 else t.y1
    ensures CornersOnScreen(dev, t) ==> err == 0 && dev.Painted(was, dev.fb[..], color, Above(t, y))
  {
    var dx01, dy01 := Difference(t.x0, t.y0, t.x1, t.y1);
    var dx02, dy02 := Difference(t.x0, t.y0, t.x2, t.y2);
    var sa, sb := 0, 0;
    var last := LastUpper(t);
    ghost var inside := CornersOnScreen(dev, t);
    y := t.y0;
    err := 0;
    NothingAbove(dev, was, color, t);
    while y <= last
      invariant t.y0 <= y <= last + 1
      invariant inside ==> sa == Along(dx01, y - t.y0) && sb == Along(dx02, y - t.y0)
      invariant inside ==> dev.Painted(was, dev.fb[..], color, Above(t, y))
      decreases last - y
    {
      err, sa, sb, y := UpperTurn(dev, was, t, inside, dx01, sa, dy01, dx02, sb, dy02, y, color);
      if err != 0 {
        return;
      }
    }
  }

  /** The extent of an edge in two int16_t. */
  method Difference(xa: int, ya: int, xb: int, yb: int) returns (dx: int, dy: int)
    ensures -0x8000 <= xb - xa < 0x8000 ==> dx == xb - xa
    ensures -0x8000 <= yb - ya < 0x8000 ==> dy == yb - ya
    ensures 0 < yb - ya < 0x1_0000 ==> dy != 0
  {
    dx, dy := Int16(xb - xa), Int16(yb - ya);
  }

  /** sa += dx in an int16_t, k scanlines into the loop. */
  method NextSum(dx: int, s: int, ghost k: int) returns (s': int)
    ensures -128 < dx < 128 && 0 <= k <= 64 && s == Along(dx, k) ==> s' == Along(dx, k + 1)
  {
    s' := Int16(s + dx);
    if -128 < dx < 128 && 0 <= k <= 64 {
      AlongFits(dx, k);
    }
  }

  /** The sums are restarted between the loops from the longhand product. */
  method StartSum(dx: int, k: int) returns (s: int)
    ensures -128 < dx < 128 && 0 <= k <= 64 ==> s == Along(dx, k)
  {
    s := Int16(dx * k);
    if -128 < dx < 128 && 0 <= k <= 64 {
      AlongIsProduct(dx, k);
      Scaled(dx, k, 64);
    }
  }

  /** The second loop: edges 1-2 and 0-2. */
  method FillLower(dev: Screen, ghost was: seq<bv8>, t: Corners, y0: int, color: Color) returns (err: int)
    requires dev.Valid() && Fits(t) && t.Sorted() && t.y0 < t.y2
    requires y0 == if t.y1 == t.y2 then t.y2 + 1 else t.y1
    requires CornersOnScreen(dev, t) ==> dev.Painted(was, dev.fb[..], color, Above(t, y0))
    modifies dev.fb
    ensures CornersOnScreen(dev, t) ==> err == 0 && dev.Painted(was, dev.fb[..], color, Above(t, t.y2 + 1))
  {
    var dx02, dy02 := Difference(t.x0, t.y0, t.x2, t.y2);
    var dx12, dy12 := Difference(t.x1, t.y1, t.x2, t.y2);
    var y := y0;
    var sa := StartSum(dx12, y - t.y1);
    var sb := StartSum(dx02, y - t.y0);
    ghost var inside := CornersOnScreen(dev, t);
    err := LowerRows(dev, was, t, inside, dx12, dy12, dx02, dy02, sa, sb, y, color);
  }

  method LowerRows(dev: Screen, ghost was: seq<bv8>, t: Corners, ghost inside: bool, dx12: int, dy12: int, dx02: int, dy02: int,
                   sa0: int, sb0: int, y0: int, color: Color)
    returns (err: int)
    requires dev.Valid() && t.Sorted() && dy02 != 0
    requires -0x8000 <= t.y1 <= y0 <= t.y2 + 1 <= 0x8000 && (y0 <= t.y2 ==> dy12 != 0 && t.y1 < t.y2)
    requires inside ==> LowerEdges(dev, t, dx12, dy12, dx02, dy02)
    requires inside ==> sa0 == Along(dx12, y0 - t.y1) && sb0 == Along(dx02, y0 - t.y0)
    requires inside ==> dev.Painted(was, dev.fb[..], color, Above(t, y0))
    modifies dev.fb
    ensures inside ==> err == 0 && dev.Painted(was, dev.fb[..], color, Above(t, t.y2 + 1))
  {
    var sa, sb, y := sa0, sb0, y0;
    err := 0;
    while y <= t.y2
      invariant y0 <= y <= t.y2 + 1
      invariant inside ==> sa == Along(dx12, y - t.y1) && sb == Along(dx02, y - t.y0)
      invariant inside ==> dev.Painted(was, dev.fb[..], color, Above(t, y))
      decreases t.y2 - y
    {
      err, sa, sb, y := LowerTurn(dev, was, t, inside, dx12, sa, dy12, dx02, sb, dy02, y, color);
      if err != 0 {
        return;
      }
    }
  }

  /** The sums and the row counter move on. */
  method NextRow(ghost inside: bool, dxa: int, sa: int, ghost topA: int, dxb: int, sb: int, ghost topB: int, y: int)
    returns (sa': int, sb': int, y': int)
    requires -0x8000 <= y < 0x7FFF
    requires inside ==> -128 < dxa < 128 && 0 <= y - topA <= 64 && sa == Along(dxa, y - topA)
    requires inside ==> -128 < dxb < 128 && 0 <= y - topB <= 64 && sb == Along(dxb, y - topB)
    ensures y' == y + 1
    ensures inside ==> sa' == Along(dxa, y' - topA) && sb' == Along(dxb, y' - topB)
  {
    sa' := NextSum(dxa, sa, y - topA);
    sb' := NextSum(dxb, sb, y - topB);
    y' := Int16(y + 1);
    assert y' - topA == y - topA + 1 && y' - topB == y - topB + 1;
  }

  lemma NothingAbove(dev: Screen, s: seq<bv8>, c: Color, t: Corners)
    requires dev.Valid() && t.Sorted() && |s| == dev.fb.Length
    ensures dev.Painted(s, s, c, Above(t, t.y0))
  {}

  lemma AllScanlines(dev: Screen, was: seq<bv8>, s: seq<bv8>, c: Color, t: Corners)
    requires dev.Valid() && dev.Painted(was, s, c, Above(t.Sort(), t.Sort().y2 + 1))
    ensures dev.Painted(was, s, c, TriangleOf(t))
  {}

  /** The all-on-one-scanline case. */
  method FillFlat(dev: Screen, t: Corners, color: Color) returns (err: int)
    requires dev.Valid() && t.Sorted() && t.y0 == t.y2
    modifies dev.fb
    ensures CornersOnScreen(dev, t) ==> err == 0 && dev.Painted(old(dev.fb[..]), dev.fb[..], color, Above(t, t.y2 + 1))
  {
    var a, b := t.x0, t.x0;
    if t.x1 < a {
      a := t.x1;
    } else if t.x1 > b {
      b := t.x1;
    }
    if t.x2 < a {
      a := t.x2;
    } else if t.x2 > b {
      b := t.x2;
    }
    NothingAbove(dev, dev.fb[..], color, t);
    err := DrawRow(dev, dev.fb[..], t, CornersOnScreen(dev, t), a, b, t.y0, color);
  }

  /** components/display/ssd1306.c: ssd1306_fill_triangle. */
  method FillTriangle(dev: Screen, t: Corners, color: Color) returns (err: int)
    requires dev.Valid() && Fits(t)
    modifies dev.fb
    ensures CornersOnScreen(dev, t) ==> err == 0 && dev.Painted(old(dev.fb[..]), dev.fb[..], color, TriangleOf(t))
  {
    ghost var was := dev.fb[..];
    var s := t.Sort();
    if s.y0 == s.y2 {
      err := FillFlat(dev, s, color);
    } else {
      var y: int;
      err, y := FillUpper(dev, was, s, color);
      if err != 0 {
        return;
      }
      err := FillLower(dev, was, s, y, color);
    }
    if CornersOnScreen(dev, t) {
      AllScanlines(dev, was, dev.fb[..], color, t);
    }
  }
}
