/** Bresenham lines: one pixel per step along the longer axis, the nearest one to the ideal line. */
module Line {
  import opened Arith
  import opened Framebuffer

  type int16 = v: int | -0x8000 <= v < 0x8000

  /** A line after ssd1306_draw_line has exchanged the axes of a steep line and put its ends in order: x is the longer axis. */
  datatype Run = Run(steep: bool, x0: int, y0: int, x1: int, y1: int) {
    function Dx(): int { x1 - x0 }

    function Dy(): int { Abs(y1 - y0) }

    /** Where the shorter axis stands after j steps, and back: it runs upwards or downwards. */
    function Minor(j: int): int { if y0 < y1 then y0 + j else y0 - j }

    function Steps(n: int): int { if y0 < y1 then n - y0 else y0 - n }

    ghost predicate Ordered() {
      0 <= Dy() <= Dx()
    }
  }

  function Normalised(x0: int, y0: int, x1: int, y1: int): (run: Run)
    ensures run.Ordered()
  {
    var steep := Abs(y1 - y0) > Abs(x1 - x0);
    var (a0, b0, a1, b1) := if steep then (y0, x0, y1, x1) else (x0, y0, x1, y1);
    if a0 > a1 then Run(steep, a1, b1, a0, b0) else Run(steep, a0, b0, a1, b1)
  }

  /** After k steps along the longer axis the line stands j steps along the shorter one. */
  ghost predicate StandsAt(dx: int, dy: int, k: int, j: int) {
    0 <= k <= dx && if dx == 0 then j == 0 else 0 <= dx / 2 - k * dy + j * dx < dx
  }

  ghost predicate OnRun(run: Run, px: int, py: int) {
    var (m, n) := if run.steep then (py, px) else (px, py);
    StandsAt(run.Dx(), run.Dy(), m - run.x0, run.Steps(n))
  }

  /** The pixels of the line from (x0, y0) to (x1, y1). */
  ghost predicate OnLine(x0: int, y0: int, x1: int, y1: int, px: int, py: int) {
    OnRun(Normalised(x0, y0, x1, y1), px, py)
  }

  ghost function LineOf(x0: int, y0: int, x1: int, y1: int): Region {
    (px, py) => OnLine(x0, y0, x1, y1, px, py)
  }

  /** The part of a run before the longer-axis coordinate m. */
  ghost predicate OnRunBefore(run: Run, m: int, px: int, py: int) {
    OnRun(run, px, py) && (if run.steep then py else px) < m
  }

  ghost function RunBefore(run: Run, m: int): Region {
    (px, py) => OnRunBefore(run, m, px, py)
  }

  /** One pixel per step, and it is on the segment. */
  lemma StandsAtUnique(dx: int, dy: int, k: int, j: int, j': int)
    requires 0 <= dy <= dx && StandsAt(dx, dy, k, j) && StandsAt(dx, dy, k, j')
    ensures j == j' && 0 <= j <= dy
  {
    Apart(j, j', dx);
    Apart(j', j, dx);
    Apart(j, 0, dx);
    Apart(dy, j, dx);
    Apart(0, k, dy);
    Apart(k, dx, dy);
  }

  /** Each pixel lies within half a pixel of the ideal line, measured along the shorter axis. */
  lemma WithinHalfAPixel(dx: int, dy: int, k: int, j: int)
    requires StandsAt(dx, dy, k, j)
    ensures 2 * Abs(j * dx - k * dy) <= dx
  {}

  lemma {:induction false} StandsSomewhere(dx: int, dy: int, k: int) returns (j: int)
    requires 0 <= dy <= dx && 0 <= k <= dx
    ensures StandsAt(dx, dy, k, j)
    decreases k
  {
    if k == 0 {
      j := 0;
    } else {
      var i := StandsSomewhere(dx, dy, k - 1);
      var err := dx / 2 - (k - 1) * dy + i * dx;
      StandsNext(dx, dy, k - 1, i, err);
      j := if err - dy < 0 then i + 1 else i;
    }
  }

  /** ... with err left in the error term. */
  ghost predicate StandsWith(dx: int, dy: int, k: int, j: int, err: int) {
    StandsAt(dx, dy, k, j) && err == dx / 2 - k * dy + j * dx
  }

  lemma StandsAtStart(dx: int, dy: int)
    requires 0 <= dy <= dx
    ensures StandsWith(dx, dy, 0, 0, dx / 2)
  {}

  /** One step of the error term keeps the line standing where it should. */
  lemma StandsNext(dx: int, dy: int, k: int, j: int, err: int)
    requires 0 <= dy <= dx && k < dx && StandsWith(dx, dy, k, j, err)
    ensures if err - dy < 0 then StandsWith(dx, dy, k + 1, j + 1, err - dy + dx) else StandsWith(dx, dy, k + 1, j, err - dy)
  {}

  /** The line ends exactly on its end points. */
  lemma EndsOnEndPoints(x0: int, y0: int, x1: int, y1: int)
    ensures OnLine(x0, y0, x1, y1, x0, y0) && OnLine(x0, y0, x1, y1, x1, y1)
  {
    var run := Normalised(x0, y0, x1, y1);
    StandsAtEnds(run.Dx(), run.Dy());
  }

  lemma StandsAtEnds(dx: int, dy: int)
    requires 0 <= dy <= dx
    ensures StandsAt(dx, dy, 0, 0) && StandsAt(dx, dy, dx, dy)
  {}

  /** Exchanging the end points draws the same pixels. */
  lemma LineSymmetric(x0: int, y0: int, x1: int, y1: int, px: int, py: int)
    ensures OnLine(x0, y0, x1, y1, px, py) == OnLine(x1, y1, x0, y0, px, py)
  {}

  /** A line stays inside the box of its end points. */
  lemma LineInBox(x0: int, y0: int, x1: int, y1: int, px: int, py: int)
    requires OnLine(x0, y0, x1, y1, px, py)
    ensures Min(x0, x1) <= px <= Max(x0, x1) && Min(y0, y1) <= py <= Max(y0, y1)
  {
    var run := Normalised(x0, y0, x1, y1);
    var (m, n) := if run.steep then (py, px) else (px, py);
    var j := run.Steps(n);
    StandsAtUnique(run.Dx(), run.Dy(), m - run.x0, j, j);
  }

  lemma RunGrows(run: Run, k: int, j: int, px: int, py: int)
    requires run.Ordered() && StandsAt(run.Dx(), run.Dy(), k, j)
    ensures var (m, n) := (run.x0 + k, run.Minor(j));
      && OnRunBefore(run, m + 1, px, py) == (OnRunBefore(run, m, px, py) || (if run.steep then px == n && py == m else px == m && py == n))
      && (OnRunBefore(run, m, px, py) ==> !(if run.steep then px == n && py == m else px == m && py == n))
  {
    var (m, n) := if run.steep then (py, px) else (px, py);
    var j' := run.Steps(n);
    if m == run.x0 + k && StandsAt(run.Dx(), run.Dy(), k, j') {
      StandsAtUnique(run.Dx(), run.Dy(), k, j, j');
    }
  }

  lemma LineStep(dev: Screen, was: seq<bv8>, s: seq<bv8>, t: seq<bv8>, c: Color, run: Run, k: int, j: int)
    requires dev.Valid() && run.Ordered() && StandsAt(run.Dx(), run.Dy(), k, j)
    requires dev.Painted(was, s, c, RunBefore(run, run.x0 + k))
    requires var (m, n) := (run.x0 + k, run.Minor(j));
      dev.Painted(s, t, c, if run.steep then Dot(n, m) else Dot(m, n))
    ensures dev.Painted(was, t, c, RunBefore(run, run.x0 + k + 1))
  {
    var (m, n) := (run.x0 + k, run.Minor(j));
    forall px, py | dev.OnScreen(px, py)
      ensures dev.LitIn(t, px, py) == if RunBefore(run, m + 1)(px, py) then Recolor(c, dev.LitIn(was, px, py)) else dev.LitIn(was, px, py)
    {
      RunGrows(run, k, j, px, py);
      assert dev.LitIn(s, px, py) == if OnRunBefore(run, m, px, py) then Recolor(c, dev.LitIn(was, px, py)) else dev.LitIn(was, px, py);
    }
  }

  lemma RunComplete(dev: Screen, was: seq<bv8>, s: seq<bv8>, c: Color, x0: int, y0: int, x1: int, y1: int)
    requires var run := Normalised(x0, y0, x1, y1);
      dev.Valid() && dev.Painted(was, s, c, RunBefore(run, run.x1 + 1))
    ensures dev.Painted(was, s, c, LineOf(x0, y0, x1, y1))
  {}

  /** Both ends of a run are on screen. */
  predicate RunOnScreen(dev: Screen, run: Run) {
    if run.steep then dev.OnScreen(run.y0, run.x0) && dev.OnScreen(run.y1, run.x1)
    else dev.OnScreen(run.x0, run.y0) && dev.OnScreen(run.x1, run.y1)
  }

  /** One pixel of the run. */
  method DrawRunPixel(dev: Screen, ghost was: seq<bv8>, run: Run, ghost k: int, ghost j: int, x: int, y: int, color: Color)
    returns (err: int)
    requires dev.Valid() && run.Ordered() && RunOnScreen(dev, run)
    requires StandsAt(run.Dx(), run.Dy(), k, j) && x == run.x0 + k && y == run.Minor(j)
    requires dev.Painted(was, dev.fb[..], color, RunBefore(run, x))
    modifies dev.fb
    ensures err == 0 && dev.Painted(was, dev.fb[..], color, RunBefore(run, x + 1))
  {
    ghost var s := dev.fb[..];
    StandsAtUnique(run.Dx(), run.Dy(), k, j, j);
    if run.steep {
      err := dev.DrawPixel(y, x, color);
    } else {
      err := dev.DrawPixel(x, y, color);
    }
    LineStep(dev, was, s, dev.fb[..], color, run, k, j);
  }

  /** The shorter axis moves when the error term would become negative. */
  ghost function Stepped(run: Run, j: int, errx: int): int {
    if errx - run.Dy() < 0 then j + 1 else j
  }

  /** The error term's step to the next pixel. */
  method NextPixel(run: Run, ghost k: int, ghost j: int, y: int, errx: int) returns (y': int, errx': int)
    requires run.Ordered() && y == run.Minor(j) && StandsWith(run.Dx(), run.Dy(), k, j, errx)
    ensures y' == run.Minor(Stepped(run, j, errx))
    ensures k < run.Dx() ==> StandsWith(run.Dx(), run.Dy(), k + 1, Stepped(run, j, errx), errx')
  {
    if k < run.Dx() {
      StandsNext(run.Dx(), run.Dy(), k, j, errx);
    }
    y', errx' := y, errx - run.Dy();
    if errx' < 0 {
      y' := y + if run.y0 < run.y1 then 1 else -1;
      errx' := errx' + run.Dx();
    }
  }

  /** One turn of the loop. */
  method DrawTurn(dev: Screen, ghost was: seq<bv8>, run: Run, ghost j: int, x: int, y: int, errx: int, color: Color)
    returns (err: int, y': int, errx': int)
    requires dev.Valid() && run.Ordered() && RunOnScreen(dev, run)
    requires run.x0 <= x && y == run.Minor(j) && StandsWith(run.Dx(), run.Dy(), x - run.x0, j, errx)
    requires dev.Painted(was, dev.fb[..], color, RunBefore(run, x))
    modifies dev.fb
    ensures err == 0 && dev.Painted(was, dev.fb[..], color, RunBefore(run, x + 1))
    ensures y' == run.Minor(Stepped(run, j, errx))
    ensures x < run.x1 ==> StandsWith(run.Dx(), run.Dy(), x + 1 - run.x0, Stepped(run, j, errx), errx')
  {
    err := DrawRunPixel(dev, was, run, x - run.x0, j, x, y, color);
    if err != 0 {
      return err, y, errx;
    }
    y', errx' := NextPixel(run, x - run.x0, j, y, errx);
  }

  /** The loop of ssd1306_draw_line. */
  method DrawRun(dev: Screen, run: Run, color: Color) returns (err: int)
    requires dev.Valid() && run.Ordered() && RunOnScreen(dev, run)
    modifies dev.fb
    ensures err == 0 && dev.Painted(old(dev.fb[..]), dev.fb[..], color, RunBefore(run, run.x1 + 1))
  {
    var x, y := run.x0, run.y0;
    var dx, dy := run.Dx(), run.Dy();
    var errx := dx / 2;
    ghost var was := dev.fb[..];
    ghost var j := 0;
    NothingBefore(dev, was, color, run);
    StandsAtStart(dx, dy);
    while x <= run.x1
      invariant run.x0 <= x <= run.x1 + 1 && y == run.Minor(j)
      invariant x <= run.x1 ==> StandsWith(dx, dy, x - run.x0, j, errx)
      invariant dev.Painted(was, dev.fb[..], color, RunBefore(run, x))
    {
      ghost var term := errx;
      err, y, errx := DrawTurn(dev, was, run, j, x, y, errx, color);
      if err != 0 {
        return;
      }
      j := Stepped(run, j, term);
      x := x + 1;
    }
    return 0;
  }

  lemma NothingBefore(dev: Screen, s: seq<bv8>, c: Color, run: Run)
    requires dev.Valid() && |s| == dev.fb.Length
    ensures dev.Painted(s, s, c, RunBefore(run, run.x0))
  {}

  /** The exchanges before the loop. */
  method Normalise(ax0: int, ay0: int, ax1: int, ay1: int) returns (run: Run)
    ensures run == Normalised(ax0, ay0, ax1, ay1)
  {
    var x0, y0, x1, y1 := ax0, ay0, ax1, ay1;
    var steep := Abs(y1 - y0) > Abs(x1 - x0);
    if steep {
      x0, y0 := y0, x0;
      x1, y1 := y1, x1;
    }
    if x0 > x1 {
      x0, x1 := x1, x0;
      y0, y1 := y1, y0;
    }
    return Run(steep, x0, y0, x1, y1);
  }

  /** components/display/ssd1306.c: ssd1306_draw_line. */
  method DrawLine(dev: Screen, x0: int16, y0: int16, x1: int16, y1: int16, color: Color) returns (err: int)
    requires dev.Valid()
    modifies dev.fb
    ensures if dev.OnScreen(x0, y0) && dev.OnScreen(x1, y1)
      then err == 0 && dev.Painted(old(dev.fb[..]), dev.fb[..], color, LineOf(x0, y0, x1, y1))
      else err == -EINVAL && dev.fb[..] == old(dev.fb[..])
  {
    if x0 >= dev.width || x0 < 0 || y0 >= dev.height || y0 < 0 {
      return -EINVAL;
    }
    if x1 >= dev.width || x1 < 0 || y1 >= dev.height || y1 < 0 {
      return -EINVAL;
    }
    ghost var was := dev.fb[..];
    var run := Normalise(x0, y0, x1, y1);
    err := DrawRun(dev, run, color);
    RunComplete(dev, was, dev.fb[..], color, x0, y0, x1, y1);
  }
}
