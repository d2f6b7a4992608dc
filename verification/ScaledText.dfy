/** Strings of scaled characters. */
module ScaledText {
  import opened Arith
  import opened Framebuffer
  import opened Glyphs

  /** How far a character moves the cursor: a character the font lacks counts as one pixel wide. */
  function Step(font: Font, c: nat, scale: nat): nat
    requires font.Valid()
  {
    match font.GetCharDesc(c)
    case None => scale
    case Some(d) => Multiple(scale, d.width)
  }

  /** Where the k-th character of the string starts; the font's gap lies between any two. */
  function Cursor(font: Font, gap: nat, str: seq<nat>, x0: int, scale: nat, k: nat): int
    requires font.Valid() && k < |str|
  {
    if k == 0 then x0 else Cursor(font, gap, str, x0, scale, k - 1) + Step(font, str[k - 1], scale) + Multiple(scale, gap)
  }

  /** The widths of the first k characters together; one the font lacks counts as one pixel. */
  function Widths(font: Font, str: seq<nat>, k: nat): nat
    requires font.Valid() && k <= |str|
  {
    if k == 0 then 0
    else
      var c := str[k - 1];
      Widths(font, str, k - 1) + if font.charStart <= c <= font.charEnd then font.descriptors[c - font.charStart].width else 1
  }

  lemma Distribute(a: int, b: int, c: int, s: int)
    ensures (a + b + c) * s == a * s + b * s + c * s
  {}

  /** A character stands where the widths before it and one gap for each of them put it, scaled. */
  lemma {:induction false} CursorIsSum(font: Font, gap: nat, str: seq<nat>, x0: int, scale: nat, k: nat)
    requires font.Valid() && k < |str|
    ensures Cursor(font, gap, str, x0, scale, k) == x0 + (Widths(font, str, k) + k * gap) * scale
  {
    if k > 0 {
      CursorIsSum(font, gap, str, x0, scale, k - 1);
      var w := Widths(font, str, k) - Widths(font, str, k - 1);
      MultipleIsProduct(scale, w);
      MultipleIsProduct(scale, gap);
      assert Multiple(scale, 1) == scale;
      assert Step(font, str[k - 1], scale) == w * scale;
      assert k * gap == (k - 1) * gap + gap;
      Distribute(Widths(font, str, k - 1) + (k - 1) * gap, w, gap, scale);
    }
  }

  /** The k-th character's blocks cover this pixel. */
  ghost predicate InChar(font: Font, gap: nat, str: seq<nat>, x0: int, y0: int, scale: nat, k: nat, px: int, py: int)
    requires font.Valid() && k < |str|
  {
    var d := font.GetCharDesc(str[k]);
    d.Some? && InScaled(font, d.value, Cursor(font, gap, str, x0, scale, k), y0, scale, px, py)
  }

  ghost predicate InText(font: Font, gap: nat, str: seq<nat>, x0: int, y0: int, scale: nat, n: nat, px: int, py: int)
    requires font.Valid() && n <= |str|
  {
    exists k: nat | k < n :: InChar(font, gap, str, x0, y0, scale, k, px, py)
  }

  /** The first n characters, each at its own place. */
  ghost function TextOf(font: Font, gap: nat, str: seq<nat>, x0: int, y0: int, scale: nat, n: nat): Region
    requires font.Valid() && n <= |str|
  {
    (px, py) => InText(font, gap, str, x0, y0, scale, n, px, py)
  }

  /** Every character can be drawn where it stands without an off-screen pixel coming back on screen. */
  ghost predicate TextFits(font: Font, gap: nat, str: seq<nat>, x0: int, y0: int, scale: nat)
    requires font.Valid()
  {
    forall k: nat | k < |str| ::
      var d := font.GetCharDesc(str[k]);
      d.Some? ==> ScaledFits(font, d.value, Cursor(font, gap, str, x0, scale, k), y0, scale)
  }

  lemma CharAdded(dev: Screen, was: seq<bv8>, s: seq<bv8>, t: seq<bv8>, font: Font, gap: nat, str: seq<nat>, x0: int, y0: int, scale: nat, n: nat)
    requires dev.Valid() && font.Valid() && n < |str|
    requires dev.Painted(was, s, White, TextOf(font, gap, str, x0, y0, scale, n))
    requires var d := font.GetCharDesc(str[n]);
      if d.Some? then dev.Painted(s, t, White, ScaledGlyph(font, d.value, Cursor(font, gap, str, x0, scale, n), y0, scale)) else t == s
    ensures dev.Painted(was, t, White, TextOf(font, gap, str, x0, y0, scale, n + 1))
  {
    forall px, py | dev.OnScreen(px, py)
      ensures dev.LitIn(t, px, py) == (TextOf(font, gap, str, x0, y0, scale, n + 1)(px, py) || dev.LitIn(was, px, py))
    {
      var before := InText(font, gap, str, x0, y0, scale, n, px, py);
      var here := InChar(font, gap, str, x0, y0, scale, n, px, py);
      assert InText(font, gap, str, x0, y0, scale, n + 1, px, py) == (before || here);
      assert dev.LitIn(s, px, py) == if before then true else dev.LitIn(was, px, py);
      assert dev.LitIn(t, px, py) == if here then true else dev.LitIn(s, px, py);
    }
  }

  lemma NoText(dev: Screen, s: seq<bv8>, font: Font, gap: nat, str: seq<nat>, x0: int, y0: int, scale: nat)
    requires dev.Valid() && font.Valid() && |s| == dev.fb.Length
    ensures dev.Painted(s, s, White, TextOf(font, gap, str, x0, y0, scale, 0))
  {}

  /** components/display/Display.c: display_draw_string_scaled. gap is the font's space between adjacent characters. */
  method DrawStringScaled(dev: Screen, font: Font, gap: nat, x0: int, y0: int, str: seq<nat>, scale: nat)
    requires dev.Valid() && font.Valid()
    modifies dev.fb
    ensures TextFits(font, gap, str, x0, y0, scale)
            ==> dev.Painted(old(dev.fb[..]), dev.fb[..], White, TextOf(font, gap, str, x0, y0, scale, |str|))
  {
    ghost var was, inside := dev.fb[..], TextFits(font, gap, str, x0, y0, scale);
    NoText(dev, was, font, gap, str, x0, y0, scale);
    var x, i := x0, 0;
    while i < |str|
      invariant 0 <= i <= |str| && (i < |str| ==> x == Cursor(font, gap, str, x0, scale, i))
      invariant inside ==> dev.Painted(was, dev.fb[..], White, TextOf(font, gap, str, x0, y0, scale, i))
    {
      ghost var s := dev.fb[..];
      DrawCharScaled(dev, font, x, y0, str[i], scale);
      if inside {
        CharAdded(dev, was, s, dev.fb[..], font, gap, str, x0, y0, scale, i);
      }
      var ch := font.GetCharDesc(str[i]);
      x := x + if ch.Some? then Multiple(scale, ch.value.width) else scale;
      i := i + 1;
      if i < |str| {
        x := x + Multiple(scale, gap);
      }
    }
  }
}
