/** The page-packed one-bit framebuffer: bit y%8 of byte x + (y/8)*width is the pixel (x, y). */
module Framebuffer {
  import opened Arith
  import opened Bits

  const EINVAL := 22
  const ERANGE := 34

  datatype Color = Transparent | Black | White | Invert

  /** What drawing a pixel in colour c does to it. */
  function Recolor(c: Color, lit: bool): bool {
    match c
    case Transparent => lit
    case Black => false
    case White => true
    case Invert => !lit
  }

  /** A set of pixels, as its membership test. */
  type Region = (int, int) -> bool

  ghost function Dot(x: int, y: int): Region {
    Rect(x, x + 1, y, y + 1)
  }

  ghost function Rect(x0: int, x1: int, y0: int, y1: int): Region {
    (px, py) => x0 <= px < x1 && y0 <= py < y1
  }

  /** Implicit conversion of an int argument to an int8_t parameter. */
  function Int8(v: int): (r: int)
    ensures -128 <= r < 128
    ensures -128 <= v < 128 ==> r == v
  {
    if -128 <= v < 128 then v else (v + 128) % 256 - 128
  }

  /** Implicit conversion of an int argument to a uint8_t parameter. */
  function UInt8(v: int): (r: int)
    ensures 0 <= r < 256
    ensures 0 <= v < 256 ==> r == v
  {
    if 0 <= v < 256 then v else v % 256
  }

  /** The conversions change the value by a multiple of 256, as the processor's do. */
  lemma Narrowed(v: int) returns (p: int, q: int)
    ensures v == Int8(v) + 256 * p && v == UInt8(v) + 256 * q
  {
    p := if -128 <= v < 128 then 0 else (v + 128) / 256;
    q := v / 256;
  }

  lemma NextPage(y: nat)
    requires y % 8 != 0
    ensures (y + 7) / 8 == y / 8 + 1 && 8 * (y / 8) + 8 == 8 * ((y + 7) / 8) == y + (8 - y % 8)
  {}

  class Screen {
    const width: nat
    const height: nat
    const fb: array<bv8>

    /** Everything here is fixed at construction, so it never has to be re-established. */
    ghost predicate Valid() {
      && 1 <= width <= 128
      && (height == 16 || height == 32 || height == 64)
      && fb.Length == Multiple(width, height / 8)
    }

    predicate OnScreen(x: int, y: int) {
      0 <= x < width && 0 <= y < height
    }

    function Index(x: int, y: int): (i: nat)
      requires Valid() && OnScreen(x, y)
      ensures i < fb.Length
    {
      MultiplesApart(width, y / 8, height / 8);
      x + Multiple(width, y / 8)
    }

    ghost predicate LitIn(s: seq<bv8>, x: int, y: int)
      requires Valid() && |s| == fb.Length && OnScreen(x, y)
    {
      Bit(s[Index(x, y)], y % 8)
    }

    /** Buffer t is buffer s with exactly the on-screen pixels of region r recoloured. */
    ghost predicate Painted(s: seq<bv8>, t: seq<bv8>, c: Color, r: Region)
      requires Valid()
    {
      && |s| == |t| == fb.Length
      && forall x, y | OnScreen(x, y) :: LitIn(t, x, y) == if r(x, y) then Recolor(c, LitIn(s, x, y)) else LitIn(s, x, y)
    }

    /** What painting does to a pixel, in the driver's own terms: white sets bit y & 7 of byte x + (y / 8) * width, black
        clears it, invert flips it, and everything outside the region and everything transparent keeps it. */
    lemma PaintedMeans(s: seq<bv8>, t: seq<bv8>, c: Color, r: Region, x: int, y: int)
      requires Valid() && Painted(s, t, c, r) && OnScreen(x, y)
      ensures var i, mask := x + (y / 8) * width, (1 as bv8) << (y % 8);
        && 0 <= i < |s| == |t|
        && (r(x, y) && c == White ==> t[i] & mask != 0)
        && (r(x, y) && c == Black ==> t[i] & mask == 0)
        && (r(x, y) && c == Invert ==> (t[i] & mask != 0 <==> s[i] & mask == 0))
        && (!r(x, y) || c == Transparent ==> (t[i] & mask != 0 <==> s[i] & mask != 0))
    {
      MultipleIsProduct(width, y / 8);
      BitMaskIsShift(y % 8);
      assert Index(x, y) == x + (y / 8) * width;
      assert LitIn(t, x, y) == if r(x, y) then Recolor(c, LitIn(s, x, y)) else LitIn(s, x, y);
    }

    lemma IndexUnique(x: int, y: int, x': int, y': int)
      requires Valid() && OnScreen(x, y) && OnScreen(x', y')
      requires Index(x, y) == Index(x', y')
      ensures x == x' && y / 8 == y' / 8
    {
      var p, p' := y / 8, y' / 8;
      if p < p' {
        MultiplesApart(width, p, p');
        assert false;
      } else if p' < p {
        MultiplesApart(width, p', p);
        assert false;
      }
    }

    /** Painting nothing. */
    lemma PaintedNothing(s: seq<bv8>, c: Color, r: Region)
      requires Valid() && |s| == fb.Length
      requires forall x, y | OnScreen(x, y) :: !r(x, y)
      ensures Painted(s, s, c, r)
    {}

    /** Two paintings in the same colour are one painting of the union, provided INVERT never meets a pixel twice. */
    lemma PaintedUnion(s: seq<bv8>, t: seq<bv8>, u: seq<bv8>, c: Color, r1: Region, r2: Region, r: Region)
      requires Valid() && Painted(s, t, c, r1) && Painted(t, u, c, r2)
      requires forall x, y | OnScreen(x, y) :: r(x, y) == (r1(x, y) || r2(x, y))
      requires c == Invert ==> forall x, y | OnScreen(x, y) :: !(r1(x, y) && r2(x, y))
      ensures Painted(s, u, c, r)
    {}

    /** Every byte is some column of some page. */
    lemma Located(i: nat) returns (x: int, page: int)
      requires Valid() && i < fb.Length
      ensures OnScreen(x, 8 * page) && 8 * page + 7 < height && Index(x, 8 * page) == i
    {
      x, page := i, 0;
      while x >= width
        invariant 0 <= x && 0 <= page && x + Multiple(width, page) == i
        decreases x
      {
        x, page := x - width, page + 1;
      }
      if page >= height / 8 {
        if page > height / 8 { MultiplesApart(width, height / 8, page); }
        assert false;
      }
    }

    /** Equal pixels make equal bytes. */
    lemma SameByte(t: seq<bv8>, t': seq<bv8>, i: nat)
      requires Valid() && |t| == |t'| == fb.Length && i < |t|
      requires forall x, y | OnScreen(x, y) :: LitIn(t, x, y) == LitIn(t', x, y)
      ensures t[i] == t'[i]
    {
      var x, page := Located(i);
      forall k: nat | k < 8 ensures Bit(t[i], k) == Bit(t'[i], k) {
        var y := 8 * page + k;
        assert OnScreen(x, y) && Index(x, y) == i;
        assert LitIn(t, x, y) == LitIn(t', x, y);
      }
      SameBits(t[i], t'[i]);
    }

    /** Painting is a function of the old buffer, the colour and the region. */
    lemma PaintedUnique(s: seq<bv8>, t: seq<bv8>, t': seq<bv8>, c: Color, r: Region)
      requires Valid() && Painted(s, t, c, r) && Painted(s, t', c, r)
      ensures t == t'
    {
      assert forall x, y | OnScreen(x, y) :: LitIn(t, x, y) == LitIn(t', x, y);
      forall i | 0 <= i < |t| ensures t[i] == t'[i] {
        SameByte(t, t', i);
      }
    }

    /** Replacing one byte by one whose rows lo..hi are recoloured paints those rows of that column. */
    lemma BytePainted(s: seq<bv8>, x: int, page: int, c: Color, lo: nat, hi: nat, b: bv8)
      requires Valid() && OnScreen(x, 8 * page) && |s| == fb.Length && hi <= 8
      requires forall k: nat | k < 8 :: Bit(b, k) == if lo <= k < hi then Recolor(c, Bit(s[Index(x, 8 * page)], k)) else Bit(s[Index(x, 8 * page)], k)
      ensures Painted(s, s[Index(x, 8 * page) := b], c, Rect(x, x + 1, 8 * page + lo, 8 * page + hi))
    {
      var i := Index(x, 8 * page);
      var r := Rect(x, x + 1, 8 * page + lo, 8 * page + hi);
      var t := s[i := b];
      forall x', y' | OnScreen(x', y')
        ensures LitIn(t, x', y') == if r(x', y') then Recolor(c, LitIn(s, x', y')) else LitIn(s, x', y')
      {
        var k := y' - 8 * page;
        if x' == x && 0 <= k < 8 {
          assert Index(x', y') == i && y' % 8 == k;
        } else {
          if Index(x', y') == i {
            IndexUnique(x', y', x, 8 * page);
            assert false;
          }
        }
      }
    }

    /** Blending a mask of rows lo..hi into one byte paints those rows of that column. */
    lemma ByteBlended(s: seq<bv8>, x: int, page: int, c: Color, m: bv8, lo: nat, hi: nat)
      requires Valid() && OnScreen(x, 8 * page) && |s| == fb.Length && hi <= 8
      requires BitsFromTo(m, lo, hi)
      ensures Painted(s, s[Index(x, 8 * page) := Blend(c, s[Index(x, 8 * page)], m)], c, Rect(x, x + 1, 8 * page + lo, 8 * page + hi))
    {
      BlendBits(c, s[Index(x, 8 * page)], m, lo, hi);
      BytePainted(s, x, page, c, lo, hi, Blend(c, s[Index(x, 8 * page)], m));
    }

    /** The switch on the colour in every primitive: one masked byte. The primitives below call it where the source
        repeats the switch, inside the loop where the source puts one loop in each branch. */
    method Combine(index: nat, mask: bv8, color: Color)
      requires index < fb.Length
      modifies fb
      ensures fb[..] == old(fb[..])[index := Blend(color, old(fb[index]), mask)]
    {
      match color {
        case White => fb[index] := fb[index] | mask;
        case Black => fb[index] := fb[index] & !mask;
        case Invert => fb[index] := fb[index] ^ mask;
        case Transparent =>
      }
    }

    /** Index is the source's x + (y / 8) * width. */
    lemma IndexFormula(x: int, y: int)
      requires Valid() && OnScreen(x, y)
      ensures Index(x, y) == x + (y / 8) * width
    {
      MultipleIsProduct(width, y / 8);
    }

    /** All rows of a page share one byte. */
    lemma SamePage(x: int, y: int)
      requires Valid() && OnScreen(x, y)
      ensures Index(x, y) == Index(x, 8 * (y / 8))
      ensures 8 * (y / 8) + y % 8 == y
    {}

    /** One more pixel to the right end of a horizontal run. */
    lemma RowGrows(was: seq<bv8>, s: seq<bv8>, x0: int, x: int, y: int, c: Color)
      requires Valid() && OnScreen(x, y) && x0 <= x && Painted(was, s, c, Rect(x0, x, y, y + 1))
      ensures Index(x, y) == x + Multiple(width, y / 8)
      ensures Painted(was, s[Index(x, y) := Blend(c, s[Index(x, y)], BitMask(y % 8))], c, Rect(x0, x + 1, y, y + 1))
    {
      SamePage(x, y);
      OneBit(y % 8);
      ByteBlended(s, x, y / 8, c, BitMask(y % 8), y % 8, y % 8 + 1);
      PaintedUnion(was, s, s[Index(x, y) := Blend(c, s[Index(x, y)], BitMask(y % 8))], c,
                   Rect(x0, x, y, y + 1), Rect(x, x + 1, y, y + 1), Rect(x0, x + 1, y, y + 1));
    }

    /** Rows lo..hi of one more page at the lower end of a vertical run that ends where they begin. */
    lemma ColumnGrows(was: seq<bv8>, s: seq<bv8>, x: int, y0: int, page: int, c: Color, m: bv8, lo: nat, hi: nat)
      requires Valid() && OnScreen(x, 8 * page) && lo <= hi <= 8 && y0 <= 8 * page + lo
      requires Painted(was, s, c, Rect(x, x + 1, y0, 8 * page + lo)) && BitsFromTo(m, lo, hi)
      ensures Index(x, 8 * page) == x + Multiple(width, page)
      ensures Painted(was, s[Index(x, 8 * page) := Blend(c, s[Index(x, 8 * page)], m)], c, Rect(x, x + 1, y0, 8 * page + hi))
    {
      ByteBlended(s, x, page, c, m, lo, hi);
      PaintedUnion(was, s, s[Index(x, 8 * page) := Blend(c, s[Index(x, 8 * page)], m)], c,
                   Rect(x, x + 1, y0, 8 * page + lo), Rect(x, x + 1, 8 * page + lo, 8 * page + hi), Rect(x, x + 1, y0, 8 * page + hi));
    }

    /** Inverting the same region twice restores the buffer, byte for byte. */
    lemma InvertedTwice(s: seq<bv8>, t: seq<bv8>, u: seq<bv8>, r: Region)
      requires Valid() && Painted(s, t, Invert, r) && Painted(t, u, Invert, r)
      ensures u == s
    {
      forall x, y | OnScreen(x, y) ensures LitIn(u, x, y) == LitIn(s, x, y) {
        assert LitIn(u, x, y) == if r(x, y) then !LitIn(t, x, y) else LitIn(t, x, y);
      }
      PaintedUnique(s, u, s, Transparent, r);
    }

    /** components/display/ssd1306.c: ssd1306_draw_pixel. */
    method DrawPixel(ax: int, ay: int, color: Color) returns (err: int)
      requires Valid()
      modifies fb
      ensures err == if OnScreen(Int8(ax), Int8(ay)) then 0 else -EINVAL
      ensures err != 0 ==> fb[..] == old(fb[..])
      ensures err == 0 ==> Painted(old(fb[..]), fb[..], color, Dot(Int8(ax), Int8(ay)))
    {
      var x, y := Int8(ax), Int8(ay);
      ghost var was := fb[..];
      if x >= width || x < 0 || y >= height || y < 0 {
        return -EINVAL;
      }
      SamePage(x, y);
      var index := Index(x, y);
      Combine(index, BitMask(y % 8), color);
      OneBit(y % 8);
      ByteBlended(was, x, y / 8, color, BitMask(y % 8), y % 8, y % 8 + 1);
      return 0;
    }

    /** components/display/ssd1306.c: ssd1306_draw_hline. A zero width is an error; a long line is cut at the right edge. */
    method DrawHLine(ax: int, ay: int, aw: int, color: Color) returns (err: int)
      requires Valid()
      modifies fb
      ensures err == if OnScreen(Int8(ax), Int8(ay)) && UInt8(aw) != 0 then 0 else -EINVAL
      ensures err != 0 ==> fb[..] == old(fb[..])
      ensures err == 0 ==> Painted(old(fb[..]), fb[..], color, Rect(Int8(ax), Min(Int8(ax) + UInt8(aw), width), Int8(ay), Int8(ay) + 1))
    {
      var x, y, w := Int8(ax), Int8(ay), UInt8(aw);
      if x >= width || x < 0 || y >= height || y < 0 {
        return -EINVAL;
      }
      if w == 0 {
        return -EINVAL;
      }
      if x + w > width {
        w := width - x;
      }
      DrawRun(x, y, w, color);
      return 0;
    }

    /** ssd1306_draw_hline once its arguments are checked and clipped. */
    method DrawRun(x: int, y: int, w: nat, color: Color)
      requires Valid() && OnScreen(x, y) && x + w <= width
      modifies fb
      ensures Painted(old(fb[..]), fb[..], color, Rect(x, x + w, y, y + 1))
    {
      ghost var was := fb[..];
      var t := w;
      SamePage(x, y);
      var index := Index(x, y);
      var mask := BitMask(y % 8);
      PaintedNothing(was, color, Rect(x, x, y, y + 1));
      while t > 0
        invariant 0 <= t <= w && index == x + w - t + Multiple(width, y / 8)
        invariant Painted(was, fb[..], color, Rect(x, x + w - t, y, y + 1))
      {
        DrawNext(was, x, x + w - t, y, index, mask, color);
        index := index + 1;
        t := t - 1;
      }
    }

    /** One more pixel of the run. */
    method DrawNext(ghost was: seq<bv8>, ghost x0: int, ghost x: int, ghost y: int, index: nat, mask: bv8, color: Color)
      requires Valid() && OnScreen(x, y) && x0 <= x && index == x + Multiple(width, y / 8) && mask == BitMask(y % 8)
      requires Painted(was, fb[..], color, Rect(x0, x, y, y + 1))
      modifies fb
      ensures Painted(was, fb[..], color, Rect(x0, x + 1, y, y + 1))
    {
      RowGrows(was, fb[..], x0, x, y, color);
      Combine(index, mask, color);
    }

    /** The top, partial byte of ssd1306_draw_vline. */
    method DrawTop(x: int, y: int, t: nat, color: Color)
      requires Valid() && OnScreen(x, y) && y % 8 != 0
      modifies fb
      ensures Painted(old(fb[..]), fb[..], color, Rect(x, x + 1, y, Min(8 * (y / 8) + 8, y + t)))
    {
      ghost var was := fb[..];
      SamePage(x, y);
      PaintedNothing(was, color, Rect(x, x + 1, y, y));
      ColumnGrows(was, was, x, y, y / 8, color, TopMask(8 - y % 8, t), y % 8, Min(8, y % 8 + t));
      Combine(Index(x, y), TopMask(8 - y % 8, t), color);
    }

    /** The part of ssd1306_draw_vline below the top mask: whole bytes, then the bottom mask. */
    method DrawAligned(ghost was: seq<bv8>, ghost x: int, ghost y0: int, ghost page0: nat, index0: nat, t0: nat, color: Color)
      requires Valid() && 0 <= x < width && y0 <= 8 * page0 && 8 * page0 + t0 <= height
      requires index0 == x + Multiple(width, page0)
      requires Painted(was, fb[..], color, Rect(x, x + 1, y0, 8 * page0))
      modifies fb
      ensures Painted(was, fb[..], color, Rect(x, x + 1, y0, 8 * page0 + t0))
    {
      var index, t := index0, t0;
      ghost var page := page0;
      while t >= 8
        invariant 0 <= t <= t0 && 8 * page0 + t0 - t == 8 * page && index == x + Multiple(width, page)
        invariant Painted(was, fb[..], color, Rect(x, x + 1, y0, 8 * page))
      {
        DrawWhole(was, x, y0, page, index, color);
        index := index + width;
        t := t - 8;
        page := page + 1;
      }
      if t != 0 {
        DrawBottom(was, x, y0, page, index, t, color);
      }
    }

    /** One whole byte. */
    method DrawWhole(ghost was: seq<bv8>, ghost x: int, ghost y0: int, ghost page: nat, index: nat, color: Color)
      requires Valid() && OnScreen(x, 8 * page) && y0 <= 8 * page && index == x + Multiple(width, page)
      requires Painted(was, fb[..], color, Rect(x, x + 1, y0, 8 * page))
      modifies fb
      ensures Painted(was, fb[..], color, Rect(x, x + 1, y0, 8 * (page + 1)))
    {
      WholeByte();
      ColumnGrows(was, fb[..], x, y0, page, color, 0xFF, 0, 8);
      Combine(index, 0xFF, color);
    }

    /** The bottom, partial byte. */
    method DrawBottom(ghost was: seq<bv8>, ghost x: int, ghost y0: int, ghost page: nat, index: nat, t: nat, color: Color)
      requires Valid() && OnScreen(x, 8 * page) && y0 <= 8 * page && 0 < t < 8
      requires index == x + Multiple(width, page)
      requires Painted(was, fb[..], color, Rect(x, x + 1, y0, 8 * page))
      modifies fb
      ensures Painted(was, fb[..], color, Rect(x, x + 1, y0, 8 * page + t))
    {
      var mod := t % 8;
      var mask := POSTMASK[mod];
      PostmaskBits(mod);
      assert mod == t;
      ColumnGrows(was, fb[..], x, y0, page, color, mask, 0, t);
      Combine(index, mask, color);
    }

    /** ssd1306_draw_vline once its arguments are checked and clipped. */
    method DrawClipped(x: int, y: int, h: nat, color: Color)
      requires Valid() && OnScreen(x, y) && y + h <= height
      modifies fb
      ensures Painted(old(fb[..]), fb[..], color, Rect(x, x + 1, y, y + h))
    {
      ghost var was := fb[..];
      var t, mod, index := h, y % 8, Index(x, y);
      SamePage(x, y);
      if mod == 0 {
        PaintedNothing(was, color, Rect(x, x + 1, y, y));
      } else {
        NextPage(y);
        mod := 8 - mod;
        DrawTop(x, y, t, color);
        if t < mod {
          return;
        }
        t := t - mod;
        index := index + width;
      }
      DrawAligned(was, x, y, (y + 7) / 8, index, t, color);
    }

    /** components/display/ssd1306.c: ssd1306_draw_vline, with its top mask, whole bytes and bottom mask. */
    method DrawVLine(ax: int, ay: int, ah: int, color: Color) returns (err: int)
      requires Valid()
      modifies fb
      ensures err == if OnScreen(Int8(ax), Int8(ay)) && UInt8(ah) != 0 then 0 else -EINVAL
      ensures err != 0 ==> fb[..] == old(fb[..])
      ensures err == 0 ==> Painted(old(fb[..]), fb[..], color, Rect(Int8(ax), Int8(ax) + 1, Int8(ay), Min(Int8(ay) + UInt8(ah), height)))
    {
      var x, y, h := Int8(ax), Int8(ay), UInt8(ah);
      if x >= width || x < 0 || y >= height || y < 0 {
        return -EINVAL;
      }
      if h == 0 {
        return -EINVAL;
      }
      if y + h > height {
        h := height - y;
      }
      DrawClipped(x, y, h, color);
      return 0;
    }

    /** components/display/ssd1306.c: ssd1306_fill_rectangle. The column counter is a uint8_t, so a negative x starts it
        beyond x + w and nothing is drawn; a rectangle that runs off the right edge is drawn up to the edge and then fails. */
    method FillRectangle(ax: int, ay: int, aw: int, ah: int, color: Color) returns (err: int)
      requires Valid()
      modifies fb
      ensures var x, y, w, h := Int8(ax), Int8(ay), UInt8(aw), UInt8(ah);
        if x < 0 || w == 0 then err == 0 && fb[..] == old(fb[..])
        else if h == 0 || !OnScreen(x, y) then err == -EINVAL && fb[..] == old(fb[..])
        else
          && err == (if x + w <= width then 0 else -EINVAL)
          && Painted(old(fb[..]), fb[..], color, Rect(x, Min(x + w, width), y, Min(y + h, height)))
    {
      var x, y, w, h := Int8(ax), Int8(ay), UInt8(aw), UInt8(ah);
      ghost var was, bottom := fb[..], Min(y + h, height);
      var i := UInt8(x);
      err := 0;
      if x >= 0 {
        PaintedNothing(was, color, Rect(x, x, y, bottom));
      }
      while i < x + w
        invariant x >= 0 ==> x <= i <= Max(x, Min(x + w, width)) && Painted(was, fb[..], color, Rect(x, i, y, bottom))
        invariant x < 0 ==> i >= x + w
        invariant x < 0 || i == x ==> fb[..] == was
        invariant x < i && x >= 0 ==> h > 0 && OnScreen(x, y)
      {
        err := FillColumn(was, x, i, y, h, color);
        if err != 0 {
          return;
        }
        i := UInt8(i + 1);
      }
    }

    /** One column of a filled rectangle. */
    method FillColumn(ghost was: seq<bv8>, ghost x: int, i: nat, y: int, h: nat, color: Color) returns (err: int)
      requires Valid() && 0 <= x <= i < 256 && -128 <= y < 128 && h < 256 && (i >= 128 ==> i >= width)
      requires Painted(was, fb[..], color, Rect(x, i, y, Min(y + h, height)))
      modifies fb
      ensures err == if i < width && OnScreen(i, y) && h != 0 then 0 else -EINVAL
      ensures if err != 0 then fb[..] == old(fb[..]) else Painted(was, fb[..], color, Rect(x, i + 1, y, Min(y + h, height)))
    {
      ghost var before := fb[..];
      err := DrawVLine(i, y, h, color);
      if err == 0 {
        PaintedUnion(was, before, fb[..], color, Rect(x, i, y, Min(y + h, height)),
                     Rect(i, i + 1, y, Min(y + h, height)), Rect(x, i + 1, y, Min(y + h, height)));
      }
    }
  }

  ghost function Blend(c: Color, b: bv8, m: bv8): bv8 {
    match c
    case Transparent => b
    case Black => b & !m
    case White => b | m
    case Invert => b ^ m
  }

  lemma BlendBit(c: Color, b: bv8, m: bv8, k: nat)
    requires k < 8
    ensures Bit(Blend(c, b, m), k) == if Bit(m, k) then Recolor(c, Bit(b, k)) else Bit(b, k)
  {
    OrBit(b, m, k);
    XorBit(b, m, k);
    AndNotBit(b, m, k);
  }

  lemma BlendBits(c: Color, b: bv8, m: bv8, lo: nat, hi: nat)
    requires BitsFromTo(m, lo, hi)
    ensures forall k: nat | k < 8 :: Bit(Blend(c, b, m), k) == if lo <= k < hi then Recolor(c, Bit(b, k)) else Bit(b, k)
  {
    forall k: nat | k < 8 ensures Bit(Blend(c, b, m), k) == if lo <= k < hi then Recolor(c, Bit(b, k)) else Bit(b, k) {
      BlendBit(c, b, m, k);
    }
  }
}
