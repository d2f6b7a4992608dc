/** Font glyphs: the packer of the font tool, and the two renderers that undo it. */
module Glyphs {
  import opened Arith
  import opened Bits
  import opened Framebuffer
  import opened Wrappers

  /** A one-bit image, row by row, as the font tool reads it. */
  datatype Image = Image(width: nat, height: nat, data: seq<bool>) {
    ghost predicate Valid() {
      |data| == Multiple(width, height)
    }

    predicate At(row: nat, col: nat)
      requires Valid() && row < height && col < width
    {
      MultiplesApart(width, row, height);
      data[Multiple(width, row) + col]
    }
  }

  /** The pixel at (row, col), with the padding to whole bytes read as unlit. */
  predicate Pixel(im: Image, row: nat, col: nat)
    requires im.Valid() && row < im.height
  {
    col < im.width && im.At(row, col)
  }

  function RowBytes(width: nat): nat {
    (width + 7) / 8
  }

  /** The byte holds the eight pixels of its row from column 8 * b on, most significant bit first. */
  ghost predicate Packs(im: Image, row: nat, b: nat, byte: bv8)
    requires im.Valid() && row < im.height
  {
    forall k: nat | k < 8 :: Msb(byte, k) == Pixel(im, row, 8 * b + k)
  }

  /** The bytes are the packed rows of the image, one after the other. */
  ghost predicate PacksRows(im: Image, rows: nat, bitmap: seq<bv8>)
    requires im.Valid() && rows <= im.height
  {
    && |bitmap| == Multiple(RowBytes(im.width), rows)
    && forall row, b: nat | 0 <= row < rows && b < RowBytes(im.width) ::
         Packs(im, row, b, ByteAt(bitmap, RowBytes(im.width), row, b))
  }

  /** Byte b of a row; zero past the end of the table. */
  function ByteAt(bitmap: seq<bv8>, bw: nat, row: nat, b: nat): bv8 {
    if Multiple(bw, row) + b < |bitmap| then bitmap[Multiple(bw, row) + b] else 0
  }

  /** One step of the packing loop: set the lowest bit, then shift left. */
  function PushBit(byte: bv16, bit: bool): bv16 {
    (byte | (if bit then 1 else 0)) << 1
  }

  /** The packing loop over the first n of a byte's bits. */
  function Shifted(bits: seq<bool>, n: nat): bv16
    requires n <= |bits|
  {
    if n == 0 then 0 else PushBit(Shifted(bits, n - 1), bits[n - 1])
  }

  lemma PackEight(b0: bool, b1: bool, b2: bool, b3: bool, b4: bool, b5: bool, b6: bool, b7: bool, s: bv16)
    requires s == PushBit(PushBit(PushBit(PushBit(PushBit(PushBit(PushBit(PushBit(0, b0), b1), b2), b3), b4), b5), b6), b7)
    ensures s >> 1 <= 0xFF
    ensures var byte := (s >> 1) as bv8;
      && Msb(byte, 0) == b0 && Msb(byte, 1) == b1 && Msb(byte, 2) == b2 && Msb(byte, 3) == b3
      && Msb(byte, 4) == b4 && Msb(byte, 5) == b5 && Msb(byte, 6) == b6 && Msb(byte, 7) == b7
  {}

  /** After eight steps and the final shift back, bit 7 - k of the byte is the k-th bit. */
  lemma ShiftedEight(bits: seq<bool>)
    requires |bits| == 8
    ensures Shifted(bits, 8) >> 1 <= 0xFF
    ensures forall k: nat | k < 8 :: Msb((Shifted(bits, 8) >> 1) as bv8, k) == bits[k]
  {
    ShiftedFour(bits, 0);
    ShiftedFour(bits, 4);
    PackEight(bits[0], bits[1], bits[2], bits[3], bits[4], bits[5], bits[6], bits[7], Shifted(bits, 8));
    EachBit((Shifted(bits, 8) >> 1) as bv8, bits);
  }

  lemma ShiftedFour(bits: seq<bool>, n: nat)
    requires n + 4 <= |bits|
    ensures Shifted(bits, n + 4) ==
            PushBit(PushBit(PushBit(PushBit(Shifted(bits, n), bits[n]), bits[n + 1]), bits[n + 2]), bits[n + 3])
  {
    var s1 := NextShift(bits, n);
    var s2 := NextShift(bits, n + 1);
    var s3 := NextShift(bits, n + 2);
    var s4 := NextShift(bits, n + 3);
  }

  lemma EachBit(byte: bv8, bits: seq<bool>)
    requires |bits| == 8
    requires Msb(byte, 0) == bits[0] && Msb(byte, 1) == bits[1] && Msb(byte, 2) == bits[2] && Msb(byte, 3) == bits[3]
    requires Msb(byte, 4) == bits[4] && Msb(byte, 5) == bits[5] && Msb(byte, 6) == bits[6] && Msb(byte, 7) == bits[7]
    ensures forall k: nat | k < 8 :: Msb(byte, k) == bits[k]
  {
    forall k: nat | k < 8 ensures Msb(byte, k) == bits[k] {
      if k < 4 {
        assert k == 0 || k == 1 || k == 2 || k == 3;
      } else {
        assert k == 4 || k == 5 || k == 6 || k == 7;
      }
    }
  }

  lemma NextShift(bits: seq<bool>, n: nat) returns (s: bv16)
    requires n < |bits|
    ensures s == Shifted(bits, n + 1) == PushBit(Shifted(bits, n), bits[n])
  {
    s := Shifted(bits, n + 1);
  }

  /** The eight pixels a byte packs. */
  ghost function PixelsFrom(im: Image, row: nat, b: nat): (bits: seq<bool>)
    requires im.Valid() && row < im.height
    ensures |bits| == 8 && forall k: nat | k < 8 :: bits[k] == Pixel(im, row, 8 * b + k)
  {
    seq(8, k requires 0 <= k < 8 => Pixel(im, row, 8 * b + k))
  }

  /** The innermost loop of gen_char, and the shift back after it. */
  method PackByte(im: Image, row: nat, b: nat) returns (packed: bv8)
    requires im.Valid() && row < im.height
    ensures Packs(im, row, b, packed)
  {
    ghost var bits := PixelsFrom(im, row, b);
    var byte := PackBits(im, row, b, bits);
    ShiftedEight(bits);
    packed := (byte >> 1) as bv8;
    forall k: nat | k < 8 ensures Msb(packed, k) == Pixel(im, row, 8 * b + k) {
      assert bits[k] == Pixel(im, row, 8 * b + k);
    }
  }

  method PackBits(im: Image, row: nat, b: nat, ghost bits: seq<bool>) returns (byte: bv16)
    requires im.Valid() && row < im.height && |bits| == 8
    requires forall k: nat | k < 8 :: bits[k] == Pixel(im, row, 8 * b + k)
    ensures byte == Shifted(bits, 8)
  {
    byte := 0;
    var i := 0;
    while i < 8
      invariant 0 <= i <= 8 && byte == Shifted(bits, i)
    {
      ghost var next := NextShift(bits, i);
      var idx := b * 8 + i;
      assert bits[i] == Pixel(im, row, 8 * b + i) && 8 * b + i == idx;
      var bit := if idx < im.width then im.At(row, idx) else false;
      byte := Push(byte, bit);
      i := i + 1;
    }
  }

  method Push(byte: bv16, bit: bool) returns (byte': bv16)
    ensures byte' == PushBit(byte, bit)
  {
    byte' := byte;
    if bit {
      byte' := byte' | 1;
    }
    byte' := byte' << 1;
  }

  /** One row of gen_char. */
  method PackRow(im: Image, row: nat) returns (line: seq<bv8>)
    requires im.Valid() && row < im.height
    ensures |line| == RowBytes(im.width)
    ensures forall b: nat | b < |line| :: Packs(im, row, b, line[b])
  {
    line := [];
    var b := 0;
    while b < RowBytes(im.width)
      invariant 0 <= b <= RowBytes(im.width) && |line| == b
      invariant forall c: nat | c < b :: Packs(im, row, c, line[c])
    {
      var packed := PackByte(im, row, b);
      line := line + [packed];
      b := b + 1;
    }
  }

  /** components/fonts/tools/create_font.py: gen_char, with the rows' bytes one after the other as the font table lists them. */
  method GenChar(im: Image) returns (bitmap: seq<bv8>)
    requires im.Valid()
    ensures PacksRows(im, im.height, bitmap)
  {
    bitmap := [];
    var row := 0;
    while row < im.height
      invariant 0 <= row <= im.height && PacksRows(im, row, bitmap)
    {
      var line := PackRow(im, row);
      RowPacked(im, row, bitmap, line);
      bitmap := bitmap + line;
      row := row + 1;
    }
  }

  lemma RowPacked(im: Image, row: nat, bitmap: seq<bv8>, line: seq<bv8>)
    requires im.Valid() && row < im.height && PacksRows(im, row, bitmap) && |line| == RowBytes(im.width)
    requires forall b: nat | b < |line| :: Packs(im, row, b, line[b])
    ensures PacksRows(im, row + 1, bitmap + line)
  {
    var bw := RowBytes(im.width);
    forall r, b: nat | 0 <= r < row + 1 && b < bw ensures Packs(im, r, b, ByteAt(bitmap + line, bw, r, b)) {
      if r < row {
        MultiplesApart(bw, r, row);
        assert ByteAt(bitmap + line, bw, r, b) == ByteAt(bitmap, bw, r, b);
      } else {
        assert ByteAt(bitmap + line, bw, r, b) == line[b];
      }
    }
  }

  datatype CharDesc = CharDesc(width: nat, offset: nat)

  datatype Font = Font(height: nat, charStart: nat, charEnd: nat, descriptors: seq<CharDesc>, bitmap: seq<bv8>) {
    /** The tables are as long as the descriptors say. */
    ghost predicate Valid() {
      && height < 256
      && (charStart <= charEnd ==> |descriptors| == charEnd - charStart + 1)
      && forall d | d in descriptors :: d.width < 256 && d.offset + Multiple(RowBytes(d.width), height) <= |bitmap|
    }

    /** components/fonts/fonts.h: font_get_char_desc. */
    function GetCharDesc(c: nat): (d: Option<CharDesc>)
      requires Valid()
      ensures d.Some? ==> d.value in descriptors
    {
      if c < charStart || c > charEnd then None else Some(descriptors[c - charStart])
    }

    /** The glyph's pixel in row j and column i. */
    predicate Ink(d: CharDesc, j: nat, i: nat)
      requires Valid() && d in descriptors && j < height && i < d.width
    {
      Msb(GlyphByte(d, j, i / 8), i % 8)
    }

    function GlyphByte(d: CharDesc, j: nat, b: nat): bv8
      requires Valid() && d in descriptors && j < height && b < RowBytes(d.width)
    {
      MultiplesApart(RowBytes(d.width), j, height);
      bitmap[d.offset + Multiple(RowBytes(d.width), j) + b]
    }
  }

  /** A font whose table holds the bytes gen_char packed shows exactly the image's pixels. */
  lemma PackedGlyph(im: Image, font: Font, d: CharDesc, row: nat, col: nat)
    requires im.Valid() && font.Valid() && d in font.descriptors
    requires im.width == d.width && im.height == font.height && row < im.height && col < im.width
    requires PacksRows(im, im.height, font.bitmap[d.offset..d.offset + Multiple(RowBytes(d.width), font.height)])
    ensures font.Ink(d, row, col) == im.At(row, col)
  {
    var bytes := font.bitmap[d.offset..d.offset + Multiple(RowBytes(d.width), font.height)];
    MultiplesApart(RowBytes(d.width), row, font.height);
    assert Packs(im, row, col / 8, ByteAt(bytes, RowBytes(im.width), row, col / 8));
    assert font.GlyphByte(d, row, col / 8) == ByteAt(bytes, RowBytes(im.width), row, col / 8);
  }

  /** line << 1, m times. */
  function ShiftedLeft(b: bv8, m: nat): bv8 {
    if m == 0 then b else ShiftedLeft(b, m - 1) << 1
  }

  lemma ShiftedLeftTop(b: bv8, m: nat)
    requires m < 8
    ensures (ShiftedLeft(b, m) & 0x80 != 0) == Msb(b, m)
  {
    assert ShiftedLeft(b, 0) == b;
    var s1 := NextLeft(b, 0);
    var s2 := NextLeft(b, 1);
    var s3 := NextLeft(b, 2);
    var s4 := NextLeft(b, 3);
    var s5 := NextLeft(b, 4);
    var s6 := NextLeft(b, 5);
    var s7 := NextLeft(b, 6);
    if m < 4 {
      assert m == 0 || m == 1 || m == 2 || m == 3;
    } else {
      assert m == 4 || m == 5 || m == 6 || m == 7;
    }
  }

  lemma NextLeft(b: bv8, m: nat) returns (s: bv8)
    ensures s == ShiftedLeft(b, m + 1) == ShiftedLeft(b, m) << 1
  {
    s := ShiftedLeft(b, m + 1);
  }

  /** What draw_char does to a pixel of the character cell. */
  function Inked(fg: Color, bg: Color, ink: bool, lit: bool): bool {
    if ink then Recolor(fg, lit)
    else if bg == White || bg == Black then Recolor(bg, lit)
    else lit
  }

  /** Buffer t is buffer s with the character drawn at (x, y) as far as row j, column i. */
  ghost predicate CharDrawn(dev: Screen, s: seq<bv8>, t: seq<bv8>, font: Font, d: CharDesc, x: int, y: int, fg: Color, bg: Color, j: int, i: int)
    requires dev.Valid() && font.Valid() && d in font.descriptors
  {
    && |s| == |t| == dev.fb.Length
    && forall px, py | dev.OnScreen(px, py) ::
         dev.LitIn(t, px, py) == if InCell(font, d, px - x, py - y) && Before(px - x, py - y, i, j)
                                 then Inked(fg, bg, font.Ink(d, py - y, px - x), dev.LitIn(s, px, py)) else dev.LitIn(s, px, py)
  }

  predicate InCell(font: Font, d: CharDesc, i: int, j: int) {
    0 <= i < d.width && 0 <= j < font.height
  }

  predicate Before(i: int, j: int, i': int, j': int) {
    j < j' || (j == j' && i < i')
  }

  lemma PixelInked(dev: Screen, was: seq<bv8>, s: seq<bv8>, t: seq<bv8>, font: Font, d: CharDesc, x: int, y: int,
                   fg: Color, bg: Color, j: int, i: int)
    requires dev.Valid() && font.Valid() && d in font.descriptors && InCell(font, d, i, j)
    requires CharDrawn(dev, was, s, font, d, x, y, fg, bg, j, i)
    requires if font.Ink(d, j, i) then dev.Painted(s, t, fg, Dot(x + i, y + j))
             else if bg == White || bg == Black then dev.Painted(s, t, bg, Dot(x + i, y + j))
             else t == s
    ensures CharDrawn(dev, was, t, font, d, x, y, fg, bg, j, i + 1)
  {}

  /** components/display/ssd1306.c: ssd1306_draw_char. */
  method DrawChar(dev: Screen, font: Option<Font>, x: nat, y: nat, c: nat, fg: Color, bg: Color) returns (r: int)
    requires dev.Valid() && (font.Some? ==> font.value.Valid()) && x < 256 && y < 256
    modifies dev.fb
    ensures font.None? || c < font.value.charStart || c > font.value.charEnd ==> r == 0 && dev.fb[..] == old(dev.fb[..])
    ensures font.Some? && font.value.charStart <= c <= font.value.charEnd ==>
      var d := font.value.descriptors[c - font.value.charStart];
      x + d.width <= dev.width && y + font.value.height <= dev.height ==>
        r == d.width && CharDrawn(dev, old(dev.fb[..]), dev.fb[..], font.value, d, x, y, fg, bg, font.value.height, 0)
  {
    if font.None? {
      return 0;
    }
    var f := font.value;
    var found := f.GetCharDesc(c);
    if found.None? {
      return 0;
    }
    var d := found.value;
    ghost var was := dev.fb[..];
    ghost var inside := x + d.width <= dev.width && y + f.height <= dev.height;
    var err := 0;
    var j := 0;
    while j < f.height
      invariant 0 <= j <= f.height && (inside ==> err == 0)
      invariant inside ==> CharDrawn(dev, was, dev.fb[..], f, d, x, y, fg, bg, j, 0)
    {
      err := DrawCharRow(dev, was, inside, f, d, x, y, j, fg, bg, err);
      if err != 0 {
        return -ERANGE;
      }
      j := j + 1;
    }
    return d.width;
  }

  /** One row of a character: the bits of each byte from the top one down. */
  method DrawCharRow(dev: Screen, ghost was: seq<bv8>, ghost inside: bool, f: Font, d: CharDesc, x: nat, y: nat, j: nat,
                     fg: Color, bg: Color, err0: int)
    returns (err: int)
    requires dev.Valid() && f.Valid() && d in f.descriptors && j < f.height
    requires inside ==> x + d.width <= dev.width && y + f.height <= dev.height && err0 == 0
    requires inside ==> CharDrawn(dev, was, dev.fb[..], f, d, x, y, fg, bg, j, 0)
    modifies dev.fb
    ensures inside ==> err == 0 && CharDrawn(dev, was, dev.fb[..], f, d, x, y, fg, bg, j + 1, 0)
  {
    err := err0;
    var i := 0;
    var line: bv8 := 0;
    while i < d.width
      invariant 0 <= i <= d.width && (inside ==> err == 0)
      invariant i % 8 != 0 ==> line == ShiftedLeft(f.GlyphByte(d, j, i / 8), i % 8)
      invariant inside ==> CharDrawn(dev, was, dev.fb[..], f, d, x, y, fg, bg, j, i)
    {
      if i % 8 == 0 {
        line := f.GlyphByte(d, j, i / 8);
      }
      ShiftedLeftTop(f.GlyphByte(d, j, i / 8), i % 8);
      err := DrawInk(dev, was, f, d, x, y, j, i, line & 0x80 != 0, fg, bg, err);
      if err != 0 {
        return;
      }
      line := line << 1;
      i := i + 1;
    }
  }

  /** One pixel of a character; err is left as it was when nothing is drawn. */
  method DrawInk(dev: Screen, ghost was: seq<bv8>, ghost font: Font, ghost d: CharDesc, x: int, y: int, j: int, i: int,
                 ink: bool, fg: Color, bg: Color, err0: int)
    returns (err: int)
    requires dev.Valid() && font.Valid() && d in font.descriptors && InCell(font, d, i, j) && ink == font.Ink(d, j, i)
    modifies dev.fb
    ensures 0 <= x && x + i < dev.width && 0 <= y && y + j < dev.height && err0 == 0
            && CharDrawn(dev, was, old(dev.fb[..]), font, d, x, y, fg, bg, j, i)
            ==> err == 0 && CharDrawn(dev, was, dev.fb[..], font, d, x, y, fg, bg, j, i + 1)
  {
    ghost var s := dev.fb[..];
    err := err0;
    if ink {
      err := dev.DrawPixel(x + i, y + j, fg);
    } else {
      match bg {
        case White => err := dev.DrawPixel(x + i, y + j, bg);
        case Black => err := dev.DrawPixel(x + i, y + j, bg);
        case Transparent =>
        case Invert =>
      }
    }
    if 0 <= x && x + i < dev.width && 0 <= y && y + j < dev.height && err0 == 0
       && CharDrawn(dev, was, s, font, d, x, y, fg, bg, j, i) {
      PixelInked(dev, was, s, dev.fb[..], font, d, x, y, fg, bg, j, i);
    }
  }

  /** The image at (x, y), pixel for pixel. */
  ghost predicate InPlain(im: Image, x: int, y: int, px: int, py: int)
    requires im.Valid()
  {
    0 <= px - x < im.width && 0 <= py - y < im.height && im.At(py - y, px - x)
  }

  ghost function Plain(im: Image, x: int, y: int): Region
    requires im.Valid()
  {
    (px, py) => InPlain(im, x, y, px, py)
  }

  /** Glyph round trip for the plain renderer: what DrawChar leaves when it draws packed bytes on a transparent background is
      the image painted in the foreground colour. */
  lemma CharIsImage(dev: Screen, s: seq<bv8>, t: seq<bv8>, im: Image, font: Font, d: CharDesc, x: int, y: int, fg: Color)
    requires dev.Valid() && im.Valid() && font.Valid() && d in font.descriptors
    requires im.width == d.width && im.height == font.height
    requires PacksRows(im, im.height, font.bitmap[d.offset..d.offset + Multiple(RowBytes(d.width), font.height)])
    requires CharDrawn(dev, s, t, font, d, x, y, fg, Transparent, font.height, 0)
    ensures dev.Painted(s, t, fg, Plain(im, x, y))
  {
    forall px, py | dev.OnScreen(px, py)
      ensures dev.LitIn(t, px, py) == if InPlain(im, x, y, px, py) then Recolor(fg, dev.LitIn(s, px, py)) else dev.LitIn(s, px, py)
    {
      if InCell(font, d, px - x, py - y) {
        PackedGlyph(im, font, d, py - y, px - x);
      }
    }
  }

  /** Scaled column or row k of a glyph at o covers these coordinates. */
  predicate InBlock(p: int, o: int, scale: nat, k: nat) {
    o + Multiple(scale, k) <= p < o + Multiple(scale, k) + scale
  }

  /** Every inked pixel of the glyph as a scale-by-scale block. */
  ghost predicate InScaled(font: Font, d: CharDesc, x0: int, y0: int, scale: nat, px: int, py: int)
    requires font.Valid() && d in font.descriptors
  {
    exists row: nat, col: nat | row < font.height && col < d.width ::
      InBlock(py, y0, scale, row) && InBlock(px, x0, scale, col) && font.Ink(d, row, col)
  }

  ghost function ScaledGlyph(font: Font, d: CharDesc, x0: int, y0: int, scale: nat): Region
    requires font.Valid() && d in font.descriptors
  {
    (px, py) => InScaled(font, d, x0, y0, scale, px, py)
  }

  /** The image as blocks: what the font tool was given. */
  ghost predicate InImage(im: Image, x0: int, y0: int, scale: nat, px: int, py: int)
    requires im.Valid()
  {
    exists row: nat, col: nat | row < im.height && col < im.width ::
      InBlock(py, y0, scale, row) && InBlock(px, x0, scale, col) && im.At(row, col)
  }

  /** Glyph round trip: drawn from the packed bytes, the glyph covers exactly the blocks of the image's set pixels. */
  lemma GlyphIsImage(im: Image, font: Font, d: CharDesc, x0: int, y0: int, scale: nat, px: int, py: int)
    requires im.Valid() && font.Valid() && d in font.descriptors
    requires im.width == d.width && im.height == font.height
    requires PacksRows(im, im.height, font.bitmap[d.offset..d.offset + Multiple(RowBytes(d.width), font.height)])
    ensures InScaled(font, d, x0, y0, scale, px, py) == InImage(im, x0, y0, scale, px, py)
  {
    forall row: nat, col: nat | row < im.height && col < im.width
      ensures font.Ink(d, row, col) == im.At(row, col)
    {
      PackedGlyph(im, font, d, row, col);
    }
  }

  /** ... as far as row j, column i of the glyph. */
  ghost predicate InScaledBefore(font: Font, d: CharDesc, x0: int, y0: int, scale: nat, j: nat, i: nat, px: int, py: int)
    requires font.Valid() && d in font.descriptors
  {
    exists row: nat, col: nat | row < font.height && col < d.width ::
      InBlock(py, y0, scale, row) && InBlock(px, x0, scale, col) && font.Ink(d, row, col) && Before(col, row, i, j)
  }

  ghost function ScaledBefore(font: Font, d: CharDesc, x0: int, y0: int, scale: nat, j: nat, i: nat): Region
    requires font.Valid() && d in font.descriptors
  {
    (px, py) => InScaledBefore(font, d, x0, y0, scale, j, i, px, py)
  }

  lemma NarrowedOnScreen(dev: Screen, x: int, y: int)
    requires dev.Valid() && -128 <= x < 256 && -128 <= y < 256
    ensures dev.OnScreen(Int8(x), Int8(y)) <==> dev.OnScreen(x, y)
    ensures dev.OnScreen(x, y) ==> Int8(x) == x && Int8(y) == y
  {}

  /** components/display/Display.c: display_draw_pixel, which ignores the error. Coordinates from -128 to 255 that are not on
      the screen stay off it when they are narrowed. */
  method Plot(dev: Screen, x: int, y: int)
    requires dev.Valid()
    modifies dev.fb
    ensures -128 <= x < 256 && -128 <= y < 256 ==> dev.Painted(old(dev.fb[..]), dev.fb[..], White, Dot(x, y))
  {
    ghost var s := dev.fb[..];
    var err := dev.DrawPixel(x, y, White);
    if -128 <= x < 256 && -128 <= y < 256 {
      NarrowedOnScreen(dev, x, y);
      if err != 0 {
        dev.PaintedNothing(s, White, Dot(x, y));
      }
    }
  }

  /** The innermost loop of display_draw_char_scaled. */
  method PlotRun(dev: Screen, ghost inside: bool, x: int, y: int, scale: nat)
    requires dev.Valid() && (inside ==> -128 <= x && x + scale <= 256 && -128 <= y < 256)
    modifies dev.fb
    ensures inside ==> dev.Painted(old(dev.fb[..]), dev.fb[..], White, Rect(x, x + scale, y, y + 1))
  {
    ghost var was := dev.fb[..];
    dev.PaintedNothing(was, White, Rect(x, x, y, y + 1));
    var sx := 0;
    while sx < scale
      invariant 0 <= sx <= scale
      invariant inside ==> dev.Painted(was, dev.fb[..], White, Rect(x, x + sx, y, y + 1))
    {
      ghost var s := dev.fb[..];
      Plot(dev, x + sx, y);
      if inside {
        dev.PaintedUnion(was, s, dev.fb[..], White, Rect(x, x + sx, y, y + 1), Dot(x + sx, y), Rect(x, x + sx + 1, y, y + 1));
      }
      sx := sx + 1;
    }
  }

  /** The two inner loops of display_draw_char_scaled. */
  method PlotBlock(dev: Screen, ghost inside: bool, x: int, y: int, scale: nat)
    requires dev.Valid() && (inside ==> -128 <= x && x + scale <= 256 && -128 <= y && y + scale <= 256)
    modifies dev.fb
    ensures inside ==> dev.Painted(old(dev.fb[..]), dev.fb[..], White, Rect(x, x + scale, y, y + scale))
  {
    ghost var was := dev.fb[..];
    dev.PaintedNothing(was, White, Rect(x, x + scale, y, y));
    var sy := 0;
    while sy < scale
      invariant 0 <= sy <= scale
      invariant inside ==> dev.Painted(was, dev.fb[..], White, Rect(x, x + scale, y, y + sy))
    {
      ghost var s := dev.fb[..];
      PlotRun(dev, inside, x, y + sy, scale);
      if inside {
        dev.PaintedUnion(was, s, dev.fb[..], White, Rect(x, x + scale, y, y + sy),
                         Rect(x, x + scale, y + sy, y + sy + 1), Rect(x, x + scale, y, y + sy + 1));
      }
      sy := sy + 1;
    }
  }

  /** The glyph's bytes can be numbered in the uint8_t the scaled renderer uses, and no scaled coordinate is narrowed to
      another one on screen. */
  predicate ScaledFits(font: Font, d: CharDesc, x0: int, y0: int, scale: nat) {
    && Multiple(RowBytes(d.width), font.height) <= 256
    && -128 <= x0 && x0 + Multiple(scale, d.width) <= 256
    && -128 <= y0 && y0 + Multiple(scale, font.height) <= 256
  }

  /** The number of byte b of row j, and whether it survives the uint8_t of the scaled renderer. */
  predicate NumberFits(bw: nat, j: nat, b: nat) {
    UInt8(Multiple(bw, j) + b) == Multiple(bw, j) + b
  }

  /** All byte numbers of a glyph survive exactly when it has at most 256 bytes. */
  lemma ByteNumbersFit(bw: nat, height: nat)
    requires bw > 0
    ensures (forall j: nat, b: nat | j < height && b < bw :: NumberFits(bw, j, b)) <==> Multiple(bw, height) <= 256
  {
    if Multiple(bw, height) <= 256 {
      forall j: nat, b: nat | j < height && b < bw ensures NumberFits(bw, j, b) {
        MultiplesApart(bw, j, height);
      }
    } else {
      var j := height - 1;
      assert Multiple(bw, height) == Multiple(bw, j) + bw;
      assert !NumberFits(bw, j, bw - 1);
    }
  }

  lemma BlockAdded(dev: Screen, was: seq<bv8>, s: seq<bv8>, t: seq<bv8>, font: Font, d: CharDesc, x0: int, y0: int, scale: nat, j: nat, i: nat)
    requires dev.Valid() && font.Valid() && d in font.descriptors && j < font.height && i < d.width
    requires dev.Painted(was, s, White, ScaledBefore(font, d, x0, y0, scale, j, i))
    requires var x, y := x0 + Multiple(scale, i), y0 + Multiple(scale, j);
      if font.Ink(d, j, i) then dev.Painted(s, t, White, Rect(x, x + scale, y, y + scale)) else t == s
    ensures dev.Painted(was, t, White, ScaledBefore(font, d, x0, y0, scale, j, i + 1))
  {}

  /** The end of one row of the glyph is the start of the next. */
  lemma RowOfBlocks(dev: Screen, was: seq<bv8>, s: seq<bv8>, font: Font, d: CharDesc, x0: int, y0: int, scale: nat, j: nat)
    requires dev.Valid() && font.Valid() && d in font.descriptors && j < font.height
    requires dev.Painted(was, s, White, ScaledBefore(font, d, x0, y0, scale, j, d.width))
    ensures dev.Painted(was, s, White, ScaledBefore(font, d, x0, y0, scale, j + 1, 0))
  {}

  lemma AllBlocks(dev: Screen, was: seq<bv8>, s: seq<bv8>, font: Font, d: CharDesc, x0: int, y0: int, scale: nat)
    requires dev.Valid() && font.Valid() && d in font.descriptors
    requires dev.Painted(was, s, White, ScaledBefore(font, d, x0, y0, scale, font.height, 0))
    ensures dev.Painted(was, s, White, ScaledGlyph(font, d, x0, y0, scale))
  {}

  lemma NoBlocks(dev: Screen, s: seq<bv8>, font: Font, d: CharDesc, x0: int, y0: int, scale: nat)
    requires dev.Valid() && font.Valid() && d in font.descriptors && |s| == dev.fb.Length
    ensures dev.Painted(s, s, White, ScaledBefore(font, d, x0, y0, scale, 0, 0))
  {}

  /** components/display/Display.c: display_draw_char_scaled. A scale below one draws nothing, like scale 0. */
  method DrawCharScaled(dev: Screen, font: Font, x0: int, y0: int, c: nat, scale: nat)
    requires dev.Valid() && font.Valid()
    modifies dev.fb
    ensures c < font.charStart || c > font.charEnd ==> dev.fb[..] == old(dev.fb[..])
    ensures font.charStart <= c <= font.charEnd ==> var d := font.descriptors[c - font.charStart];
      ScaledFits(font, d, x0, y0, scale)
      ==> dev.Painted(old(dev.fb[..]), dev.fb[..], White, ScaledGlyph(font, d, x0, y0, scale))
  {
    var found := font.GetCharDesc(c);
    if found.None? {
      return;
    }
    var d := found.value;
    ghost var was := dev.fb[..];
    ghost var inside := ScaledFits(font, d, x0, y0, scale);
    NoBlocks(dev, was, font, d, x0, y0, scale);
    var y := 0;
    while y < font.height
      invariant 0 <= y <= font.height
      invariant inside ==> dev.Painted(was, dev.fb[..], White, ScaledBefore(font, d, x0, y0, scale, y, 0))
    {
      var x := 0;
      while x < d.width
        invariant 0 <= x <= d.width
        invariant inside ==> dev.Painted(was, dev.fb[..], White, ScaledBefore(font, d, x0, y0, scale, y, x))
      {
        PlotCell(dev, was, inside, font, d, x0, y0, scale, y, x);
        x := x + 1;
      }
      if inside {
        RowOfBlocks(dev, was, dev.fb[..], font, d, x0, y0, scale, y);
      }
      y := y + 1;
    }
    if inside {
      AllBlocks(dev, was, dev.fb[..], font, d, x0, y0, scale);
    }
  }

  /** One pixel of the glyph: test its bit, and draw its block. */
  method PlotCell(dev: Screen, ghost was: seq<bv8>, ghost inside: bool, font: Font, d: CharDesc, x0: int, y0: int, scale: nat, y: nat, x: nat)
    requires dev.Valid() && font.Valid() && d in font.descriptors && y < font.height && x < d.width
    requires inside ==> ScaledFits(font, d, x0, y0, scale)
    requires inside ==> dev.Painted(was, dev.fb[..], White, ScaledBefore(font, d, x0, y0, scale, y, x))
    modifies dev.fb
    ensures inside ==> dev.Painted(was, dev.fb[..], White, ScaledBefore(font, d, x0, y0, scale, y, x + 1))
  {
    ghost var s := dev.fb[..];
    MultiplesApart(scale, x, d.width);
    MultiplesApart(scale, y, font.height);
    var ink := TestBit(font, d, y, x);
    if ink {
      PlotBlock(dev, inside, x0 + Multiple(scale, x), y0 + Multiple(scale, y), scale);
    }
    if inside {
      BlockAdded(dev, was, s, dev.fb[..], font, d, x0, y0, scale, y, x);
    }
  }

  /** The lookup of one bit through a byte number held in a uint8_t. */
  method TestBit(font: Font, d: CharDesc, y: nat, x: nat) returns (ink: bool)
    requires font.Valid() && d in font.descriptors && y < font.height && x < d.width
    ensures Multiple(RowBytes(d.width), font.height) <= 256 ==> ink == font.Ink(d, y, x)
  {
    MultiplesApart(RowBytes(d.width), y, font.height);
    var byteIdx := UInt8(Multiple(RowBytes(d.width), y) + x / 8);
    var bitIdx := 7 - x % 8;
    assert Multiple(RowBytes(d.width), font.height) <= 256 ==> font.bitmap[d.offset + byteIdx] == font.GlyphByte(d, y, x / 8);
    ink := font.bitmap[d.offset + byteIdx] & BitMask(bitIdx) != 0;
  }

  // ----- from the font tool to the screen, character by character

  /** The font's k-th character is the k-th image: its table entry has the image's size, and there lie the bytes gen_char makes
      of it. */
  ghost predicate Packed(font: Font, images: seq<Image>) {
    && font.Valid() && font.charStart <= font.charEnd && |images| == |font.descriptors|
    && forall k | 0 <= k < |images| :: PackedAs(font, images[k], font.descriptors[k])
  }

  ghost predicate PackedAs(font: Font, im: Image, d: CharDesc)
    requires font.Valid() && d in font.descriptors
  {
    && im.Valid() && im.width == d.width && im.height == font.height
    && PacksRows(im, im.height, font.bitmap[d.offset..d.offset + Multiple(RowBytes(d.width), font.height)])
  }

  /** Where the pixel (px, py) lies in a grid of scale-by-scale blocks from o on: the block's number. */
  lemma BlockIsQuotient(p: int, o: int, scale: nat, k: nat)
    requires scale > 0
    ensures InBlock(p, o, scale, k) <==> p >= o && (p - o) / scale == k
  {
    MultipleIsProduct(scale, k);
    if p >= o {
      var q := (p - o) / scale;
      assert q * scale <= p - o < q * scale + scale;
      Apart(q, k, scale);
      Apart(k, q, scale);
    }
  }

  /** The image's pixel that is shown at (px, py) when the image stands at (x0, y0) in blocks of that size. */
  ghost predicate ShownAt(im: Image, x0: int, y0: int, scale: nat, px: int, py: int)
    requires im.Valid() && scale > 0
  {
    && x0 <= px && (px - x0) / scale < im.width && y0 <= py && (py - y0) / scale < im.height
    && im.At((py - y0) / scale, (px - x0) / scale)
  }

  lemma ImageIsShown(im: Image, x0: int, y0: int, scale: nat, px: int, py: int)
    requires im.Valid() && scale > 0
    ensures InImage(im, x0, y0, scale, px, py) == ShownAt(im, x0, y0, scale, px, py)
  {
    forall k: nat ensures InBlock(px, x0, scale, k) <==> px >= x0 && (px - x0) / scale == k {
      BlockIsQuotient(px, x0, scale, k);
    }
    forall k: nat ensures InBlock(py, y0, scale, k) <==> py >= y0 && (py - y0) / scale == k {
      BlockIsQuotient(py, y0, scale, k);
    }
  }

  lemma FitsScaled(font: Font, d: CharDesc, x0: int, y0: int, scale: nat)
    requires Multiple(RowBytes(d.width), font.height) <= 256
    requires -128 <= x0 && x0 + d.width * scale <= 256 && -128 <= y0 && y0 + font.height * scale <= 256
    ensures ScaledFits(font, d, x0, y0, scale)
  {
    MultipleIsProduct(scale, d.width);
    MultipleIsProduct(scale, font.height);
  }

  lemma ScaledIsShown(dev: Screen, s: seq<bv8>, t: seq<bv8>, font: Font, im: Image, d: CharDesc, x0: int, y0: int, scale: nat, px: int, py: int)
    requires dev.Valid() && font.Valid() && d in font.descriptors && PackedAs(font, im, d) && scale > 0 && dev.OnScreen(px, py)
    requires dev.Painted(s, t, White, ScaledGlyph(font, d, x0, y0, scale))
    ensures dev.LitIn(t, px, py) <==> ShownAt(im, x0, y0, scale, px, py) || dev.LitIn(s, px, py)
  {
    GlyphIsImage(im, font, d, x0, y0, scale, px, py);
    ImageIsShown(im, x0, y0, scale, px, py);
    assert ScaledGlyph(font, d, x0, y0, scale)(px, py) == InScaled(font, d, x0, y0, scale, px, py);
  }

  /** The round trip of a character code through the scaled renderer: the character charStart + k lights exactly the blocks of
      the set pixels of the k-th image. */
  method ShowScaled(dev: Screen, font: Font, ghost images: seq<Image>, k: nat, x0: int, y0: int, scale: nat)
    requires dev.Valid() && Packed(font, images) && k < |images| && scale > 0
    requires Multiple(RowBytes(images[k].width), font.height) <= 256
    requires -128 <= x0 && x0 + images[k].width * scale <= 256 && -128 <= y0 && y0 + font.height * scale <= 256
    modifies dev.fb
    ensures forall px, py | dev.OnScreen(px, py) ::
              dev.LitIn(dev.fb[..], px, py) <==> ShownAt(images[k], x0, y0, scale, px, py) || dev.LitIn(old(dev.fb[..]), px, py)
  {
    ghost var d, was := font.descriptors[k], dev.fb[..];
    assert PackedAs(font, images[k], d);
    FitsScaled(font, d, x0, y0, scale);
    DrawCharScaled(dev, font, x0, y0, font.charStart + k, scale);
    forall px, py | dev.OnScreen(px, py)
      ensures dev.LitIn(dev.fb[..], px, py) <==> ShownAt(images[k], x0, y0, scale, px, py) || dev.LitIn(was, px, py)
    {
      ScaledIsShown(dev, was, dev.fb[..], font, images[k], d, x0, y0, scale, px, py);
    }
  }

  /** And through the plain one: the set pixels of the k-th image take the foreground, and the others of the character's cell
      the background if that is white or black. */
  method ShowPlain(dev: Screen, font: Font, ghost images: seq<Image>, k: nat, x: nat, y: nat, fg: Color, bg: Color) returns (r: int)
    requires dev.Valid() && Packed(font, images) && k < |images|
    requires x + images[k].width <= dev.width && y + font.height <= dev.height
    modifies dev.fb
    ensures r == images[k].width
    ensures forall px, py | dev.OnScreen(px, py) ::
              var was := dev.LitIn(old(dev.fb[..]), px, py);
              dev.LitIn(dev.fb[..], px, py) ==
                if !(x <= px < x + images[k].width && y <= py < y + font.height) then was
                else if images[k].At(py - y, px - x) then Recolor(fg, was)
                else if bg == White then true else if bg == Black then false else was
  {
    ghost var d, was := font.descriptors[k], dev.fb[..];
    r := DrawChar(dev, Some(font), x, y, font.charStart + k, fg, bg);
    forall px, py | dev.OnScreen(px, py)
      ensures dev.LitIn(dev.fb[..], px, py) ==
                if !(x <= px < x + images[k].width && y <= py < y + font.height) then dev.LitIn(was, px, py)
                else if images[k].At(py - y, px - x) then Recolor(fg, dev.LitIn(was, px, py))
                else if bg == White then true else if bg == Black then false else dev.LitIn(was, px, py)
    {
      if x <= px < x + images[k].width && y <= py < y + font.height {
        PackedGlyph(images[k], font, d, py - y, px - x);
      }
    }
  }
}
