// The CPU path of the compositor: scaling and rotating a block into the 720 x 720
// framebuffer, and the screen rectangle it lands in.
module Pixels {
  import opened Rects

  const W: int := 720 // FRAMEBUFFER_MAX_W
  const H: int := 720 // FRAMEBUFFER_MAX_H

  datatype Angle = Angle0 | Angle90 | Angle180 | Angle270

  predicate OnScreen(x: int, y: int) {
    0 <= x < W && 0 <= y < H
  }

  function RotateCoordinates(x: int, y: int, angle: Angle): (int, int) {
    match angle
    case Angle0 => (x, y)
    case Angle90 => ((H - 1) - y, x)
    case Angle180 => ((W - 1) - x, (H - 1) - y)
    case Angle270 => (y, (W - 1) - x)
  }

  function RotateRect(r: Rect, angle: Angle): Rect {
    match angle
    case Angle0 => r
    case Angle90 => Rect((H - 1) - (r.y + r.h - 1), r.x, r.h, r.w)
    case Angle180 => Rect((W - 1) - (r.x + r.w - 1), (H - 1) - (r.y + r.h - 1), r.w, r.h)
    case Angle270 => Rect(r.y, (W - 1) - (r.x + r.w - 1), r.h, r.w)
  }

  function Inverse(angle: Angle): Angle {
    match angle
    case Angle0 => Angle0
    case Angle90 => Angle270
    case Angle180 => Angle180
    case Angle270 => Angle90
  }

  function Unrotate(fx: int, fy: int, angle: Angle): (int, int) {
    RotateCoordinates(fx, fy, Inverse(angle))
  }

  /** Rotation is a bijection of the screen onto itself, undone by the inverse angle. */
  lemma RotationIsBijective(x: int, y: int, angle: Angle)
    ensures var (fx, fy) := RotateCoordinates(x, y, angle);
            Unrotate(fx, fy, angle) == (x, y) && (OnScreen(fx, fy) <==> OnScreen(x, y))
    ensures var (ux, uy) := Unrotate(x, y, angle);
            RotateCoordinates(ux, uy, angle) == (x, y) && (OnScreen(ux, uy) <==> OnScreen(x, y))
  {
  }

  /**
   * A quarter turn is clockwise: the top row of the screen becomes its right column. The
   * others are two and three of it.
   */
  lemma QuarterTurns(x: int, y: int)
    ensures RotateCoordinates(0, 0, Angle90) == (W - 1, 0) && RotateCoordinates(W - 1, 0, Angle90) == (W - 1, H - 1)
    ensures var (x1, y1) := RotateCoordinates(x, y, Angle90);
            var (x2, y2) := RotateCoordinates(x1, y1, Angle90);
            && RotateCoordinates(x, y, Angle0) == (x, y)
            && RotateCoordinates(x, y, Angle180) == (x2, y2)
            && RotateCoordinates(x, y, Angle270) == RotateCoordinates(x2, y2, Angle90)
  {
  }

  /** rotate_rect is the image of the rectangle under rotate_coordinates. */
  lemma RotateRectIsImage(r: Rect, angle: Angle, x: int, y: int)
    ensures var (fx, fy) := RotateCoordinates(x, y, angle);
            Covers(RotateRect(r, angle), fx, fy) <==> Covers(r, x, y)
    ensures var (ux, uy) := Unrotate(x, y, angle);
            Covers(RotateRect(r, angle), x, y) <==> Covers(r, ux, uy)
  {
  }

  datatype Format = BGR565 | RGB565 | ARGB8888 | RGBA8888 | ABGR8888 | BGRA8888

  /** A loaded source pixel in the format of the panel. */
  function Convert(raw: bv32, format: Format): bv16 {
    match format
    case BGR565 => (raw & 0xFFFF) as bv16
    case RGB565 => SwapRedBlue((raw & 0xFFFF) as bv16)
    case ARGB8888 => Pack(raw >> 16, raw >> 8, raw)
    case RGBA8888 => Pack(raw >> 24, raw >> 16, raw >> 8)
    case ABGR8888 => Pack(raw, raw >> 8, raw >> 16)
    case BGRA8888 => Pack(raw >> 8, raw >> 16, raw >> 24)
  }

  function SwapRedBlue(px: bv16): bv16 {
    var r, g, b := (px >> 11) & 0x1F, (px >> 5) & 0x3F, px & 0x1F;
    (b << 11) | (g << 5) | r
  }

  function Pack(r: bv32, g: bv32, b: bv32): bv16 {
    (((r & 0xF8) << 8) | ((g & 0xFC) << 3) | ((b & 0xFF) >> 3)) as bv16
  }

  /** Bits 11 to 15, 5 to 10 and 0 to 4 of a pixel in the format of the panel. */
  function Channels(px: bv16): (bv16, bv16, bv16) {
    (px >> 11, (px >> 5) & 0x3F, px & 0x1F)
  }

  lemma PackKeepsChannels(r: bv32, g: bv32, b: bv32)
    ensures Channels(Pack(r, g, b))
            == (((r & 0xFF) >> 3) as bv16, ((g & 0xFF) >> 2) as bv16, ((b & 0xFF) >> 3) as bv16)
  {
  }

  /** Where a format has red, green and blue in its word. */
  function Shifts(format: Format): (bv5, bv5, bv5)
    requires format != BGR565 && format != RGB565
  {
    match format
    case ARGB8888 => (16, 8, 0)
    case RGBA8888 => (24, 16, 8)
    case ABGR8888 => (0, 8, 16)
    case BGRA8888 => (8, 16, 24)
  }

  /** The top bits of the bytes that a format names reach their channels. */
  lemma ConvertKeepsChannels(w: bv32, format: Format)
    requires format != BGR565 && format != RGB565
    ensures var (r, g, b) := Shifts(format);
            Channels(Convert(w, format))
            == ((((w >> r) & 0xFF) >> 3) as bv16, (((w >> g) & 0xFF) >> 2) as bv16, (((w >> b) & 0xFF) >> 3) as bv16)
  {
    match format
    case ARGB8888 => PackKeepsChannels(w >> 16, w >> 8, w);
    case RGBA8888 => PackKeepsChannels(w >> 24, w >> 16, w >> 8);
    case ABGR8888 => PackKeepsChannels(w, w >> 8, w >> 16);
    case BGRA8888 => PackKeepsChannels(w >> 8, w >> 16, w >> 24);
  }

  /** Pixels of 16 bits are kept, or have red and blue exchanged. */
  lemma ConvertSixteenBits(px: bv16)
    ensures Convert(px as bv32, BGR565) == px
    ensures var (r, g, b) := Channels(px); Channels(Convert(px as bv32, RGB565)) == (b, g, r)
  {
  }

  // ---- The blit ----

  /** The source row or column for a destination offset, held inside the source rectangle. */
  function SourceIndex(start: int, size: int, offset: int, invScale: real): int {
    Min(start + (offset as real * invScale).Floor, start + size - 1)
  }

  lemma SourceIndexInside(start: int, size: int, offset: int, invScale: real)
    requires size > 0 && offset >= 0 && invScale > 0.0
    ensures start <= SourceIndex(start, size, offset, invScale) < start + size
  {
    assert offset as real * invScale >= 0.0;
  }

  /**
   * Source row or column `i` of `size`, drawn `scale` wide, has destination offset `d` in
   * it; the last one has all that is past it too.
   */
  predicate Takes(i: int, size: int, d: int, scale: real) {
    0 <= i < size && i as real * scale <= d as real && (i < size - 1 ==> (d as real) < (i + 1) as real * scale)
  }

  lemma ScaledUp(a: real, b: real, scale: real)
    requires scale > 0.0
    ensures a <= b <==> a * scale <= b * scale
  {
  }

  /** The floor of a scaled offset is at least `i` exactly when `i` scaled back is not past the offset. */
  lemma FloorAtLeast(i: int, d: int, scale: real)
    requires scale > 0.0
    ensures i <= (d as real * (1.0 / scale)).Floor <==> i as real * scale <= d as real
  {
    var x := d as real * (1.0 / scale);
    ScaledUp(i as real, x, scale);
    assert x * scale == d as real;
  }

  /** The source index is the one row or column that has the offset in it. */
  lemma SourceIndexTakes(start: int, size: int, d: int, scale: real, i: int)
    requires size > 0 && d >= 0 && scale > 0.0
    ensures Takes(i, size, d, scale) <==> SourceIndex(start, size, d, 1.0 / scale) == start + i
  {
    FloorAtLeast(0, d, scale);
    FloorAtLeast(i, d, scale);
    FloorAtLeast(i + 1, d, scale);
  }

  /** A later offset never takes an earlier row or column. */
  lemma TakesInOrder(i: int, i': int, size: int, d: int, d': int, scale: real)
    requires scale > 0.0 && d <= d' && Takes(i, size, d, scale) && Takes(i', size, d', scale)
    ensures i <= i'
  {
    if i' < i {
      ScaledUp((i' + 1) as real, i as real, scale);
    }
  }

  datatype Job = Job(src: seq<bv32>, srcWidth: nat, format: Format, srcRect: Rect, dstRect: Rect, scale: real,
                     angle: Angle)
  {
    /** What the caller guarantees: a positive scale and a source rectangle inside the source. */
    predicate Valid() {
      && scale > 0.0
      && 0 <= srcRect.x && srcRect.x + srcRect.w <= srcWidth
      && 0 <= srcRect.y && (srcRect.y + srcRect.h) * srcWidth <= |src|
    }

    predicate Empty() {
      dstRect.w <= 0 || dstRect.h <= 0 || srcRect.w <= 0 || srcRect.h <= 0
    }

    /** The source pixel shown at (x, y) before rotation. */
    function SourceX(x: int): int {
      if scale > 0.0 then SourceIndex(srcRect.x, srcRect.w, x - dstRect.x, 1.0 / scale) else 0
    }

    function SourceY(y: int): int {
      if scale > 0.0 then SourceIndex(srcRect.y, srcRect.h, y - dstRect.y, 1.0 / scale) else 0
    }

    function Sample(sx: int, sy: int): bv16 {
      if 0 <= sy * srcWidth + sx < |src| then Convert(src[sy * srcWidth + sx], format) else 0
    }

    /** The colour framebuffer pixel (fx, fy) gets, if the job reaches it. */
    predicate Reaches(fx: int, fy: int) {
      var (x, y) := Unrotate(fx, fy, angle);
      Covers(dstRect, x, y)
    }

    /** The framebuffer pixel that destination offset (dx, dy) is rotated to shows this pixel of the source. */
    predicate ShownAt(dx: int, dy: int, fb: Framebuffer, sx: int, sy: int)
      requires fb.pixels.Length == W * H
      reads fb.pixels
    {
      var (fx, fy) := RotateCoordinates(dstRect.x + dx, dstRect.y + dy, angle);
      OnScreen(fx, fy) ==> fb.pixels[fy * W + fx] == Sample(sx, sy)
    }

    function Colour(fx: int, fy: int): bv16 {
      var (x, y) := Unrotate(fx, fy, angle);
      Sample(SourceX(x), SourceY(y))
    }
  }

  /** Every pixel the job shows comes from a pixel of the source rectangle that exists. */
  lemma SourceExists(j: Job, x: int, y: int)
    requires j.Valid() && !j.Empty() && Covers(j.dstRect, x, y)
    ensures Covers(j.srcRect, j.SourceX(x), j.SourceY(y))
    ensures 0 <= j.SourceY(y) * j.srcWidth + j.SourceX(x) < |j.src|
  {
    var inv := 1.0 / j.scale;
    assert inv > 0.0;
    SourceIndexInside(j.srcRect.x, j.srcRect.w, x - j.dstRect.x, inv);
    SourceIndexInside(j.srcRect.y, j.srcRect.h, y - j.dstRect.y, inv);
    IndexInside(j.SourceX(x), j.SourceY(y), j.srcWidth, j.srcRect.y + j.srcRect.h);
  }

  lemma IndexInside(x: int, y: int, width: nat, rows: int)
    requires 0 <= x < width && 0 <= y < rows
    ensures 0 <= y * width + x < rows * width
  {
    Product(rows - 1 - y, width);
    Product(y, width);
    assert rows * width == (rows - 1 - y) * width + y * width + width;
  }

  lemma Product(a: nat, b: nat)
    ensures a * b >= 0
  {
  }

  /** The colour of a destination offset is that of the source pixel that has it in its row and column. */
  lemma ColourTaken(j: Job, dx: int, dy: int, i: int, k: int)
    requires j.Valid() && !j.Empty() && 0 <= dx < j.dstRect.w && 0 <= dy < j.dstRect.h
    requires Takes(i, j.srcRect.w, dx, j.scale) && Takes(k, j.srcRect.h, dy, j.scale)
    ensures var (fx, fy) := RotateCoordinates(j.dstRect.x + dx, j.dstRect.y + dy, j.angle);
            && j.Colour(fx, fy) == j.Sample(j.srcRect.x + i, j.srcRect.y + k)
            && Covers(RotateRect(j.dstRect, j.angle), fx, fy)
    ensures var at := (j.srcRect.y + k) * j.srcWidth + (j.srcRect.x + i);
            0 <= at < |j.src| && j.Sample(j.srcRect.x + i, j.srcRect.y + k) == Convert(j.src[at], j.format)
  {
    var x, y := j.dstRect.x + dx, j.dstRect.y + dy;
    RotationIsBijective(x, y, j.angle);
    RotateRectIsImage(j.dstRect, j.angle, x, y);
    SourceIndexTakes(j.srcRect.x, j.srcRect.w, dx, j.scale, i);
    SourceIndexTakes(j.srcRect.y, j.srcRect.h, dy, j.scale, k);
    SourceExists(j, x, y);
  }

  /** At scale 1 each offset shows the source pixel at the same offset. */
  lemma UnscaledCopies(j: Job, dx: int, dy: int)
    requires j.scale == 1.0 && j.srcRect.w == j.dstRect.w && j.srcRect.h == j.dstRect.h
    requires 0 <= dx < j.dstRect.w && 0 <= dy < j.dstRect.h
    ensures forall i :: Takes(i, j.srcRect.w, dx, j.scale) <==> i == dx
    ensures forall k :: Takes(k, j.srcRect.h, dy, j.scale) <==> k == dy
  {
  }

  class Framebuffer {
    const pixels: array<bv16>

    constructor ()
      ensures pixels.Length == W * H && fresh(pixels)
    {
      pixels := new bv16[W * H];
    }

    function Pixel(fx: int, fy: int): bv16
      requires OnScreen(fx, fy) && pixels.Length == W * H
      reads pixels
    {
      pixels[fy * W + fx]
    }

    method SetPixel(fx: int, fy: int, color: bv16)
      requires OnScreen(fx, fy) && pixels.Length == W * H
      modifies pixels
      ensures Pixel(fx, fy) == color
      ensures forall x, y | OnScreen(x, y) && (x != fx || y != fy) :: Pixel(x, y) == old(Pixel(x, y))
    {
      pixels[fy * W + fx] := color;
    }

    /** The pixel before rotation has been handled: its row is done, or it is left of the current column. */
    predicate Done(j: Job, fx: int, fy: int, dy: int, dx: int) {
      var (x, y) := Unrotate(fx, fy, j.angle);
      y - j.dstRect.y < dy || (y - j.dstRect.y == dy && x - j.dstRect.x < dx)
    }

    /** The innermost body: one destination offset. */
    method BlitPixel(j: Job, dx: int, dy: int)
      requires pixels.Length == W * H && !j.Empty() && j.Valid()
      requires 0 <= dx < j.dstRect.w && 0 <= dy < j.dstRect.h
      modifies pixels
      ensures forall fx, fy | OnScreen(fx, fy) ::
                Pixel(fx, fy) ==
                if Unrotate(fx, fy, j.angle) == (j.dstRect.x + dx, j.dstRect.y + dy) then j.Colour(fx, fy)
                else old(Pixel(fx, fy))
    {
      var invScale := 1.0 / j.scale;
      var sy := SourceIndex(j.srcRect.y, j.srcRect.h, dy, invScale);
      var sx := SourceIndex(j.srcRect.x, j.srcRect.w, dx, invScale);
      var x, y := j.dstRect.x + dx, j.dstRect.y + dy;
      assert sx == j.SourceX(x) && sy == j.SourceY(y);
      SourceExists(j, x, y);
      var color := Convert(j.src[sy * j.srcWidth + sx], j.format);
      var (fbX, fbY) := RotateCoordinates(x, y, j.angle);
      RotationIsBijective(x, y, j.angle);
      assert color == j.Colour(fbX, fbY);
      forall fx, fy | Unrotate(fx, fy, j.angle) == (x, y) ensures fx == fbX && fy == fbY {
        RotationIsBijective(fx, fy, j.angle);
      }
      if 0 <= fbX < W && 0 <= fbY < H {
        SetPixel(fbX, fbY, color);
      }
    }

    /**
     * blit_rect_rotated: exactly the framebuffer pixels of the rotated destination
     * rectangle change, each to the colour of its source pixel.
     */
    method BlitRectRotated(j: Job)
      requires pixels.Length == W * H && (!j.Empty() ==> j.Valid())
      modifies pixels
      ensures forall fx, fy | OnScreen(fx, fy) ::
                Pixel(fx, fy) ==
                if !j.Empty() && Covers(RotateRect(j.dstRect, j.angle), fx, fy) then j.Colour(fx, fy)
                else old(Pixel(fx, fy))
      ensures forall dx, dy, i, k | 0 <= dx < j.dstRect.w && 0 <= dy < j.dstRect.h
                                    && Takes(i, j.srcRect.w, dx, j.scale) && Takes(k, j.srcRect.h, dy, j.scale) ::
                j.ShownAt(dx, dy, this, j.srcRect.x + i, j.srcRect.y + k)
    {
      if j.dstRect.w <= 0 || j.dstRect.h <= 0 || j.srcRect.w <= 0 || j.srcRect.h <= 0 {
        return;
      }
      for dy := 0 to j.dstRect.h
        invariant forall fx, fy | OnScreen(fx, fy) ::
                    Pixel(fx, fy) ==
                    if j.Reaches(fx, fy) && Done(j, fx, fy, dy, 0) then j.Colour(fx, fy) else old(Pixel(fx, fy))
      {
        for dx := 0 to j.dstRect.w
          invariant forall fx, fy | OnScreen(fx, fy) ::
                      Pixel(fx, fy) ==
                      if j.Reaches(fx, fy) && Done(j, fx, fy, dy, dx) then j.Colour(fx, fy) else old(Pixel(fx, fy))
        {
          BlitPixel(j, dx, dy);
        }
      }
      forall fx, fy ensures Covers(RotateRect(j.dstRect, j.angle), fx, fy) <==> j.Reaches(fx, fy) {
        RotateRectIsImage(j.dstRect, j.angle, fx, fy);
      }
      forall dx, dy, i, k | 0 <= dx < j.dstRect.w && 0 <= dy < j.dstRect.h
                            && Takes(i, j.srcRect.w, dx, j.scale) && Takes(k, j.srcRect.h, dy, j.scale)
        ensures j.ShownAt(dx, dy, this, j.srcRect.x + i, j.srcRect.y + k)
      {
        ColourTaken(j, dx, dy, i, k);
      }
    }
  }
}
