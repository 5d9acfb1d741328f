/** The pixel-buffer loop of `draw`: the rendered frame written into a zeroed RGBA byte
    buffer, row by row, four bytes per pixel with an opaque alpha. */
module Draw {
  import opened Maths
  import opened Colors
  import opened Scenes

  /** `y * width + x`: the pixel's position in the row-major buffer. */
  function RowMajor(width: nat, x: nat, y: nat): nat {
    y * width + x
  }

  lemma RowMajorInBounds(width: nat, height: nat, x: nat, y: nat)
    requires x < width && y < height
    ensures RowMajor(width, x, y) < height * width
  {
    assert y * width + width == (y + 1) * width;
    MulMonotoneNat(y + 1, height, width);
  }

  lemma RowMajorInjective(width: nat, x1: nat, y1: nat, x2: nat, y2: nat)
    requires x1 < width && x2 < width
    ensures RowMajor(width, x1, y1) == RowMajor(width, x2, y2) <==> x1 == x2 && y1 == y2
  {
    MulGap(y1, y2, width);
    MulGap(y2, y1, width);
  }

  /** The four bytes of pixel (x, y) hold `c` and an alpha of 0xFF. */
  predicate Painted(colors: seq<uint8>, width: nat, x: nat, y: nat, c: Color) {
    var p := RowMajor(width, x, y);
    && 4 * p + 3 < |colors|
    && colors[4 * p] == c.r
    && colors[4 * p + 1] == c.g
    && colors[4 * p + 2] == c.b
    && colors[4 * p + 3] == 0xFF
  }

  /** The four byte stores of one loop iteration. */
  function Paint(colors: seq<uint8>, width: nat, x: nat, y: nat, c: Color): (r: seq<uint8>)
    requires 4 * RowMajor(width, x, y) + 3 < |colors|
    ensures |r| == |colors|
    ensures Painted(r, width, x, y, c)
    ensures forall i :: 0 <= i < |r| && !(4 * RowMajor(width, x, y) <= i < 4 * RowMajor(width, x, y) + 4) ==>
              r[i] == colors[i]
  {
    var p := RowMajor(width, x, y);
    colors[4 * p := c.r][4 * p + 1 := c.g][4 * p + 2 := c.b][4 * p + 3 := 0xFF]
  }

  /** Painting one pixel leaves every other pixel's bytes as they were. */
  lemma PaintKeepsOthers(colors: seq<uint8>, width: nat, x: nat, y: nat, c: Color,
                         x2: nat, y2: nat, c2: Color)
    requires x < width && x2 < width && (x, y) != (x2, y2)
    requires 4 * RowMajor(width, x, y) + 3 < |colors|
    requires Painted(colors, width, x2, y2, c2)
    ensures Painted(Paint(colors, width, x, y, c), width, x2, y2, c2)
  {
    RowMajorInjective(width, x, y, x2, y2);
  }

  /** The four bytes a pixel occupies in the buffer. */
  function PixelBytes(c: Color): seq<uint8> {
    [c.r, c.g, c.b, 0xFF]
  }

  /** Row `y` of a frame coloured by `pixel`: its pixels left to right. */
  function RowBytes(width: nat, y: nat, pixel: (nat, nat) -> Color): (r: seq<uint8>)
    ensures |r| == width * 4
  {
    seq(width * 4, j requires 0 <= j < width * 4 => PixelBytes(pixel(j / 4, y))[j % 4])
  }

  /** Rows `y` to `height - 1` of the frame, top to bottom. */
  function RowsFrom(width: nat, height: nat, y: nat, pixel: (nat, nat) -> Color): (r: seq<uint8>)
    requires y <= height
    ensures |r| == (height - y) * (width * 4)
    decreases height - y
  {
    if y == height then []
    else
      var rest := RowsFrom(width, height, y + 1, pixel);
      MulSucc(height - (y + 1), width * 4);
      RowBytes(width, y, pixel) + rest
  }

  /** The RGBA image of a `width` x `height` frame coloured by `pixel`. */
  function ImageOf(width: nat, height: nat, pixel: (nat, nat) -> Color): (r: seq<uint8>)
    ensures |r| == height * width * 4
  {
    assert height * (width * 4) == height * width * 4;
    RowsFrom(width, height, 0, pixel)
  }

  /** The rendered colour of every pixel of the scene's frame. */
  function FrameColors(s: Scene, m: Libm, fuel: nat): (nat, nat) -> Color {
    (x: nat, y: nat) => if 0 < s.width && 0 < s.height then RenderPixel(s, m, fuel, x, y) else Sky
  }

  /** The expected buffer of the scene: its rendered frame laid out by `ImageOf`. */
  function ImageBytes(s: Scene, m: Libm, fuel: nat): (r: seq<uint8>)
    ensures |r| == s.height * s.width * 4
  {
    ImageOf(s.width, s.height, FrameColors(s, m, fuel))
  }

  /** Every pixel of the frame is painted with its colour. */
  ghost predicate AllPainted(width: nat, height: nat, pixel: (nat, nat) -> Color, colors: seq<uint8>) {
    forall x: nat, y: nat :: x < width && y < height ==> Painted(colors, width, x, y, pixel(x, y))
  }

  /** Byte `k` of a painted pixel is byte `k` of its colour's four bytes. */
  lemma PaintedBytes(colors: seq<uint8>, width: nat, x: nat, y: nat, c: Color, k: nat)
    requires Painted(colors, width, x, y, c) && k < 4
    ensures colors[4 * RowMajor(width, x, y) + k] == PixelBytes(c)[k]
  {
  }

  /** When every pixel of row `y` is painted, the row's slice of the buffer, from byte
      `a = y * width * 4`, is the row's bytes. */
  lemma RowPainted(width: nat, height: nat, pixel: (nat, nat) -> Color, colors: seq<uint8>, y: nat, a: nat)
    requires y < height && a == y * (width * 4) && a + width * 4 <= |colors|
    requires AllPainted(width, height, pixel, colors)
    ensures colors[a .. a + width * 4] == RowBytes(width, y, pixel)
  {
    assert a == 4 * (y * width);
    var row := colors[a .. a + width * 4];
    forall j | 0 <= j < width * 4
      ensures row[j] == RowBytes(width, y, pixel)[j]
    {
      var (x, k) := (j / 4, j % 4);
      assert Painted(colors, width, x, y, pixel(x, y));
      PaintedBytes(colors, width, x, y, pixel(x, y), k);
      assert a + j == 4 * RowMajor(width, x, y) + k;
    }
  }

  lemma SliceSplit(s: seq<uint8>, a: nat, b: nat)
    requires a <= b <= |s|
    ensures s[a..] == s[a..b] + s[b..]
  {
  }

  /** From byte `a = y * width * 4` on, a fully painted buffer holds rows `y` onwards. */
  lemma {:induction false} RowsPainted(width: nat, height: nat, pixel: (nat, nat) -> Color, colors: seq<uint8>,
                                       y: nat, a: nat)
    requires y <= height && a == y * (width * 4) && a + |RowsFrom(width, height, y, pixel)| == |colors|
    requires AllPainted(width, height, pixel, colors)
    ensures colors[a..] == RowsFrom(width, height, y, pixel)
    decreases height - y
  {
    if y < height {
      var b := a + width * 4;
      MulSucc(y, width * 4);
      assert RowsFrom(width, height, y, pixel) == RowBytes(width, y, pixel) + RowsFrom(width, height, y + 1, pixel);
      RowPainted(width, height, pixel, colors, y, a);
      RowsPainted(width, height, pixel, colors, y + 1, b);
      SliceSplit(colors, a, b);
    }
  }

  /** A buffer of the right length in which every pixel of the frame is painted with its
      colour is the image: every byte lies in some painted pixel, so each byte equals the
      image's byte at that index. */
  lemma PaintedIsImage(width: nat, height: nat, pixel: (nat, nat) -> Color, colors: seq<uint8>)
    requires |colors| == height * width * 4
    requires AllPainted(width, height, pixel, colors)
    ensures colors == ImageOf(width, height, pixel)
  {
    assert height * (width * 4) == height * width * 4;
    RowsPainted(width, height, pixel, colors, 0, 0);
    assert colors[0..] == colors;
  }

  /** `draw`'s buffer loop: a zeroed `height * width * 4` buffer, then for every pixel of
      `render` the stores `[r, g, b, 0xFF]` at byte `4 * (y * width + x)`. */
  method DrawBuffer(s: Scene, m: Libm, fuel: nat) returns (colors: seq<uint8>)
    ensures |colors| == s.height * s.width * 4
    ensures forall x: nat, y: nat :: x < s.width && y < s.height ==>
              Painted(colors, s.width, x, y, RenderPixel(s, m, fuel, x, y))
    ensures colors == ImageBytes(s, m, fuel)
  {
    var pixels := Render(s, m, fuel);
    RenderCoversFrame(s, m, fuel);
    colors := seq(s.height * s.width * 4, _ => 0);
    var k := 0;
    while k < |pixels|
      invariant 0 <= k <= |pixels|
      invariant |colors| == s.height * s.width * 4
      invariant forall j :: 0 <= j < k ==> Painted(colors, s.width, pixels[j].x, pixels[j].y, pixels[j].color)
    {
      var px := pixels[k];
      RowMajorInBounds(s.width, s.height, px.x, px.y);
      var next := Paint(colors, s.width, px.x, px.y, px.color);
      forall j | 0 <= j < k
        ensures Painted(next, s.width, pixels[j].x, pixels[j].y, pixels[j].color)
      {
        PaintKeepsOthers(colors, s.width, px.x, px.y, px.color, pixels[j].x, pixels[j].y, pixels[j].color);
      }
      colors := next;
      k := k + 1;
    }
    var frame := FrameColors(s, m, fuel);
    forall x: nat, y: nat | x < s.width && y < s.height
      ensures Painted(colors, s.width, x, y, RenderPixel(s, m, fuel, x, y))
      ensures Painted(colors, s.width, x, y, frame(x, y))
    {
      assert pixels[ColumnMajor(s.height, x, y)] == Pixel(x, y, RenderPixel(s, m, fuel, x, y));
    }
    PaintedIsImage(s.width, s.height, frame, colors);
  }
}
