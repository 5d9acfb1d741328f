/** `Color` of src/lib/utils.rs: three unsigned bytes and the integer colour algebra. */
module Colors {
  import opened Maths

  newtype uint8 = x: int | 0 <= x < 0x100

  datatype Color = Color(r: uint8, g: uint8, b: uint8)

  const Black := Color(0, 0, 0)

  /** What saturating `clamp` promises: 255 above the range, 0 below it, and
      truncation towards zero inside it. */
  ghost predicate ClampsTo(x: real, v: uint8) {
    && (x > 255.0 ==> v == 255)
    && (x < 0.0 ==> v == 0)
    && (0.0 <= x <= 255.0 ==> v as real <= x < v as real + 1.0)
  }

  /** `clamp`: an `f64` brought into the byte range, with `as u8` truncating. */
  function Clamp(x: real): (r: uint8)
    ensures ClampsTo(x, r)
    ensures r as real <= Max(0.0, x)
  {
    if x > 255.0 then 255
    else if x < 0.0 then 0
    else x.Floor as uint8
  }

  /** A byte value determines its clamp uniquely. */
  lemma ClampsToUnique(x: real, v: uint8, w: uint8)
    requires ClampsTo(x, v) && ClampsTo(x, w)
    ensures v == w
  {
  }

  /** One channel of `Color * f64`. */
  function ScaleChannel(v: uint8, factor: real): (r: uint8)
    ensures ClampsTo(v as real * factor, r)
  {
    Clamp(v as real * factor)
  }

  /** `Color * f64`: every channel is the clamped product of that channel. */
  function ScaleColor(c: Color, factor: real): (r: Color)
    ensures ClampsTo(c.r as real * factor, r.r)
    ensures ClampsTo(c.g as real * factor, r.g)
    ensures ClampsTo(c.b as real * factor, r.b)
  {
    var r := ScaleChannel(c.r, factor);
    var g := ScaleChannel(c.g, factor);
    var b := ScaleChannel(c.b, factor);
    Color(r, g, b)
  }

  lemma ScaleByOne(c: Color)
    ensures ScaleColor(c, 1.0) == c
  {
  }

  lemma ScaleByZero(c: Color)
    ensures ScaleColor(c, 0.0) == Black
  {
  }

  /** Scaling saturates instead of wrapping. */
  lemma ScaleSaturates()
    ensures ScaleColor(Color(200, 200, 200), 2.0) == Color(255, 255, 255)
  {
  }

  /** A factor in [0,1] never brightens a channel. */
  lemma ScaleDarkens(c: Color, factor: real)
    requires 0.0 <= factor <= 1.0
    ensures ScaleColor(c, factor).r <= c.r
    ensures ScaleColor(c, factor).g <= c.g
    ensures ScaleColor(c, factor).b <= c.b
  {
    ChannelDarkens(c.r, factor);
    ChannelDarkens(c.g, factor);
    ChannelDarkens(c.b, factor);
  }

  lemma ChannelDarkens(v: uint8, factor: real)
    requires 0.0 <= factor <= 1.0
    ensures ScaleChannel(v, factor) <= v
  {
    var a := v as real;
    assert 0.0 <= a;
    MulLeft(a, factor, 1.0);
    MulLeft(a, 0.0, factor);
    var x := a * factor;
    assert 0.0 <= x <= a;
    var r := Clamp(x);
    assert ClampsTo(x, r);
    assert r as real <= x;
    assert r as real <= a;
  }

  /** `mult_u8`: the product of two bytes divided by 255, rounding down. */
  function MultU8(a: uint8, b: uint8): (r: uint8)
    ensures r as int * 255 <= a as int * b as int < (r as int + 1) * 255
    ensures r <= a && r <= b
  {
    var p := a as int * b as int;
    assert p <= a as int * 255 && p <= 255 * b as int by {
      MulBound(a as int, b as int);
      MulBound(b as int, a as int);
    }
    (p / 255) as uint8
  }

  lemma MulBound(a: int, b: int)
    requires 0 <= a && 0 <= b <= 255
    ensures a * b <= a * 255
  {
  }

  lemma MultU8Commutes(a: uint8, b: uint8)
    ensures MultU8(a, b) == MultU8(b, a)
  {
    assert a as int * b as int == b as int * a as int;
  }

  /** 255 stands for 1.0: it is the identity of `mult_u8`, and 0 absorbs. */
  lemma MultU8Identity(a: uint8)
    ensures MultU8(a, 255) == a && MultU8(255, a) == a
    ensures MultU8(a, 0) == 0
  {
    MultU8Commutes(a, 255);
  }

  /** `Color * Color`: the channel-wise `mult_u8`, the product of the channels over 255
      rounded down, so never brighter than either operand. */
  function MulColor(a: Color, b: Color): (r: Color)
    ensures r.r as int * 255 <= a.r as int * b.r as int < (r.r as int + 1) * 255
    ensures r.g as int * 255 <= a.g as int * b.g as int < (r.g as int + 1) * 255
    ensures r.b as int * 255 <= a.b as int * b.b as int < (r.b as int + 1) * 255
    ensures r.r <= a.r && r.r <= b.r
    ensures r.g <= a.g && r.g <= b.g
    ensures r.b <= a.b && r.b <= b.b
  {
    Color(MultU8(a.r, b.r), MultU8(a.g, b.g), MultU8(a.b, b.b))
  }

  /** The unit test of utils.rs. */
  lemma MulColorExample()
    ensures MulColor(Color(0xAA, 0x55, 0x22), Color(0xAA, 0x55, 0x22)) == Color(113, 28, 4)
  {
  }

  /** No channel of the sum leaves the byte range. */
  predicate NoWrap(a: Color, b: Color) {
    a.r as int + b.r as int <= 255 && a.g as int + b.g as int <= 255 && a.b as int + b.b as int <= 255
  }

  /** `Color + Color`: the unchecked channel sum, exact only when nothing wraps. */
  function AddColor(a: Color, b: Color): (r: Color)
    requires NoWrap(a, b)
    ensures r.r as int == a.r as int + b.r as int
    ensures r.g as int == a.g as int + b.g as int
    ensures r.b as int == a.b as int + b.b as int
  {
    Color(a.r + b.r, a.g + b.g, a.b + b.b)
  }
}
