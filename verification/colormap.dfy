/** The false-colour map `to_rgb` (src/simulate.rs): a value on an interval is
    normalised to a byte and every channel is the least of three clipped
    ramps computed with Rust's checked `u8` arithmetic. */
module Colormap {
  import opened Common

  /** An RGB colour, one byte per channel. */
  datatype Rgb = Rgb(red: Byte, green: Byte, blue: Byte) {
    /** The three bytes in the order the raster buffer stores them. */
    function Bytes(): (b: seq<Byte>)
      ensures |b| == 3 && b[0] == red && b[1] == green && b[2] == blue
    {
      [red, green, blue]
    }
  }

  /** `u8::checked_sub`. */
  function CheckedSub(a: Byte, b: Byte): Option<Byte> {
    if a < b then None else Some(a - b)
  }

  /** `u8::checked_add`. */
  function CheckedAdd(a: Byte, b: Byte): Option<Byte> {
    if a + b < 0x100 then Some(a + b) else None
  }

  /** `u8::checked_mul`. */
  function CheckedMul(a: Byte, b: Byte): Option<Byte> {
    if a * b < 0x100 then Some(a * b) else None
  }

  /** `Option::unwrap_or`. */
  function UnwrapOr(o: Option<Byte>, default: Byte): Byte {
    match o
    case Some(v) => v
    case None => default
  }

  /** `v.checked_mul(4).unwrap_or(u8::MAX)`: four times `v`, saturating at 255. */
  function Quadruple(v: Byte): (r: Byte)
    ensures v < 64 ==> r == 4 * v
    ensures 64 <= v ==> r == 255
  {
    UnwrapOr(CheckedMul(v, 4), U8_MAX)
  }

  /** `x.checked_sub(t).unwrap_or(u8::MIN)`: how far `x` lies above `t`, or 0. */
  function Excess(x: Byte, t: Byte): (r: Byte)
    ensures x <= t ==> r == 0
    ensures t <= x ==> r + t == x
  {
    UnwrapOr(CheckedSub(x, t), U8_MIN)
  }

  /** `x.checked_add(k).unwrap_or(u8::MIN)`: the sum while it fits a byte,
      but 0 (not 255) once it overflows. */
  function SumOrZero(x: Byte, k: Byte): (r: Byte)
    ensures x + k < 0x100 ==> r == x + k
    ensures 0x100 <= x + k ==> r == 0
  {
    UnwrapOr(CheckedAdd(x, k), U8_MIN)
  }

  /** `vec![a, b, c].into_iter().min().unwrap()`. */
  function Min3(a: Byte, b: Byte, c: Byte): (m: Byte)
    ensures m <= a && m <= b && m <= c
    ensures m == a || m == b || m == c
  {
    var ab := if a <= b then a else b;
    if ab <= c then ab else c
  }

  /** The red channel: dark up to 96, a ramp of slope 4 up to 160, full up to
      224, then a falling ramp of slope 4. The subtraction `255 - t` never
      leaves the byte range because every term `t` is itself a byte. */
  function Red(x: Byte): (r: Byte)
    ensures x <= 96 ==> r == 0
    ensures 96 <= x < 160 ==> r == 4 * (x - 96)
    ensures 160 <= x <= 224 ==> r == 255
    ensures 224 < x ==> r == 255 - 4 * (x - 224)
  {
    Min3(255, Quadruple(Excess(x, 96)), 255 - Quadruple(Excess(x, 224)))
  }

  /** The green channel: dark up to 32, rising to full at 96, full up to 160,
      falling to dark at 224 and dark from there on. */
  function Green(x: Byte): (g: Byte)
    ensures x <= 32 ==> g == 0
    ensures 32 <= x < 96 ==> g == 4 * (x - 32)
    ensures 96 <= x <= 160 ==> g == 255
    ensures 160 < x < 224 ==> g == 255 - 4 * (x - 160)
    ensures 224 <= x ==> g == 0
  {
    Min3(255, Quadruple(Excess(x, 32)), 255 - Quadruple(Excess(x, 160)))
  }

  /** The blue channel: full up to 96, then falling with slope 4 to 127 at
      128; from 129 on, `x + 127` overflows a byte, the fallback makes the
      middle term 0, and the channel is dark. */
  function Blue(x: Byte): (b: Byte)
    ensures x <= 96 ==> b == 255
    ensures 96 <= x <= 128 ==> b == 255 - 4 * (x - 96)
    ensures 129 <= x ==> b == 0
  {
    Min3(255, Quadruple(SumOrZero(x, 127)), 255 - Quadruple(Excess(x, 96)))
  }

  /** The colour of a normalised value. */
  function ColorOfNorm(x: Byte): (c: Rgb)
    ensures x == 0 ==> c == Rgb(0, 0, 255)
    ensures x == 255 ==> c == Rgb(131, 0, 0)
  {
    Rgb(Red(x), Green(x), Blue(x))
  }

  /** `v as u8` for a floored `f64`: values below 0 become 0 and values above
      255 become 255. */
  function SaturatingCast(v: int): (b: Byte)
    ensures 0 <= v < 0x100 ==> b == v
    ensures v < 0 ==> b == 0
    ensures 0x100 <= v ==> b == 255
  {
    if v < 0 then 0 else if v < 0x100 then v else 255
  }

  /** `((x - x_min) / (x_max - x_min) * 255.).floor() as u8` on exact reals.
      An empty interval divides 0 by 0; the resulting NaN casts to 0. */
  function Normalise(x: real, xMin: real, xMax: real): (n: Byte)
    requires xMin <= x <= xMax
    ensures x == xMin ==> n == 0
    ensures xMin < x == xMax ==> n == 255
  {
    var width := xMax - xMin;
    if width == 0.0 then 0
    else
      var scaled := (x - xMin) / width * 255.0;
      NormaliseBounds(x, xMin, xMax);
      assert x == xMax ==> scaled == 255.0;
      SaturatingCast(scaled.Floor)
  }

  /** On a non-empty interval the normalised value is exactly the floor of
      the scaled value: the saturating cast never has to clamp. */
  lemma NormaliseIsFloor(x: real, xMin: real, xMax: real)
    requires xMin <= x <= xMax && xMin < xMax
    ensures Normalise(x, xMin, xMax) as real <= (x - xMin) / (xMax - xMin) * 255.0
    ensures (x - xMin) / (xMax - xMin) * 255.0 < Normalise(x, xMin, xMax) as real + 1.0
  {
    NormaliseBounds(x, xMin, xMax);
  }

  /** The scaled value of an in-range `x` lies in [0, 255]. */
  lemma NormaliseBounds(x: real, xMin: real, xMax: real)
    requires xMin <= x <= xMax && xMin < xMax
    ensures 0.0 <= (x - xMin) / (xMax - xMin) * 255.0 <= 255.0
  {
    var w := xMax - xMin;
    var q := (x - xMin) / w;
    assert q * w == x - xMin;
    if q > 1.0 {
      calc {
        x - xMin;
        == q * w;
        > 1.0 * w;
      }
    }
  }

  /** `to_rgb(x, x_min, x_max)`: no colour outside the closed interval, the
      colour of the normalised value inside it. */
  function ToRgb(x: real, xMin: real, xMax: real): (c: Option<Rgb>)
    ensures c.None? <==> x < xMin || x > xMax
  {
    if x < xMin || x > xMax then None
    else Some(ColorOfNorm(Normalise(x, xMin, xMax)))
  }

  /** The lower end of a non-empty interval is pure blue and the upper end a
      dark red. */
  lemma ToRgbEndpoints(xMin: real, xMax: real)
    requires xMin < xMax
    ensures ToRgb(xMin, xMin, xMax) == Some(Rgb(0, 0, 255))
    ensures ToRgb(xMax, xMin, xMax) == Some(Rgb(131, 0, 0))
  {
    assert Normalise(xMin, xMin, xMax) == 0;
    assert Normalise(xMax, xMin, xMax) == 255;
  }

  /** Red and green change by at most 4 between neighbouring normalised
      values, and so does blue everywhere except between 128 and 129, where
      the overflow fallback drops it from 127 straight to 0. */
  lemma ChannelSteps(x: Byte)
    requires x < 255
    ensures -4 <= Red(x + 1) - Red(x) <= 4
    ensures -4 <= Green(x + 1) - Green(x) <= 4
    ensures x != 128 ==> -4 <= Blue(x + 1) - Blue(x) <= 4
    ensures x == 128 ==> Blue(x) - Blue(x + 1) == 127
  {
  }
}
