/**
 * Integer colour arithmetic: the contrast colour used for blinking and
 * focus borders, the lighter-or-darker variant, and the grayscale
 * transform that produces the "disabled" look of an image.
 */
module Colors {
  import opened Common

  /** An RGB colour, one byte per component. */
  datatype Color = Color(r: byte, g: byte, b: byte)

  /** `WHITE`. */
  const White: Color := Color(255, 255, 255)

  function Invert(c: Color): (d: Color)
    ensures d.r as int == 255 - c.r as int && d.g as int == 255 - c.g as int && d.b as int == 255 - c.b as int
  {
    Color(255 - c.r, 255 - c.g, 255 - c.b)
  }

  predicate IsGray(c: Color) { c.r == c.g && c.g == c.b }

  /**
   * `get_contrast_color`: the inverted colour, except that a gray whose
   * inversion would lie within 25 levels of itself becomes white.
   */
  function ContrastColor(c: Color): (d: Color)
    ensures d == White || d == Invert(c)
    ensures d != c
  {
    var inv := Invert(c);
    if inv.r == inv.g && inv.g == inv.b && Abs(inv.r as int - c.r as int) < 25 then White else inv
  }

  function Abs(a: int): nat { if a < 0 then -a else a }

  /**
   * White is produced exactly for the mid grays 116..=139, where inversion
   * would give too little contrast, and for black, whose inversion is
   * white; every other colour is inverted.
   */
  lemma ContrastColorCases(c: Color)
    ensures ContrastColor(c) == White <==> IsGray(c) && (116 <= c.r as int <= 139 || c.r == 0)
    ensures !(IsGray(c) && 116 <= c.r as int <= 139) ==> ContrastColor(c) == Invert(c)
  {
  }

  /** Outside the mid-gray band and away from black and white, taking the contrast twice gives the colour back. */
  lemma ContrastColorInvolution(c: Color)
    requires !(IsGray(c) && 116 <= c.r as int <= 139)
    requires c != White && c != Color(0, 0, 0)
    ensures ContrastColor(ContrastColor(c)) == c
  {
    ContrastColorCases(c);
    var d := Invert(c);
    assert !(IsGray(d) && 116 <= d.r as int <= 139);
    ContrastColorCases(d);
  }

  function MaxComponent(c: Color): byte
  {
    if c.r >= c.g && c.r >= c.b then c.r else if c.g >= c.b then c.g else c.b
  }

  /**
   * `get_lighter_or_darker_color`: a bright colour (components summing to
   * at least 383, or one component above 128) is darkened by 127 per
   * component, stopping at 0; any other colour is lightened by 127 per
   * component, stopping at 255.
   */
  function LighterOrDarker(c: Color): (d: Color)
    ensures d != c
    ensures Abs(d.r as int - c.r as int) <= 127 && Abs(d.g as int - c.g as int) <= 127 && Abs(d.b as int - c.b as int) <= 127
  {
    var total := c.r as int + c.g as int + c.b as int;
    if total >= 383 || MaxComponent(c) as int + 127 > 255 then
      Color(Max(0, c.r as int - 127) as byte, Max(0, c.g as int - 127) as byte, Max(0, c.b as int - 127) as byte)
    else
      Color(Min(255, c.r as int + 127) as byte, Min(255, c.g as int + 127) as byte, Min(255, c.b as int + 127) as byte)
  }

  /**
   * A colour is darkened exactly when its components sum to at least 383 or
   * one of them exceeds 128; then no component grows and none ends above
   * 128. Otherwise every component gains exactly 127: the upper clamp never
   * applies.
   */
  lemma LighterOrDarkerCases(c: Color)
    ensures var d := LighterOrDarker(c);
      if c.r as int + c.g as int + c.b as int >= 383 || MaxComponent(c) > 128 then
        d.r <= c.r && d.g <= c.g && d.b <= c.b && MaxComponent(d) <= 128
      else
        d.r as int == c.r as int + 127 && d.g as int == c.g as int + 127 && d.b as int == c.b as int + 127
  {
  }

  // ---------------------------------------------------------------------
  // Grayscale images.

  /** FLTK's `ColorDepth`: bytes per pixel 1, 2, 3 or 4. */
  datatype ColorDepth = L8 | La8 | Rgb8 | Rgba8

  /** Bytes per pixel of the grayscale image `gray_image` produces. */
  function OutWidth(d: ColorDepth): nat
  {
    match d
    case L8 => 1
    case Rgb8 => 1
    case La8 => 2
    case Rgba8 => 2
  }

  /** Bytes per pixel `gray_image` reads from its input. */
  function InWidth(d: ColorDepth): nat
  {
    match d
    case L8 => 0
    case La8 => 2
    case Rgb8 => 3
    case Rgba8 => 4
  }

  /** The luma weighting in fixed point: `(306 r + 601 g + 116 b) >> 10`. */
  function Gray(r: byte, g: byte, b: byte): (y: byte)
    ensures y as int == (306 * r as int + 601 * g as int + 116 * b as int) / 1024
    ensures y <= 254
  {
    ((306 * r as int + 601 * g as int + 116 * b as int) / 1024) as byte
  }

  /** Byte `k` of the grayscale image of `data`. */
  function GrayByte(data: seq<byte>, d: ColorDepth, k: nat, pixels: nat): byte
    requires k < OutWidth(d) * pixels
    requires |data| >= InWidth(d) * pixels
  {
    match d
    case L8 => 128
    case Rgb8 => Gray(data[3 * k], data[3 * k + 1], data[3 * k + 2])
    case Rgba8 =>
      var i := k / 2;
      if k % 2 == 0 then Gray(data[4 * i], data[4 * i + 1], data[4 * i + 2]) else data[4 * i + 3]
    case La8 =>
      var i := k / 2;
      if k % 2 == 0 then 128 else data[2 * i + 1]
  }

  /** The grayscale image of `data`, `pixels` pixels of depth `d`. */
  function GrayData(data: seq<byte>, d: ColorDepth, pixels: nat): (out: seq<byte>)
    requires |data| >= InWidth(d) * pixels
    ensures |out| == OutWidth(d) * pixels
    ensures d == Rgb8 || d == Rgba8 ==> forall k | 0 <= k < |out| && (d == Rgb8 || k % 2 == 0) :: out[k] <= 254
  {
    seq(OutWidth(d) * pixels, k requires 0 <= k < OutWidth(d) * pixels => GrayByte(data, d, k, pixels))
  }

  /** `i32::MIN ..= i32::MAX`, the range of the sizes `gray_image` takes. */
  predicate IsI32(v: int) { -0x8000_0000 <= v < 0x8000_0000 }

  /** `usize` on a 64-bit target: 2^64 values. */
  const UsizeModulus: nat := 0x1_0000_0000_0000_0000

  /** `isize::MAX`, the largest capacity a `Vec<u8>` may ask for. */
  const IsizeMax: nat := 0x7FFF_FFFF_FFFF_FFFF

  /** `v as usize` for an `i32`: a negative value is sign-extended and wraps to `2^64 + v`. */
  function AsUsize(v: int): (u: nat)
    requires IsI32(v)
    ensures u < UsizeModulus
    ensures v >= 0 ==> u == v
    ensures v < 0 ==> u >= UsizeModulus - 0x8000_0000
  {
    if v >= 0 then v else UsizeModulus + v
  }

  /** `w as usize * h as usize`, the pixel count `gray_image` works with. */
  function PixelCount(w: int, h: int): nat
    requires IsI32(w) && IsI32(h)
  {
    AsUsize(w) * AsUsize(h)
  }

  /**
   * What `gray_image` needs of its input to run without panicking: `i32`
   * sizes whose pixel count, and the output's byte count, neither overflow
   * `usize` nor exceed the largest capacity a vector may ask for, and every
   * pixel it reads present.
   */
  predicate GrayInputOk(data: seq<byte>, w: int, h: int, d: ColorDepth)
  {
    IsI32(w) && IsI32(h) &&
    OutWidth(d) * PixelCount(w, h) <= IsizeMax &&
    |data| >= InWidth(d) * PixelCount(w, h)
  }

  /**
   * `gray_image`: one gray byte per pixel for `Rgb8`, a gray byte and the
   * pixel's own alpha for `Rgba8`, and a flat mid-gray (128) for the
   * grayscale depths, keeping the alpha for `La8`; an image with no pixels
   * gives no bytes, whatever its other size.
   */
  method GrayImage(data: seq<byte>, w: int, h: int, d: ColorDepth) returns (out: seq<byte>)
    requires GrayInputOk(data, w, h, d)
    ensures out == GrayData(data, d, PixelCount(w, h))
    ensures |out| == OutWidth(d) * PixelCount(w, h)
  {
    var pixels := AsUsize(w) * AsUsize(h);
    if d == L8 {
      return seq(pixels, _ => 128 as byte);
    }
    out := [];
    var i := 0;
    while i < pixels
      invariant 0 <= i <= pixels
      invariant |out| == OutWidth(d) * i
      invariant forall k :: 0 <= k < |out| ==> out[k] == GrayByte(data, d, k, pixels)
    {
      var px: seq<byte>;
      match d {
        case Rgb8 =>
          var j := i * 3;
          px := [Gray(data[j], data[j + 1], data[j + 2])];
        case Rgba8 =>
          var j := i * 4;
          px := [Gray(data[j], data[j + 1], data[j + 2]), data[j + 3]];
        case La8 =>
          px := [128, data[i * 2 + 1]];
      }
      PixelBytes(data, d, pixels, i, out, px);
      out := out + px;
      i := i + 1;
    }
  }

  /** The bytes one pass of `gray_image`'s loop pushes for pixel `i` are the image's next bytes. */
  lemma PixelBytes(data: seq<byte>, d: ColorDepth, pixels: nat, i: nat, out: seq<byte>, px: seq<byte>)
    requires d != L8 && i < pixels && |data| >= InWidth(d) * pixels
    requires |out| == OutWidth(d) * i
    requires forall k :: 0 <= k < |out| ==> out[k] == GrayByte(data, d, k, pixels)
    requires d == Rgb8 ==> px == [Gray(data[3 * i], data[3 * i + 1], data[3 * i + 2])]
    requires d == Rgba8 ==> px == [Gray(data[4 * i], data[4 * i + 1], data[4 * i + 2]), data[4 * i + 3]]
    requires d == La8 ==> px == [128, data[2 * i + 1]]
    ensures |out + px| == OutWidth(d) * (i + 1)
    ensures forall k :: 0 <= k < |out + px| ==> (out + px)[k] == GrayByte(data, d, k, pixels)
  {
    if d != Rgb8 {
      TwoBytePixel(data, d, pixels, i);
    }
    var o := out + px;
    forall k | 0 <= k < |o|
      ensures o[k] == GrayByte(data, d, k, pixels)
    {
      if k < |out| {
        assert o[k] == out[k];
      } else {
        assert o[k] == px[k - |out|];
      }
    }
  }

  /** The two bytes of pixel `i` in a two-byte grayscale image. */
  lemma TwoBytePixel(data: seq<byte>, d: ColorDepth, pixels: nat, i: nat)
    requires (d == Rgba8 || d == La8) && i < pixels && |data| >= InWidth(d) * pixels
    ensures d == Rgba8 ==> GrayByte(data, d, 2 * i, pixels) == Gray(data[4 * i], data[4 * i + 1], data[4 * i + 2])
    ensures d == Rgba8 ==> GrayByte(data, d, 2 * i + 1, pixels) == data[4 * i + 3]
    ensures d == La8 ==> GrayByte(data, d, 2 * i, pixels) == 128
    ensures d == La8 ==> GrayByte(data, d, 2 * i + 1, pixels) == data[2 * i + 1]
  {
    assert (2 * i) / 2 == i && (2 * i) % 2 == 0;
    assert (2 * i + 1) / 2 == i && (2 * i + 1) % 2 == 1;
  }

  /**
   * The shape of a grayscale image: `pixels` bytes for `Rgb8` and `L8`,
   * twice that for `Rgba8` and `La8` with every odd byte the source pixel's
   * alpha, and every gray byte the fixed-point luma of its pixel, at most 254.
   */
  lemma GrayDataShape(data: seq<byte>, d: ColorDepth, pixels: nat)
    requires |data| >= InWidth(d) * pixels
    ensures var out := GrayData(data, d, pixels);
      && (d == Rgb8 || d == L8 ==> |out| == pixels)
      && (d == Rgba8 || d == La8 ==> |out| == 2 * pixels)
      && (d == Rgba8 ==> forall i :: 0 <= i < pixels ==> out[2 * i + 1] == data[4 * i + 3])
      && (d == La8 ==> forall i :: 0 <= i < pixels ==> out[2 * i] == 128 && out[2 * i + 1] == data[2 * i + 1])
      && (d == Rgba8 ==> forall i :: 0 <= i < pixels ==>
            out[2 * i] as int == (306 * data[4 * i] as int + 601 * data[4 * i + 1] as int + 116 * data[4 * i + 2] as int) / 1024)
      && (d == Rgb8 ==> forall i :: 0 <= i < pixels ==>
            out[i] as int == (306 * data[3 * i] as int + 601 * data[3 * i + 1] as int + 116 * data[3 * i + 2] as int) / 1024)
      && (d == Rgb8 || d == Rgba8 ==> forall k :: 0 <= k < |out| && (d == Rgb8 || k % 2 == 0) ==> out[k] <= 254)
      && (d == L8 ==> forall k :: 0 <= k < |out| ==> out[k] == 128)
  {
    var out := GrayData(data, d, pixels);
    if d == Rgba8 || d == La8 {
      forall i | 0 <= i < pixels
        ensures (2 * i + 1) / 2 == i && (2 * i + 1) % 2 == 1 && (2 * i) / 2 == i && (2 * i) % 2 == 0
      {
      }
    }
  }

  /**
   * The sizes `gray_image` accepts: an image with a zero side has no pixels
   * and always succeeds, whatever the sign of the other side; non-negative
   * sizes give `w * h` pixels; a negative side with a nonzero other side
   * overflows or asks for an impossible capacity, so the program panics.
   */
  lemma GraySizeCases(data: seq<byte>, w: int, h: int, d: ColorDepth)
    requires IsI32(w) && IsI32(h)
    ensures w == 0 || h == 0 ==> PixelCount(w, h) == 0 && GrayInputOk(data, w, h, d)
    ensures w >= 0 && h >= 0 ==> PixelCount(w, h) == w * h
    ensures (w < 0 && h != 0) || (h < 0 && w != 0) ==> !GrayInputOk(data, w, h, d)
  {
    if (w < 0 && h != 0) || (h < 0 && w != 0) {
      var a, b := AsUsize(w), AsUsize(h);
      if w < 0 {
        AtLeastFactor(a, b);
        assert PixelCount(w, h) >= a;
      } else {
        AtLeastFactor(b, a);
        assert PixelCount(w, h) >= b;
      }
      assert OutWidth(d) * PixelCount(w, h) >= PixelCount(w, h);
    }
  }

  /** A product with a positive factor is at least the other factor. */
  lemma AtLeastFactor(a: nat, b: nat)
    requires b >= 1
    ensures a * b >= a && b * a >= a
  {
  }
}
