/**
 The image preprocessor of `predictDisease`: the packed ARGB pixels of the
 scaled 224 x 224 bitmap become a flat buffer of signed bytes, three per pixel
 in R, G, B order, each byte the 8-bit channel value re-centred by -128.
 */
module Preprocess {
  import opened Numerics

  /** Side length of the square image the classifier expects. */
  const InputImageSize: nat := 224

  /** Number of pixels `getPixels` delivers for the scaled bitmap. */
  const InputPixels: nat := InputImageSize * InputImageSize

  /** Capacity of the input buffer: three bytes per pixel. */
  const InputBytes: nat := InputImageSize * InputImageSize * 3

  /** Unsigned 8-bit colour channels of one pixel. */
  datatype Rgb = Rgb(red: int, green: int, blue: int)

  /** A packed ARGB colour as Android builds it:
      `(alpha shl 24) or (red shl 16) or (green shl 8) or blue`, a 32-bit `Int`
      that is negative whenever alpha is 128 or more. */
  function Pack(alpha: int, red: int, green: int, blue: int): Int32
    requires 0 <= alpha < 0x100 && 0 <= red < 0x100 && 0 <= green < 0x100 && 0 <= blue < 0x100
  {
    WrapInt32(alpha * 0x100_0000 + red * 0x1_0000 + green * 0x100 + blue)
  }

  /** `(pixel shr 16) and 0xFF` */
  function Red(pixel: Int32): int {
    LowByte(ShiftRight(pixel, 16))
  }

  /** `(pixel shr 8) and 0xFF` */
  function Green(pixel: Int32): int {
    LowByte(ShiftRight(pixel, 8))
  }

  /** `pixel and 0xFF` */
  function Blue(pixel: Int32): int {
    LowByte(pixel)
  }

  /** The alpha bits 24-31; the encoder never reads them. */
  function Alpha(pixel: Int32): int {
    LowByte(ShiftRight(pixel, 24))
  }

  function RgbOf(pixel: Int32): Rgb {
    Rgb(Red(pixel), Green(pixel), Blue(pixel))
  }

  lemma Pow2Values()
    ensures Pow2(8) == 0x100 && Pow2(16) == 0x1_0000 && Pow2(24) == 0x100_0000
  {
  }

  /** Extracting the channels of a packed colour gives back the channels it was
      packed from, whatever the sign of the packed `Int`. */
  lemma {:induction false} ChannelsOfPack(alpha: int, red: int, green: int, blue: int)
    requires 0 <= alpha < 0x100 && 0 <= red < 0x100 && 0 <= green < 0x100 && 0 <= blue < 0x100
    ensures var p := Pack(alpha, red, green, blue);
      Alpha(p) == alpha && Red(p) == red && Green(p) == green && Blue(p) == blue
  {
    Pow2Values();
    var u := alpha * 0x100_0000 + red * 0x1_0000 + green * 0x100 + blue;
    var t := if u < 0x8000_0000 then 0 else 1;
    var p := Pack(alpha, red, green, blue);
    DivModUnique(u + 0x8000_0000, 0x1_0000_0000, t, u + 0x8000_0000 - t * 0x1_0000_0000);
    assert p == u - t * 0x1_0000_0000;

    DivModUnique(p, 0x100_0000, alpha - t * 0x100, red * 0x1_0000 + green * 0x100 + blue);
    DivModUnique(alpha - t * 0x100, 0x100, -t, alpha);

    DivModUnique(p, 0x1_0000, alpha * 0x100 + red - t * 0x1_0000, green * 0x100 + blue);
    DivModUnique(alpha * 0x100 + red - t * 0x1_0000, 0x100, alpha - t * 0x100, red);

    DivModUnique(p, 0x100, alpha * 0x1_0000 + red * 0x100 + green - t * 0x100_0000, blue);
    DivModUnique(alpha * 0x1_0000 + red * 0x100 + green - t * 0x100_0000, 0x100,
                 alpha * 0x100 + red - t * 0x1_0000, green);
  }

  /** Every 32-bit pixel is the packing of its own four channels, so the
      channel extraction loses nothing. */
  lemma {:induction false} PackOfChannels(pixel: Int32)
    ensures Pack(Alpha(pixel), Red(pixel), Green(pixel), Blue(pixel)) == pixel
  {
    Pow2Values();
    var b, q0 := pixel % 0x100, pixel / 0x100;
    var g, q1 := q0 % 0x100, q0 / 0x100;
    var r, q2 := q1 % 0x100, q1 / 0x100;
    var a, q3 := q2 % 0x100, q2 / 0x100;
    var u := a * 0x100_0000 + r * 0x1_0000 + g * 0x100 + b;
    assert pixel == q1 * 0x1_0000 + (g * 0x100 + b);
    DivModUnique(pixel, 0x1_0000, q1, g * 0x100 + b);
    assert pixel == q2 * 0x100_0000 + (r * 0x1_0000 + g * 0x100 + b);
    DivModUnique(pixel, 0x100_0000, q2, r * 0x1_0000 + g * 0x100 + b);
    assert pixel == q3 * 0x1_0000_0000 + u;
    assert q3 == 0 || q3 == -1;
    DivModUnique(u + 0x8000_0000, 0x1_0000_0000, -q3, pixel + 0x8000_0000);
  }

  /** One channel re-centred into a signed byte: `(channel - 128).toByte()`. */
  function EncodeChannel(channel: int): (r: Int8)
    ensures 0 <= channel < 0x100 ==> r == channel - 0x80
  {
    ToByte(channel - 0x80)
  }

  /** The three bytes one pixel contributes, in R, G, B order. */
  function EncodePixel(pixel: Int32): (r: seq<Int8>)
    ensures |r| == 3
    ensures r[0] as int + 0x80 == Red(pixel) && r[1] as int + 0x80 == Green(pixel)
    ensures r[2] as int + 0x80 == Blue(pixel)
  {
    [EncodeChannel(Red(pixel)), EncodeChannel(Green(pixel)), EncodeChannel(Blue(pixel))]
  }

  /** `buf` holds, at position i, byte i % 3 of the encoding of pixel i / 3. */
  ghost predicate LaidOut(buf: seq<Int8>, pixels: seq<Int32>) {
    && |buf| == 3 * |pixels|
    && forall i :: 0 <= i < |buf| ==> buf[i] == EncodePixel(pixels[i / 3])[i % 3]
  }

  /** The whole input buffer, pixel after pixel in the order `getPixels`
      delivers them (row-major). */
  function EncodeInput(pixels: seq<Int32>): (r: seq<Int8>)
    ensures LaidOut(r, pixels)
    decreases |pixels|
  {
    if |pixels| == 0 then []
    else
      var n := |pixels| - 1;
      var front := EncodeInput(pixels[..n]);
      AppendPixel(pixels, front);
      front + EncodePixel(pixels[n])
  }

  /** Appending the last pixel's bytes to a buffer laid out for all the others
      gives a buffer laid out for the whole array. */
  lemma AppendPixel(pixels: seq<Int32>, front: seq<Int8>)
    requires |pixels| > 0 && LaidOut(front, pixels[..|pixels| - 1])
    ensures LaidOut(front + EncodePixel(pixels[|pixels| - 1]), pixels)
  {
    var n := |pixels| - 1;
    var r := front + EncodePixel(pixels[n]);
    forall i | 0 <= i < |r|
      ensures r[i] == EncodePixel(pixels[i / 3])[i % 3]
    {
      if i < 3 * n {
        DivModUnique(i, 3, i / 3, i % 3);
        assert r[i] == front[i];
        assert pixels[..n][i / 3] == pixels[i / 3];
      } else {
        DivModUnique(i, 3, n, i - 3 * n);
      }
    }
  }

  /** Pixel `k` owns bytes 3k, 3k+1 and 3k+2 of the buffer, holding its red,
      green and blue channels minus 128, so pixels keep their order. */
  lemma PixelLayout(pixels: seq<Int32>, k: int)
    requires 0 <= k < |pixels|
    ensures var buf := EncodeInput(pixels);
      && 3 * k + 3 <= |buf|
      && buf[3 * k..3 * k + 3] == EncodePixel(pixels[k])
      && buf[3 * k] == Red(pixels[k]) - 0x80
      && buf[3 * k + 1] == Green(pixels[k]) - 0x80
      && buf[3 * k + 2] == Blue(pixels[k]) - 0x80
  {
    LaidOutPixel(EncodeInput(pixels), pixels, k);
  }

  lemma LaidOutPixel(buf: seq<Int8>, pixels: seq<Int32>, k: int)
    requires LaidOut(buf, pixels) && 0 <= k < |pixels|
    ensures 3 * k + 3 <= |buf|
    ensures buf[3 * k..3 * k + 3] == EncodePixel(pixels[k])
    ensures buf[3 * k] == Red(pixels[k]) - 0x80
    ensures buf[3 * k + 1] == Green(pixels[k]) - 0x80
    ensures buf[3 * k + 2] == Blue(pixels[k]) - 0x80
  {
    var p := EncodePixel(pixels[k]);
    DivModUnique(3 * k, 3, k, 0);
    DivModUnique(3 * k + 1, 3, k, 1);
    DivModUnique(3 * k + 2, 3, k, 2);
    assert buf[3 * k] == p[0];
    assert buf[3 * k + 1] == p[1];
    assert buf[3 * k + 2] == p[2];
    assert buf[3 * k..3 * k + 3] == [p[0], p[1], p[2]];
  }

  /** A packed colour encodes to its red, green and blue channels minus 128,
      whatever its alpha: the alpha bits never reach the buffer. */
  lemma EncodePackedPixel(alpha: int, red: int, green: int, blue: int)
    requires 0 <= alpha < 0x100 && 0 <= red < 0x100 && 0 <= green < 0x100 && 0 <= blue < 0x100
    ensures EncodePixel(Pack(alpha, red, green, blue)) == [red - 0x80, green - 0x80, blue - 0x80]
  {
    ChannelsOfPack(alpha, red, green, blue);
  }

  /** Inverse of the encoder: adding 128 to each byte of a triple gives back
      the unsigned channel values. */
  function DecodeInput(buf: seq<Int8>): (r: seq<Rgb>)
    ensures |r| == |buf| / 3
    ensures forall k :: 0 <= k < |r| ==>
      0 <= r[k].red < 0x100 && 0 <= r[k].green < 0x100 && 0 <= r[k].blue < 0x100
  {
    seq(|buf| / 3, k requires 0 <= k < |buf| / 3 =>
      Rgb(buf[3 * k] as int + 0x80, buf[3 * k + 1] as int + 0x80, buf[3 * k + 2] as int + 0x80))
  }

  /** Round trip: decoding the encoded buffer recovers every pixel's colour
      channels, in order. */
  lemma DecodeEncode(pixels: seq<Int32>)
    ensures DecodeInput(EncodeInput(pixels)) == seq(|pixels|, k requires 0 <= k < |pixels| => RgbOf(pixels[k]))
  {
    DecodeLaidOut(EncodeInput(pixels), pixels);
  }

  lemma DecodeLaidOut(buf: seq<Int8>, pixels: seq<Int32>)
    requires LaidOut(buf, pixels)
    ensures DecodeInput(buf) == seq(|pixels|, k requires 0 <= k < |pixels| => RgbOf(pixels[k]))
  {
    var decoded := DecodeInput(buf);
    var expected := seq(|pixels|, k requires 0 <= k < |pixels| => RgbOf(pixels[k]));
    DivModUnique(|buf|, 3, |pixels|, 0);
    forall k | 0 <= k < |pixels|
      ensures decoded[k] == expected[k]
    {
      LaidOutPixel(buf, pixels, k);
      assert decoded[k] == Rgb(buf[3 * k] as int + 0x80, buf[3 * k + 1] as int + 0x80, buf[3 * k + 2] as int + 0x80);
    }
  }

  /** Two pixel arrays encode to the same buffer exactly when they agree on
      every pixel's red, green and blue channels. */
  lemma {:induction false} EncodeSameIffSameColours(pixels: seq<Int32>, others: seq<Int32>)
    requires |pixels| == |others|
    ensures EncodeInput(pixels) == EncodeInput(others) <==>
      forall k :: 0 <= k < |pixels| ==> RgbOf(pixels[k]) == RgbOf(others[k])
  {
    if EncodeInput(pixels) == EncodeInput(others) {
      DecodeEncode(pixels);
      DecodeEncode(others);
      forall k | 0 <= k < |pixels|
        ensures RgbOf(pixels[k]) == RgbOf(others[k])
      {
        assert DecodeInput(EncodeInput(pixels))[k] == RgbOf(pixels[k]);
        assert DecodeInput(EncodeInput(others))[k] == RgbOf(others[k]);
      }
    }
    if forall k :: 0 <= k < |pixels| ==> RgbOf(pixels[k]) == RgbOf(others[k]) {
      var a, b := EncodeInput(pixels), EncodeInput(others);
      forall i | 0 <= i < |a|
        ensures a[i] == b[i]
      {
        assert RgbOf(pixels[i / 3]) == RgbOf(others[i / 3]);
      }
    }
  }

  /** The encoding loop of `predictDisease`: for every pixel, put the red,
      green and blue bytes into the buffer. */
  method EncodeInputBuffer(pixels: seq<Int32>) returns (buf: seq<Int8>)
    ensures |buf| == 3 * |pixels|
    ensures forall k :: 0 <= k < |pixels| ==>
      buf[3 * k] == Red(pixels[k]) - 0x80 && buf[3 * k + 1] == Green(pixels[k]) - 0x80 && buf[3 * k + 2] == Blue(pixels[k]) - 0x80
    ensures buf == EncodeInput(pixels)
  {
    buf := [];
    var i := 0;
    while i < |pixels|
      invariant 0 <= i <= |pixels|
      invariant buf == EncodeInput(pixels[..i])
    {
      var pixel := pixels[i];
      var r := ToByte(LowByte(ShiftRight(pixel, 16)) - 0x80);
      var g := ToByte(LowByte(ShiftRight(pixel, 8)) - 0x80);
      var b := ToByte(LowByte(pixel) - 0x80);
      buf := buf + [r];
      buf := buf + [g];
      buf := buf + [b];
      assert pixels[..i + 1][..i] == pixels[..i] && pixels[..i + 1][i] == pixel;
      assert [r, g, b] == EncodePixel(pixel);
      i := i + 1;
    }
    assert pixels[..|pixels|] == pixels;
    forall k | 0 <= k < |pixels|
      ensures buf[3 * k] == Red(pixels[k]) - 0x80 && buf[3 * k + 1] == Green(pixels[k]) - 0x80
      ensures buf[3 * k + 2] == Blue(pixels[k]) - 0x80
    {
      PixelLayout(pixels, k);
    }
  }
}
