/** The texture rules of `process_milo_scene_events`
    (core/pikaxe_bevy/src/plugins.rs): the in-place byte-pair swap of Xbox 360
    texture data, the choice of GPU format from the bitmap encoding, the
    slice taken for the image and `image_new_fill`, which tiles a pixel
    pattern over a zeroed buffer. A panic in the source is `None` here. */
module Texture {
  import opened Common

  newtype byte = x: int | 0 <= x < 256

  // ---------------------------------------------------------------------
  // Byte-pair swap

  /** Each full pair of bytes exchanged; a trailing odd byte stays. */
  function SwappedPairs(s: seq<byte>): (r: seq<byte>)
    ensures |r| == |s|
  {
    if |s| < 2 then s else [s[1], s[0]] + SwappedPairs(s[2..])
  }

  /** Where each byte of `SwappedPairs(s)` comes from. */
  lemma {:induction false} SwappedAt(s: seq<byte>, k: nat)
    requires k < |s|
    ensures SwappedPairs(s)[k] ==
      (if k % 2 == 1 then s[k - 1] else if k + 1 < |s| then s[k + 1] else s[k])
  {
    if |s| >= 2 && k >= 2 {
      SwappedAt(s[2..], k - 2);
    }
  }

  /** Swapping twice gives the data back. */
  lemma {:induction false} SwapTwice(s: seq<byte>)
    ensures SwappedPairs(SwappedPairs(s)) == s
  {
    if |s| >= 2 {
      SwapTwice(s[2..]);
      assert SwappedPairs(s)[2..] == SwappedPairs(s[2..]);
    }
  }

  /** The swap loop over `data.chunks_mut(2)`. Every full pair is swapped;
      with an odd length the last one-byte chunk makes `ab[1]` panic after
      that, which `complete == false` reports. */
  method SwapBytePairs(data: array<byte>) returns (complete: bool)
    modifies data
    ensures complete <==> data.Length % 2 == 0
    ensures data[..] == SwappedPairs(old(data[..]))
  {
    var i := 0;
    while i + 1 < data.Length
      invariant 0 <= i <= data.Length && i % 2 == 0
      invariant forall k :: 0 <= k < i ==> data[k] == (if k % 2 == 1 then old(data[k - 1]) else old(data[k + 1]))
      invariant forall k :: i <= k < data.Length ==> data[k] == old(data[k])
    {
      var tmp := data[i];
      data[i] := data[i + 1];
      data[i + 1] := tmp;
      i := i + 2;
    }
    forall k | 0 <= k < data.Length
      ensures data[k] == SwappedPairs(old(data[..]))[k]
    {
      SwappedAt(old(data[..]), k);
    }
    complete := i == data.Length;
  }

  // ---------------------------------------------------------------------
  // Format choice

  datatype Platform = X360 | PS3 | OtherPlatform

  datatype Format = Bc1RgbaUnormSrgb | Bc3RgbaUnormSrgb | Bc5RgUnorm | Rgba8UnormSrgb

  /** The bitmap fields the decoder reads. */
  datatype Bitmap = Bitmap(width: nat, height: nat, bpp: nat, encoding: nat, rawData: seq<byte>)

  /** Decoded pixel data with the bits per pixel and format to upload it as. */
  datatype Decoded = Decoded(data: seq<byte>, bpp: nat, format: Format)

  /** Console bitmaps in encodings 8, 24 and 32 are block-compressed and
      uploaded as they are; everything else is unpacked to RGBA. */
  predicate IsCompressed(platform: Platform, encoding: nat) {
    (platform == X360 || platform == PS3) && encoding in {8, 24, 32}
  }

  /** DXT5 for 24, ATI2 for 32, DXT1 otherwise. */
  function CompressedFormat(encoding: nat): (f: Format)
    ensures f == Bc3RgbaUnormSrgb <==> encoding == 24
    ensures f == Bc5RgUnorm <==> encoding == 32
    ensures f != Rgba8UnormSrgb
  {
    if encoding == 24 then Bc3RgbaUnormSrgb
    else if encoding == 32 then Bc5RgUnorm
    else Bc1RgbaUnormSrgb
  }

  /** The decode step of a texture task. `unpacked` is what the foreign
      `unpack_rgba` returns for this bitmap; its failure hits an `expect`. */
  function Decode(platform: Platform, b: Bitmap, unpacked: Option<seq<byte>>): (r: Option<Decoded>)
    ensures r.None? <==>
      (IsCompressed(platform, b.encoding) && platform == X360 && |b.rawData| % 2 == 1)
      || (!IsCompressed(platform, b.encoding) && unpacked.None?)
    ensures r.Some? && IsCompressed(platform, b.encoding) ==>
      r.value.format == CompressedFormat(b.encoding) && r.value.bpp == b.bpp
      && |r.value.data| == |b.rawData|
    ensures r.Some? && !IsCompressed(platform, b.encoding) ==>
      r.value == Decoded(unpacked.value, 32, Rgba8UnormSrgb)
  {
    if IsCompressed(platform, b.encoding) then
      if platform == X360 then
        if |b.rawData| % 2 == 1 then None
        else Some(Decoded(SwappedPairs(b.rawData), b.bpp, CompressedFormat(b.encoding)))
      else Some(Decoded(b.rawData, b.bpp, CompressedFormat(b.encoding)))
    else if unpacked.None? then None
    else Some(Decoded(unpacked.value, 32, Rgba8UnormSrgb))
  }

  /** Only Xbox 360 data is altered, and swapping it again restores the
      bitmap's raw bytes; PlayStation 3 data is passed through untouched. */
  lemma DecodeRestoresRaw(platform: Platform, b: Bitmap, unpacked: Option<seq<byte>>)
    requires IsCompressed(platform, b.encoding)
    requires Decode(platform, b, unpacked).Some?
    ensures platform == X360 ==> SwappedPairs(Decode(platform, b, unpacked).value.data) == b.rawData
    ensures platform == PS3 ==> Decode(platform, b, unpacked).value.data == b.rawData
  {
    if platform == X360 {
      SwapTwice(b.rawData);
    }
  }

  // ---------------------------------------------------------------------
  // Building the image

  /** The data of `Image::default()`: one white RGBA pixel. */
  const DefaultImageData: seq<byte> := [255, 255, 255, 255]

  /** `Vec::resize(n, 0)`: truncate to `n` bytes, or pad with zeros. */
  function Resized(data: seq<byte>, n: nat): (r: seq<byte>)
    ensures |r| == n
    ensures forall k :: 0 <= k < n ==> r[k] == (if k < |data| then data[k] else 0)
  {
    if n <= |data| then data[..n] else data + seq(n - |data|, _ => 0)
  }

  /** The buffer `image_new_fill` starts from: the default image resized to
      `n` bytes, so its first four bytes stay 255 and the rest are zero. */
  function Blank(n: nat): (r: seq<byte>)
    ensures |r| == n
    ensures forall k :: 0 <= k < n ==> r[k] == (if k < 4 then 255 else 0)
  {
    Resized(DefaultImageData, n)
  }

  /** `buf` with `p` copied into each complete `|p|`-byte chunk, front to
      back (`chunks_exact_mut` plus `copy_from_slice`); an incomplete last
      chunk keeps its old bytes. */
  function Fill(buf: seq<byte>, p: seq<byte>): (r: seq<byte>)
    ensures |r| == |buf|
  {
    FillFrom(buf, p, 0)
  }

  /** The chunks of `buf` from offset `s` on, filled. */
  function FillFrom(buf: seq<byte>, p: seq<byte>, s: nat): (r: seq<byte>)
    requires s <= |buf|
    ensures |r| == |buf| - s
    decreases |buf| - s
  {
    if |p| == 0 || |buf| - s < |p| then buf[s..] else p + FillFrom(buf, p, s + |p|)
  }

  /** Byte `k` of the filled buffer repeats the pattern up to the end of
      the last complete chunk and keeps the old byte after it. */
  lemma FillAt(buf: seq<byte>, p: seq<byte>, k: nat)
    requires |p| > 0 && k < |buf|
    ensures Fill(buf, p)[k] == (if k < |buf| - |buf| % |p| then p[k % |p|] else buf[k])
  {
    FillFromAt(buf, p, 0, k);
  }

  lemma {:induction false} FillFromAt(buf: seq<byte>, p: seq<byte>, s: nat, j: nat)
    requires |p| > 0 && s + j < |buf|
    ensures FillFrom(buf, p, s)[j] == (if j < (|buf| - s) - (|buf| - s) % |p| then p[j % |p|] else buf[s + j])
    decreases |buf| - s
  {
    var n, d := |buf| - s, |p|;
    if n < d {
      ModSmall(n, d);
    } else {
      ModShift(n, d);
      ModSmall((n - d) % d, d);
      var rest := FillFrom(buf, p, s + d);
      assert FillFrom(buf, p, s) == p + rest;
      if j < d {
        ModSmall(j, d);
        assert FillFrom(buf, p, s)[j] == p[j];
      } else {
        assert FillFrom(buf, p, s)[j] == rest[j - d];
        FillFromAt(buf, p, s + d, j - d);
        ModShift(j, d);
        assert (n - d) % d == n % d && (j - d) % d == j % d;
      }
    }
  }

  /** A number below the divisor is its own remainder; every remainder is. */
  lemma ModSmall(x: nat, d: nat)
    requires 0 < d
    ensures x % d <= x
    ensures x < d ==> x % d == x
  {
  }

  /** Taking one divisor off does not change the remainder. */
  lemma ModShift(x: nat, d: nat)
    requires 0 < d <= x
    ensures (x - d) % d == x % d
  {
    var q, m := x / d, x % d;
    var q2, m2 := (x - d) / d, (x - d) % d;
    assert x == q * d + m;
    assert x - d == q2 * d + m2;
    assert (q - 1 - q2) * d == m2 - m;
    if q - 1 - q2 >= 1 { MulAtLeast(q - 1 - q2, d); }
    if q2 + 1 - q >= 1 { MulAtLeast(q2 + 1 - q, d); }
  }

  lemma MulAtLeast(a: int, d: int)
    requires a >= 1 && d > 0
    ensures a * d >= d
  {
  }

  /** A pattern exactly as long as the buffer replaces it once, unchanged. */
  lemma FillWhole(buf: seq<byte>, p: seq<byte>)
    requires |buf| == |p|
    ensures Fill(buf, p) == p
  {
    if |p| > 0 {
      assert FillFrom(buf, p, |p|) == [];
      assert p + [] == p;
    }
  }

  /** One pass of the loop: `copy_from_slice` into the chunk at `start`. */
  method CopyChunk(data: array<byte>, start: nat, pixel: seq<byte>)
    requires start + |pixel| <= data.Length
    modifies data
    ensures data[..] == old(data[..start]) + pixel + old(data[start + |pixel|..])
  {
    forall k | start <= k < start + |pixel| {
      data[k] := pixel[k - start];
    }
  }

  /** The fill loop's invariant: the first `start` bytes of `d` are the
      filled ones, the rest are still those of `blank`. */
  ghost predicate Filling(d: seq<byte>, blank: seq<byte>, start: nat, p: seq<byte>)
  {
    |p| > 0 && start <= |d| == |blank|
    && d == d[..start] + blank[start..]
    && d[..start] + FillFrom(blank, p, start) == Fill(blank, p)
  }

  /** The blank buffer is where the fill starts. */
  lemma FillStart(blank: seq<byte>, p: seq<byte>)
    requires |p| > 0
    ensures Filling(blank, blank, 0, p)
  {
    assert blank[..0] + blank[0..] == blank;
  }

  /** The loop invariant survives one chunk copy. */
  lemma FillStep(d: seq<byte>, whole: seq<byte>, blank: seq<byte>, start: nat, p: seq<byte>)
    requires Filling(whole, blank, start, p) && start + |p| <= |blank|
    requires d == whole[..start] + p + whole[start + |p|..]
    ensures Filling(d, blank, start + |p|, p)
  {
    var before, rest := whole[..start], FillFrom(blank, p, start + |p|);
    assert whole[start + |p|..] == blank[start + |p|..];
    assert d[..start + |p|] == before + p;
    assert FillFrom(blank, p, start) == p + rest;
    assert before + p + rest == before + (p + rest);
  }

  /** Once no whole chunk is left, the buffer is the filled one. */
  lemma FillEnd(d: seq<byte>, blank: seq<byte>, start: nat, p: seq<byte>)
    requires Filling(d, blank, start, p) && |blank| < start + |p|
    ensures d == Fill(blank, p)
  {
  }

  /** `image_new_fill` on an image of `len` bytes: the default image is
      resized to `len` bytes, then filled. `chunks_exact_mut(0)` panics, so
      an empty pattern gives `None`. */
  method ImageNewFill(len: nat, pixel: seq<byte>) returns (r: Option<seq<byte>>)
    ensures r.None? <==> |pixel| == 0
    ensures r.Some? ==> r.value == Fill(Blank(len), pixel)
  {
    if |pixel| == 0 {
      return None;
    }
    ghost var blank := Blank(len);
    var data := new byte[len](k requires 0 <= k < len => if k < 4 then 255 else 0);
    assert data[..] == blank;
    FillStart(blank, pixel);
    var start := 0;
    while start + |pixel| <= len
      invariant start <= len == data.Length
      invariant Filling(data[..], blank, start, pixel)
      decreases len - start
    {
      ghost var whole := data[..];
      CopyChunk(data, start, pixel);
      FillStep(data[..], whole, blank, start, pixel);
      start := start + |pixel|;
    }
    FillEnd(data[..], blank, start, pixel);
    return Some(data[..]);
  }

  /** `tex_size`: bytes of the top mip level. */
  function TexSize(b: Bitmap, bpp: nat): nat {
    b.width * b.height * bpp / 8
  }

  /** Bytes per pixel of the formats `image_new_fill` is used with. */
  const RgbaPixelSize: nat := 4

  /** The image data a decoded texture ends up with. The top mip level is
      sliced off (`decoded[..tex_size]` panics when the data is shorter);
      RGBA data goes through `image_new_fill` into a buffer of
      width * height * 4 bytes, compressed data through `image_new`, which
      keeps the slice as it is. */
  function ImageData(b: Bitmap, d: Decoded): (r: Option<seq<byte>>)
    ensures r.Some? <==> (TexSize(b, d.bpp) <= |d.data|
      && (d.format == Rgba8UnormSrgb ==> TexSize(b, d.bpp) > 0))
    ensures r.Some? && d.format != Rgba8UnormSrgb ==> r.value == d.data[..TexSize(b, d.bpp)]
    ensures r.Some? && d.format == Rgba8UnormSrgb ==> |r.value| == b.width * b.height * RgbaPixelSize
  {
    var size := TexSize(b, d.bpp);
    if |d.data| < size then None
    else
      var slice := d.data[..size];
      if d.format == Rgba8UnormSrgb then
        if |slice| == 0 then None
        else Some(Fill(Blank(b.width * b.height * RgbaPixelSize), slice))
      else Some(slice)
  }

  /** For an unpacked RGBA texture with pixels, the fill copies the top
      mip level exactly once: the image holds the first width * height * 4
      decoded bytes. */
  lemma RgbaImageIsTopLevel(platform: Platform, b: Bitmap, unpacked: seq<byte>)
    requires !IsCompressed(platform, b.encoding)
    requires b.width * b.height > 0 && b.width * b.height * RgbaPixelSize <= |unpacked|
    ensures Decode(platform, b, Some(unpacked)).Some?
    ensures ImageData(b, Decode(platform, b, Some(unpacked)).value)
      == Some(unpacked[..b.width * b.height * RgbaPixelSize])
  {
    var d := Decode(platform, b, Some(unpacked)).value;
    assert TexSize(b, 32) == b.width * b.height * RgbaPixelSize;
    FillWhole(Blank(b.width * b.height * RgbaPixelSize), unpacked[..b.width * b.height * RgbaPixelSize]);
  }
}
