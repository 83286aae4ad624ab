/** The HEIC loader's own logic: copying the decoder's interleaved RGBA plane,
    whose rows may be padded to a stride, into a tightly packed buffer. The
    decoding itself is not modelled: its outcome comes in as a parameter. */
module Heic {
  import opened Common

  /** An interleaved RGBA plane: its bytes and the distance between the starts
      of consecutive rows. */
  datatype Plane = Plane(data: seq<byte>, stride: nat)

  /** What the decoder produced: an error (unreadable path, file, primary image
      or decoding), or an image of the given size with its interleaved plane
      when there is one. */
  datatype Decoding =
    | DecodeError(message: string)
    | Decoded(width: nat, height: nat, interleaved: Option<Plane>)

  /** A packed RGBA image: `width * height * 4` bytes, row after row. */
  datatype RgbaImage = RgbaImage(width: nat, height: nat, pixels: seq<byte>)

  datatype HeicError = DecoderFailed(message: string) | NoInterleavedPlane

  /** The loader's result: an image with its auxiliary metadata (always
      `None`), or an error. */
  datatype Loaded = LoadedImage(image: RgbaImage, aux: Option<seq<byte>>) | LoadError(error: HeicError)

  /** Row `y` of the plane, without its padding. */
  function Row(data: seq<byte>, stride: nat, width: nat, y: nat): (r: seq<byte>)
    requires y * stride + width * 4 <= |data|
    ensures |r| == width * 4
  {
    data[y * stride..y * stride + width * 4]
  }

  /** The rows of the plane fit in `data`: the largest slice the copy takes
      ends inside it. */
  predicate RowsFit(data: seq<byte>, width: nat, height: nat, stride: nat) {
    height == 0 || (height - 1) * stride + width * 4 <= |data|
  }

  lemma RowFits(data: seq<byte>, width: nat, height: nat, stride: nat, y: nat)
    requires RowsFit(data, width, height, stride) && y < height
    ensures y * stride + width * 4 <= |data|
  {
    assert y * stride <= (height - 1) * stride by {
      MulMonotone(y, height - 1, stride);
    }
  }

  lemma MulMonotone(a: nat, b: nat, c: nat)
    requires a <= b
    ensures a * c <= b * c
  {
  }

  /** The first `height` rows, packed one after another. */
  function Packed(data: seq<byte>, width: nat, height: nat, stride: nat): seq<byte>
    requires RowsFit(data, width, height, stride)
  {
    if height == 0 then []
    else
      RowFits(data, width, height, stride, height - 1);
      Packed(data, width, height - 1, stride) + Row(data, stride, width, height - 1)
  }

  lemma MulSucc(a: nat, c: nat)
    ensures (a + 1) * c == a * c + c
  {
  }

  /** The packed buffer has `height` rows of `width * 4` bytes. */
  lemma {:induction false} PackedLength(data: seq<byte>, width: nat, height: nat, stride: nat)
    requires RowsFit(data, width, height, stride)
    ensures |Packed(data, width, height, stride)| == height * (width * 4)
  {
    if height > 0 {
      assert RowsFit(data, width, height - 1, stride) by {
        if height > 1 { RowFits(data, width, height, stride, height - 2); }
      }
      PackedLength(data, width, height - 1, stride);
      MulSucc(height - 1, width * 4);
    }
  }

  /** Row `y` of the packed buffer is row `y` of the plane. */
  lemma {:induction false} PackedRow(data: seq<byte>, width: nat, height: nat, stride: nat, y: nat)
    requires RowsFit(data, width, height, stride) && y < height
    ensures y * stride + width * 4 <= |data|
    ensures var l := width * 4; y * l + l <= height * l
    ensures |Packed(data, width, height, stride)| == height * (width * 4)
    ensures var l := width * 4;
      Packed(data, width, height, stride)[y * l..y * l + l] == Row(data, stride, width, y)
    decreases height
  {
    RowFits(data, width, height, stride, y);
    var l := width * 4;
    var h := height - 1;
    PackedLength(data, width, height, stride);
    MulMonotone(y + 1, height, l);
    MulMonotone(0, y, l);
    MulSucc(y, l);
    PackedLast(data, width, height, stride);
    var p := Packed(data, width, h, stride);
    var r := Row(data, stride, width, h);
    if y < h {
      PackedRow(data, width, h, stride, y);
      SliceOfAppendLeft(p, r, y * l, l);
    } else {
      SliceOfAppendRight(p, r);
    }
  }

  /** The last row packed comes after the others. */
  lemma PackedLast(data: seq<byte>, width: nat, height: nat, stride: nat)
    requires RowsFit(data, width, height, stride) && 0 < height
    ensures RowsFit(data, width, height - 1, stride)
    ensures (height - 1) * stride + width * 4 <= |data|
    ensures |Packed(data, width, height - 1, stride)| == (height - 1) * (width * 4)
    ensures Packed(data, width, height, stride) ==
      Packed(data, width, height - 1, stride) + Row(data, stride, width, height - 1)
  {
    assert RowsFit(data, width, height - 1, stride) by {
      if height > 1 { RowFits(data, width, height, stride, height - 2); }
    }
    PackedLength(data, width, height - 1, stride);
  }

  lemma SliceOfAppendLeft<T>(p: seq<T>, r: seq<T>, lo: nat, n: nat)
    requires lo + n <= |p|
    ensures (p + r)[lo..lo + n] == p[lo..lo + n]
  {
  }

  lemma SliceOfAppendRight<T>(p: seq<T>, r: seq<T>)
    ensures (p + r)[|p|..|p| + |r|] == r
  {
  }

  /** Without padding (`stride == width * 4`) packing is the identity on the
      first `height` rows' worth of bytes. */
  lemma {:induction false} PackedWithoutPadding(data: seq<byte>, width: nat, height: nat)
    requires height * (width * 4) <= |data|
    ensures RowsFit(data, width, height, width * 4)
    ensures Packed(data, width, height, width * 4) == data[..height * (width * 4)]
  {
    if height > 0 {
      var l := width * 4;
      MulSucc(height - 1, l);
      PackedWithoutPadding(data, width, height - 1);
      var start := (height - 1) * l;
      assert data[..start] + data[start..start + l] == data[..start + l];
    }
  }

  /** The row copy of `load_heic_via_libheif`: one slice of `width * 4` bytes
      per row, taken at `y * stride`. */
  method PackRows(data: seq<byte>, width: nat, height: nat, stride: nat) returns (buffer: seq<byte>)
    requires RowsFit(data, width, height, stride)
    ensures buffer == Packed(data, width, height, stride)
  {
    buffer := [];
    var y := 0;
    while y < height
      invariant 0 <= y <= height
      invariant RowsFit(data, width, y, stride)
      invariant buffer == Packed(data, width, y, stride)
    {
      RowFits(data, width, height, stride, y);
      var start := y * stride;
      var end := start + width * 4;
      buffer := buffer + data[start..end];
      y := y + 1;
    }
  }

  /** `load_heic_via_libheif` after decoding: a missing interleaved plane is
      an error; otherwise the packed image, with no auxiliary metadata. */
  method LoadHeic(decoding: Decoding) returns (r: Loaded)
    requires decoding.Decoded? && decoding.interleaved.Some? ==>
      RowsFit(decoding.interleaved.value.data, decoding.width, decoding.height, decoding.interleaved.value.stride)
    ensures decoding.DecodeError? ==> r == LoadError(DecoderFailed(decoding.message))
    ensures decoding.Decoded? && decoding.interleaved.None? ==> r == LoadError(NoInterleavedPlane)
    ensures decoding.Decoded? && decoding.interleaved.Some? ==>
      var p := decoding.interleaved.value;
      r == LoadedImage(RgbaImage(decoding.width, decoding.height, Packed(p.data, decoding.width, decoding.height, p.stride)), None)
    ensures r.LoadedImage? ==> r.aux.None? && |r.image.pixels| == r.image.height * (r.image.width * 4)
  {
    if decoding.DecodeError? {
      return LoadError(DecoderFailed(decoding.message));
    }
    if decoding.interleaved.None? {
      return LoadError(NoInterleavedPlane);
    }
    var plane := decoding.interleaved.value;
    var buffer := PackRows(plane.data, decoding.width, decoding.height, plane.stride);
    PackedLength(plane.data, decoding.width, decoding.height, plane.stride);
    r := LoadedImage(RgbaImage(decoding.width, decoding.height, buffer), None);
  }
}
