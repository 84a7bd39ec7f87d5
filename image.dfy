/** Image formats and the size arithmetic of an image's pixel buffer, and the image object that
    owns such a buffer: creating it from caller data, and moving it from one image to another. */
module Images {
  import opened Common

  /** A 32-bit signed integer, as the decoder reports dimensions and channel counts. */
  type s32 = x: int | -0x8000_0000 <= x < 0x8000_0000

  /** The pixel layouts an image can have; Unknown is only an argument value. */
  datatype Format = Unknown | Grayscale | RGBA | RGB | BGRA | BGR

  datatype Result = Success | FileNotFound

  /** The bytes one pixel takes: none for Unknown, one per channel otherwise. */
  function BytesPerPixel(f: Format): (r: u32)
    ensures r <= 4
    ensures r == 0 <==> f == Unknown
    ensures f in {RGBA, BGRA} <==> r == 4
    ensures f in {RGB, BGR} <==> r == 3
    ensures f == Grayscale <==> r == 1
  {
    match f
    case Unknown => 0
    case Grayscale => 1
    case RGBA => 4
    case RGB => 3
    case BGRA => 4
    case BGR => 3
  }

  /** The format a decoder's channel count stands for: only 1, 3 and 4 channels are known, and
      they are read in RGB order. */
  function FormatOfChannels(c: int): (f: Format)
    ensures f == Unknown || BytesPerPixel(f) as int == c
    ensures f != BGRA && f != BGR
  {
    if c == 1 then Grayscale
    else if c == 3 then RGB
    else if c == 4 then RGBA
    else Unknown
  }

  /** A channel count is recognised exactly when it is 1, 3 or 4. */
  lemma ChannelsRecognised(c: int)
    ensures FormatOfChannels(c) != Unknown <==> c == 1 || c == 3 || c == 4
  {
  }

  /** The channel count of a format leads back to a format of the same pixel width, and to the
      format itself when that is in RGB order. */
  lemma ChannelsRoundTrip(f: Format)
    ensures f != Unknown ==> BytesPerPixel(FormatOfChannels(BytesPerPixel(f) as int)) == BytesPerPixel(f)
    ensures f != BGRA && f != BGR ==> FormatOfChannels(BytesPerPixel(f) as int) == f
  {
  }

  /** The size of the pixel buffer of a w by h image, computed in 32-bit unsigned arithmetic as
      the source does, so that it wraps around at 2^32. */
  function DataSize(w: int, h: int, f: Format): (r: u32)
    ensures f == Unknown ==> r == 0
    ensures 0 <= w * h * BytesPerPixel(f) < U32_MODULUS ==> r == w * h * BytesPerPixel(f)
  {
    (w * h * BytesPerPixel(f)) % U32_MODULUS
  }

  /** An image of 65536 by 65536 grayscale pixels is reported to have no data. */
  lemma DataSizeWraps()
    ensures DataSize(0x1_0000, 0x1_0000, Grayscale) == 0
    ensures DataSize(0x1_0000, 0x1_0000, RGBA) == 0
  {
    assert 0x1_0000 * 0x1_0000 * 1 == 1 * U32_MODULUS;
    assert 0x1_0000 * 0x1_0000 * 4 == 4 * U32_MODULUS;
  }

  /** Dimensions with a small enough product give the exact size, which grows with each of them. */
  lemma DataSizeMonotonic(w: nat, h: nat, w': nat, h': nat, f: Format)
    requires w <= w' && h <= h' && w' * h' * 4 < U32_MODULUS
    ensures DataSize(w, h, f) <= DataSize(w', h', f)
    ensures DataSize(w, h, f) == w * h * BytesPerPixel(f)
  {
    var b := BytesPerPixel(f) as nat;
    var small, large := w * h, w' * h';
    MulGrows(w, h, w', h');
    MulGrows(large, b, large, 4);
    MulGrows(small, b, large, b);
  }

  /** A product of naturals grows with each factor. */
  lemma MulGrows(a: nat, b: nat, c: nat, d: nat)
    requires a <= c && b <= d
    ensures a * b <= c * d
  {
    assert a * b <= c * b by {
      assert c * b - a * b == (c - a) * b;
    }
    assert c * b <= c * d by {
      assert c * d - c * b == c * (d - b);
    }
  }

  /** The width, height, format and data size the decoder's report of x by y pixels of c
      channels gives, each an unsigned reinterpretation or a 32-bit product. */
  method DetermineFormatAndSize(x: s32, y: s32, c: s32)
    returns (width: u32, height: u32, format: Format, dataSize: u64)
    ensures width == x % U32_MODULUS && height == y % U32_MODULUS
    ensures format == FormatOfChannels(c)
    ensures dataSize == DataSize(x, y, format)
  {
    width := x % U32_MODULUS;
    height := y % U32_MODULUS;
    format := Unknown;
    if c == 1 {
      format := Grayscale;
    }
    if c == 3 {
      format := RGB;
    }
    if c == 4 {
      format := RGBA;
    }
    dataSize := (x * y * BytesPerPixel(format)) % U32_MODULUS;
  }

  /** An image: its dimensions and format, and the pixel buffer it owns (None for a null
      buffer) with the buffer's size. */
  class Image {
    var width: u32
    var height: u32
    var format: Format
    var data: Option<Bytes>
    var dataSize: u64

    /** A buffer, when there is one, holds as many bytes as the size says. */
    ghost predicate Valid()
      reads this
    {
      data.Some? ==> |data.value| == dataSize
    }

    /** An image with no buffer. */
    constructor ()
      ensures width == 0 && height == 0 && format == Unknown
      ensures data == None && dataSize == 0 && Valid()
    {
      width, height, format := 0, 0, Unknown;
      data, dataSize := None, 0;
    }

    /** Sets the dimensions and format; when the data is in the image's format, copies
        DataSize bytes of it into a buffer of that size, and otherwise keeps the buffer as it
        was. Success either way. */
    method Create(w: u32, h: u32, f: Format, pixels: Bytes, dataFormat: Format) returns (r: Result)
      requires f == dataFormat ==> DataSize(w, h, f) <= |pixels|
      modifies this
      ensures r == Success
      ensures width == w && height == h && format == f
      ensures f == dataFormat ==> dataSize == DataSize(w, h, f) && data == Some(pixels[..dataSize])
      ensures f != dataFormat ==> data == old(data) && dataSize == old(dataSize)
      ensures old(Valid()) ==> Valid()
    {
      width := w;
      height := h;
      format := f;
      if f == dataFormat {
        dataSize := (width * height * BytesPerPixel(format)) % U32_MODULUS;
        data := Some(pixels[..dataSize]);
      }
      r := Success;
    }

    /** The move constructor: takes over the other image's buffer and leaves it with none. */
    constructor Move(other: Image)
      modifies other
      ensures width == old(other.width) && height == old(other.height) && format == old(other.format)
      ensures data == old(other.data) && dataSize == old(other.dataSize)
      ensures other.data == None && other.dataSize == 0
      ensures other.width == old(other.width) && other.height == old(other.height)
      ensures other.format == old(other.format)
      ensures old(other.Valid()) ==> Valid() && other.Valid()
    {
      width := other.width;
      height := other.height;
      format := other.format;
      data := other.data;
      dataSize := other.dataSize;
      new;
      other.data := None;
      other.dataSize := 0;
    }

    /** The move assignment: as the move constructor, and nothing at all for a self-move. */
    method MoveAssign(other: Image)
      modifies this, other
      ensures other == this ==> unchanged(this)
      ensures other != this ==>
        width == old(other.width) && height == old(other.height) && format == old(other.format)
        && data == old(other.data) && dataSize == old(other.dataSize)
        && other.data == None && other.dataSize == 0
        && other.width == old(other.width) && other.height == old(other.height)
        && other.format == old(other.format)
      ensures old(other.Valid()) ==> Valid() && other.Valid()
    {
      if other != this {
        width := other.width;
        height := other.height;
        format := other.format;
        data := other.data;
        dataSize := other.dataSize;
        other.data := None;
        other.dataSize := 0;
      }
    }
  }
}
