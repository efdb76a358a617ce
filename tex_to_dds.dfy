/**
 * The mapping from a `.tex` header to the DDS header the preview handler
 * places in front of the pixel payload: the four format helpers and the
 * header fields GetThumbnail assigns.
 */
module TexToDds {
  import opened Bytes
  import opened TexHeaderLayout
  import opened DdsLayout

  /** ConvertFormat: each recognised format becomes the same-named DXGI format; anything else is unknown. */
  function ConvertFormat(f: TexFormat): DxgiFormat {
    if f == UNKNOWN then DXGI_FORMAT_UNKNOWN
    else if f == R8G8B8A8_UNORM then DXGI_FORMAT_R8G8B8A8_UNORM
    else if f == R8G8B8A8_UNORM_SRGB then DXGI_FORMAT_R8G8B8A8_UNORM_SRGB
    else if f == R8G8_UNORM then DXGI_FORMAT_R8G8_UNORM
    else if f == BC1_UNORM then DXGI_FORMAT_BC1_UNORM
    else if f == BC1_UNORM_SRGB then DXGI_FORMAT_BC1_UNORM_SRGB
    else if f == BC4_UNORM then DXGI_FORMAT_BC4_UNORM
    else if f == BC5_UNORM then DXGI_FORMAT_BC5_UNORM
    else if f == BC6H_UF16 then DXGI_FORMAT_BC6H_UF16
    else if f == BC7_UNORM then DXGI_FORMAT_BC7_UNORM
    else if f == BC7_UNORM_SRGB then DXGI_FORMAT_BC7_UNORM_SRGB
    else DXGI_FORMAT_UNKNOWN
  }

  /** Exactly the formats that are not recognised are converted to DXGI_FORMAT_UNKNOWN. */
  lemma ConvertFormatUnknown(f: TexFormat)
    ensures ConvertFormat(f) == DXGI_FORMAT_UNKNOWN <==> !Recognised(f)
  {
  }

  /** The same-named TexFormat of a DXGI format: the inverse of ConvertFormat. */
  function TexFormatOf(d: DxgiFormat): TexFormat {
    match d
    case DXGI_FORMAT_UNKNOWN => UNKNOWN
    case DXGI_FORMAT_R8G8B8A8_UNORM => R8G8B8A8_UNORM
    case DXGI_FORMAT_R8G8B8A8_UNORM_SRGB => R8G8B8A8_UNORM_SRGB
    case DXGI_FORMAT_R8G8_UNORM => R8G8_UNORM
    case DXGI_FORMAT_BC1_UNORM => BC1_UNORM
    case DXGI_FORMAT_BC1_UNORM_SRGB => BC1_UNORM_SRGB
    case DXGI_FORMAT_BC4_UNORM => BC4_UNORM
    case DXGI_FORMAT_BC5_UNORM => BC5_UNORM
    case DXGI_FORMAT_BC6H_UF16 => BC6H_UF16
    case DXGI_FORMAT_BC7_UNORM => BC7_UNORM
    case DXGI_FORMAT_BC7_UNORM_SRGB => BC7_UNORM_SRGB
  }

  /** ConvertFormat and TexFormatOf undo each other on the recognised formats. */
  lemma ConvertFormatRoundTrip(f: TexFormat, d: DxgiFormat)
    ensures Recognised(f) ==> TexFormatOf(ConvertFormat(f)) == f
    ensures d != DXGI_FORMAT_UNKNOWN ==> Recognised(TexFormatOf(d)) && ConvertFormat(TexFormatOf(d)) == d
  {
  }

  /** No two recognised formats are converted to the same DXGI format. */
  lemma ConvertFormatInjective(a: TexFormat, b: TexFormat)
    requires Recognised(a) && Recognised(b) && ConvertFormat(a) == ConvertFormat(b)
    ensures a == b
  {
    ConvertFormatRoundTrip(a, ConvertFormat(a));
    ConvertFormatRoundTrip(b, ConvertFormat(b));
  }

  /** The formats FormatToFourCC sends to the DX10 extension. */
  const Dx10Formats: set<TexFormat> :=
    {R8G8B8A8_UNORM, R8G8B8A8_UNORM_SRGB, BC6H_UF16, BC7_UNORM, R8G8_UNORM, BC1_UNORM_SRGB, BC7_UNORM_SRGB}

  /** FormatToFourCC: the four-character code the ddspf block carries for a format. */
  function FormatToFourCC(f: TexFormat): u32 {
    if f == UNKNOWN then FOURCC_UNKN
    else if f == R8G8B8A8_UNORM || f == R8G8B8A8_UNORM_SRGB || f == BC6H_UF16 || f == BC7_UNORM
         || f == R8G8_UNORM || f == BC1_UNORM_SRGB || f == BC7_UNORM_SRGB then FOURCC_DX10
    else if f == BC1_UNORM then FOURCC_DXT1
    else if f == BC4_UNORM then FOURCC_BC4U
    else if f == BC5_UNORM then FOURCC_BC5U
    else FOURCC_UNKN
  }

  /**
   * The DX10 tag goes exactly to the seven formats with no legacy tag;
   * BC1_UNORM, BC4_UNORM and BC5_UNORM get DXT1, BC4U and BC5U, and
   * UNKNOWN and every unnamed value get UNKN.
   */
  lemma FormatToFourCCTags(f: TexFormat)
    ensures var r := FormatToFourCC(f);
      && (r == FOURCC_DX10 <==> f in Dx10Formats)
      && (r == FOURCC_DXT1 <==> f == BC1_UNORM)
      && (r == FOURCC_BC4U <==> f == BC4_UNORM)
      && (r == FOURCC_BC5U <==> f == BC5_UNORM)
      && (r == FOURCC_UNKN <==> !Recognised(f))
  {
    FourCCValues();
  }

  /** Whenever the extension header is chosen, it receives a real DXGI format rather than UNKNOWN. */
  lemma Dx10CarriesKnownFormat(f: TexFormat)
    requires FormatToFourCC(f) == FOURCC_DX10
    ensures ConvertFormat(f) != DXGI_FORMAT_UNKNOWN
  {
    FormatToFourCCTags(f);
    ConvertFormatUnknown(f);
  }

  /** FormatIs4bpp: the block formats with 8-byte blocks. */
  predicate FormatIs4bpp(f: TexFormat) {
    f == BC1_UNORM || f == BC1_UNORM_SRGB || f == BC4_UNORM
  }

  /** FormatIs16bpp: the two-channel 8-bit format. */
  predicate FormatIs16bpp(f: TexFormat) {
    f == R8G8_UNORM
  }

  /** No format is in both classes. */
  lemma BppClassesDisjoint(f: TexFormat)
    ensures !(FormatIs4bpp(f) && FormatIs16bpp(f))
  {
  }

  const U32_MODULUS: nat := 0x1_0000_0000

  /**
   * pitchOrLinearSize as GetThumbnail computes it, in uint32_t arithmetic:
   * Width * Height wraps before it is halved or doubled.
   */
  function LinearSize(f: TexFormat, width: u32, height: u32): u32 {
    var area := (width * height) % U32_MODULUS;
    if FormatIs4bpp(f) then area / 2
    else if FormatIs16bpp(f) then (area * 2) % U32_MODULUS
    else area
  }

  /** The bits per pixel the three-way classification assumes. */
  function BitsPerPixel(f: TexFormat): nat {
    if FormatIs4bpp(f) then 4 else if FormatIs16bpp(f) then 16 else 8
  }

  /** The linear size is the wrapped pixel count times the assumed bits per pixel, in bytes, wrapped again. */
  lemma LinearSizeIsBitsPerPixel(f: TexFormat, width: u32, height: u32)
    ensures LinearSize(f, width, height)
      == ((width * height) % U32_MODULUS) * BitsPerPixel(f) / 8 % U32_MODULUS
  {
  }

  /** Without overflow the linear size is exactly width * height * bits-per-pixel / 8. */
  lemma LinearSizeWithoutWrap(f: TexFormat, width: u32, height: u32)
    requires width * height < U32_MODULUS && width * height * BitsPerPixel(f) / 8 < U32_MODULUS
    ensures LinearSize(f, width, height) == width * height * BitsPerPixel(f) / 8
  {
    var area := width * height;
    assert area % U32_MODULUS == area;
    if FormatIs4bpp(f) {
      assert area * 4 / 8 == area / 2;
    } else if FormatIs16bpp(f) {
      assert area * 16 / 8 == area * 2;
    } else {
      assert area * 8 / 8 == area;
    }
  }

  /** Size in bytes of one 4x4 block of a block-compressed format. */
  function BlockBytes(f: TexFormat): nat
    requires f in {BC1_UNORM, BC1_UNORM_SRGB, BC4_UNORM, BC5_UNORM, BC6H_UF16, BC7_UNORM, BC7_UNORM_SRGB}
  {
    if f in {BC1_UNORM, BC1_UNORM_SRGB, BC4_UNORM} then 8 else 16
  }

  /**
   * For block-compressed formats and dimensions that are whole blocks, the
   * linear size agrees with the DDS rule: number of 4x4 blocks times block size.
   */
  lemma {:induction false} LinearSizeOfBlockFormats(f: TexFormat, width: u32, height: u32)
    requires f in {BC1_UNORM, BC1_UNORM_SRGB, BC4_UNORM, BC5_UNORM, BC6H_UF16, BC7_UNORM, BC7_UNORM_SRGB}
    requires width % 4 == 0 && height % 4 == 0 && width * height < U32_MODULUS
    ensures LinearSize(f, width, height) == (width / 4) * (height / 4) * BlockBytes(f)
  {
    var a, b := width / 4, height / 4;
    var blocks := a * b;
    var area := width * height;
    assert area == 16 * blocks by {
      assert width == 4 * a && height == 4 * b;
    }
    assert area % U32_MODULUS == area;
    if FormatIs4bpp(f) {
      assert LinearSize(f, width, height) == area / 2;
      assert area / 2 == blocks * 8;
    } else {
      assert !FormatIs16bpp(f);
      assert LinearSize(f, width, height) == area;
      assert BlockBytes(f) == 16;
    }
  }

  /** The size of the header area in front of the payload: the extended header exactly when the tag is "DX10". */
  function HeaderSize(fourCC: u32): nat {
    if fourCC == FOURCC_DX10 then DDS_EXTENDED_HEADER_SIZE else DDS_HEADER_SIZE
  }

  /** The classic header fields GetThumbnail assigns; the fields it leaves alone keep the buffer's zero fill. */
  function SynthesizeHeader(h: TexHeader): (d: DdsHeader)
    ensures d.Valid()
  {
    DdsHeader(
      magic := DDS_MAGIC,
      size := DDS_HEADER_SIZE - 4,
      flags := (DDSD_CAPS | DDSD_HEIGHT | DDSD_WIDTH | DDSD_PIXELFORMAT | DDSD_MIPMAPCOUNT | DDSD_LINEARSIZE) as int,
      height := h.height,
      width := h.width,
      pitchOrLinearSize := LinearSize(h.format, h.width, h.height),
      depth := 1,
      mipMapCount := Bits32(h.mipCount),
      reserved1 := seq(11, _ => 0),
      ddspf := DdsPixelFormat(
        size := DDS_PIXELFORMAT_SIZE,
        flags := DDPF_FOURCC as int,
        fourCC := FormatToFourCC(h.format),
        rgbBitCount := 0, rBitMask := 0, gBitMask := 0, bBitMask := 0, aBitMask := 0),
      caps := (DDSCAPS_COMPLEX | DDSCAPS_MIPMAP | DDSCAPS_TEXTURE) as int,
      caps2 := 0, caps3 := 0, caps4 := 0,
      reserved2 := 0)
  }

  /** The extension fields GetThumbnail assigns when the tag is "DX10". */
  function SynthesizeDxt10(h: TexHeader): DdsHeaderDxt10 {
    DdsHeaderDxt10(
      dxgiFormat := DxgiCode(ConvertFormat(h.format)),
      resourceDimension := D3D11_RESOURCE_DIMENSION_TEXTURE2D,
      miscFlag := 0,
      arraySize := 1,
      miscFlags2 := 0)
  }

  /** The whole header area: the classic header, followed by the extension when the tag is "DX10". */
  function SynthesizedPrefix(h: TexHeader): (r: seq<u8>)
    ensures |r| == HeaderSize(FormatToFourCC(h.format))
  {
    EncodeDdsHeader(SynthesizeHeader(h))
      + if FormatToFourCC(h.format) == FOURCC_DX10 then EncodeDxt10(SynthesizeDxt10(h)) else []
  }

  /** The values of the assigned classic-header words, read back at their byte offsets. */
  lemma SynthesizedHeaderValues(h: TexHeader)
    ensures var b := EncodeDdsHeader(SynthesizeHeader(h));
      && U32At(b, 0) == 0x2053_4444 && U32At(b, 4) == 124 && U32At(b, 8) == 0xA_1007
      && U32At(b, 12) == h.height && U32At(b, 16) == h.width
      && U32At(b, 20) == LinearSize(h.format, h.width, h.height)
      && U32At(b, 24) == 1 && U32At(b, 28) == Bits32(h.mipCount)
      && U32At(b, 108) == 0x40_1008
      && U32At(b, 112) == 0 && U32At(b, 116) == 0 && U32At(b, 120) == 0 && U32At(b, 124) == 0
  {
    FourCCValues();
    DdsHeaderOffsets(SynthesizeHeader(h));
  }

  /** The pixel-format block: size 32, the FOURCC flag alone, the format's tag, and zero bit count and masks. */
  lemma SynthesizedPixelFormatValues(h: TexHeader)
    ensures var b := EncodeDdsHeader(SynthesizeHeader(h));
      && U32At(b, 76) == 32 && U32At(b, 80) == 4 && U32At(b, 84) == FormatToFourCC(h.format)
      && U32At(b, 88) == 0 && U32At(b, 92) == 0 && U32At(b, 96) == 0 && U32At(b, 100) == 0
      && U32At(b, 104) == 0
  {
    DdsPixelFormatOffsets(SynthesizeHeader(h));
  }

  /** reserved1 stays zero. */
  lemma SynthesizedReservedZero(h: TexHeader, k: nat)
    requires k < 11
    ensures U32At(EncodeDdsHeader(SynthesizeHeader(h)), 32 + 4 * k) == 0
  {
    DdsReservedOffsets(SynthesizeHeader(h), k);
  }

  /**
   * With the "DX10" tag the extension sits at offset 128 and holds the
   * converted format, TEXTURE2D, array size 1 and zero misc flags.
   */
  lemma SynthesizedExtensionValues(h: TexHeader)
    requires FormatToFourCC(h.format) == FOURCC_DX10
    ensures var b := SynthesizedPrefix(h);
      && |b| == 148
      && U32At(b, 128) == DxgiCode(ConvertFormat(h.format))
      && U32At(b, 132) == 3 && U32At(b, 136) == 0 && U32At(b, 140) == 1 && U32At(b, 144) == 0
  {
    var c := EncodeDdsHeader(SynthesizeHeader(h));
    assert SynthesizedPrefix(h) == c + EncodeDxt10(SynthesizeDxt10(h));
    Dxt10OffsetsAfterHeader(c, SynthesizeDxt10(h));
  }

  /** Reinterpreting the header area as DDS structures reports exactly the synthesised fields. */
  lemma SynthesizedPrefixReadsBack(h: TexHeader)
    ensures var b := SynthesizedPrefix(h);
      && DecodeDdsHeader(b[..DDS_HEADER_SIZE]) == SynthesizeHeader(h)
      && (FormatToFourCC(h.format) == FOURCC_DX10 ==>
            DecodeDxt10(b[DDS_HEADER_SIZE..]) == SynthesizeDxt10(h))
  {
    var b := SynthesizedPrefix(h);
    assert b[..DDS_HEADER_SIZE] == EncodeDdsHeader(SynthesizeHeader(h));
    DecodeEncodeDdsHeader(SynthesizeHeader(h));
    if FormatToFourCC(h.format) == FOURCC_DX10 {
      assert b[DDS_HEADER_SIZE..] == EncodeDxt10(SynthesizeDxt10(h));
      DecodeEncodeDxt10(SynthesizeDxt10(h));
    }
  }
}
