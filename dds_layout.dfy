/**
 * The DirectDraw Surface headers the preview handler synthesises: the classic
 * DDS_HEADER (here including the leading "DDS " magic), its DDS_PIXELFORMAT
 * block, the DDS_HEADER_DXT10 extension, the flag enumerations, MAKEFOURCC,
 * and the DXGI_FORMAT enumerants the handler uses. Layouts follow Microsoft's
 * "DDS_HEADER structure", "DDS_PIXELFORMAT structure" and
 * "DDS_HEADER_DXT10 structure" reference pages: every field is a 32-bit
 * little-endian word.
 */
module DdsLayout {
  import opened Bytes

  /** MAKEFOURCC: four ASCII characters packed little-endian, c0 | c1 << 8 | c2 << 16 | c3 << 24. */
  function MakeFourCC(c0: char, c1: char, c2: char, c3: char): (r: u32)
    requires c0 as int < 0x80 && c1 as int < 0x80 && c2 as int < 0x80 && c3 as int < 0x80
    ensures LE(r, 4) == [c0 as int, c1 as int, c2 as int, c3 as int]
  {
    LEOfBytes4(c0 as int, c1 as int, c2 as int, c3 as int);
    c0 as int + c1 as int * 0x100 + c2 as int * 0x1_0000 + c3 as int * 0x100_0000
  }

  const DDS_MAGIC: u32 := MakeFourCC('D', 'D', 'S', ' ')
  const FOURCC_DX10: u32 := MakeFourCC('D', 'X', '1', '0')
  const FOURCC_DXT1: u32 := MakeFourCC('D', 'X', 'T', '1')
  const FOURCC_BC4U: u32 := MakeFourCC('B', 'C', '4', 'U')
  const FOURCC_BC5U: u32 := MakeFourCC('B', 'C', '5', 'U')
  const FOURCC_UNKN: u32 := MakeFourCC('U', 'N', 'K', 'N')

  /** The tags as numbers, and the five tags a TexFormat can map to are pairwise distinct. */
  lemma FourCCValues()
    ensures DDS_MAGIC == 0x2053_4444 && FOURCC_DX10 == 0x3031_5844 && FOURCC_DXT1 == 0x3154_5844
    ensures FOURCC_BC4U == 0x5534_4342 && FOURCC_BC5U == 0x5535_4342 && FOURCC_UNKN == 0x4E4B_4E55
  {
  }

  // The flag enumerations are bit sets, so they are kept as 32-bit bit-vectors.

  // DDS_FLAGS
  const DDSD_CAPS: bv32 := 0x1
  const DDSD_HEIGHT: bv32 := 0x2
  const DDSD_WIDTH: bv32 := 0x4
  const DDSD_PITCH: bv32 := 0x8
  const DDSD_PIXELFORMAT: bv32 := 0x1000
  const DDSD_MIPMAPCOUNT: bv32 := 0x2_0000
  const DDSD_LINEARSIZE: bv32 := 0x8_0000
  const DDSD_DEPTH: bv32 := 0x80_0000

  // DDS_PIXELFORMAT_FLAGS
  const DDPF_ALPHAPIXELS: bv32 := 0x1
  const DDPF_ALPHA: bv32 := 0x2
  const DDPF_FOURCC: bv32 := 0x4
  const DDPF_RGB: bv32 := 0x40
  const DDPF_YUV: bv32 := 0x200
  const DDPF_LUMINANCE: bv32 := 0x2_0000

  // DDS_PIXELDATA_COMPRESSION (the caps bits)
  const DDSCAPS_COMPLEX: bv32 := 0x8
  const DDSCAPS_TEXTURE: bv32 := 0x1000
  const DDSCAPS_MIPMAP: bv32 := 0x40_0000

  /** D3D11_RESOURCE_DIMENSION_TEXTURE2D. */
  const D3D11_RESOURCE_DIMENSION_TEXTURE2D: u32 := 3

  /** The DXGI_FORMAT enumerants a TexFormat can be converted to. */
  datatype DxgiFormat =
    | DXGI_FORMAT_UNKNOWN
    | DXGI_FORMAT_R8G8B8A8_UNORM
    | DXGI_FORMAT_R8G8B8A8_UNORM_SRGB
    | DXGI_FORMAT_R8G8_UNORM
    | DXGI_FORMAT_BC1_UNORM
    | DXGI_FORMAT_BC1_UNORM_SRGB
    | DXGI_FORMAT_BC4_UNORM
    | DXGI_FORMAT_BC5_UNORM
    | DXGI_FORMAT_BC6H_UF16
    | DXGI_FORMAT_BC7_UNORM
    | DXGI_FORMAT_BC7_UNORM_SRGB

  /** The numeric value of each enumerant, as Microsoft's dxgiformat.h defines it. */
  function DxgiCode(f: DxgiFormat): u32 {
    match f
    case DXGI_FORMAT_UNKNOWN => 0
    case DXGI_FORMAT_R8G8B8A8_UNORM => 28
    case DXGI_FORMAT_R8G8B8A8_UNORM_SRGB => 29
    case DXGI_FORMAT_R8G8_UNORM => 49
    case DXGI_FORMAT_BC1_UNORM => 71
    case DXGI_FORMAT_BC1_UNORM_SRGB => 72
    case DXGI_FORMAT_BC4_UNORM => 80
    case DXGI_FORMAT_BC5_UNORM => 83
    case DXGI_FORMAT_BC6H_UF16 => 95
    case DXGI_FORMAT_BC7_UNORM => 98
    case DXGI_FORMAT_BC7_UNORM_SRGB => 99
  }

  /** DDS_PIXELFORMAT: eight 32-bit fields. */
  datatype DdsPixelFormat = DdsPixelFormat(
    size: u32,
    flags: u32,
    fourCC: u32,
    rgbBitCount: u32,
    rBitMask: u32,
    gBitMask: u32,
    bBitMask: u32,
    aBitMask: u32)

  /** DDS_HEADER with the leading magic word, as the handler declares it. */
  datatype DdsHeader = DdsHeader(
    magic: u32,
    size: u32,
    flags: u32,
    height: u32,
    width: u32,
    pitchOrLinearSize: u32,
    depth: u32,
    mipMapCount: u32,
    reserved1: seq<u32>,
    ddspf: DdsPixelFormat,
    caps: u32,
    caps2: u32,
    caps3: u32,
    caps4: u32,
    reserved2: u32)
  {
    /** reserved1 is an array of eleven words. */
    predicate Valid() {
      |reserved1| == 11
    }
  }

  /** DDS_HEADER_DXT10: five 32-bit fields. */
  datatype DdsHeaderDxt10 = DdsHeaderDxt10(
    dxgiFormat: u32,
    resourceDimension: u32,
    miscFlag: u32,
    arraySize: u32,
    miscFlags2: u32)

  /** sizeof(DDS_PIXELFORMAT), sizeof(DDS_HEADER) (magic included), sizeof(DDS_HEADER_DXT10). */
  const DDS_PIXELFORMAT_SIZE: nat := 32
  const DDS_HEADER_SIZE: nat := 128
  const DDS_HEADER_DXT10_SIZE: nat := 20
  /** sizeof(DDS_EXTENDED_HEADER): the classic header followed by the extension. */
  const DDS_EXTENDED_HEADER_SIZE: nat := DDS_HEADER_SIZE + DDS_HEADER_DXT10_SIZE

  /** The words of a DDS_PIXELFORMAT in declaration order. */
  function PixelFormatWords(p: DdsPixelFormat): (ws: seq<u32>)
    ensures |ws| * 4 == DDS_PIXELFORMAT_SIZE
  {
    [p.size, p.flags, p.fourCC, p.rgbBitCount, p.rBitMask, p.gBitMask, p.bBitMask, p.aBitMask]
  }

  /** The words of a DDS_HEADER in declaration order. */
  function HeaderWords(d: DdsHeader): (ws: seq<u32>)
    requires d.Valid()
    ensures |ws| * 4 == DDS_HEADER_SIZE
  {
    [d.magic, d.size, d.flags, d.height, d.width, d.pitchOrLinearSize, d.depth, d.mipMapCount]
      + d.reserved1 + PixelFormatWords(d.ddspf) + [d.caps, d.caps2, d.caps3, d.caps4, d.reserved2]
  }

  /** The header whose words, in declaration order, are ws. */
  function HeaderFromWords(ws: seq<u32>): (d: DdsHeader)
    requires |ws| * 4 == DDS_HEADER_SIZE
    ensures d.Valid()
  {
    DdsHeader(ws[0], ws[1], ws[2], ws[3], ws[4], ws[5], ws[6], ws[7], ws[8..19],
              DdsPixelFormat(ws[19], ws[20], ws[21], ws[22], ws[23], ws[24], ws[25], ws[26]),
              ws[27], ws[28], ws[29], ws[30], ws[31])
  }

  /** The words of a DDS_HEADER_DXT10 in declaration order. */
  function Dxt10Words(e: DdsHeaderDxt10): (ws: seq<u32>)
    ensures |ws| * 4 == DDS_HEADER_DXT10_SIZE
  {
    [e.dxgiFormat, e.resourceDimension, e.miscFlag, e.arraySize, e.miscFlags2]
  }

  /** The in-memory bytes of a classic header. */
  function EncodeDdsHeader(d: DdsHeader): (r: seq<u8>)
    requires d.Valid()
    ensures |r| == DDS_HEADER_SIZE
  {
    Words(HeaderWords(d))
  }

  /** The classic header that 128 bytes hold when reinterpreted as a DDS_HEADER. */
  function DecodeDdsHeader(b: seq<u8>): (d: DdsHeader)
    requires |b| == DDS_HEADER_SIZE
    ensures d.Valid()
  {
    HeaderFromWords(WordsOf(b))
  }

  /** The in-memory bytes of a DX10 extension header. */
  function EncodeDxt10(e: DdsHeaderDxt10): (r: seq<u8>)
    ensures |r| == DDS_HEADER_DXT10_SIZE
  {
    Words(Dxt10Words(e))
  }

  /** The extension header that 20 bytes hold when reinterpreted as a DDS_HEADER_DXT10. */
  function DecodeDxt10(b: seq<u8>): (e: DdsHeaderDxt10)
    requires |b| == DDS_HEADER_DXT10_SIZE
  {
    var ws := WordsOf(b);
    DdsHeaderDxt10(ws[0], ws[1], ws[2], ws[3], ws[4])
  }

  /** Reinterpreting the bytes of a classic header gives that header back. */
  lemma DecodeEncodeDdsHeader(d: DdsHeader)
    requires d.Valid()
    ensures DecodeDdsHeader(EncodeDdsHeader(d)) == d
  {
    WordsOfWords(HeaderWords(d));
    assert HeaderWords(d)[8..19] == d.reserved1;
  }

  /** Every 128-byte buffer is the encoding of the classic header it reinterprets as. */
  lemma EncodeDecodeDdsHeader(b: seq<u8>)
    requires |b| == DDS_HEADER_SIZE
    ensures EncodeDdsHeader(DecodeDdsHeader(b)) == b
  {
    var ws := WordsOf(b);
    assert HeaderWords(HeaderFromWords(ws)) == ws;
  }

  /** Reinterpreting the bytes of an extension header gives that header back. */
  lemma DecodeEncodeDxt10(e: DdsHeaderDxt10)
    ensures DecodeDxt10(EncodeDxt10(e)) == e
  {
    WordsOfWords(Dxt10Words(e));
  }

  /** Every 20-byte buffer is the encoding of the extension header it reinterprets as. */
  lemma EncodeDecodeDxt10(b: seq<u8>)
    requires |b| == DDS_HEADER_DXT10_SIZE
    ensures EncodeDxt10(DecodeDxt10(b)) == b
  {
    var ws := WordsOf(b);
    assert Dxt10Words(DecodeDxt10(b)) == ws;
  }

  /** Byte offsets of the classic header's own fields, counted from the start of the buffer (the magic). */
  lemma DdsHeaderOffsets(d: DdsHeader)
    requires d.Valid()
    ensures U32At(EncodeDdsHeader(d), 0) == d.magic
    ensures U32At(EncodeDdsHeader(d), 4) == d.size
    ensures U32At(EncodeDdsHeader(d), 8) == d.flags
    ensures U32At(EncodeDdsHeader(d), 12) == d.height
    ensures U32At(EncodeDdsHeader(d), 16) == d.width
    ensures U32At(EncodeDdsHeader(d), 20) == d.pitchOrLinearSize
    ensures U32At(EncodeDdsHeader(d), 24) == d.depth
    ensures U32At(EncodeDdsHeader(d), 28) == d.mipMapCount
    ensures U32At(EncodeDdsHeader(d), 108) == d.caps
    ensures U32At(EncodeDdsHeader(d), 112) == d.caps2
    ensures U32At(EncodeDdsHeader(d), 116) == d.caps3
    ensures U32At(EncodeDdsHeader(d), 120) == d.caps4
    ensures U32At(EncodeDdsHeader(d), 124) == d.reserved2
  {
    var ws := HeaderWords(d);
    WordAt(ws, 0);
    WordAt(ws, 1);
    WordAt(ws, 2);
    WordAt(ws, 3);
    WordAt(ws, 4);
    WordAt(ws, 5);
    WordAt(ws, 6);
    WordAt(ws, 7);
    WordAt(ws, 27);
    WordAt(ws, 28);
    WordAt(ws, 29);
    WordAt(ws, 30);
    WordAt(ws, 31);
  }

  /** Byte offsets of the ddspf block's fields: the block starts at 76. */
  lemma DdsPixelFormatOffsets(d: DdsHeader)
    requires d.Valid()
    ensures U32At(EncodeDdsHeader(d), 76) == d.ddspf.size
    ensures U32At(EncodeDdsHeader(d), 80) == d.ddspf.flags
    ensures U32At(EncodeDdsHeader(d), 84) == d.ddspf.fourCC
    ensures U32At(EncodeDdsHeader(d), 88) == d.ddspf.rgbBitCount
    ensures U32At(EncodeDdsHeader(d), 92) == d.ddspf.rBitMask
    ensures U32At(EncodeDdsHeader(d), 96) == d.ddspf.gBitMask
    ensures U32At(EncodeDdsHeader(d), 100) == d.ddspf.bBitMask
    ensures U32At(EncodeDdsHeader(d), 104) == d.ddspf.aBitMask
  {
    var ws := HeaderWords(d);
    WordAt(ws, 19);
    WordAt(ws, 20);
    WordAt(ws, 21);
    WordAt(ws, 22);
    WordAt(ws, 23);
    WordAt(ws, 24);
    WordAt(ws, 25);
    WordAt(ws, 26);
  }

  /** Byte offsets of reserved1: eleven words from 32 up to 76. */
  lemma DdsReservedOffsets(d: DdsHeader, k: nat)
    requires d.Valid() && k < 11
    ensures U32At(EncodeDdsHeader(d), 32 + 4 * k) == d.reserved1[k]
  {
    var ws := HeaderWords(d);
    assert ws[8 + k] == d.reserved1[k];
    WordAt(ws, 8 + k);
  }

  /** The byte offset of every extension field, counted from the start of the extension. */
  lemma Dxt10Offsets(e: DdsHeaderDxt10)
    ensures var b := EncodeDxt10(e);
      && U32At(b, 0) == e.dxgiFormat && U32At(b, 4) == e.resourceDimension
      && U32At(b, 8) == e.miscFlag && U32At(b, 12) == e.arraySize && U32At(b, 16) == e.miscFlags2
  {
    var ws := Dxt10Words(e);
    WordAt(ws, 0);
    WordAt(ws, 1);
    WordAt(ws, 2);
    WordAt(ws, 3);
    WordAt(ws, 4);
  }

  /** Behind a classic header, the extension's words sit at offsets 128 to 144. */
  lemma Dxt10OffsetsAfterHeader(c: seq<u8>, e: DdsHeaderDxt10)
    requires |c| == DDS_HEADER_SIZE
    ensures var b := c + EncodeDxt10(e);
      && U32At(b, 128) == e.dxgiFormat && U32At(b, 132) == e.resourceDimension
      && U32At(b, 136) == e.miscFlag && U32At(b, 140) == e.arraySize && U32At(b, 144) == e.miscFlags2
  {
    var x := EncodeDxt10(e);
    Dxt10Offsets(e);
    U32AtAppend(c, x, 0);
    U32AtAppend(c, x, 4);
    U32AtAppend(c, x, 8);
    U32AtAppend(c, x, 12);
    U32AtAppend(c, x, 16);
  }
}
