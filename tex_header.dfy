/**
 * The `.tex` container's fixed header: the TexFormat enumeration and the
 * byte-packed TexHeader record found at the start of every file.
 */
module TexHeaderLayout {
  import opened Bytes

  /** TexFormat is a 32-bit enumeration; a file may hold any 32-bit value here, named or not. */
  type TexFormat = u32

  const UNKNOWN: TexFormat := 0
  const R8G8B8A8_UNORM: TexFormat := 7
  const R8G8B8A8_UNORM_SRGB: TexFormat := 9
  const R8G8_UNORM: TexFormat := 19
  const BC1_UNORM: TexFormat := 22
  const BC1_UNORM_SRGB: TexFormat := 23
  const BC4_UNORM: TexFormat := 24
  const BC5_UNORM: TexFormat := 26
  const BC6H_UF16: TexFormat := 28
  const BC7_UNORM: TexFormat := 30
  const BC7_UNORM_SRGB: TexFormat := 31

  /** The named enumerants in declaration order. */
  const NamedFormats: seq<TexFormat> :=
    [UNKNOWN, R8G8B8A8_UNORM, R8G8B8A8_UNORM_SRGB, R8G8_UNORM, BC1_UNORM, BC1_UNORM_SRGB,
     BC4_UNORM, BC5_UNORM, BC6H_UF16, BC7_UNORM, BC7_UNORM_SRGB]

  /** A format value is recognised when it is one of the named values other than UNKNOWN. */
  predicate Recognised(f: TexFormat) {
    f != UNKNOWN && f in NamedFormats
  }

  /** The enumeration has eleven distinct named values, and UNKNOWN is the zero value. */
  lemma NamedFormatsDistinct()
    ensures |NamedFormats| == 11 && NamedFormats[0] == UNKNOWN == 0
    ensures forall i, j :: 0 <= i < j < |NamedFormats| ==> NamedFormats[i] != NamedFormats[j]
  {
  }

  /** Size in bytes of the packed TexHeader: no padding between fields. */
  const TEX_HEADER_SIZE: nat := 40

  /** The fields of a TexHeader in declaration order. */
  datatype TexHeader = TexHeader(
    magic: seq<u8>,       // char[4]
    version: i64,
    dataBlock: i32,
    texType: i32,
    mipCount: i32,
    width: u32,
    height: u32,
    mipListCount: i32,
    format: TexFormat)
  {
    /** The magic tag is four characters. */
    predicate Valid() {
      |magic| == 4
    }
  }

  /** The packed in-file bytes of a header: the fields back to back, multi-byte fields little-endian. */
  function EncodeTexHeader(h: TexHeader): (r: seq<u8>)
    requires h.Valid()
    ensures |r| == TEX_HEADER_SIZE
  {
    h.magic + LE(Bits64(h.version), 8) + LE(Bits32(h.dataBlock), 4) + LE(Bits32(h.texType), 4)
      + LE(Bits32(h.mipCount), 4) + LE(h.width, 4) + LE(h.height, 4)
      + LE(Bits32(h.mipListCount), 4) + LE(h.format, 4)
  }

  /**
   * The header a 40-byte buffer holds when read as a packed TexHeader:
   * Magic at 0, Version at 4, DataBlock at 12, Type at 16, MipCount at 20,
   * Width at 24, Height at 28, MipListCount at 32 and Format at 36.
   */
  function DecodeTexHeader(b: seq<u8>): (h: TexHeader)
    requires |b| == TEX_HEADER_SIZE
    ensures h.Valid()
  {
    TexHeader(
      b[0..4],
      ToSigned64(U64At(b, 4)),
      ToSigned32(U32At(b, 12)),
      ToSigned32(U32At(b, 16)),
      ToSigned32(U32At(b, 20)),
      U32At(b, 24),
      U32At(b, 28),
      ToSigned32(U32At(b, 32)),
      U32At(b, 36))
  }

  /** Reading back the bytes of a header gives the header: the offsets above agree with the packed layout. */
  lemma DecodeEncodeTexHeader(h: TexHeader)
    requires h.Valid()
    ensures DecodeTexHeader(EncodeTexHeader(h)) == h
  {
    var b := EncodeTexHeader(h);
    Pow256Values();
    assert b[4..12] == LE(Bits64(h.version), 8);
    assert b[12..16] == LE(Bits32(h.dataBlock), 4);
    assert b[16..20] == LE(Bits32(h.texType), 4);
    assert b[20..24] == LE(Bits32(h.mipCount), 4);
    assert b[24..28] == LE(h.width, 4);
    assert b[28..32] == LE(h.height, 4);
    assert b[32..36] == LE(Bits32(h.mipListCount), 4);
    SliceAfter(b[..36], LE(h.format, 4));
    assert b == b[..36] + LE(h.format, 4);
    FromLEOfLE(Bits64(h.version), 8);
    FromLEOfLE(Bits32(h.dataBlock), 4);
    FromLEOfLE(Bits32(h.texType), 4);
    FromLEOfLE(Bits32(h.mipCount), 4);
    FromLEOfLE(h.width, 4);
    FromLEOfLE(h.height, 4);
    FromLEOfLE(Bits32(h.mipListCount), 4);
    FromLEOfLE(h.format, 4);
  }

  /** Every 40-byte buffer is the packed encoding of the header it decodes to. */
  lemma EncodeDecodeTexHeader(b: seq<u8>)
    requires |b| == TEX_HEADER_SIZE
    ensures EncodeTexHeader(DecodeTexHeader(b)) == b
  {
    var h := DecodeTexHeader(b);
    assert LE(Bits64(h.version), 8) == b[4..12];
    assert LE(Bits32(h.dataBlock), 4) == b[12..16];
    assert LE(Bits32(h.texType), 4) == b[16..20];
    assert LE(Bits32(h.mipCount), 4) == b[20..24];
    assert LE(Bits32(h.mipListCount), 4) == b[32..36];
    assert b[..12] == b[0..4] + b[4..12];
    assert b[..16] == b[..12] + b[12..16];
    assert b[..20] == b[..16] + b[16..20];
    assert b[..24] == b[..20] + b[20..24];
    assert b[..28] == b[..24] + b[24..28];
    assert b[..32] == b[..28] + b[28..32];
    assert b[..36] == b[..32] + b[32..36];
    assert b == b[..36] + b[36..40];
  }

  /**
   * The signed fields read back in two's complement: Version is the value
   * of bytes 4 to 12, less 2^64 when the top bit of byte 11 is set;
   * DataBlock, Type, MipCount and MipListCount likewise over their four
   * bytes with 2^32.
   */
  lemma DecodedSignedFields(b: seq<u8>)
    requires |b| == TEX_HEADER_SIZE
    ensures var h := DecodeTexHeader(b);
      && h.version == FromLE(b[4..12]) - (if b[11] >= 0x80 then 0x1_0000_0000_0000_0000 else 0)
      && h.dataBlock == FromLE(b[12..16]) - (if b[15] >= 0x80 then 0x1_0000_0000 else 0)
      && h.texType == FromLE(b[16..20]) - (if b[19] >= 0x80 then 0x1_0000_0000 else 0)
      && h.mipCount == FromLE(b[20..24]) - (if b[23] >= 0x80 then 0x1_0000_0000 else 0)
      && h.mipListCount == FromLE(b[32..36]) - (if b[35] >= 0x80 then 0x1_0000_0000 else 0)
  {
    Pow256Values();
    TopByteSign(b[4..12]);
    TopByteSign(b[12..16]);
    TopByteSign(b[16..20]);
    TopByteSign(b[20..24]);
    TopByteSign(b[32..36]);
  }
}
