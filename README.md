# WindowsTexPreview: the `.tex` to DDS header translation, in Dafny

WindowsTexPreview is a Windows Explorer thumbnail handler for `.tex`
texture files. Before it hands the texture to DirectXTex, it rewrites the
file as a DirectDraw Surface (DDS) in memory. This project models that
rewrite and proves what it produces. The model covers:

- the packed 40-byte `TexHeader` and the 32-bit `TexFormat` enumeration
  (`TexHeaderLayout`, `tex_header.dfy`);
- the DDS structures `DDS_HEADER` (with the leading `"DDS "` magic),
  `DDS_PIXELFORMAT` and `DDS_HEADER_DXT10`, the flag enumerations and
  `MAKEFOURCC` (`DdsLayout`, `dds_layout.dfy`);
- the format helpers `ConvertFormat`, `FormatToFourCC`, `FormatIs4bpp` and
  `FormatIs16bpp`, and the header fields `GetThumbnail` assigns
  (`TexToDds`, `tex_to_dds.dfy`);
- the part of `IStream` the handler uses: `Read`, `Seek` from the start and
  `Stat` (`ComStream`, `stream.dfy`);
- the handler object `CWindowsTexPreview`, with its one-shot `Initialize`
  and the first half of `GetThumbnail`, lines 201-256
  (`WindowsTexPreview`, `tex_preview.dfy`).

`GetThumbnail` has the following pieces:
- `TexPreview.BuildDds` models it. It reads the header and stops with
  `E_FAIL` on the UNKNOWN format.
- Otherwise it reads the int64 data offset at 0xB8, calls `Stat`, and
  allocates a zero-filled buffer of `header_size + cbSize - offset` bytes.
- Then it reads the payload to index `header_size`, and stores the DDS
  header fields one by one through the reinterpreted buffer.
- The stages are separate methods: `ReadHeader`, `ReadDataOffset`,
  `ReadOffsetAndSize`, `ReadPayload`, `Translate` and `WriteDdsHeader`.
  Each field store is a `StoreField` on the byte buffer.

Its result is stated against two specification functions:
- `Plan` is the calls the handler makes when none fails.
- `ExpectedDds` is the buffer it builds.

The predicate `Ran` says that the calls made are the plan up to and
including the first failing call, as `RETURN_IF_FAILED` implies.
`RanStopsAtFirstFault` relates `Ran` to the closed form by the index of
the first failure, `FirstFault`.

The stream is a byte string with a seek pointer and a log of the calls made.
Whether call number k fails, and with which HRESULT, is given by a map. This
makes every early return reachable. A seek before the start of the stream
fails as well, as described below.

Integers are unbounded in Dafny, so the source's fixed widths are written out:
- `Width * Height` wraps modulo 2^32 before it is halved or doubled.
- The buffer size is computed modulo 2^64, the width of `size_t` in the
  x64 build.
- The payload read count is `static_cast<ULONG>(size) - header_size`
  modulo 2^32.
- The signed fields of `TexHeader` are read as two's complement.

The handler never checks `nread`, so a short read is not an error: the
zero-initialised destination (the header, the data offset or the payload
area) stays partly zero, and translation goes on. The model does the same
(`Available`, `Padded`, `HeaderBytes`, `PayloadArea`).

The data offset is a signed 64-bit value that the handler passes to `Seek`
unchecked. A seek before the start of a stream fails, and the model reports
`STG_E_INVALIDFUNCTION` for it unless the fault map names another failure
for that call. A negative offset whose buffer `resize` can allocate
therefore ends `GetThumbnail` at the second seek with that HRESULT
(`NegativeOffsetFails`).

The numeric values of the DXGI_FORMAT enumerants, needed for the bytes of
the extension header, are those of Microsoft's `dxgiformat.h`. That header
is not part of this model.

## Model

| member | source | states |
|---|---|---|
| DdsLayout.MakeFourCC | WindowsTexPreview/WindowsTexPreview.cpp:10-11 | the four characters are the little-endian bytes of the result, first character lowest |
| DdsLayout.FourCCValues | WindowsTexPreview/WindowsTexPreview.cpp:10-11 | "DDS " = 0x20534444, "DX10" = 0x30315844, "DXT1" = 0x31545844, "BC4U" = 0x55344342, "BC5U" = 0x55354342, "UNKN" = 0x4E4B4E55 |
| DdsLayout.DecodeEncodeDdsHeader | WindowsTexPreview/WindowsTexPreview.cpp:14-41 | reinterpreting the 128 bytes of a classic header, magic included, gives the same header back |
| DdsLayout.EncodeDecodeDdsHeader | WindowsTexPreview/WindowsTexPreview.cpp:14-41 | every 128-byte buffer is the encoding of the header it reinterprets as |
| DdsLayout.DecodeEncodeDxt10 | WindowsTexPreview/WindowsTexPreview.cpp:43-49 | reinterpreting the 20 bytes of an extension header gives it back |
| DdsLayout.EncodeDecodeDxt10 | WindowsTexPreview/WindowsTexPreview.cpp:43-49 | every 20-byte buffer is the encoding of the extension it reinterprets as |
| DdsLayout.DdsHeaderOffsets | WindowsTexPreview/WindowsTexPreview.cpp:25-41 | magic, size, flags, height, width, pitchOrLinearSize, depth and mipMapCount sit at 0, 4, …, 28; caps, caps2-4 and reserved2 at 108-124 |
| DdsLayout.DdsPixelFormatOffsets | WindowsTexPreview/WindowsTexPreview.cpp:14-35 | the ddspf block starts at buffer offset 76: size 76, flags 80, fourCC 84, bit count and the four masks 88-104 |
| DdsLayout.DdsReservedOffsets | WindowsTexPreview/WindowsTexPreview.cpp:34 | reserved1[k] sits at offset 32 + 4k, for k < 11 |
| DdsLayout.Dxt10Offsets | WindowsTexPreview/WindowsTexPreview.cpp:43-49 | the five extension fields sit at offsets 0, 4, 8, 12 and 16 of the extension |
| DdsLayout.Dxt10OffsetsAfterHeader | WindowsTexPreview/WindowsTexPreview.cpp:77-80 | behind the 128-byte classic header, dxgiFormat, resourceDimension, miscFlag, arraySize and miscFlags2 sit at 128-144 |
| TexHeaderLayout.NamedFormatsDistinct | WindowsTexPreview/WindowsTexPreview.h:32-44 | TexFormat has eleven distinct named values, and UNKNOWN is 0 |
| TexHeaderLayout.DecodedSignedFields | WindowsTexPreview/WindowsTexPreview.h:46-58 | the decoded Version is the little-endian value of bytes 4-11, less 2^64 when the top bit of byte 11 is set; DataBlock, Type, MipCount and MipListCount likewise over their four bytes with 2^32 |
| Bytes.TopByteSign | WindowsTexPreview/WindowsTexPreview.h:46-58 | a little-endian value is in the upper half of its range exactly when its last byte has the top bit set |
| TexHeaderLayout.DecodeEncodeTexHeader | WindowsTexPreview/WindowsTexPreview.h:46-58 | decoding with the offsets Magic 0, Version 4, DataBlock 12, Type 16, MipCount 20, Width 24, Height 28, MipListCount 32, Format 36 undoes the packed little-endian encoding |
| TexHeaderLayout.EncodeDecodeTexHeader | WindowsTexPreview/WindowsTexPreview.h:46-58 | every 40-byte buffer is the packed encoding of the header it decodes to, so the header has no padding |
| TexToDds.ConvertFormatUnknown | WindowsTexPreview/WindowsTexPreview.cpp:82-99 | the result is DXGI_FORMAT_UNKNOWN exactly when the format is UNKNOWN or an unnamed value |
| TexToDds.ConvertFormatRoundTrip | WindowsTexPreview/WindowsTexPreview.cpp:82-99 | each recognised format maps to the same-named DXGI format, and each named DXGI format other than UNKNOWN comes from its same-named format |
| TexToDds.ConvertFormatInjective | WindowsTexPreview/WindowsTexPreview.cpp:82-99 | no two recognised formats convert to the same DXGI format |
| TexToDds.FormatToFourCCTags | WindowsTexPreview/WindowsTexPreview.cpp:101-118 | "DX10" exactly for the seven formats R8G8B8A8_UNORM(_SRGB), BC6H_UF16, BC7_UNORM(_SRGB), R8G8_UNORM and BC1_UNORM_SRGB; "DXT1", "BC4U" and "BC5U" exactly for BC1_UNORM, BC4_UNORM and BC5_UNORM; "UNKN" exactly for UNKNOWN and unnamed values |
| TexToDds.Dx10CarriesKnownFormat | WindowsTexPreview/WindowsTexPreview.cpp:252-253 | whenever the extension is written, its dxgiFormat is not DXGI_FORMAT_UNKNOWN |
| TexToDds.BppClassesDisjoint | WindowsTexPreview/WindowsTexPreview.cpp:120-126 | no format is both 4bpp and 16bpp |
| TexToDds.LinearSizeIsBitsPerPixel | WindowsTexPreview/WindowsTexPreview.cpp:237-243 | pitchOrLinearSize is (W·H mod 2^32) · bpp / 8 mod 2^32, with 4 bpp for BC1_UNORM, BC1_UNORM_SRGB and BC4_UNORM, 16 for R8G8_UNORM and 8 for every other format |
| TexToDds.LinearSizeWithoutWrap | WindowsTexPreview/WindowsTexPreview.cpp:237-243 | when nothing wraps, pitchOrLinearSize is exactly W·H·bpp/8 |
| TexToDds.LinearSizeOfBlockFormats | WindowsTexPreview/WindowsTexPreview.cpp:237-243 | for block-compressed formats and whole 4×4 blocks, pitchOrLinearSize is the number of blocks times the block size, 8 or 16 bytes |
| TexToDds.SynthesizedHeaderValues | WindowsTexPreview/WindowsTexPreview.cpp:231-250 | the classic header reads back magic "DDS ", size 124, flags 0xA1007, the source height and width, the linear size, depth 1, the MipCount bits, caps 0x401008, and zero caps2-4 and reserved2 |
| TexToDds.SynthesizedPixelFormatValues | WindowsTexPreview/WindowsTexPreview.cpp:247-249 | ddspf reads back size 32, flags DDPF_FOURCC, fourCC = FormatToFourCC(Format), and zero bit count and masks |
| TexToDds.SynthesizedReservedZero | WindowsTexPreview/WindowsTexPreview.cpp:224 | every reserved1 word stays 0 from the zero fill |
| TexToDds.SynthesizedExtensionValues | WindowsTexPreview/WindowsTexPreview.cpp:252-256 | with "DX10" the header area is 148 bytes and the extension reads back ConvertFormat(Format), TEXTURE2D = 3, miscFlag 0, arraySize 1, miscFlags2 0 |
| TexToDds.SynthesizedPrefixReadsBack | WindowsTexPreview/WindowsTexPreview.cpp:229-256 | reinterpreting the header area as DDS_EXTENDED_HEADER gives exactly the synthesised header, and the synthesised extension when the tag is "DX10" |
| ComStream.Available | WindowsTexPreview/WindowsTexPreview.cpp:205 | a read delivers min(count, length - position) bytes of the stream from the position, and none past the end |
| ComStream.CopyInto | WindowsTexPreview/WindowsTexPreview.cpp:227 | the bytes land from the given index on, and the rest of the buffer is unchanged |
| ComStream.Stream.Read | WindowsTexPreview/WindowsTexPreview.cpp:205 | the call is logged; a failing call changes nothing else; otherwise the available bytes are copied and the seek pointer moves past them, short reads included |
| ComStream.Outcome | WindowsTexPreview/WindowsTexPreview.cpp:212-227 | a call fails exactly when the fault map names it or it is a seek before the start of the stream |
| ComStream.Stream.Seek | WindowsTexPreview/WindowsTexPreview.cpp:226 | the call is logged; the injected failure, else STG_E_INVALIDFUNCTION for a negative target, leaves the seek pointer unchanged; otherwise S_OK and the pointer is the target |
| ComStream.Stream.Stat | WindowsTexPreview/WindowsTexPreview.cpp:217-218 | the call is logged; on success cbSize is the stream length, on failure it is 0 from the zero-initialised STATSTG |
| ComStream.ReplayAfterSeek | WindowsTexPreview/WindowsTexPreview.cpp:226 | after a successful seek the position no longer depends on the earlier calls |
| WindowsTexPreview.TexPreview.constructor | WindowsTexPreview/WindowsTexPreview.h:76-78 | a new handler is not initialised and has no stream |
| WindowsTexPreview.TexPreview.Initialize | WindowsTexPreview/WindowsTexPreview.cpp:185-196 | the first call binds the stream, sets the flag and returns S_OK; a later call returns E_UNEXPECTED and leaves the bound stream alone |
| WindowsTexPreview.FirstInitializeBinds | WindowsTexPreview/WindowsTexPreview.cpp:185-196 | from a new handler, a series of Initialize calls binds the first stream; the first call returns S_OK and every other call E_UNEXPECTED |
| WindowsTexPreview.StaysBound | WindowsTexPreview/WindowsTexPreview.cpp:193-195 | once bound, any number of further calls return E_UNEXPECTED and leave the binding unchanged |
| WindowsTexPreview.PlanCalls | WindowsTexPreview/WindowsTexPreview.cpp:205-227 | with no failures: for UNKNOWN only the 40-byte header read; otherwise the header read, the seek to 0xB8, the 8-byte read, Stat, the seek to the data offset and the payload read |
| WindowsTexPreview.FirstFaultIsFirst | WindowsTexPreview/WindowsTexPreview.cpp:167-174 | every call before the first failure goes through, and the call at that index fails |
| WindowsTexPreview.RanStopsAtFirstFault | WindowsTexPreview/WindowsTexPreview.cpp:167-174 | a run made the planned calls up to and including the first failing one and returned its HRESULT, or the success result when none failed, and conversely |
| WindowsTexPreview.RanSucceeds | WindowsTexPreview/WindowsTexPreview.cpp:167-174 | a run whose result is not a failure made every planned call |
| WindowsTexPreview.RanThrough | WindowsTexPreview/WindowsTexPreview.cpp:167-174 | a run whose result is not a failure met no injected fault at any of its call numbers |
| WindowsTexPreview.NegativeOffsetFails | WindowsTexPreview/WindowsTexPreview.cpp:214-226 | for a known format and a negative data offset whose buffer size is within `max_size()`, with no injected fault, the run makes five calls and returns the seek's STG_E_INVALIDFUNCTION |
| WindowsTexPreview.BufferSizeWithinRange | WindowsTexPreview/WindowsTexPreview.cpp:224 | without 64-bit wrap the buffer is header_size + (length - offset) bytes |
| WindowsTexPreview.PayloadReadCountIsPayloadMod | WindowsTexPreview/WindowsTexPreview.cpp:227 | the payload read asks for (length - offset) mod 2^32 bytes |
| WindowsTexPreview.PayloadAreaLayout | WindowsTexPreview/WindowsTexPreview.cpp:223-227 | after the header area the buffer holds the stream from the data offset; of a payload of 4 GiB or more, only the first (length - offset) mod 2^32 bytes, the rest zero |
| WindowsTexPreview.ExpectedDdsLayout | WindowsTexPreview/WindowsTexPreview.cpp:220-227 | the buffer is header_size + (length - offset) bytes: the synthesised header area, then the payload area from index header_size |
| WindowsTexPreview.AssignedHeaderWordsSynthesize | WindowsTexPreview/WindowsTexPreview.cpp:231-250 | the field assignments in source order over zero words give the synthesised classic header |
| WindowsTexPreview.SynthesizedDxt10Words | WindowsTexPreview/WindowsTexPreview.cpp:252-256 | the three extension assignments over zero words give the synthesised extension |
| WindowsTexPreview.StoreField | WindowsTexPreview/WindowsTexPreview.cpp:229-231 | a 32-bit store through the reinterpreted pointer updates one word of the structure and no other byte of the buffer |
| WindowsTexPreview.StoreU32 | WindowsTexPreview/WindowsTexPreview.cpp:231 | a 32-bit store writes the value's four little-endian bytes at the index and changes no other byte |
| WindowsTexPreview.WriteSurfaceFields | WindowsTexPreview/WindowsTexPreview.cpp:231-246 | the stores from magic to mipMapCount over zero words leave exactly those eight words set, and nothing after the header changes |
| WindowsTexPreview.WriteFormatFields | WindowsTexPreview/WindowsTexPreview.cpp:247-250 | the ddspf size, flags and fourCC stores and the caps store update exactly those four words, and nothing after the header changes |
| WindowsTexPreview.WriteClassicHeader | WindowsTexPreview/WindowsTexPreview.cpp:231-250 | on a zero header area the stores leave exactly the encoded synthesised classic header, and nothing after it changes |
| WindowsTexPreview.WriteExtension | WindowsTexPreview/WindowsTexPreview.cpp:252-256 | on a zero extension area the stores leave exactly the encoded synthesised extension, and nothing around it changes |
| WindowsTexPreview.WriteExtendedHeader | WindowsTexPreview/WindowsTexPreview.cpp:229-256 | on a zero area of 148 bytes the classic header and the extension behind it are written, and the bytes after them keep their old contents |
| WindowsTexPreview.WriteDdsHeader | WindowsTexPreview/WindowsTexPreview.cpp:229-256 | the buffer becomes the synthesised header area followed by its old contents from header_size on |
| WindowsTexPreview.ReadHeader | WindowsTexPreview/WindowsTexPreview.cpp:201-205 | one 40-byte read; on success the header is the one decoded from the zero-padded bytes available at the position |
| WindowsTexPreview.ReadDataOffset | WindowsTexPreview/WindowsTexPreview.cpp:212-215 | the seek to 0xB8, then the 8-byte read, stopping at the first failure; on success the offset is the zero-padded int64 at 0xB8 |
| WindowsTexPreview.ReadOffsetValue | WindowsTexPreview/WindowsTexPreview.cpp:214-215 | one 8-byte read at 0xB8; on success the offset is the two's-complement value of the zero-padded bytes available there |
| WindowsTexPreview.ReadOffsetAndSize | WindowsTexPreview/WindowsTexPreview.cpp:212-218 | the data offset stage then Stat, stopping at the first failure; on success the offset and the stream length |
| WindowsTexPreview.ReadPayload | WindowsTexPreview/WindowsTexPreview.cpp:223-227 | the seek to the data offset, then the payload read of the wrapped count, stopping at the first failure; a negative offset whose buffer size is within `max_size()` fails at the seek; on success a fresh buffer of header_size zeros followed by the payload area |
| WindowsTexPreview.ReadIntoBuffer | WindowsTexPreview/WindowsTexPreview.cpp:227 | one read to index at of a zero-filled buffer; on success the buffer holds zeros, the bytes available at the position, then zeros |
| WindowsTexPreview.Translate | WindowsTexPreview/WindowsTexPreview.cpp:212-256 | the five calls after the header read, stopping at the first failure; on success the offset lies within the stream and a fresh buffer holds the synthesised header area and the payload area |
| WindowsTexPreview.TexPreview.BuildDds | WindowsTexPreview/WindowsTexPreview.cpp:201-256 | the calls made are the planned ones up to the first failure, whose HRESULT is returned with no buffer; UNKNOWN gives E_FAIL after the header read alone; otherwise S_OK, the offset lies within the stream, and a fresh buffer equals ExpectedDds |

## Left out

- COM lifecycle (`QueryInterface`, `AddRef`/`Release`, the class factory, the DLL reference count) is left out: it is host boilerplate built on interlocked operations.
- The rest of `GetThumbnail` (cpp:258-325) is left out. DirectXTex loading, decompression, conversion and resizing are foreign library calls. The aspect-ratio scaling is single-precision floating point. The GDI+ bitmap construction is a foreign graphics API.
- dllmain.cpp (registration, GDI+ startup, `FormatWindowsError`), the logging macros and the unused `ActiveInstances` are left out: they are operating-system I/O or have no effect on the result.
- `IStream` itself is not part of the source. The model keeps only what the handler relies on: `Read` copies what is available, `Seek` with `STREAM_SEEK_SET` moves the pointer, `Stat` reports the length. `Seek`'s `newpos` output is not modelled. `Read` reports its byte count, which the handler never inspects.
- ComStream.Stream.Read: a successful call returns S_OK, never S_FALSE. The handler only tests `FAILED`, so the outcome is the same.
- Failure HRESULTs are abstract: a map from call number to an arbitrary negative HRESULT decides which calls fail.
- WindowsTexPreview.TexPreview.BuildDds requires a bound stream. The source dereferences `m_Stream` without a check, so calling `GetThumbnail` before `Initialize` is a null dereference, which is not modelled.
- WindowsTexPreview.TexPreview.BuildDds requires `Translatable`. Consider a known format whose header read, seek to 0xB8, offset read and `Stat` all succeed. `Translatable` then excludes the cases below. The source checks for none of them, and the model captures neither the exception nor the overflowing stores.
  - A data offset past the end of the stream. Past `length + header_size` the 64-bit size wraps and `resize` throws `std::length_error`. Between `length` and `length + header_size` the buffer is shorter than the header, the read count wraps, and the header stores go past the buffer.
  - A buffer size `header_size + length - offset` above `max_size()` (2^63 - 1 in the x64 build). This happens for a very negative offset, and `resize` throws `std::length_error` before the seek.
  - The requires also excludes the range between `length` and `length + header_size` when the second seek or the payload read would fail. There the source returns that failure before any store.
- WindowsTexPreview.Translate: its requires excludes the same cases as `BuildDds`'s `Translatable`: an offset past the end of the stream, and a buffer size above `max_size()`. This includes an offset between `length` and `length + header_size` whose second seek or payload read fails, where the source returns that failure cleanly.
- WindowsTexPreview.ReadPayload: its requires excludes every offset past `size`, and every buffer size above `max_size()`. This includes an offset past `size` whose seek or read fails, where the source returns that failure cleanly. Past `size + header_size`, `resize` throws first.
- WindowsTexPreview.NegativeOffsetFails: the lemma requires a buffer size `resize` can allocate. `resize` can still throw `std::bad_alloc` for a huge size below `max_size()`; that is not modelled, and the model reports the seek's failure instead.
- ComStream.Stream.Seek: a seek before the start of the stream reports STG_E_INVALIDFUNCTION. Another `IStream` implementation may report a different failure; only the code differs, and the handler returns it unchanged either way.
- The model assumes the x64 build, where `size_t` is 64 bits wide. In an x86 build the `resize` argument would be truncated modulo 2^32; that is not modelled.
- Allocation failure of `std::vector::resize` (`std::bad_alloc`) is not modelled: the model allocates any buffer up to `max_size()`.
- The `cx`, `phbmp` and `pdwAlpha` parameters of `GetThumbnail` are not used before line 256 and are not modelled.
- WindowsTexPreview.TexPreview.Initialize: the `grfMode` parameter is ignored by the source (cpp:185-196), so the model leaves it out.
