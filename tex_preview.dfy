/**
 * CWindowsTexPreview: the one-shot Initialize binding of a stream, and the
 * first half of GetThumbnail, which reads a `.tex` file from the bound
 * stream and lays out the equivalent DDS file in a zero-filled buffer.
 */
module WindowsTexPreview {
  import opened Bytes
  import opened TexHeaderLayout
  import opened DdsLayout
  import opened TexToDds
  import opened ComStream

  /** The absolute stream position of the little-endian int64 data offset. */
  const DATA_OFFSET_POSITION: nat := 0xB8
  const U64_MODULUS: nat := 0x1_0000_0000_0000_0000
  /** std::vector<uint8_t>::max_size() in the x64 build: a larger resize throws std::length_error. */
  const MAX_BUFFER_SIZE: nat := 0x7FFF_FFFF_FFFF_FFFF

  // ---------------------------------------------------------------------
  // Initialize

  /** The m_Initialized flag and the m_Stream pointer. */
  datatype Binding = Binding(initialized: bool, stream: Stream?)

  /** A freshly constructed handler: not initialised, no stream. */
  const Unbound := Binding(false, null)

  /** One Initialize call: the first binds the stream, a later one is refused. */
  function InitializeStep(b: Binding, s: Stream?): (Binding, HResult) {
    if !b.initialized then (Binding(true, s), S_OK) else (b, E_UNEXPECTED)
  }

  /** A series of Initialize calls: the binding left behind and the HRESULT of each call. */
  function InitializeAll(b: Binding, ss: seq<Stream?>): (r: (Binding, seq<HResult>))
    ensures |r.1| == |ss|
    decreases |ss|
  {
    if ss == [] then (b, [])
    else
      var first := InitializeStep(b, ss[0]);
      var rest := InitializeAll(first.0, ss[1..]);
      (rest.0, [first.1] + rest.1)
  }

  /** Once bound, every further Initialize returns E_UNEXPECTED and the binding stays as it is. */
  lemma {:induction false} StaysBound(b: Binding, ss: seq<Stream?>)
    requires b.initialized
    ensures InitializeAll(b, ss) == (b, seq(|ss|, _ => E_UNEXPECTED))
    decreases |ss|
  {
    if ss == [] {
      assert seq(0, _ => E_UNEXPECTED) == [];
    } else {
      StaysBound(b, ss[1..]);
      assert InitializeStep(b, ss[0]) == (b, E_UNEXPECTED);
      assert InitializeAll(b, ss) == (b, [E_UNEXPECTED] + seq(|ss| - 1, _ => E_UNEXPECTED));
      assert [E_UNEXPECTED] + seq(|ss| - 1, _ => E_UNEXPECTED) == seq(|ss|, _ => E_UNEXPECTED);
    }
  }

  /** From a fresh handler only the first Initialize succeeds, and it is the first stream that stays bound. */
  lemma FirstInitializeBinds(ss: seq<Stream?>)
    requires |ss| > 0
    ensures InitializeAll(Unbound, ss) == (Binding(true, ss[0]), [S_OK] + seq(|ss| - 1, _ => E_UNEXPECTED))
  {
    StaysBound(Binding(true, ss[0]), ss[1..]);
  }

  // ---------------------------------------------------------------------
  // What GetThumbnail reads

  /** The 40 bytes the header read leaves in the zero-initialised TexHeader. */
  function HeaderBytes(data: seq<u8>, pos: nat): (r: seq<u8>)
    ensures |r| == TEX_HEADER_SIZE
  {
    Padded(Available(data, pos, TEX_HEADER_SIZE), TEX_HEADER_SIZE)
  }

  /** The TexHeader read from the stream's current position. */
  function SourceHeader(data: seq<u8>, pos: nat): TexHeader {
    DecodeTexHeader(HeaderBytes(data, pos))
  }

  /** The 8 bytes the read at 0xB8 leaves in the zero-initialised data offset. */
  function OffsetBytes(data: seq<u8>): (r: seq<u8>)
    ensures |r| == 8
  {
    Padded(Available(data, DATA_OFFSET_POSITION, 8), 8)
  }

  /** The int64 data offset read at 0xB8 into a zero-initialised variable. */
  function DataOffset(data: seq<u8>): i64 {
    ToSigned64(U64At(OffsetBytes(data), 0))
  }

  /** The header size for a given source header: 148 with the extension, 128 without. */
  function HeaderSizeOf(h: TexHeader): nat {
    HeaderSize(FormatToFourCC(h.format))
  }

  /**
   * What GetThumbnail relies on without checking, for a stream at position
   * pos whose next call is number n: once the header of a known format,
   * the seek to 0xB8, the offset and Stat have gone through, the data
   * offset is not past the end of the stream, and the buffer size
   * header_size + cbSize - offset is one resize can allocate. A negative
   * offset within that bound makes the seek to it fail.
   */
  predicate Translatable(data: seq<u8>, pos: nat, faults: map<nat, Failure>, n: nat) {
    var h := SourceHeader(data, pos);
    h.format != UNKNOWN && n !in faults && n + 1 !in faults && n + 2 !in faults && n + 3 !in faults ==>
      && DataOffset(data) <= |data|
      && HeaderSizeOf(h) + |data| - DataOffset(data) <= MAX_BUFFER_SIZE
  }

  /** The buffer size: header_size + cbSize - offset, in 64-bit unsigned arithmetic. */
  function BufferSize(headerSize: nat, streamSize: nat, offset: i64): (r: nat)
    ensures r < U64_MODULUS
  {
    (headerSize + streamSize - offset) % U64_MODULUS
  }

  /** The payload read count: static_cast<ULONG>(data.size()) - header_size, in 32-bit unsigned arithmetic. */
  function PayloadReadCount(headerSize: nat, bufferSize: nat): (r: u32) {
    (bufferSize % U32_MODULUS - headerSize) % U32_MODULUS
  }

  /** Without wrap-around the buffer is the header area plus the payload. */
  lemma BufferSizeWithinRange(headerSize: nat, streamSize: nat, offset: i64)
    requires 0 <= offset <= streamSize && headerSize + streamSize - offset < U64_MODULUS
    ensures BufferSize(headerSize, streamSize, offset) == headerSize + (streamSize - offset)
  {
  }

  /** The payload read asks for the payload size modulo 2^32: a payload of 4 GiB or more is read only in part. */
  lemma PayloadReadCountIsPayloadMod(headerSize: nat, payload: nat)
    requires headerSize < U32_MODULUS
    ensures PayloadReadCount(headerSize, headerSize + payload) == payload % U32_MODULUS
  {
    var M := U32_MODULUS;
    var s := headerSize + payload;
    assert s % M == (headerSize + payload % M) % M by {
      assert payload == payload / M * M + payload % M;
      assert s == (headerSize + payload % M) + payload / M * M;
    }
    if headerSize + payload % M < M {
      assert s % M - headerSize == payload % M;
    } else {
      assert s % M == headerSize + payload % M - M;
      assert s % M - headerSize == payload % M - M;
    }
  }

  /**
   * The calls GetThumbnail makes on the stream when none fails: the header
   * read alone for the UNKNOWN format, otherwise the header read, the seek
   * to 0xB8, the offset read, Stat, the seek to the data offset and the
   * payload read.
   */
  function Plan(data: seq<u8>, pos: nat): (r: seq<Call>)
  {
    var h := SourceHeader(data, pos);
    if h.format == UNKNOWN then [ReadCall(TEX_HEADER_SIZE)]
    else [ReadCall(TEX_HEADER_SIZE)] + TranslationPlan(data, h)
  }

  /** The calls after the header read for a recognised format. */
  function TranslationPlan(data: seq<u8>, h: TexHeader): seq<Call>
  {
    [SeekCall(DATA_OFFSET_POSITION), ReadCall(8), StatCall,
     SeekCall(DataOffset(data)), ReadCall(PayloadCount(data, HeaderSizeOf(h)))]
  }

  /** The count of the payload read for header size hs. */
  function PayloadCount(data: seq<u8>, hs: nat): u32
  {
    PayloadReadCount(hs, BufferSize(hs, |data|, DataOffset(data)))
  }

  /** The plan for a header with the given format, spelled out. */
  lemma PlanCalls(data: seq<u8>, pos: nat, h: TexHeader)
    requires h == SourceHeader(data, pos)
    ensures h.format == UNKNOWN ==> Plan(data, pos) == [ReadCall(TEX_HEADER_SIZE)]
    ensures h.format != UNKNOWN ==>
      Plan(data, pos) ==
        [ReadCall(TEX_HEADER_SIZE), SeekCall(DATA_OFFSET_POSITION), ReadCall(8), StatCall,
         SeekCall(DataOffset(data)), ReadCall(PayloadCount(data, HeaderSizeOf(h)))]
  {
    if h.format != UNKNOWN {
      assert Plan(data, pos) == [ReadCall(TEX_HEADER_SIZE)] + TranslationPlan(data, h);
    }
  }

  /** The number of calls of plan, made from call number from on, that succeed before the first failure. */
  function FirstFault(faults: map<nat, Failure>, from: nat, plan: seq<Call>): (k: nat)
    ensures k <= |plan|
    decreases |plan|
  {
    if plan == [] || Failed(Outcome(faults, from, plan[0])) then 0
    else 1 + FirstFault(faults, from + 1, plan[1..])
  }

  /** The calls before the first failure all go through, and the one at the first failure fails. */
  lemma {:induction false} FirstFaultIsFirst(faults: map<nat, Failure>, from: nat, plan: seq<Call>)
    ensures var k := FirstFault(faults, from, plan);
      && (forall j :: 0 <= j < k ==> !Failed(Outcome(faults, from + j, plan[j])))
      && (k < |plan| ==> Failed(Outcome(faults, from + k, plan[k])))
    decreases |plan|
  {
    if plan != [] && !Failed(Outcome(faults, from, plan[0])) {
      FirstFaultIsFirst(faults, from + 1, plan[1..]);
      var k := FirstFault(faults, from, plan);
      forall j | 0 <= j < k
        ensures !Failed(Outcome(faults, from + j, plan[j]))
      {
        if j > 0 {
          assert plan[j] == plan[1..][j - 1];
        }
      }
    }
  }

  /**
   * Running plan after the log before: the calls of plan are made one by
   * one until one fails; after is the log that leaves, hr is the failing
   * call's HRESULT, or done when every call goes through.
   */
  predicate Ran(before: seq<Call>, after: seq<Call>, faults: map<nat, Failure>, plan: seq<Call>, hr: HResult, done: HResult)
    decreases |plan|
  {
    if plan == [] then after == before && hr == done
    else
      var o := Outcome(faults, |before|, plan[0]);
      if Failed(o) then after == before + [plan[0]] && hr == o
      else Ran(before + [plan[0]], after, faults, plan[1..], hr, done)
  }

  /**
   * A run stops after the first failing call: the log grows by the plan up
   * to and including that call, and the result is its HRESULT, or done
   * when there is none.
   */
  lemma {:induction false} RanStopsAtFirstFault(before: seq<Call>, after: seq<Call>, faults: map<nat, Failure>,
                                                plan: seq<Call>, hr: HResult, done: HResult)
    ensures Ran(before, after, faults, plan, hr, done) <==>
      var k := FirstFault(faults, |before|, plan);
      && after == before + plan[..Min(k + 1, |plan|)]
      && (k < |plan| ==> hr == Outcome(faults, |before| + k, plan[k]))
      && (k == |plan| ==> hr == done)
    decreases |plan|
  {
    if plan != [] && !Failed(Outcome(faults, |before|, plan[0])) {
      RanStopsAtFirstFault(before + [plan[0]], after, faults, plan[1..], hr, done);
      var k := FirstFault(faults, |before| + 1, plan[1..]);
      if k < |plan| - 1 {
        assert plan[1..][k] == plan[k + 1];
      }
      assert before + [plan[0]] + plan[1..][..Min(k + 1, |plan| - 1)] == before + plan[..Min(k + 2, |plan|)];
    }
  }

  /** A single call whose result is its outcome runs a one-call plan. */
  lemma RanOne(before: seq<Call>, after: seq<Call>, faults: map<nat, Failure>, c: Call, hr: HResult)
    requires after == before + [c]
    requires hr == Outcome(faults, |before|, c)
    ensures Ran(before, after, faults, [c], hr, S_OK)
  {
    assert [c][1..] == [];
  }

  /** Running p with every call going through, then q, runs p + q. */
  lemma {:induction false} RanThen(before: seq<Call>, mid: seq<Call>, after: seq<Call>, faults: map<nat, Failure>,
                                   p: seq<Call>, q: seq<Call>, hp: HResult, hq: HResult, done: HResult)
    requires Ran(before, mid, faults, p, hp, S_OK) && !Failed(hp)
    requires Ran(mid, after, faults, q, hq, done)
    ensures Ran(before, after, faults, p + q, hq, done)
    decreases |p|
  {
    if p == [] {
      assert p + q == q;
    } else {
      RanThen(before + [p[0]], mid, after, faults, p[1..], q, hp, hq, done);
      assert (p + q)[1..] == p[1..] + q;
    }
  }

  /** A run of p that stops at a failure is a run of any longer plan p + q, whatever its result on success. */
  lemma {:induction false} RanStop(before: seq<Call>, after: seq<Call>, faults: map<nat, Failure>, p: seq<Call>, q: seq<Call>,
                                   hr: HResult, done: HResult, done': HResult)
    requires Ran(before, after, faults, p, hr, done) && Failed(hr) && !Failed(done)
    ensures Ran(before, after, faults, p + q, hr, done')
    decreases |p|
  {
    assert p != [];
    if !Failed(Outcome(faults, |before|, p[0])) {
      RanStop(before + [p[0]], after, faults, p[1..], q, hr, done, done');
      assert (p + q)[1..] == p[1..] + q;
    }
  }

  /** A run whose result is not a failure made every planned call and reports done. */
  lemma {:induction false} RanSucceeds(before: seq<Call>, after: seq<Call>, faults: map<nat, Failure>, p: seq<Call>,
                                       hr: HResult, done: HResult)
    requires Ran(before, after, faults, p, hr, done) && !Failed(hr)
    ensures hr == done && after == before + p
    decreases |p|
  {
    if p != [] {
      RanSucceeds(before + [p[0]], after, faults, p[1..], hr, done);
      assert before + [p[0]] + p[1..] == before + p;
    }
  }

  /** A run in which every call goes through can report any result. */
  lemma {:induction false} RanReports(before: seq<Call>, after: seq<Call>, faults: map<nat, Failure>, p: seq<Call>,
                                      done: HResult, done': HResult)
    requires Ran(before, after, faults, p, done, done) && !Failed(done)
    ensures Ran(before, after, faults, p, done', done')
    decreases |p|
  {
    if p != [] {
      RanReports(before + [p[0]], after, faults, p[1..], done, done');
    }
  }

  /** A run whose result is not a failure met no fault: none of the call numbers it used is a key of faults. */
  lemma {:induction false} RanThrough(before: seq<Call>, after: seq<Call>, faults: map<nat, Failure>, p: seq<Call>,
                                      hr: HResult, done: HResult)
    requires Ran(before, after, faults, p, hr, done) && !Failed(hr)
    ensures forall j :: |before| <= j < |before| + |p| ==> j !in faults
    decreases |p|
  {
    if p != [] {
      RanThrough(before + [p[0]], after, faults, p[1..], hr, done);
    }
  }

  /**
   * A negative data offset whose buffer resize can allocate, with no
   * injected failure, ends GetThumbnail at the seek to that offset: the
   * five calls up to it are made and the seek's STG_E_INVALIDFUNCTION is
   * returned.
   */
  lemma NegativeOffsetFails(data: seq<u8>, pos: nat, before: seq<Call>, after: seq<Call>, faults: map<nat, Failure>,
                            hr: HResult, done: HResult)
    requires SourceHeader(data, pos).format != UNKNOWN && DataOffset(data) < 0
    requires HeaderSizeOf(SourceHeader(data, pos)) + |data| - DataOffset(data) <= MAX_BUFFER_SIZE
    requires forall j :: |before| <= j < |before| + 5 ==> j !in faults
    requires Ran(before, after, faults, Plan(data, pos), hr, done)
    ensures hr == STG_E_INVALIDFUNCTION
    ensures after == before + Plan(data, pos)[..5]
  {
    var plan := Plan(data, pos);
    PlanCalls(data, pos, SourceHeader(data, pos));
    RanStopsAtFirstFault(before, after, faults, plan, hr, done);
    FirstFaultIsFirst(faults, |before|, plan);
    assert Failed(Outcome(faults, |before| + 4, plan[4]));
    assert FirstFault(faults, |before|, plan) == 4;
  }

  /**
   * What the buffer holds from index headerSize on: the bytes the payload
   * read delivers from the data offset, then the zeros of the fill.
   */
  function PayloadArea(data: seq<u8>, headerSize: nat, offset: i64): (r: seq<u8>)
    requires 0 <= offset <= |data|
    ensures |r| == |data| - offset
  {
    var count := PayloadReadCount(headerSize, BufferSize(headerSize, |data|, offset));
    Padded(Available(data, offset, count), |data| - offset)
  }

  /**
   * The payload area holds the stream's bytes from the data offset: all of
   * them when the payload is under 4 GiB, else the first payload mod 2^32
   * of them followed by zeros.
   */
  lemma PayloadAreaLayout(data: seq<u8>, headerSize: nat, offset: i64)
    requires 0 <= offset <= |data| && headerSize < U32_MODULUS
    requires headerSize + |data| - offset < U64_MODULUS
    ensures var a := PayloadArea(data, headerSize, offset);
      var p := |data| - offset;
      && a[..p % U32_MODULUS] == data[offset..offset + p % U32_MODULUS]
      && (forall i :: p % U32_MODULUS <= i < p ==> a[i] == 0)
      && (p < U32_MODULUS ==> a == data[offset..])
  {
    var p := |data| - offset;
    BufferSizeWithinRange(headerSize, |data|, offset);
    PayloadReadCountIsPayloadMod(headerSize, p);
    var count := PayloadReadCount(headerSize, BufferSize(headerSize, |data|, offset));
    assert count == p % U32_MODULUS;
    var got := Available(data, offset, count);
    assert got == data[offset..offset + count];
    assert PayloadArea(data, headerSize, offset) == Padded(got, p);
    if p < U32_MODULUS {
      assert count == p;
      assert offset + count == |data|;
    }
  }

  /**
   * The buffer GetThumbnail builds for a recognised format: the synthesised
   * header area, then the payload area.
   */
  function ExpectedDds(data: seq<u8>, pos: nat): (r: seq<u8>)
    requires SourceHeader(data, pos).format != UNKNOWN && 0 <= DataOffset(data) <= |data|
  {
    var h := SourceHeader(data, pos);
    SynthesizedPrefix(h) + PayloadArea(data, HeaderSizeOf(h), DataOffset(data))
  }

  /**
   * The buffer is header_size + (stream length - offset) bytes: the
   * synthesised DDS header, then the payload area from index header_size on.
   */
  lemma ExpectedDdsLayout(data: seq<u8>, pos: nat)
    requires SourceHeader(data, pos).format != UNKNOWN && 0 <= DataOffset(data) <= |data|
    ensures var h := SourceHeader(data, pos);
      var hs := HeaderSizeOf(h);
      var e := ExpectedDds(data, pos);
      && |e| == hs + (|data| - DataOffset(data))
      && e[..hs] == SynthesizedPrefix(h)
      && e[hs..] == PayloadArea(data, hs, DataOffset(data))
  {
    var h := SourceHeader(data, pos);
    var hs := HeaderSizeOf(h);
    assert |SynthesizedPrefix(h)| == hs;
  }

  // ---------------------------------------------------------------------
  // Writing the header through the reinterpreted buffer

  /** A run of zero words is a run of zero bytes. */
  lemma {:induction false} ZeroWords(n: nat)
    ensures Words(seq(n, _ => 0)) == Zeros(4 * n)
  {
    if n > 0 {
      ZeroWords(n - 1);
      assert seq(n, _ => 0)[1..] == seq(n - 1, _ => 0);
      assert LE(0, 4) == [0, 0, 0, 0];
    }
  }

  /** A 32-bit store of v at index at: four bytes, least significant first. */
  method StoreU32(buf: array<u8>, at: nat, v: u32)
    requires at + 4 <= buf.Length
    modifies buf
    ensures buf[..] == old(buf[..at]) + LE(v, 4) + old(buf[at + 4..])
  {
    ghost var before := buf[..];
    LE4(v);
    buf[at] := v % 0x100;
    buf[at + 1] := v / 0x100 % 0x100;
    buf[at + 2] := v / 0x1_0000 % 0x100;
    buf[at + 3] := v / 0x100_0000 % 0x100;
    ghost var four := LE(v, 4);
    assert buf[..] == before[at := four[0]][at + 1 := four[1]][at + 2 := four[2]][at + 3 := four[3]];
    UpdateFour(before, at, four);
  }

  /** Four updates at consecutive indices splice the four values in. */
  lemma UpdateFour(s: seq<u8>, at: nat, four: seq<u8>)
    requires at + 4 <= |s| && |four| == 4
    ensures s[at := four[0]][at + 1 := four[1]][at + 2 := four[2]][at + 3 := four[3]] == s[..at] + four + s[at + 4..]
  {
    var l := s[at := four[0]][at + 1 := four[1]][at + 2 := four[2]][at + 3 := four[3]];
    var r := s[..at] + four + s[at + 4..];
    assert |l| == |r|;
    forall i | 0 <= i < |l|
      ensures l[i] == r[i]
    {
      if i >= at + 4 {
        assert r[i] == s[at + 4..][i - at - 4];
      }
    }
  }

  /**
   * Storing a word at byte offset off of a structure at index base whose
   * fields are the words ws updates field off / 4 and no byte outside it.
   */
  lemma StoreInStructure(before: seq<u8>, after: seq<u8>, base: nat, ws: seq<u32>, off: nat, v: u32)
    requires off % 4 == 0 && off + 4 <= 4 * |ws| && base + 4 * |ws| <= |before|
    requires before[base..base + 4 * |ws|] == Words(ws)
    requires after == before[..base + off] + LE(v, 4) + before[base + off + 4..]
    ensures after[base..base + 4 * |ws|] == Words(ws[off / 4 := v])
    ensures after[..base] == before[..base] && after[base + 4 * |ws|..] == before[base + 4 * |ws|..]
  {
    var w, x := Words(ws), LE(v, 4);
    WordIndex(off);
    WordsUpdate(ws, off / 4, v);
    assert Words(ws[off / 4 := v]) == w[..off] + x + w[off + 4..];
    SpliceWindow(before, after, base, w, off, x);
  }

  /** A byte offset that is a multiple of 4 is four times its word index. */
  lemma WordIndex(off: nat)
    requires off % 4 == 0
    ensures 4 * (off / 4) == off
  {
  }

  /**
   * Overwriting the bytes x at index base + off, seen through the window w
   * at index base: the window becomes w overwritten at off, and the bytes
   * on either side of the window are untouched.
   */
  lemma SpliceWindow(before: seq<u8>, after: seq<u8>, base: nat, w: seq<u8>, off: nat, x: seq<u8>)
    requires off + |x| <= |w| && base + |w| <= |before| && before[base..base + |w|] == w
    requires after == before[..base + off] + x + before[base + off + |x|..]
    ensures after[base..base + |w|] == w[..off] + x + w[off + |x|..]
    ensures after[..base] == before[..base] && after[base + |w|..] == before[base + |w|..]
  {
    var n := |w|;
    var r := w[..off] + x + w[off + |x|..];
    assert |after| == |before|;
    forall i | 0 <= i < n
      ensures after[base + i] == r[i]
    {
      assert w[i] == before[base + i];
      if i < off {
      } else if i < off + |x| {
        assert after[base + i] == x[i - off];
      } else {
        assert after[base + i] == before[base + i];
      }
    }
    assert after[base..base + n] == r;
    forall i | base + n <= i < |after|
      ensures after[i] == before[i]
    {
      assert after[i] == before[base + off + |x|..][i - (base + off + |x|)];
    }
    assert after[base + n..] == before[base + n..];
  }

  /**
   * An assignment of v to the 32-bit field at byte offset off of the
   * structure at index base of buf, as through the reinterpreted
   * DDS_EXTENDED_HEADER pointer. The ghost words ws are the structure's fields.
   */
  method StoreField(buf: array<u8>, base: nat, ghost ws: seq<u32>, off: nat, v: u32)
    requires off % 4 == 0 && off + 4 <= 4 * |ws| && base + 4 * |ws| <= buf.Length
    requires buf[base..base + 4 * |ws|] == Words(ws)
    modifies buf
    ensures buf[base..base + 4 * |ws|] == Words(ws[off / 4 := v])
    ensures buf[..base] == old(buf[..base]) && buf[base + 4 * |ws|..] == old(buf[base + 4 * |ws|..])
  {
    ghost var before := buf[..];
    StoreU32(buf, base + off, v);
    StoreInStructure(before, buf[..], base, ws, off, v);
  }

  /** The classic header's words after GetThumbnail's field assignments, in assignment order, over zeros. */
  function AssignedHeaderWords(h: TexHeader): (ws: seq<u32>)
    ensures |ws| == 32
  {
    SurfaceWords(h)
      [19 := DDS_PIXELFORMAT_SIZE]
      [20 := DDPF_FOURCC as int]
      [21 := FormatToFourCC(h.format)]
      [27 := (DDSCAPS_COMPLEX | DDSCAPS_MIPMAP | DDSCAPS_TEXTURE) as int]
  }

  /** The classic header's words after the assignments from magic to mipMapCount, over zeros. */
  function SurfaceWords(h: TexHeader): (ws: seq<u32>)
    ensures |ws| == 32
  {
    seq(32, _ => 0)
      [0 := DDS_MAGIC]
      [1 := DDS_HEADER_SIZE - 4]
      [2 := (DDSD_CAPS | DDSD_HEIGHT | DDSD_WIDTH | DDSD_PIXELFORMAT | DDSD_MIPMAPCOUNT | DDSD_LINEARSIZE) as int]
      [3 := h.height]
      [4 := h.width]
      [5 := LinearSize(h.format, h.width, h.height)]
      [6 := 1]
      [7 := Bits32(h.mipCount)]
  }

  /** Assigning the fields one by one over zeros gives the synthesised classic header. */
  lemma AssignedHeaderWordsSynthesize(h: TexHeader)
    ensures AssignedHeaderWords(h) == HeaderWords(SynthesizeHeader(h))
  {
    var d := SynthesizeHeader(h);
    var ws := AssignedHeaderWords(h);
    var hw := HeaderWords(d);
    assert |ws| == |hw|;
    forall i | 0 <= i < 8
      ensures ws[i] == hw[i]
    {
    }
    forall i | 8 <= i < 19
      ensures ws[i] == hw[i]
    {
      assert hw[i] == d.reserved1[i - 8];
    }
    forall i | 19 <= i < 27
      ensures ws[i] == hw[i]
    {
      assert hw[i] == PixelFormatWords(d.ddspf)[i - 19];
    }
    forall i | 27 <= i < 32
      ensures ws[i] == hw[i]
    {
    }
  }

  /** The extension's words after GetThumbnail's field assignments, over zeros. */
  lemma SynthesizedDxt10Words(h: TexHeader)
    ensures Dxt10Words(SynthesizeDxt10(h)) ==
      seq(5, _ => 0)
        [0 := DxgiCode(ConvertFormat(h.format))]
        [1 := D3D11_RESOURCE_DIMENSION_TEXTURE2D]
        [3 := 1]
  {
  }

  /** The classic header's field assignments on a zero-filled header area. */
  method WriteClassicHeader(buf: array<u8>, h: TexHeader)
    requires DDS_HEADER_SIZE <= buf.Length
    requires buf[..DDS_HEADER_SIZE] == Zeros(DDS_HEADER_SIZE)
    modifies buf
    ensures buf[..DDS_HEADER_SIZE] == EncodeDdsHeader(SynthesizeHeader(h))
    ensures buf[DDS_HEADER_SIZE..] == old(buf[DDS_HEADER_SIZE..])
  {
    ZeroWords(32);
    WriteSurfaceFields(buf, h);
    WriteFormatFields(buf, h, SurfaceWords(h));
    AssignedHeaderWordsSynthesize(h);
  }

  /** The assignments from magic to mipMapCount. */
  method WriteSurfaceFields(buf: array<u8>, h: TexHeader)
    requires DDS_HEADER_SIZE <= buf.Length
    requires buf[..DDS_HEADER_SIZE] == Words(seq(32, _ => 0))
    modifies buf
    ensures buf[..DDS_HEADER_SIZE] == Words(SurfaceWords(h))
    ensures buf[DDS_HEADER_SIZE..] == old(buf[DDS_HEADER_SIZE..])
  {
    ghost var ws: seq<u32> := seq(32, _ => 0);
    StoreField(buf, 0, ws, 0, DDS_MAGIC);
    ws := ws[0 := DDS_MAGIC];
    StoreField(buf, 0, ws, 4, DDS_HEADER_SIZE - 4);
    ws := ws[1 := DDS_HEADER_SIZE - 4];
    var flags := (DDSD_CAPS | DDSD_HEIGHT | DDSD_WIDTH | DDSD_PIXELFORMAT | DDSD_MIPMAPCOUNT | DDSD_LINEARSIZE) as int;
    StoreField(buf, 0, ws, 8, flags);
    ws := ws[2 := flags];
    StoreField(buf, 0, ws, 12, h.height);
    ws := ws[3 := h.height];
    StoreField(buf, 0, ws, 16, h.width);
    ws := ws[4 := h.width];
    var pitch := LinearSize(h.format, h.width, h.height);
    StoreField(buf, 0, ws, 20, pitch);
    ws := ws[5 := pitch];
    StoreField(buf, 0, ws, 24, 1);
    ws := ws[6 := 1];
    StoreField(buf, 0, ws, 28, Bits32(h.mipCount));
  }

  /** The assignments of the pixel-format block and caps, over the header words ws0. */
  method WriteFormatFields(buf: array<u8>, h: TexHeader, ghost ws0: seq<u32>)
    requires DDS_HEADER_SIZE <= buf.Length && |ws0| == 32
    requires buf[..DDS_HEADER_SIZE] == Words(ws0)
    modifies buf
    ensures buf[..DDS_HEADER_SIZE] == Words(ws0
      [19 := DDS_PIXELFORMAT_SIZE]
      [20 := DDPF_FOURCC as int]
      [21 := FormatToFourCC(h.format)]
      [27 := (DDSCAPS_COMPLEX | DDSCAPS_MIPMAP | DDSCAPS_TEXTURE) as int])
    ensures buf[DDS_HEADER_SIZE..] == old(buf[DDS_HEADER_SIZE..])
  {
    ghost var ws := ws0;
    StoreField(buf, 0, ws, 76, DDS_PIXELFORMAT_SIZE);
    ws := ws[19 := DDS_PIXELFORMAT_SIZE];
    StoreField(buf, 0, ws, 80, DDPF_FOURCC as int);
    ws := ws[20 := DDPF_FOURCC as int];
    var fourCC := FormatToFourCC(h.format);
    StoreField(buf, 0, ws, 84, fourCC);
    ws := ws[21 := fourCC];
    var caps := (DDSCAPS_COMPLEX | DDSCAPS_MIPMAP | DDSCAPS_TEXTURE) as int;
    StoreField(buf, 0, ws, 108, caps);
  }

  /** The extension's field assignments on a zero-filled extension area. */
  method WriteExtension(buf: array<u8>, h: TexHeader)
    requires DDS_EXTENDED_HEADER_SIZE <= buf.Length
    requires buf[DDS_HEADER_SIZE..DDS_EXTENDED_HEADER_SIZE] == Zeros(DDS_HEADER_DXT10_SIZE)
    modifies buf
    ensures buf[..DDS_HEADER_SIZE] == old(buf[..DDS_HEADER_SIZE])
    ensures buf[DDS_HEADER_SIZE..DDS_EXTENDED_HEADER_SIZE] == EncodeDxt10(SynthesizeDxt10(h))
    ensures buf[DDS_EXTENDED_HEADER_SIZE..] == old(buf[DDS_EXTENDED_HEADER_SIZE..])
  {
    ghost var ws: seq<u32> := seq(5, _ => 0);
    ZeroWords(5);
    var dxgi := DxgiCode(ConvertFormat(h.format));
    StoreField(buf, DDS_HEADER_SIZE, ws, 0, dxgi);
    ws := ws[0 := dxgi];
    StoreField(buf, DDS_HEADER_SIZE, ws, 4, D3D11_RESOURCE_DIMENSION_TEXTURE2D);
    ws := ws[1 := D3D11_RESOURCE_DIMENSION_TEXTURE2D];
    StoreField(buf, DDS_HEADER_SIZE, ws, 12, 1);
    ws := ws[3 := 1];
    SynthesizedDxt10Words(h);
  }

  /** The classic header, then the extension behind it, on a zero-filled area of 148 bytes. */
  method WriteExtendedHeader(buf: array<u8>, h: TexHeader)
    requires DDS_EXTENDED_HEADER_SIZE <= buf.Length
    requires buf[..DDS_EXTENDED_HEADER_SIZE] == Zeros(DDS_EXTENDED_HEADER_SIZE)
    modifies buf
    ensures buf[..] == EncodeDdsHeader(SynthesizeHeader(h)) + EncodeDxt10(SynthesizeDxt10(h))
      + old(buf[DDS_EXTENDED_HEADER_SIZE..])
  {
    ghost var old0 := buf[..];
    ZerosWithin(old0, DDS_EXTENDED_HEADER_SIZE, 0, DDS_HEADER_SIZE);
    ZerosWithin(old0, DDS_EXTENDED_HEADER_SIZE, DDS_HEADER_SIZE, DDS_EXTENDED_HEADER_SIZE);
    assert old0[..DDS_HEADER_SIZE] == old0[0..DDS_HEADER_SIZE];
    WriteClassicHeader(buf, h);
    ghost var mid := buf[..];
    SameFrom(mid, old0, DDS_HEADER_SIZE, DDS_EXTENDED_HEADER_SIZE);
    WriteExtension(buf, h);
    WriteInTwo(old0, mid, buf[..], DDS_HEADER_SIZE, DDS_EXTENDED_HEADER_SIZE);
  }

  /** The header synthesis of GetThumbnail on a buffer whose header area is still zero. */
  method WriteDdsHeader(buf: array<u8>, h: TexHeader)
    requires HeaderSizeOf(h) <= buf.Length
    requires buf[..HeaderSizeOf(h)] == Zeros(HeaderSizeOf(h))
    modifies buf
    ensures buf[..] == SynthesizedPrefix(h) + old(buf[HeaderSizeOf(h)..])
  {
    if FormatToFourCC(h.format) == FOURCC_DX10 {
      assert HeaderSizeOf(h) == DDS_EXTENDED_HEADER_SIZE;
      WriteExtendedHeader(buf, h);
      assert SynthesizedPrefix(h) == EncodeDdsHeader(SynthesizeHeader(h)) + EncodeDxt10(SynthesizeDxt10(h));
    } else {
      assert HeaderSizeOf(h) == DDS_HEADER_SIZE;
      WriteClassicHeader(buf, h);
      assert SynthesizedPrefix(h) == EncodeDdsHeader(SynthesizeHeader(h));
      assert buf[..] == buf[..DDS_HEADER_SIZE] + buf[DDS_HEADER_SIZE..];
    }
  }

  /** Any window inside a zero prefix of b is zeros. */
  lemma ZerosWithin(b: seq<u8>, n: nat, i: nat, j: nat)
    requires i <= j <= n <= |b| && b[..n] == Zeros(n)
    ensures b[i..j] == Zeros(j - i)
  {
    forall k | 0 <= k < j - i
      ensures b[i..j][k] == 0
    {
      assert b[i + k] == b[..n][i + k];
    }
  }

  /** Two sequences that agree from p on agree on the window [p, q). */
  lemma SameFrom(a: seq<u8>, b: seq<u8>, p: nat, q: nat)
    requires p <= q <= |a| == |b| && a[p..] == b[p..]
    ensures a[p..q] == b[p..q]
  {
    assert a[p..q] == a[p..][..q - p] && b[p..q] == b[p..][..q - p];
  }

  /**
   * A first write that changes only the bytes before p, then a second that
   * changes only the window [p, q): the result is the two written parts,
   * then the original bytes from q on.
   */
  lemma WriteInTwo(old0: seq<u8>, mid: seq<u8>, fin: seq<u8>, p: nat, q: nat)
    requires p <= q <= |old0| == |mid| == |fin|
    requires mid[p..] == old0[p..]
    requires fin[..p] == mid[..p] && fin[q..] == mid[q..]
    ensures fin == mid[..p] + fin[p..q] + old0[q..]
  {
    forall i | q <= i < |fin|
      ensures fin[i] == old0[i]
    {
      assert fin[i] == fin[q..][i - q] == mid[q..][i - q] == mid[i];
      assert mid[i] == mid[p..][i - p] == old0[p..][i - p];
    }
    assert fin == fin[..p] + fin[p..q] + fin[q..];
  }

  // ---------------------------------------------------------------------
  // The stream stages of GetThumbnail

  /** The read of the packed TexHeader, from the current position, into a zero-initialised header. */
  method ReadHeader(s: Stream) returns (hr: HResult, h: TexHeader)
    requires s.Valid()
    modifies s
    ensures s.Valid()
    ensures Ran(old(s.calls), s.calls, s.faults, [ReadCall(TEX_HEADER_SIZE)], hr, S_OK)
    ensures !Failed(hr) ==> h == SourceHeader(s.data, old(s.pos))
  {
    var header := new u8[TEX_HEADER_SIZE](_ => 0);
    var nread;
    hr, nread := s.Read(header, 0, TEX_HEADER_SIZE);
    RanOne(old(s.calls), s.calls, s.faults, ReadCall(TEX_HEADER_SIZE), hr);
    if !Failed(hr) {
      assert header[..] == HeaderBytes(s.data, old(s.pos));
    }
    h := DecodeTexHeader(header[..]);
  }

  /** The seek to 0xB8 and the read of the int64 data offset into a zero-initialised variable. */
  method ReadDataOffset(s: Stream) returns (hr: HResult, offset: i64)
    requires s.Valid()
    modifies s
    ensures s.Valid()
    ensures Ran(old(s.calls), s.calls, s.faults, [SeekCall(DATA_OFFSET_POSITION), ReadCall(8)], hr, S_OK)
    ensures !Failed(hr) ==> offset == DataOffset(s.data)
  {
    offset := 0;
    hr := s.Seek(DATA_OFFSET_POSITION);
    RanOne(old(s.calls), s.calls, s.faults, SeekCall(DATA_OFFSET_POSITION), hr);
    if Failed(hr) {
      RanStop(old(s.calls), s.calls, s.faults, [SeekCall(DATA_OFFSET_POSITION)], [ReadCall(8)], hr, S_OK, S_OK);
      return;
    }
    ghost var (mid, hs) := (s.calls, hr);
    hr, offset := ReadOffsetValue(s);
    RanThen(old(s.calls), mid, s.calls, s.faults, [SeekCall(DATA_OFFSET_POSITION)], [ReadCall(8)], hs, hr, S_OK);
  }

  /** The read of the int64 data offset, at 0xB8, into a zero-initialised variable. */
  method ReadOffsetValue(s: Stream) returns (hr: HResult, offset: i64)
    requires s.Valid() && s.pos == DATA_OFFSET_POSITION
    modifies s
    ensures s.Valid()
    ensures Ran(old(s.calls), s.calls, s.faults, [ReadCall(8)], hr, S_OK)
    ensures !Failed(hr) ==> offset == DataOffset(s.data)
  {
    var bytes := new u8[8](_ => 0);
    var nread;
    hr, nread := s.Read(bytes, 0, 8);
    RanOne(old(s.calls), s.calls, s.faults, ReadCall(8), hr);
    if !Failed(hr) {
      assert bytes[..] == OffsetBytes(s.data);
    }
    offset := ToSigned64(U64At(bytes[..], 0));
  }

  /**
   * The zero-filled buffer of header_size + cbSize - offset bytes, the seek
   * to the data offset and the payload read to index header_size. A
   * negative offset whose buffer resize can allocate makes the seek fail.
   */
  method ReadPayload(s: Stream, headerSize: nat, size: nat, offset: i64) returns (hr: HResult, buffer: array?<u8>)
    requires s.Valid() && size == |s.data|
    requires offset <= size && headerSize < U32_MODULUS
    requires size + headerSize - offset <= MAX_BUFFER_SIZE
    modifies s
    ensures s.Valid()
    ensures Ran(old(s.calls), s.calls, s.faults,
                [SeekCall(offset), ReadCall(PayloadReadCount(headerSize, BufferSize(headerSize, size, offset)))], hr, S_OK)
    ensures offset < 0 ==> Failed(hr)
    ensures Failed(hr) ==> buffer == null
    ensures !Failed(hr) ==>
      && buffer != null && fresh(buffer)
      && buffer[..] == Zeros(headerSize) + PayloadArea(s.data, headerSize, offset)
  {
    var length := BufferSize(headerSize, size, offset);
    buffer := new u8[length](_ => 0);
    assert buffer[..] == Zeros(length);
    var count := PayloadReadCount(headerSize, length);
    hr := s.Seek(offset);
    RanOne(old(s.calls), s.calls, s.faults, SeekCall(offset), hr);
    if Failed(hr) {
      RanStop(old(s.calls), s.calls, s.faults, [SeekCall(offset)], [ReadCall(count)], hr, S_OK, S_OK);
      return hr, null;
    }
    ghost var (mid, hs) := (s.calls, hr);
    BufferSizeWithinRange(headerSize, size, offset);
    PayloadReadCountIsPayloadMod(headerSize, size - offset);
    hr := ReadIntoBuffer(s, buffer, headerSize, count);
    RanThen(old(s.calls), mid, s.calls, s.faults, [SeekCall(offset)], [ReadCall(count)], hs, hr, S_OK);
    if Failed(hr) {
      return hr, null;
    }
  }

  /**
   * A read of count bytes from the current position to index at of a
   * zero-filled buffer: zeros, the bytes available, then zeros.
   */
  method ReadIntoBuffer(s: Stream, buffer: array<u8>, at: nat, count: u32) returns (hr: HResult)
    requires s.Valid() && at + count <= buffer.Length && buffer[..] == Zeros(buffer.Length)
    modifies s, buffer
    ensures s.Valid()
    ensures Ran(old(s.calls), s.calls, s.faults, [ReadCall(count)], hr, S_OK)
    ensures !Failed(hr) ==>
      buffer[..] == Zeros(at) + Padded(Available(s.data, old(s.pos), count), buffer.Length - at)
  {
    ghost var got := Available(s.data, s.pos, count);
    var nread;
    hr, nread := s.Read(buffer, at, count);
    RanOne(old(s.calls), s.calls, s.faults, ReadCall(count), hr);
    if !Failed(hr) {
      ReadIntoZeros(buffer.Length, at, got);
    }
  }

  /** A read of bytes to index at of a zero-filled buffer of n bytes leaves zeros, the bytes, then zeros. */
  lemma ReadIntoZeros(n: nat, at: nat, bytes: seq<u8>)
    requires at + |bytes| <= n
    ensures Zeros(n)[..at] + bytes + Zeros(n)[at + |bytes|..] == Zeros(at) + Padded(bytes, n - at)
  {
    var l := Zeros(n)[..at] + bytes + Zeros(n)[at + |bytes|..];
    var r := Zeros(at) + Padded(bytes, n - at);
    assert |l| == |r|;
    forall i | 0 <= i < |l|
      ensures l[i] == r[i]
    {
      if i < at {
      } else if i < at + |bytes| {
        assert l[i] == bytes[i - at];
        assert r[i] == Padded(bytes, n - at)[i - at];
      } else {
        assert r[i] == Padded(bytes, n - at)[i - at];
      }
    }
  }

  /**
   * Everything GetThumbnail does after reading a header of a recognised
   * format, up to the DDS buffer: the data offset, Stat, the payload read
   * and the header synthesis.
   */
  method Translate(s: Stream, h: TexHeader) returns (hr: HResult, dds: array?<u8>)
    requires s.Valid() && h.format != UNKNOWN
    requires |s.calls| !in s.faults && |s.calls| + 1 !in s.faults && |s.calls| + 2 !in s.faults ==>
      && DataOffset(s.data) <= |s.data|
      && HeaderSizeOf(h) + |s.data| - DataOffset(s.data) <= MAX_BUFFER_SIZE
    modifies s
    ensures s.Valid()
    ensures Ran(old(s.calls), s.calls, s.faults, TranslationPlan(s.data, h), hr, S_OK)
    ensures Failed(hr) ==> dds == null
    ensures !Failed(hr) ==>
      && 0 <= DataOffset(s.data) <= |s.data|
      && dds != null && fresh(dds)
      && dds[..] == SynthesizedPrefix(h) + PayloadArea(s.data, HeaderSizeOf(h), DataOffset(s.data))
  {
    ghost var (data, faults, calls0) := (s.data, s.faults, s.calls);
    ghost var plan := TranslationPlan(data, h);
    ghost var first := [SeekCall(DATA_OFFSET_POSITION), ReadCall(8), StatCall];
    assert plan == first + plan[3..];

    var offset, size;
    hr, offset, size := ReadOffsetAndSize(s);
    if Failed(hr) {
      RanStop(calls0, s.calls, faults, first, plan[3..], hr, S_OK, S_OK);
      return hr, null;
    }
    ghost var (calls1, hr1) := (s.calls, hr);
    RanThrough(calls0, calls1, faults, first, hr1, S_OK);

    var fourCC := FormatToFourCC(h.format);
    var headerSize := if fourCC == FOURCC_DX10 then DDS_EXTENDED_HEADER_SIZE else DDS_HEADER_SIZE;
    assert headerSize == HeaderSizeOf(h);
    hr, dds := ReadPayload(s, headerSize, size, offset);
    assert plan[3..] == [SeekCall(offset), ReadCall(PayloadReadCount(headerSize, BufferSize(headerSize, size, offset)))];
    RanThen(calls0, calls1, s.calls, faults, first, plan[3..], hr1, hr, S_OK);
    if Failed(hr) {
      return hr, null;
    }

    ghost var area := PayloadArea(data, headerSize, offset);
    assert (Zeros(headerSize) + area)[headerSize..] == area;
    WriteDdsHeader(dds, h);
  }

  /** The data offset read followed by Stat. */
  method ReadOffsetAndSize(s: Stream) returns (hr: HResult, offset: i64, size: nat)
    requires s.Valid()
    modifies s
    ensures s.Valid()
    ensures Ran(old(s.calls), s.calls, s.faults, [SeekCall(DATA_OFFSET_POSITION), ReadCall(8), StatCall], hr, S_OK)
    ensures !Failed(hr) ==> offset == DataOffset(s.data) && size == |s.data|
  {
    ghost var (faults, calls0) := (s.faults, s.calls);
    hr, offset := ReadDataOffset(s);
    size := 0;
    if Failed(hr) {
      RanStop(calls0, s.calls, faults, [SeekCall(DATA_OFFSET_POSITION), ReadCall(8)], [StatCall], hr, S_OK, S_OK);
      return;
    }
    ghost var (calls1, hr1) := (s.calls, hr);
    hr, size := s.Stat();
    RanOne(calls1, s.calls, faults, StatCall, hr);
    RanThen(calls0, calls1, s.calls, faults, [SeekCall(DATA_OFFSET_POSITION), ReadCall(8)], [StatCall], hr1, hr, S_OK);
  }

  // ---------------------------------------------------------------------
  // The handler object

  class TexPreview {
    /** m_Initialized */
    var initialized: bool
    /** m_Stream */
    var stream: Stream?

    /** A new handler is not initialised and holds no stream. */
    constructor ()
      ensures !initialized && stream == null
    {
      initialized := false;
      stream := null;
    }

    /** The first call binds s and returns S_OK; any later call returns E_UNEXPECTED and changes nothing. */
    method Initialize(s: Stream?) returns (hr: HResult)
      modifies this
      ensures (Binding(initialized, stream), hr) == InitializeStep(Binding(old(initialized), old(stream)), s)
      ensures !old(initialized) ==> hr == S_OK && initialized && stream == s
      ensures old(initialized) ==> hr == E_UNEXPECTED && initialized && stream == old(stream)
    {
      if !initialized {
        stream := s;
        initialized := true;
        return S_OK;
      }
      return E_UNEXPECTED;
    }

    /**
     * GetThumbnail up to the DDS buffer: the calls it makes on the bound
     * stream are the planned ones up to and including the first that fails;
     * a failure's HRESULT is returned as is; the UNKNOWN format gives
     * E_FAIL after the header read alone; otherwise the buffer holds the
     * expected DDS bytes.
     */
    method BuildDds() returns (hr: HResult, dds: array?<u8>)
      requires stream != null && stream.Valid()
      requires Translatable(stream.data, stream.pos, stream.faults, |stream.calls|)
      modifies stream
      ensures stream.Valid()
      ensures var plan := Plan(stream.data, old(stream.pos));
        Ran(old(stream.calls), stream.calls, stream.faults, plan, hr, if |plan| == 1 then E_FAIL else S_OK)
      ensures hr != S_OK ==> dds == null
      ensures hr == S_OK ==>
        && SourceHeader(stream.data, old(stream.pos)).format != UNKNOWN
        && 0 <= DataOffset(stream.data) <= |stream.data|
        && dds != null && fresh(dds) && dds[..] == ExpectedDds(stream.data, old(stream.pos))
    {
      var s := stream;
      ghost var data, faults, pos0, calls0 := s.data, s.faults, s.pos, s.calls;
      ghost var plan := Plan(data, pos0);
      PlanCalls(data, pos0, SourceHeader(data, pos0));

      var h;
      hr, h := ReadHeader(s);
      if Failed(hr) {
        RanStop(calls0, s.calls, faults, [ReadCall(TEX_HEADER_SIZE)], plan[1..], hr, S_OK, if |plan| == 1 then E_FAIL else S_OK);
        assert [ReadCall(TEX_HEADER_SIZE)] + plan[1..] == plan;
        return hr, null;
      }
      if h.format == UNKNOWN {
        RanReports(calls0, s.calls, faults, plan, S_OK, E_FAIL);
        return E_FAIL, null;
      }
      ghost var (calls1, hr1) := (s.calls, hr);

      hr, dds := Translate(s, h);
      RanThen(calls0, calls1, s.calls, faults, [ReadCall(TEX_HEADER_SIZE)], TranslationPlan(data, h), hr1, hr, S_OK);
      if Failed(hr) {
        return hr, null;
      }
      RanSucceeds(calls0, s.calls, faults, plan, hr, S_OK);
      return S_OK, dds;
    }
  }
}
