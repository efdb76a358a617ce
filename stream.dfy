/**
 * The part of a COM IStream the preview handler uses: Read, Seek from the
 * start (STREAM_SEEK_SET) and Stat, over a stream whose content is a fixed
 * byte string. Whether a call fails is given up front by a map from the
 * call's sequence number to the failing HRESULT, so every early return of
 * the handler is reachable.
 */
module ComStream {
  import opened Bytes

  /** HRESULT: a signed 32-bit status; FAILED(hr) is hr < 0. */
  type HResult = i32
  type Failure = hr: HResult | hr < 0 witness -1

  const S_OK: HResult := 0
  /** 0x80004005 read as a signed 32-bit value. */
  const E_FAIL: HResult := 0x8000_4005 - 0x1_0000_0000
  /** 0x8000FFFF read as a signed 32-bit value. */
  const E_UNEXPECTED: HResult := 0x8000_FFFF - 0x1_0000_0000
  /** 0x80030001 read as a signed 32-bit value: what a seek before the start of a stream reports. */
  const STG_E_INVALIDFUNCTION: HResult := 0x8003_0001 - 0x1_0000_0000

  /** The FAILED macro. */
  predicate Failed(hr: HResult) {
    hr < 0
  }

  /** One call made on the stream, with the arguments that matter. */
  datatype Call = ReadCall(count: nat) | SeekCall(position: int) | StatCall

  function Min(a: nat, b: nat): nat {
    if a <= b then a else b
  }

  /** The bytes a read of count bytes at position pos delivers: fewer than asked at the end of the stream, none past it. */
  function Available(data: seq<u8>, pos: nat, count: nat): (r: seq<u8>)
    ensures |r| == if pos < |data| then Min(count, |data| - pos) else 0
    ensures forall i :: 0 <= i < |r| ==> r[i] == data[pos + i]
  {
    if pos >= |data| then []
    else if count <= |data| - pos then data[pos..pos + count]
    else data[pos..]
  }

  /** Copies bytes into buf from index at on, leaving the rest of buf alone. */
  method CopyInto(buf: array<u8>, at: nat, bytes: seq<u8>)
    requires at + |bytes| <= buf.Length
    modifies buf
    ensures buf[..] == old(buf[..at]) + bytes + old(buf[at + |bytes|..])
  {
    var i := 0;
    while i < |bytes|
      invariant 0 <= i <= |bytes|
      invariant buf[..at] == old(buf[..at])
      invariant buf[at..at + i] == bytes[..i]
      invariant buf[at + i..] == old(buf[at + i..])
    {
      buf[at + i] := bytes[i];
      i := i + 1;
      assert buf[at..at + i] == buf[at..at + i - 1] + [bytes[i - 1]];
    }
    assert buf[..] == buf[..at] + buf[at..at + |bytes|] + buf[at + |bytes|..];
  }

  /**
   * The HRESULT of call number k, which is c: the failure faults names for
   * it, else STG_E_INVALIDFUNCTION for a seek before the start of the
   * stream, else S_OK.
   */
  function Outcome(faults: map<nat, Failure>, k: nat, c: Call): (hr: HResult)
    ensures Failed(hr) <==> k in faults || (c.SeekCall? && c.position < 0)
  {
    if k in faults then faults[k]
    else if c.SeekCall? && c.position < 0 then STG_E_INVALIDFUNCTION
    else S_OK
  }

  /** The position a call leaves behind; a call that fails leaves the position alone. */
  function PositionAfter(data: seq<u8>, pos: nat, c: Call, failed: bool): nat {
    if failed then pos
    else match c
      case ReadCall(count) => pos + |Available(data, pos, count)|
      case SeekCall(to) => if to < 0 then pos else to
      case StatCall => pos
  }

  /** The position after a log of calls, starting from start; call number k fails when k is a key of faults. */
  function Replay(data: seq<u8>, faults: map<nat, Failure>, start: nat, calls: seq<Call>): nat
    decreases |calls|
  {
    if calls == [] then start
    else
      var k := |calls| - 1;
      PositionAfter(data, Replay(data, faults, start, calls[..k]), calls[k], Failed(Outcome(faults, k, calls[k])))
  }

  /** A seek that succeeds makes the earlier calls irrelevant to the position. */
  lemma ReplayAfterSeek(data: seq<u8>, faults: map<nat, Failure>, start: nat, calls: seq<Call>, to: int)
    requires !Failed(Outcome(faults, |calls|, SeekCall(to)))
    ensures Replay(data, faults, start, calls + [SeekCall(to)]) == to
  {
    assert (calls + [SeekCall(to)])[..|calls|] == calls;
  }

  class Stream {
    /** The stream's content; its length is what Stat reports as cbSize. */
    const data: seq<u8>
    /** Call number k fails with faults[k]. */
    const faults: map<nat, Failure>
    /** The position the stream started at. */
    const start: nat
    /** The seek pointer. */
    var pos: nat
    /** Every call made so far, failed ones included. */
    var calls: seq<Call>

    /** The seek pointer is where the calls made so far have left it. */
    ghost predicate Valid()
      reads this
    {
      pos == Replay(data, faults, start, calls)
    }

    constructor (data: seq<u8>, faults: map<nat, Failure>, start: nat)
      ensures this.data == data && this.faults == faults && this.start == start
      ensures pos == start && calls == []
      ensures Valid()
    {
      this.data := data;
      this.faults := faults;
      this.start := start;
      pos := start;
      calls := [];
    }

    /**
     * IStream::Read of count bytes into buf at index at. On success the bytes
     * available at the seek pointer are copied and the pointer moves past
     * them; a short read is not an error. On failure nothing changes.
     */
    method Read(buf: array<u8>, at: nat, count: u32) returns (hr: HResult, nread: nat)
      requires Valid()
      requires at + count <= buf.Length
      modifies this, buf
      ensures Valid()
      ensures calls == old(calls) + [ReadCall(count)]
      ensures |old(calls)| in faults ==>
        && hr == faults[|old(calls)|] && nread == 0
        && pos == old(pos) && buf[..] == old(buf[..])
      ensures |old(calls)| !in faults ==>
        var got := Available(data, old(pos), count);
        && hr == S_OK && nread == |got| && pos == old(pos) + |got|
        && buf[..] == old(buf[..at]) + got + old(buf[at + |got|..])
    {
      assert calls == (calls + [ReadCall(count)])[..|calls|];
      if |calls| in faults {
        hr, nread := faults[|calls|], 0;
        calls := calls + [ReadCall(count)];
        return;
      }
      var got := Available(data, pos, count);
      CopyInto(buf, at, got);
      hr, nread := S_OK, |got|;
      pos := pos + |got|;
      calls := calls + [ReadCall(count)];
    }

    /**
     * IStream::Seek with STREAM_SEEK_SET to the signed position to. A target
     * before the start of the stream is refused; on success the seek pointer
     * is to; on failure nothing changes.
     */
    method Seek(to: int) returns (hr: HResult)
      requires Valid()
      modifies this
      ensures Valid()
      ensures calls == old(calls) + [SeekCall(to)]
      ensures |old(calls)| in faults ==> hr == faults[|old(calls)|] && pos == old(pos)
      ensures |old(calls)| !in faults && to < 0 ==> hr == STG_E_INVALIDFUNCTION && pos == old(pos)
      ensures |old(calls)| !in faults && to >= 0 ==> hr == S_OK && pos == to
    {
      assert calls == (calls + [SeekCall(to)])[..|calls|];
      if |calls| in faults {
        hr := faults[|calls|];
      } else if to < 0 {
        hr := STG_E_INVALIDFUNCTION;
      } else {
        hr := S_OK;
        pos := to;
      }
      calls := calls + [SeekCall(to)];
    }

    /** IStream::Stat: the stream length, cbSize; on failure the zero-initialised STATSTG reports 0. */
    method Stat() returns (hr: HResult, size: nat)
      requires Valid()
      modifies this
      ensures Valid()
      ensures calls == old(calls) + [StatCall] && pos == old(pos)
      ensures |old(calls)| in faults ==> hr == faults[|old(calls)|] && size == 0
      ensures |old(calls)| !in faults ==> hr == S_OK && size == |data|
    {
      assert calls == (calls + [StatCall])[..|calls|];
      if |calls| in faults {
        hr, size := faults[|calls|], 0;
      } else {
        hr, size := S_OK, |data|;
      }
      calls := calls + [StatCall];
    }
  }
}
