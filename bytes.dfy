/**
 * Fixed-width integers and their little-endian byte layout, as the preview
 * handler's x64 build stores them in memory and in files.
 */
module Bytes {

  type u8 = x: int | 0 <= x < 0x100
  type u32 = x: int | 0 <= x < 0x1_0000_0000
  type u64 = x: int | 0 <= x < 0x1_0000_0000_0000_0000
  type i32 = x: int | -0x8000_0000 <= x < 0x8000_0000
  type i64 = x: int | -0x8000_0000_0000_0000 <= x < 0x8000_0000_0000_0000

  /** 256^n: the number of distinct values of n bytes. */
  function Pow256(n: nat): (r: nat)
    ensures r >= 1
  {
    if n == 0 then 1 else 256 * Pow256(n - 1)
  }

  lemma Pow256Values()
    ensures Pow256(3) == 0x100_0000 && Pow256(4) == 0x1_0000_0000
    ensures Pow256(7) == 0x100_0000_0000_0000
    ensures Pow256(8) == 0x1_0000_0000_0000_0000
  {
    assert Pow256(1) == 0x100;
    assert Pow256(2) == 0x1_0000;
    assert Pow256(3) == 0x100_0000;
    assert Pow256(4) == 0x1_0000_0000;
    assert Pow256(5) == 0x100_0000_0000;
    assert Pow256(6) == 0x1_0000_0000_0000;
    assert Pow256(7) == 0x100_0000_0000_0000;
  }

  /** The n low-order bytes of v, least significant first. */
  function LE(v: nat, n: nat): (r: seq<u8>)
    ensures |r| == n
  {
    if n == 0 then [] else [v % 256] + LE(v / 256, n - 1)
  }

  /** The unsigned value of a little-endian byte string. */
  function FromLE(bs: seq<u8>): (r: nat)
    ensures r < Pow256(|bs|)
  {
    if bs == [] then 0 else bs[0] + 256 * FromLE(bs[1..])
  }

  /**
   * The most significant byte decides the upper half: the value of a
   * non-empty little-endian string is at least half its range exactly when
   * its last byte has the top bit set.
   */
  lemma {:induction false} TopByteSign(bs: seq<u8>)
    requires |bs| > 0
    ensures FromLE(bs) >= 128 * Pow256(|bs| - 1) <==> bs[|bs| - 1] >= 0x80
  {
    if |bs| == 1 {
      assert bs[1..] == [];
    } else {
      var t := bs[1..];
      TopByteSign(t);
      var half := 128 * Pow256(|t| - 1);
      assert 128 * Pow256(|bs| - 1) == 256 * half;
      assert bs[|bs| - 1] == t[|t| - 1];
      assert FromLE(bs) == bs[0] + 256 * FromLE(t);
      if FromLE(t) >= half {
        assert 256 * FromLE(t) >= 256 * half;
      } else {
        assert 256 * FromLE(t) <= 256 * half - 256;
      }
    }
  }

  /** The bytes appended after p are found right after p. */
  lemma SliceAfter(p: seq<u8>, x: seq<u8>)
    ensures (p + x)[|p|..|p| + |x|] == x
  {
  }

  /** Reading back the bytes of a value that fits gives the value. */
  lemma {:induction false} FromLEOfLE(v: nat, n: nat)
    requires v < Pow256(n)
    ensures FromLE(LE(v, n)) == v
  {
    if n > 0 {
      FromLEOfLE(v / 256, n - 1);
      assert LE(v, n)[1..] == LE(v / 256, n - 1);
    }
  }

  /** Writing out the value of a byte string gives the byte string. */
  lemma {:induction false} LEOfFromLE(bs: seq<u8>)
    ensures LE(FromLE(bs), |bs|) == bs
  {
    if bs != [] {
      var v := FromLE(bs);
      assert v % 256 == bs[0] && v / 256 == FromLE(bs[1..]);
      LEOfFromLE(bs[1..]);
    }
  }

  /** The four bytes of a 32-bit value, written out. */
  lemma LE4(v: nat)
    ensures LE(v, 4) == [v % 0x100, v / 0x100 % 0x100, v / 0x1_0000 % 0x100, v / 0x100_0000 % 0x100]
  {
    assert LE(v, 4) == [v % 256] + LE(v / 256, 3);
    assert LE(v / 256, 3) == [v / 256 % 256] + LE(v / 256 / 256, 2);
    assert LE(v / 256 / 256, 2) == [v / 256 / 256 % 256] + LE(v / 256 / 256 / 256, 1);
    assert v / 256 / 256 == v / 0x1_0000;
    assert v / 256 / 256 / 256 == v / 0x100_0000;
  }

  /** The value of four given bytes, written out, gives those bytes. */
  lemma LEOfBytes4(b0: u8, b1: u8, b2: u8, b3: u8)
    ensures LE(b0 + b1 * 0x100 + b2 * 0x1_0000 + b3 * 0x100_0000, 4) == [b0, b1, b2, b3]
  {
    var bs := [b0, b1, b2, b3];
    assert bs[1..] == [b1, b2, b3] && bs[1..][1..] == [b2, b3] && bs[1..][1..][1..] == [b3];
    assert FromLE([b3]) == b3;
    assert FromLE([b2, b3]) == b2 + 256 * b3;
    assert FromLE([b1, b2, b3]) == b1 + 256 * (b2 + 256 * b3);
    assert FromLE(bs) == b0 + 256 * (b1 + 256 * (b2 + 256 * b3));
    LEOfFromLE(bs);
  }

  /** Two's-complement reading of a 32-bit pattern (a static_cast from uint32_t to int32_t). */
  function ToSigned32(u: u32): (r: i32)
    ensures r % 0x1_0000_0000 == u
  {
    if u < 0x8000_0000 then u else u - 0x1_0000_0000
  }

  /** The 32-bit pattern of a signed value (a static_cast from int32_t to uint32_t). */
  function Bits32(x: i32): (r: u32)
    ensures ToSigned32(r) == x
  {
    if x < 0 then x + 0x1_0000_0000 else x
  }

  /** Two's-complement reading of a 64-bit pattern. */
  function ToSigned64(u: u64): (r: i64)
    ensures r % 0x1_0000_0000_0000_0000 == u
  {
    if u < 0x8000_0000_0000_0000 then u else u - 0x1_0000_0000_0000_0000
  }

  /** The 64-bit pattern of a signed value. */
  function Bits64(x: i64): (r: u64)
    ensures ToSigned64(r) == x
  {
    if x < 0 then x + 0x1_0000_0000_0000_0000 else x
  }

  /** The unsigned 64-bit value stored little-endian at offset off. */
  function U64At(b: seq<u8>, off: nat): (r: u64)
    requires off + 8 <= |b|
    ensures LE(r, 8) == b[off..off + 8]
  {
    Pow256Values();
    LEOfFromLE(b[off..off + 8]);
    FromLE(b[off..off + 8])
  }

  /** The unsigned 32-bit word stored little-endian at offset off. */
  function U32At(b: seq<u8>, off: nat): (r: u32)
    requires off + 4 <= |b|
    ensures LE(r, 4) == b[off..off + 4]
  {
    Pow256Values();
    LEOfFromLE(b[off..off + 4]);
    FromLE(b[off..off + 4])
  }

  /** A word read from the second part of a concatenation is read from that part, shifted. */
  lemma U32AtAppend(a: seq<u8>, b: seq<u8>, off: nat)
    requires off + 4 <= |b|
    ensures U32At(a + b, |a| + off) == U32At(b, off)
  {
    assert (a + b)[|a| + off..|a| + off + 4] == b[off..off + 4];
  }

  /** A sequence of n zero bytes. */
  function Zeros(n: nat): (r: seq<u8>)
    ensures |r| == n && forall i :: 0 <= i < n ==> r[i] == 0
  {
    seq(n, _ => 0)
  }

  /** The bytes bs followed by zeros up to n bytes: what a read of bs leaves in a zero-filled buffer of n bytes. */
  function Padded(bs: seq<u8>, n: nat): (r: seq<u8>)
    requires |bs| <= n
    ensures |r| == n && r[..|bs|] == bs
    ensures forall i :: |bs| <= i < n ==> r[i] == 0
  {
    bs + Zeros(n - |bs|)
  }

  /** Little-endian concatenation of 32-bit words. */
  function Words(ws: seq<u32>): (r: seq<u8>)
    ensures |r| == 4 * |ws|
  {
    if ws == [] then [] else LE(ws[0], 4) + Words(ws[1..])
  }

  /** The i-th word of a word sequence sits at byte offset 4*i of its encoding. */
  lemma {:induction false} WordAt(ws: seq<u32>, i: nat)
    requires i < |ws|
    ensures Words(ws)[4 * i..4 * i + 4] == LE(ws[i], 4)
    ensures U32At(Words(ws), 4 * i) == ws[i]
  {
    if i > 0 {
      WordAt(ws[1..], i - 1);
      assert Words(ws)[4 * i..4 * i + 4] == Words(ws[1..])[4 * (i - 1)..4 * (i - 1) + 4];
    }
    Pow256Values();
    FromLEOfLE(ws[i], 4);
  }

  /** The words of a byte string whose length is a multiple of four. */
  function WordsOf(b: seq<u8>): (ws: seq<u32>)
    requires |b| % 4 == 0
    ensures |ws| == |b| / 4
    ensures Words(ws) == b
  {
    if b == [] then []
    else
      var w := U32At(b, 0);
      assert b == b[..4] + b[4..];
      [w] + WordsOf(b[4..])
  }

  /** Encoding words and reading them back gives the same words. */
  lemma {:induction false} WordsOfWords(ws: seq<u32>)
    ensures WordsOf(Words(ws)) == ws
  {
    if ws != [] {
      WordAt(ws, 0);
      assert Words(ws)[4..] == Words(ws[1..]);
      WordsOfWords(ws[1..]);
    }
  }

  /** Overwriting one word of an encoding is the encoding of the updated words. */
  lemma {:induction false} WordsUpdate(ws: seq<u32>, i: nat, v: u32)
    requires i < |ws|
    ensures Words(ws[i := v]) == Words(ws)[..4 * i] + LE(v, 4) + Words(ws)[4 * i + 4..]
  {
    if i == 0 {
      assert ws[i := v][1..] == ws[1..];
    } else {
      WordsUpdate(ws[1..], i - 1, v);
      assert ws[i := v][1..] == ws[1..][i - 1 := v];
    }
  }
}
