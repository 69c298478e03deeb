/**
 * Padding the encoded bit string to whole bytes, cutting it into byte values,
 * expanding bytes back into bits, and stripping the padding again
 * (getPaddedEncodedText, getBytesArray, the read loop of decompression and
 * __removePadding).
 */
module Packing {
  import opened BitStrings
  import opened Options

  /** A value that Python's bytes() accepts and file.read(1) yields. */
  type Byte = b: int | 0 <= b < 256

  function Min(a: int, b: int): int { if a <= b then a else b }

  /** The number of '0' bits appended: never zero, a whole byte when already aligned. */
  function PaddingAmount(len: nat): (p: nat)
    ensures 1 <= p <= 8
    ensures (len + p) % 8 == 0
    ensures p == 8 <==> len % 8 == 0
  {
    8 - len % 8
  }

  function Zeros(n: nat): (z: string)
    ensures |z| == n && forall i :: 0 <= i < n ==> z[i] == '0'
  {
    seq(n, _ => '0')
  }

  /**
   * The padded stream: the padding amount in 8 bits, the encoded bits, then
   * that many zeros; a whole number of bytes.
   */
  function Padded(encoded: string): (padded: string)
    ensures |padded| == 8 + |encoded| + PaddingAmount(|encoded|)
    ensures |padded| % 8 == 0
  {
    var p := PaddingAmount(|encoded|);
    var aligned := |encoded| + p;
    assert (8 + aligned) % 8 == 0 by {
      assert aligned % 8 == 0;
    }
    Bits(p, 8) + encoded + Zeros(p)
  }

  /** getPaddedEncodedText: append the zeros one at a time, then prefix the amount. */
  method GetPaddedEncodedText(encodedText: string) returns (paddedEncodedText: string)
    ensures paddedEncodedText == Padded(encodedText)
  {
    var paddedAmount := 8 - |encodedText| % 8;
    var text := encodedText;
    var k := 0;
    while k < paddedAmount
      invariant 0 <= k <= paddedAmount
      invariant text == encodedText + Zeros(k)
    {
      text := text + "0";
      k := k + 1;
    }
    var paddedInfo := Bits(paddedAmount, 8);
    paddedEncodedText := paddedInfo + text;
  }

  /** The first eight bits of the padded stream read back as the padding amount. */
  lemma PaddedHeader(encoded: string)
    ensures |Padded(encoded)| >= 8
    ensures Value(Padded(encoded)[..8]) == PaddingAmount(|encoded|)
  {
    var p := PaddingAmount(|encoded|);
    assert Padded(encoded)[..8] == Bits(p, 8);
    assert p < Pow2(8);
    ValueOfBits(p, 8);
  }

  /** The encoded bits follow the header unchanged, and everything after them is '0'. */
  lemma PaddedBody(encoded: string)
    ensures |Padded(encoded)| >= 8 + |encoded|
    ensures Padded(encoded)[8..8 + |encoded|] == encoded
    ensures forall i :: 8 + |encoded| <= i < |Padded(encoded)| ==> Padded(encoded)[i] == '0'
  {
    var p := PaddingAmount(|encoded|);
    var header, zeros := Bits(p, 8), Zeros(p);
    var s := header + encoded + zeros;
    assert s == Padded(encoded);
    assert s[8..8 + |encoded|] == encoded;
    forall i | 8 + |encoded| <= i < |s| ensures s[i] == '0' {
      assert s[i] == zeros[i - 8 - |encoded|];
    }
  }

  /** Padding binary digits gives binary digits. */
  lemma PaddedIsBits(encoded: string)
    requires IsBits(encoded)
    ensures IsBits(Padded(encoded))
  {
    var p := PaddingAmount(|encoded|);
    var s := Padded(encoded);
    forall i | 0 <= i < |s| ensures s[i] == '0' || s[i] == '1' {
      if i < 8 {
        assert s[i] == Bits(p, 8)[i];
      } else if i < 8 + |encoded| {
        assert s[i] == encoded[i - 8];
      } else {
        assert s[i] == Zeros(p)[i - 8 - |encoded|];
      }
    }
  }

  /** The `k`-th slice s[8k : 8k + 8] (the last slice may be shorter). */
  function Chunk(s: string, k: nat): (c: string)
    requires 8 * k < |s|
    ensures 1 <= |c| <= 8
  {
    s[8 * k .. Min(8 * k + 8, |s|)]
  }

  function ChunkValue(s: string, k: nat): Byte
    requires 8 * k < |s|
  {
    var c := Chunk(s, k);
    Pow2Monotone(|c|, 8);
    assert Pow2(8) == 256;
    Value(c)
  }

  /**
   * getBytesArray: one value per started group of 8 bits, that group read as a
   * binary number; written back in as many bits as its group, it is that group.
   */
  function BytesArray(s: string): (r: seq<Byte>)
    requires IsBits(s)
    ensures |r| == (|s| + 7) / 8
    ensures forall k :: 0 <= k < |r| ==> r[k] == Value(Chunk(s, k))
    ensures forall k :: 0 <= k < |r| ==> Bits(r[k], |Chunk(s, k)|) == Chunk(s, k)
  {
    var r := seq((|s| + 7) / 8, k requires 0 <= k < (|s| + 7) / 8 => ChunkValue(s, k));
    assert forall k :: 0 <= k < |r| ==> Bits(r[k], |Chunk(s, k)|) == Chunk(s, k) by {
      forall k | 0 <= k < |r| ensures Bits(r[k], |Chunk(s, k)|) == Chunk(s, k) {
        var c := Chunk(s, k);
        assert IsBits(c) by {
          forall i | 0 <= i < |c| ensures c[i] == '0' || c[i] == '1' {
            assert c[i] == s[8 * k + i];
          }
        }
        BitsOfValue(c);
      }
    }
    r
  }

  /** bin(byte)[2:].rjust(8, '0'): the eight bits of one byte, most significant first. */
  function ByteToBits(b: Byte): (bits: string)
    ensures |bits| == 8 && IsBits(bits)
    ensures Value(bits) == b
  {
    assert b < Pow2(8);
    ValueOfBits(b, 8);
    Bits(b, 8)
  }

  /** The bit string made of the bytes of a file, in file order. */
  function BitsOfBytes(data: seq<Byte>): (s: string)
    ensures |s| == 8 * |data| && IsBits(s)
  {
    if data == [] then "" else ByteToBits(data[0]) + BitsOfBytes(data[1..])
  }

  lemma {:induction false} BitsOfBytesAppend(a: seq<Byte>, b: seq<Byte>)
    ensures BitsOfBytes(a + b) == BitsOfBytes(a) + BitsOfBytes(b)
  {
    if a != [] {
      assert (a + b)[1..] == a[1..] + b;
      BitsOfBytesAppend(a[1..], b);
    } else {
      assert a + b == b;
    }
  }

  /**
   * The read loop of decompression: each byte of the file becomes eight
   * characters appended to the bit string.
   */
  method ReadBitString(data: seq<Byte>) returns (bitString: string)
    ensures bitString == BitsOfBytes(data)
  {
    bitString := "";
    var i := 0;
    while i < |data|
      invariant 0 <= i <= |data|
      invariant bitString == BitsOfBytes(data[..i])
    {
      var bits := ByteToBits(data[i]);
      assert data[..i + 1] == data[..i] + [data[i]];
      BitsOfBytesAppend(data[..i], [data[i]]);
      assert BitsOfBytes([data[i]]) == bits;
      bitString := bitString + bits;
      i := i + 1;
    }
    assert data[..|data|] == data;
  }

  /** Expanding bytes whose eight-bit images tile `s` gives back `s`. */
  lemma {:induction false} ExpandTiles(data: seq<Byte>, s: string)
    requires |s| == 8 * |data|
    requires forall k :: 0 <= k < |data| ==> ByteToBits(data[k]) == s[8 * k .. 8 * k + 8]
    ensures BitsOfBytes(data) == s
  {
    if data != [] {
      var rest := s[8..];
      forall k | 0 <= k < |data| - 1
        ensures ByteToBits(data[1..][k]) == rest[8 * k .. 8 * k + 8]
      {
        assert ByteToBits(data[k + 1]) == s[8 * (k + 1) .. 8 * (k + 1) + 8];
        assert rest[8 * k .. 8 * k + 8] == s[8 * k + 8 .. 8 * k + 16];
      }
      ExpandTiles(data[1..], rest);
      assert ByteToBits(data[0]) == s[..8];
      assert s == s[..8] + rest;
    }
  }

  /** Packing a byte-aligned bit string and expanding the bytes again reproduces it. */
  lemma PackThenExpand(s: string)
    requires IsBits(s) && |s| % 8 == 0
    ensures BitsOfBytes(BytesArray(s)) == s
  {
    var data := BytesArray(s);
    forall k | 0 <= k < |data| ensures ByteToBits(data[k]) == s[8 * k .. 8 * k + 8] {
      assert Chunk(s, k) == s[8 * k .. 8 * k + 8];
    }
    ExpandTiles(data, s);
  }

  /**
   * __removePadding: the first eight bits (or fewer, on a short string) give the
   * amount; it is dropped from the end of the rest, with Python's slicing:
   * text[:-0] is empty, and so is text[:-k] for k at least the length.
   * int('', 2) raises, so the empty string has no result.
   */
  function RemovePadding(text: string): (r: Option<string>)
    requires IsBits(text)
    ensures r.None? <==> text == ""
    ensures r.Some? ==> var h := Min(8, |text|);
      |r.value| + h <= |text| && r.value == text[h..h + |r.value|]
  {
    if text == "" then None
    else
      var head := Min(8, |text|);
      var extraPadding := Value(text[..head]);
      var rest := text[head..];
      if extraPadding == 0 || extraPadding >= |rest| then Some("")
      else Some(rest[..|rest| - extraPadding])
  }

  /** Stripping the padding from the padded stream returns the encoded bits. */
  lemma PaddingRoundTrip(encoded: string)
    requires IsBits(encoded)
    ensures IsBits(Padded(encoded))
    ensures RemovePadding(Padded(encoded)) == Some(encoded)
  {
    PaddedIsBits(encoded);
    PaddedHeader(encoded);
    var s := Padded(encoded);
    var rest := s[8..];
    assert rest == encoded + Zeros(PaddingAmount(|encoded|));
  }

  /**
   * The whole byte path: pad, pack into byte values, expand them again and
   * strip the padding; the result is the encoded bit string. The packed form
   * has one header byte plus one byte per 8 padded bits.
   */
  lemma PackUnpackRoundTrip(encoded: string)
    requires IsBits(encoded)
    ensures IsBits(Padded(encoded))
    ensures |BytesArray(Padded(encoded))| == 1 + (|encoded| + PaddingAmount(|encoded|)) / 8
    ensures BitsOfBytes(BytesArray(Padded(encoded))) == Padded(encoded)
    ensures RemovePadding(BitsOfBytes(BytesArray(Padded(encoded)))) == Some(encoded)
  {
    PaddedIsBits(encoded);
    PackThenExpand(Padded(encoded));
    PaddingRoundTrip(encoded);
  }
}
