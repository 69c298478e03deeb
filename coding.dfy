/**
 * Encoding a text against the forward table (getEncodedText) and decoding a
 * bit string against the reverse table (__decodedText), as functions of the
 * tables, with the round trip between them.
 */
module Coding {
  import opened BitStrings
  import opened HuffmanTree

  /** Every character of the text has a code. */
  predicate Covers(codes: map<char, string>, text: string) {
    forall i :: 0 <= i < |text| ==> text[i] in codes
  }

  /** The codes of the text's characters, concatenated in text order. */
  function Encode(codes: map<char, string>, text: string): (encoded: string)
    requires Covers(codes, text)
    ensures (forall i :: 0 <= i < |text| ==> IsBits(codes[text[i]])) ==> IsBits(encoded)
  {
    if text == "" then "" else codes[text[0]] + Encode(codes, text[1..])
  }

  /** Encoding distributes over concatenation: a character's code sits at its place in the text. */
  lemma {:induction false} EncodeAppend(codes: map<char, string>, a: string, b: string)
    requires Covers(codes, a) && Covers(codes, b)
    ensures Covers(codes, a + b)
    ensures Encode(codes, a + b) == Encode(codes, a) + Encode(codes, b)
  {
    assert Covers(codes, a + b) by {
      forall i | 0 <= i < |a + b| ensures (a + b)[i] in codes {
        if i < |a| { assert (a + b)[i] == a[i]; } else { assert (a + b)[i] == b[i - |a|]; }
      }
    }
    if a == "" {
      assert a + b == b;
    } else {
      assert (a + b)[1..] == a[1..] + b;
      EncodeAppend(codes, a[1..], b);
    }
  }

  /** The sum of the code lengths of the text's characters, added up from the last one back. */
  function CodeLengthSum(codes: map<char, string>, text: string): nat
    requires Covers(codes, text)
  {
    if text == "" then 0 else CodeLengthSum(codes, text[..|text| - 1]) + |codes[text[|text| - 1]]|
  }

  /** The encoded text is as long as the codes of its characters put together. */
  lemma {:induction false} EncodedLength(codes: map<char, string>, text: string)
    requires Covers(codes, text)
    ensures |Encode(codes, text)| == CodeLengthSum(codes, text)
  {
    if text != "" {
      var init, last := text[..|text| - 1], text[|text| - 1];
      assert text == init + [last];
      EncodeAppend(codes, init, [last]);
      assert Encode(codes, [last]) == codes[last];
      EncodedLength(codes, init);
    }
  }

  /**
   * The decoding loop from a given candidate: each bit is appended to the
   * candidate; when the candidate is a key, its character is emitted and the
   * candidate starts again from empty. A candidate left over at the end is
   * dropped.
   */
  function DecodeFrom(reverseCodes: map<string, char>, bits: string, current: string): (decoded: string)
    ensures |decoded| <= |bits|
  {
    if bits == "" then ""
    else
      var candidate := current + [bits[0]];
      if candidate in reverseCodes then [reverseCodes[candidate]] + DecodeFrom(reverseCodes, bits[1..], "")
      else DecodeFrom(reverseCodes, bits[1..], candidate)
  }

  /** __decodedText: decode from an empty candidate; at most one character comes out per bit. */
  function Decode(reverseCodes: map<string, char>, bits: string): (decoded: string)
    ensures |decoded| <= |bits|
  {
    DecodeFrom(reverseCodes, bits, "")
  }

  /**
   * Reading one code: if the candidate extended by `w` is a key and no shorter
   * extension by a prefix of `w` is, the decoder emits that key's character
   * after reading exactly `w` and starts afresh.
   */
  lemma {:induction false} DecodeOneCode(reverseCodes: map<string, char>, w: string, rest: string, current: string)
    requires |w| >= 1 && current + w in reverseCodes
    requires forall k :: 1 <= k < |w| ==> current + w[..k] !in reverseCodes
    ensures DecodeFrom(reverseCodes, w + rest, current)
         == [reverseCodes[current + w]] + DecodeFrom(reverseCodes, rest, "")
  {
    var bits := w + rest;
    assert bits[0] == w[0] && bits[1..] == w[1..] + rest;
    var candidate := current + [w[0]];
    if |w| == 1 {
      assert candidate == current + w;
    } else {
      assert candidate == current + w[..1];
      assert candidate + w[1..] == current + w;
      forall k | 1 <= k < |w[1..]| ensures candidate + w[1..][..k] !in reverseCodes {
        assert candidate + w[1..][..k] == current + w[..k + 1];
      }
      DecodeOneCode(reverseCodes, w[1..], rest, candidate);
    }
  }

  /** The conditions under which decoding undoes encoding. */
  predicate Decodable(codes: map<char, string>, reverseCodes: map<string, char>, text: string) {
    && Covers(codes, text)
    && (forall i :: 0 <= i < |text| ==>
          codes[text[i]] != "" && codes[text[i]] in reverseCodes && reverseCodes[codes[text[i]]] == text[i])
    && PrefixFree(reverseCodes.Keys)
  }

  /** With non-empty, prefix-free, mutually consistent codes, decoding the encoding gives the text back. */
  lemma {:induction false} RoundTrip(codes: map<char, string>, reverseCodes: map<string, char>, text: string)
    requires Decodable(codes, reverseCodes, text)
    ensures Decode(reverseCodes, Encode(codes, text)) == text
  {
    if text != "" {
      var w := codes[text[0]];
      var rest := text[1..];
      assert Decodable(codes, reverseCodes, rest) by {
        forall i | 0 <= i < |rest| ensures rest[i] == text[i + 1] { }
      }
      RoundTrip(codes, reverseCodes, rest);
      forall k | 1 <= k < |w| ensures "" + w[..k] !in reverseCodes {
        assert "" + w[..k] == w[..k];
        assert IsPrefix(w[..k], w) && w[..k] != w;
      }
      assert "" + w == w;
      DecodeOneCode(reverseCodes, w, Encode(codes, rest), "");
    }
  }

  /**
   * A text over a single character whose code is empty encodes to nothing, so
   * decoding returns the empty text whatever the text's length.
   */
  lemma {:induction false} EmptyCodeLosesText(codes: map<char, string>, reverseCodes: map<string, char>, text: string, c: char)
    requires codes == map[c := ""]
    requires forall i :: 0 <= i < |text| ==> text[i] == c
    ensures Covers(codes, text)
    ensures Encode(codes, text) == ""
    ensures Decode(reverseCodes, Encode(codes, text)) == ""
  {
    if text != "" {
      EmptyCodeLosesText(codes, reverseCodes, text[1..], c);
    }
  }
}
