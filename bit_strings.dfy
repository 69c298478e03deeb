/**
 * Bit strings as the codec handles them: Python strings over the characters
 * '0' and '1', read and written most-significant bit first.
 */
module BitStrings {

  /** Every character is a binary digit. */
  predicate IsBits(s: string) {
    forall i :: 0 <= i < |s| ==> s[i] == '0' || s[i] == '1'
  }

  function Pow2(w: nat): (r: nat)
    ensures r >= 1
  {
    if w == 0 then 1 else 2 * Pow2(w - 1)
  }

  lemma {:induction false} Pow2Monotone(a: nat, b: nat)
    requires a <= b
    ensures Pow2(a) <= Pow2(b)
  {
    if a < b {
      Pow2Monotone(a, b - 1);
    }
  }

  /**
   * The low `w` bits of `n`, most significant first, zero-filled on the left:
   * what "{0:08b}".format(n) and bin(n)[2:].rjust(8, '0') produce for w = 8
   * and n < 256.
   */
  function Bits(n: nat, w: nat): (r: string)
    ensures |r| == w && IsBits(r)
  {
    if w == 0 then "" else Bits(n / 2, w - 1) + [if n % 2 == 0 then '0' else '1']
  }

  /** The big-endian value of a bit string: Python's int(s, 2) on a non-empty binary string. */
  function Value(s: string): (v: nat)
    ensures v < Pow2(|s|)
  {
    if s == "" then 0 else 2 * Value(s[..|s| - 1]) + (if s[|s| - 1] == '1' then 1 else 0)
  }

  /** Reading back a number written in `w` bits gives the number, when it fits. */
  lemma {:induction false} ValueOfBits(n: nat, w: nat)
    requires n < Pow2(w)
    ensures Value(Bits(n, w)) == n
  {
    if w > 0 {
      ValueOfBits(n / 2, w - 1);
      var s := Bits(n, w);
      assert s[..|s| - 1] == Bits(n / 2, w - 1);
    }
  }

  /** Writing the value of a bit string back in as many bits gives the string. */
  lemma {:induction false} BitsOfValue(s: string)
    requires IsBits(s)
    ensures Bits(Value(s), |s|) == s
  {
    if s != "" {
      var init := s[..|s| - 1];
      assert IsBits(init) by {
        forall i | 0 <= i < |init| ensures init[i] == '0' || init[i] == '1' {
          assert init[i] == s[i];
        }
      }
      BitsOfValue(init);
      var v := Value(s);
      assert v / 2 == Value(init);
      assert s == init + [s[|s| - 1]];
    }
  }
}
