/**
 * Java's `byte` and the bit-string conversions the Huffman coder relies on:
 * the narrowing cast `(byte) v`, `Integer.parseInt(s, 2)` and the eight-digit
 * rendering `Integer.toBinaryString(b | 0x100)` cut to its last 8 characters.
 */
module Bits {
  import opened Wrappers

  /** Java's signed 8-bit `byte`. */
  newtype JByte = x: int | -128 <= x < 128

  function Pow2(n: nat): (p: nat)
    ensures p >= 1
  {
    if n == 0 then 1 else 2 * Pow2(n - 1)
  }

  /** The narrowing cast `(byte) v`: keeps the low 8 bits, read in two's complement. */
  function ToByte(v: int): (b: JByte)
    ensures (b as int) % 256 == v % 256
    ensures 0 <= v < 128 ==> b as int == v
    ensures 128 <= v < 256 ==> b as int == v - 256
  {
    var m := v % 256;
    if m < 128 then m as JByte else (m - 256) as JByte
  }

  predicate IsBit(c: char) {
    c == '0' || c == '1'
  }

  /** A bit string: every character is '0' or '1'. */
  predicate IsBinary(s: string) {
    forall i :: 0 <= i < |s| ==> IsBit(s[i])
  }

  /** The value of `s` read as an unsigned big-endian binary number ('1' counts as one, anything else as zero). */
  function BinaryValue(s: string): nat {
    if s == [] then 0 else 2 * BinaryValue(s[..|s| - 1]) + (if s[|s| - 1] == '1' then 1 else 0)
  }

  lemma {:induction false} BinaryValueBound(s: string)
    ensures BinaryValue(s) < Pow2(|s|)
  {
    if s != [] {
      BinaryValueBound(s[..|s| - 1]);
    }
  }

  /**
   * `Integer.parseInt(s, 2)` on the strings the coder builds: the value of a
   * non-empty bit string, or None where Java throws NumberFormatException.
   */
  function ParseBinary(s: string): (r: Option<nat>)
    ensures r.Some? <==> |s| > 0 && IsBinary(s)
    ensures r.Some? ==> r.value < Pow2(|s|)
  {
    BinaryValueBound(s);
    if |s| > 0 && IsBinary(s) then Some(BinaryValue(s)) else None
  }

  /** The `n` low-order binary digits of `v`, most significant first, zero-padded. */
  function Digits(v: nat, n: nat): (s: string)
    ensures |s| == n && IsBinary(s)
  {
    if n == 0 then [] else Digits(v / 2, n - 1) + [if v % 2 == 1 then '1' else '0']
  }

  /**
   * `Integer.toBinaryString(b | 0x100)` with its last 8 characters kept: setting
   * bit 8 (or sign-extending a negative byte) only adds leading digits, so the
   * kept characters are the byte's own 8 bits, zero-padded.
   */
  function ByteBits(b: JByte): (s: string)
    ensures |s| == 8 && IsBinary(s)
  {
    Digits((b as int) % 256, 8)
  }

  lemma {:induction false} DigitsValue(v: nat, n: nat)
    requires v < Pow2(n)
    ensures BinaryValue(Digits(v, n)) == v
  {
    if n > 0 {
      DigitsValue(v / 2, n - 1);
      var s := Digits(v, n);
      assert s[..|s| - 1] == Digits(v / 2, n - 1);
    }
  }

  lemma {:induction false} ValueDigits(s: string)
    requires IsBinary(s)
    ensures Digits(BinaryValue(s), |s|) == s
  {
    if s != [] {
      var init := s[..|s| - 1];
      assert IsBinary(init) by {
        forall i | 0 <= i < |init| ensures IsBit(init[i]) {
          assert init[i] == s[i];
        }
      }
      ValueDigits(init);
      var d := if s[|s| - 1] == '1' then 1 else 0;
      assert BinaryValue(s) / 2 == BinaryValue(init);
      assert BinaryValue(s) % 2 == d;
      assert IsBit(s[|s| - 1]);
      assert s == init + [s[|s| - 1]];
    }
  }

  /** Unpacking a packed group gives the group back: `ByteBits` inverts `(byte) parseInt(g, 2)`. */
  lemma GroupRoundTrip(g: string)
    requires |g| == 8 && IsBinary(g)
    ensures ByteBits(ToByte(BinaryValue(g))) == g
  {
    BinaryValueBound(g);
    assert Pow2(8) == 256;
    ValueDigits(g);
  }

  /** Packing an unpacked byte gives the byte back, as a signed value. */
  lemma ByteRoundTrip(b: JByte)
    ensures ToByte(BinaryValue(ByteBits(b))) == b
  {
    assert Pow2(8) == 256;
    DigitsValue((b as int) % 256, 8);
  }
}
