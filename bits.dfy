/** Bits, bytes, 16-bit samples and Python's fixed-width binary formatting (`format(n, '0<w>b')`, `int(s, 2)`). */
module Bits {

  /** One binary digit, as the integer 0 or 1. */
  type Bit = b: int | 0 <= b <= 1

  /** One byte, 0..255. */
  type Byte = b: int | 0 <= b < 256

  /** One 16-bit PCM sample. */
  type Int16 = x: int | -32768 <= x <= 32767

  function Pow2(n: nat): (r: nat)
    ensures r >= 1
  {
    if n == 0 then 1 else 2 * Pow2(n - 1)
  }

  lemma {:induction false} Pow2Monotone(m: nat, n: nat)
    requires m <= n
    ensures Pow2(m) <= Pow2(n)
  {
    if m < n {
      Pow2Monotone(m, n - 1);
    }
  }

  lemma Pow2Byte()
    ensures Pow2(8) == 256
  {
    assert Pow2(4) == 16;
  }

  /** The `w` low-order binary digits of `n`, most significant first. */
  function ToBits(n: nat, w: nat): (r: seq<Bit>)
    ensures |r| == w
  {
    if w == 0 then [] else ToBits(n / 2, w - 1) + [n % 2]
  }

  /** A most-significant-first digit sequence read as a binary number, as `int(s, 2)` does. */
  function FromBits(bits: seq<Bit>): (r: nat)
    ensures r < Pow2(|bits|)
  {
    if bits == [] then 0 else 2 * FromBits(bits[..|bits| - 1]) + bits[|bits| - 1]
  }

  /** Reading back the `w` digits of a number below 2^w gives the number. */
  lemma {:induction false} FromToBits(n: nat, w: nat)
    requires n < Pow2(w)
    ensures FromBits(ToBits(n, w)) == n
  {
    if w > 0 {
      var r := ToBits(n, w);
      assert r[..w - 1] == ToBits(n / 2, w - 1);
      FromToBits(n / 2, w - 1);
    }
  }

  /** Writing out a digit sequence's value at its own width gives the sequence back. */
  lemma {:induction false} ToFromBits(bits: seq<Bit>)
    ensures ToBits(FromBits(bits), |bits|) == bits
  {
    if bits != [] {
      var init := bits[..|bits| - 1];
      var v := FromBits(bits);
      assert v / 2 == FromBits(init) && v % 2 == bits[|bits| - 1];
      ToFromBits(init);
      assert bits == init + [bits[|bits| - 1]];
    }
  }

  /** Number of digits in Python's `bin(n)` without the prefix: at least one, since 0 is written "0". */
  function BitLength(n: nat): (r: nat)
    ensures r >= 1 && n < Pow2(r)
    ensures r > 1 ==> Pow2(r - 1) <= n
  {
    if n < 2 then 1 else 1 + BitLength(n / 2)
  }

  /** A number below 2^w (w >= 1) needs at most w digits. */
  lemma {:induction false} BitLengthBound(n: nat, w: nat)
    requires w >= 1 && n < Pow2(w)
    ensures BitLength(n) <= w
  {
    if BitLength(n) > w {
      Pow2Monotone(w, BitLength(n) - 1);
    }
  }

  function Max(a: nat, b: nat): nat { if a >= b then a else b }

  /** `format(n, '0<w>b')`: `n` in binary, zero-filled on the left to at least `w` digits;
      a number wider than `w` digits is written in full, never cut. */
  function Format(n: nat, w: nat): (r: seq<Bit>)
    ensures |r| == Max(w, BitLength(n))
    ensures FromBits(r) == n
  {
    FormatValue(n, w);
    ToBits(n, Max(w, BitLength(n)))
  }

  lemma FormatValue(n: nat, w: nat)
    ensures FromBits(ToBits(n, Max(w, BitLength(n)))) == n
  {
    Pow2Monotone(BitLength(n), Max(w, BitLength(n)));
    FromToBits(n, Max(w, BitLength(n)));
  }

  /** When `n` fits in `w >= 1` digits, the formatted string is exactly those `w` digits. */
  lemma FormatFits(n: nat, w: nat)
    requires w >= 1 && n < Pow2(w)
    ensures Format(n, w) == ToBits(n, w)
  {
    BitLengthBound(n, w);
  }

  /** The character Python's `str` gives for a bit. */
  function Digit(b: Bit): char
  {
    if b == 0 then '0' else '1'
  }

  /** A bit sequence written as a '0'/'1' string. */
  function Digits(bits: seq<Bit>): (r: string)
    ensures |r| == |bits|
  {
    seq(|bits|, i requires 0 <= i < |bits| => Digit(bits[i]))
  }
}
