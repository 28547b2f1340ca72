/** The bit framing of the static (file-to-WAV) encoder in binaric_test.py: bytes to a
    '0'/'1' string, zero-padding to whole symbols, Manchester line coding, symbol splitting,
    and the layout of the Manchester clock track. Tone samples are opaque inputs. */
module StaticEncoder {
  import opened Wrappers
  import opened Bits
  import opened Seqs

  /** The exceptions the encoder raises. */
  datatype Error =
    | ZeroDivision          // `len(bits) % 0` in pad_bits
    | NothingToConcatenate  // `np.concatenate([])` in encode_segment_from_bits
    | ClockIndexError       // `clock_freqs[1]` with fewer than two clock frequencies

  // ---------------------------------------------------------------------------
  // string_to_bits

  /** `string_to_bits` applied to the UTF-8 bytes of a string: eight digits per byte. */
  function StringToBits(bytes: seq<Byte>): (r: string)
    ensures |r| == 8 * |bytes|
  {
    var pieces := seq(|bytes|, i requires 0 <= i < |bytes| => Digits(Format(bytes[i], 8)));
    assert forall k :: 0 <= k < |bytes| ==> |pieces[k]| == 8 by {
      forall k | 0 <= k < |bytes| ensures |pieces[k]| == 8 {
        ByteDigits(bytes[k]);
      }
    }
    ConcatUniformLength(pieces, 8);
    Concat(pieces)
  }

  /** Strings made only of '0' and '1'. */
  predicate IsBinary(s: string)
  {
    forall i :: 0 <= i < |s| ==> s[i] == '0' || s[i] == '1'
  }

  /** Reads a '0'/'1' string as bits. */
  function Undigits(s: string): (r: seq<Bit>)
    ensures |r| == |s|
  {
    seq(|s|, i requires 0 <= i < |s| => if s[i] == '0' then 0 else 1)
  }

  /** Reference decoder: every eight digits read back as one byte. */
  function BitsToBytes(s: string): seq<int>
  {
    seq(|s| / 8, i requires 0 <= i < |s| / 8 => FromBits(Undigits(s[8 * i .. 8 * i + 8])))
  }

  lemma UndigitsDigits(bits: seq<Bit>)
    ensures Undigits(Digits(bits)) == bits
  {
  }

  /** A byte is written as its eight digits. */
  lemma ByteDigits(b: Byte)
    ensures Digits(Format(b, 8)) == Digits(ToBits(b, 8))
    ensures |Digits(Format(b, 8))| == 8
  {
    Pow2Byte();
    FormatFits(b, 8);
  }

  /** Byte `i` is written as its eight digits, most significant first, at 8i..8i+8. */
  lemma StringToBitsAt(bytes: seq<Byte>, i: nat)
    requires i < |bytes|
    ensures |StringToBits(bytes)| == 8 * |bytes|
    ensures StringToBits(bytes)[8 * i .. 8 * i + 8] == Digits(ToBits(bytes[i], 8))
  {
    var pieces := seq(|bytes|, k requires 0 <= k < |bytes| => Digits(Format(bytes[k], 8)));
    forall k | 0 <= k < |bytes| ensures |pieces[k]| == 8 {
      ByteDigits(bytes[k]);
    }
    var s := Concat(pieces);
    assert s == StringToBits(bytes);
    forall j | 0 <= j < 8 ensures s[8 * i + j] == pieces[i][j] {
      ConcatUniform(pieces, 8, i, j);
    }
    assert s[8 * i .. 8 * i + 8] == pieces[i];
    ByteDigits(bytes[i]);
  }

  lemma StringToBitsBinary(bytes: seq<Byte>)
    ensures IsBinary(StringToBits(bytes))
  {
    var s := StringToBits(bytes);
    forall k | 0 <= k < |s| ensures s[k] == '0' || s[k] == '1' {
      var i := k / 8;
      StringToBitsAt(bytes, i);
      assert s[k] == s[8 * i .. 8 * i + 8][k - 8 * i];
    }
  }

  /** The eight digits of byte `i` read back as that byte. */
  lemma StringToBitsDecodeAt(bytes: seq<Byte>, i: nat)
    requires i < |bytes|
    ensures |BitsToBytes(StringToBits(bytes))| == |bytes|
    ensures BitsToBytes(StringToBits(bytes))[i] == bytes[i]
  {
    var s := StringToBits(bytes);
    StringToBitsAt(bytes, i);
    assert BitsToBytes(s)[i] == FromBits(Undigits(Digits(ToBits(bytes[i], 8))));
    UndigitsDigits(ToBits(bytes[i], 8));
    Pow2Byte();
    FromToBits(bytes[i], 8);
  }

  lemma StringToBitsDecode(bytes: seq<Byte>)
    ensures BitsToBytes(StringToBits(bytes)) == bytes
  {
    var d := BitsToBytes(StringToBits(bytes));
    assert |d| == |bytes|;
    forall i | 0 <= i < |bytes| ensures d[i] == bytes[i] {
      StringToBitsDecodeAt(bytes, i);
    }
  }

  /** The string has 8 digits per byte, all of them '0' or '1', byte `i` at 8i..8i+8, and
      reading every eight digits back gives the bytes. */
  lemma StringToBitsRoundTrip(bytes: seq<Byte>)
    ensures |StringToBits(bytes)| == 8 * |bytes|
    ensures IsBinary(StringToBits(bytes))
    ensures forall i :: 0 <= i < |bytes| ==>
      StringToBits(bytes)[8 * i .. 8 * i + 8] == Digits(ToBits(bytes[i], 8))
    ensures BitsToBytes(StringToBits(bytes)) == bytes
  {
    forall i | 0 <= i < |bytes|
      ensures StringToBits(bytes)[8 * i .. 8 * i + 8] == Digits(ToBits(bytes[i], 8))
    {
      StringToBitsAt(bytes, i);
    }
    StringToBitsBinary(bytes);
    StringToBitsDecode(bytes);
  }

  // ---------------------------------------------------------------------------
  // pad_bits

  /** Python's `a // b`: the quotient rounded towards negative infinity. */
  function PyFloorDiv(a: int, b: int): int
    requires b != 0
  {
    if b > 0 || a % b == 0 then a / b else a / b - 1
  }

  /** Python's `a % b`: the remainder has the sign of the divisor and completes the floor
      quotient, so `a` is that quotient times `b` plus the remainder. */
  function PyMod(a: int, b: int): (r: int)
    requires b != 0
    ensures b > 0 ==> 0 <= r < b
    ensures b < 0 ==> b < r <= 0
    ensures a == PyFloorDiv(a, b) * b + r
  {
    assert a == (a / b) * b + a % b;
    if b > 0 || a % b == 0 then a % b
    else
      assert a == (a / b - 1) * b + (a % b + b);
      a % b + b
  }

  /** Python's `c * n` for a one-character string: empty when `n <= 0`. */
  function Repeat(c: char, n: int): string
  {
    if n <= 0 then [] else Fill(c, n)
  }

  /** What pad_bits promises: for a positive group size, the bits followed by the fewest '0's
      that make the length a multiple of it; a negative group size appends nothing; zero is a
      division by zero. */
  function Padded(bits: string, groupSize: int): (r: Result<string, Error>)
    ensures r.Err? <==> groupSize == 0
    ensures r.Ok? ==> |bits| <= |r.value| && r.value[..|bits|] == bits
  {
    if groupSize == 0 then Err(ZeroDivision)
    else if groupSize < 0 then Ok(bits)
    else Ok(bits + Fill('0', (groupSize - |bits| % groupSize) % groupSize))
  }

  /** pad_bits. */
  method PadBits(bits: string, groupSize: int) returns (r: Result<string, Error>)
    ensures r == Padded(bits, groupSize)
  {
    if groupSize == 0 {
      return Err(ZeroDivision);
    }
    var rem := PyMod(|bits|, groupSize);
    var padded := bits;
    if rem != 0 {
      padded := padded + Repeat('0', groupSize - rem);
    }
    if groupSize < 0 {
      assert padded == bits;
    } else {
      if rem == 0 {
        ModUnique(groupSize, groupSize, 1, 0);
        assert padded == bits + Fill('0', 0);
      } else {
        ModUnique(groupSize - rem, groupSize, 0, groupSize - rem);
      }
    }
    return Ok(padded);
  }

  lemma {:induction false} MulAtLeast(d: nat, g: nat)
    requires d >= 1
    ensures d * g >= g
  {
    if d > 1 {
      MulAtLeast(d - 1, g);
      assert d * g == (d - 1) * g + g;
    }
  }

  /** Euclidean division is unique: n == q*g + r with 0 <= r < g fixes the quotient and remainder. */
  lemma ModUnique(n: int, g: int, q: int, r: int)
    requires g > 0 && 0 <= r < g && n == q * g + r
    ensures n / g == q && n % g == r
  {
    var q', r' := n / g, n % g;
    assert (q - q') * g == r' - r;
    if q > q' {
      MulAtLeast(q - q', g);
    } else if q < q' {
      MulAtLeast(q' - q, g);
    }
  }

  /** For a positive group size the padded length is the least multiple of it that is at least
      the input length; the input is a prefix and every appended character is '0'. */
  lemma PaddedShape(bits: string, groupSize: int)
    requires groupSize > 0
    ensures var p := Padded(bits, groupSize).value;
      && |p| % groupSize == 0
      && |bits| <= |p| < |bits| + groupSize
      && p[..|bits|] == bits
      && forall i :: |bits| <= i < |p| ==> p[i] == '0'
  {
    var n, g := |bits|, groupSize;
    var q, rem := n / g, n % g;
    if rem == 0 {
      ModUnique(g, g, 1, 0);
    } else {
      ModUnique(g - rem, g, 0, g - rem);
      ModUnique(n + (g - rem), g, q + 1, 0);
    }
  }

  /** Padding an already padded string leaves it unchanged. */
  lemma PaddedIdempotent(bits: string, groupSize: int)
    requires groupSize != 0
    ensures Padded(Padded(bits, groupSize).value, groupSize) == Padded(bits, groupSize)
  {
    if groupSize > 0 {
      var p := Padded(bits, groupSize).value;
      PaddedShape(bits, groupSize);
      assert (groupSize - |p| % groupSize) % groupSize == 0;
      assert p + Fill('0', 0) == p;
    }
  }

  // ---------------------------------------------------------------------------
  // manchester_encode

  /** The code of one bit character: "10" for '0', "01" for anything else. */
  function ManchesterPair(bit: char): string
  {
    if bit == '0' then "10" else "01"
  }

  /** The Manchester encoding of a bit string: the pairs of its characters in order. */
  function Manchester(bits: string): (r: string)
    ensures |r| == 2 * |bits|
  {
    var pairs := seq(|bits|, i requires 0 <= i < |bits| => ManchesterPair(bits[i]));
    ConcatUniformLength(pairs, 2);
    Concat(pairs)
  }

  /** manchester_encode. */
  method ManchesterEncode(bitString: string) returns (encoded: string)
    ensures encoded == Manchester(bitString)
  {
    encoded := "";
    for i := 0 to |bitString|
      invariant encoded == Manchester(bitString[..i])
    {
      ghost var pairs := seq(i, k requires 0 <= k < i => ManchesterPair(bitString[k]));
      assert pairs == seq(i, k requires 0 <= k < i => ManchesterPair(bitString[..i][k]));
      assert seq(i + 1, k requires 0 <= k < i + 1 => ManchesterPair(bitString[..i + 1][k]))
        == pairs + [ManchesterPair(bitString[i])];
      ConcatAppend(pairs, ManchesterPair(bitString[i]));
      encoded := encoded + if bitString[i] == '0' then "10" else "01";
    }
    assert bitString[..|bitString|] == bitString;
  }

  /** The encoding is twice as long as the input, and bit `i` becomes characters 2i and 2i+1:
      '1' then '0' for '0', '0' then '1' otherwise; each pair holds one '1' and one '0'. */
  lemma ManchesterAt(bits: string, i: nat)
    requires i < |bits|
    ensures |Manchester(bits)| == 2 * |bits|
    ensures Manchester(bits)[2 * i] == (if bits[i] == '0' then '1' else '0')
    ensures Manchester(bits)[2 * i + 1] == (if bits[i] == '0' then '0' else '1')
  {
    var pairs := seq(|bits|, k requires 0 <= k < |bits| => ManchesterPair(bits[k]));
    ConcatUniformLength(pairs, 2);
    ConcatUniform(pairs, 2, i, 0);
    ConcatUniform(pairs, 2, i, 1);
  }

  /** Characters 2i..2i+2 of the encoding are the code of bit `i`. */
  lemma ManchesterPairAt(bits: string, i: nat)
    requires i < |bits|
    ensures 2 * i + 2 <= |Manchester(bits)|
    ensures Manchester(bits)[2 * i .. 2 * i + 2] == ManchesterPair(bits[i])
  {
    var e := Manchester(bits);
    ManchesterAt(bits, i);
    assert e[2 * i .. 2 * i + 2] == [e[2 * i], e[2 * i + 1]];
  }

  /** Reference decoder: "10" reads as '0', "01" as '1', any other pair is invalid. */
  function ManchesterDecode(encoded: string): Option<string>
  {
    if encoded == [] then Some([])
    else if |encoded| < 2 then None
    else
      match ManchesterDecode(encoded[2..])
      case None => None
      case Some(rest) =>
        if encoded[..2] == "10" then Some(['0'] + rest)
        else if encoded[..2] == "01" then Some(['1'] + rest)
        else None
  }

  lemma ManchesterCons(bits: string)
    requires bits != []
    ensures Manchester(bits) == ManchesterPair(bits[0]) + Manchester(bits[1..])
  {
    var pairs := seq(|bits|, k requires 0 <= k < |bits| => ManchesterPair(bits[k]));
    assert pairs[1..] == seq(|bits| - 1, k requires 0 <= k < |bits| - 1 => ManchesterPair(bits[1..][k]));
  }

  /** Whatever decodes to `bits` is the encoding of `bits`, and `bits` is binary. */
  lemma {:induction false} ManchesterDecodeSound(encoded: string, bits: string)
    requires ManchesterDecode(encoded) == Some(bits)
    ensures IsBinary(bits) && Manchester(bits) == encoded
  {
    if encoded == [] {
      assert bits == [];
      assert Manchester(bits) == [];
    } else {
      var head, rest := encoded[..2], ManchesterDecode(encoded[2..]).value;
      assert head == "10" || head == "01";
      var c := if head == "10" then '0' else '1';
      assert bits == [c] + rest;
      ManchesterDecodeSound(encoded[2..], rest);
      ManchesterCons(bits);
      assert bits[0] == c && bits[1..] == rest;
      assert ManchesterPair(c) == head;
      assert encoded == head + encoded[2..];
    }
  }

  /** The encoding of a binary string decodes back to it. */
  lemma {:induction false} ManchesterDecodeComplete(bits: string)
    requires IsBinary(bits)
    ensures ManchesterDecode(Manchester(bits)) == Some(bits)
  {
    if bits == [] {
      assert Manchester(bits) == [];
    } else {
      var e := Manchester(bits);
      ManchesterCons(bits);
      assert e[2..] == Manchester(bits[1..]) && e[..2] == ManchesterPair(bits[0]);
      ManchesterDecodeComplete(bits[1..]);
      assert bits == [bits[0]] + bits[1..];
    }
  }

  /** Decoding inverts the encoding exactly on '0'/'1' strings: a string decodes to `bits`
      if and only if it is the encoding of `bits` and `bits` is binary. */
  lemma ManchesterRoundTrip(encoded: string, bits: string)
    ensures ManchesterDecode(encoded) == Some(bits) <==> IsBinary(bits) && Manchester(bits) == encoded
  {
    if ManchesterDecode(encoded) == Some(bits) {
      ManchesterDecodeSound(encoded, bits);
    }
    if IsBinary(bits) && Manchester(bits) == encoded {
      ManchesterDecodeComplete(bits);
    }
  }

  // ---------------------------------------------------------------------------
  // encode_segment_from_bits

  /** The symbols encode_segment_from_bits turns into tones: the bits padded to a multiple of
      `len(freqs)` and cut into `len(freqs)`-character symbols. No frequencies is a division by
      zero in pad_bits; no symbols leaves `np.concatenate` nothing to join. */
  function SegmentSymbols(bits: string, bitsPerSymbol: nat): (r: Result<seq<string>, Error>)
    ensures r.Ok? ==> bitsPerSymbol > 0 && Concat(r.value) == Padded(bits, bitsPerSymbol).value
    ensures r.Err? ==> (r.error == ZeroDivision <==> bitsPerSymbol == 0)
  {
    if bitsPerSymbol == 0 then Err(ZeroDivision)
    else
      var symbols := Chunks(Padded(bits, bitsPerSymbol).value, bitsPerSymbol);
      if symbols == [] then Err(NothingToConcatenate) else Ok(symbols)
  }

  /** Cutting a sequence whose length is a multiple of `k` leaves no short last slice. */
  lemma ChunksExact<T>(s: seq<T>, k: nat)
    requires k > 0 && |s| % k == 0
    ensures forall i :: 0 <= i < |Chunks(s, k)| ==> |Chunks(s, k)[i]| == k
  {
    var r := Chunks(s, k);
    if r != [] {
      var n := |r|;
      var init := r[..n - 1];
      assert r == init + [r[n - 1]];
      ConcatAppend(init, r[n - 1]);
      ConcatUniformLength(init, k);
      var last := |r[n - 1]|;
      assert |s| == (n - 1) * k + last;
      if last < k {
        ModUnique(|s|, k, n - 1, last);
      }
    }
  }

  /** The segment has symbols exactly when there are frequencies and bits; then every symbol
      has exactly `len(freqs)` characters, they are the padded bits in order, and there are
      ceil(|bits| / len(freqs)) of them. */
  lemma SegmentSymbolsShape(bits: string, bitsPerSymbol: nat)
    ensures SegmentSymbols(bits, bitsPerSymbol).Ok? <==> bitsPerSymbol > 0 && bits != []
    ensures SegmentSymbols(bits, bitsPerSymbol).Ok? ==>
      var symbols := SegmentSymbols(bits, bitsPerSymbol).value;
      && (forall i :: 0 <= i < |symbols| ==> |symbols[i]| == bitsPerSymbol)
      && Concat(symbols) == Padded(bits, bitsPerSymbol).value
      && (|symbols| - 1) * bitsPerSymbol < |bits| <= |symbols| * bitsPerSymbol
  {
    if bitsPerSymbol > 0 {
      var p := Padded(bits, bitsPerSymbol).value;
      PaddedShape(bits, bitsPerSymbol);
      ChunksExact(p, bitsPerSymbol);
      var symbols := Chunks(p, bitsPerSymbol);
      ConcatUniformLength(symbols, bitsPerSymbol);
      if bits != [] {
        var n := |symbols|;
        assert (n - 1) * bitsPerSymbol == n * bitsPerSymbol - bitsPerSymbol;
      }
    }
  }

  // ---------------------------------------------------------------------------
  // generate_manchester_clock_wave

  /** The fixed clock pattern that is Manchester-encoded into the clock track. */
  const ClockBits: string := "1010101010"

  /** Clock frequency index for an encoded half-period: `clock_freqs[0]` for '1', `clock_freqs[1]`
      otherwise. */
  function HalfPeriodFreq(bit: char): nat
  {
    if bit == '1' then 0 else 1
  }

  /** One clock pattern: for each of the encoded half-periods in order, the half-period tone of
      its clock frequency. */
  function ClockPattern(halfTones: seq<seq<real>>): seq<real>
    requires |halfTones| >= 2
  {
    var encoded := Manchester(ClockBits);
    Concat(seq(|encoded|, k requires 0 <= k < |encoded| => halfTones[HalfPeriodFreq(encoded[k])]))
  }

  /** The track generate_manchester_clock_wave returns: the pattern repeated `numCycles` times,
      then trimmed or zero-padded to `totalSamples`. */
  function ManchesterClockWave(halfTones: seq<seq<real>>, numCycles: nat, totalSamples: nat): (r: Result<seq<real>, Error>)
    ensures r.Err? <==> |halfTones| < 2
    ensures r.Ok? ==> |r.value| == totalSamples
  {
    if |halfTones| < 2 then Err(ClockIndexError)
    else Ok(FitLength(Tile(ClockPattern(halfTones), numCycles), totalSamples, 0.0))
  }

  /** "1010101010" encodes to the twenty half-periods "01100110011001100110". */
  lemma ClockSchedule()
    ensures Manchester(ClockBits) == "01100110011001100110"
  {
    var e := Manchester(ClockBits);
    assert |e| == 20;
    ManchesterAt(ClockBits, 0);
    assert ClockBits[0] == '1';
    ManchesterAt(ClockBits, 1);
    assert ClockBits[1] == '0';
    ManchesterAt(ClockBits, 2);
    assert ClockBits[2] == '1';
    ManchesterAt(ClockBits, 3);
    assert ClockBits[3] == '0';
    ManchesterAt(ClockBits, 4);
    assert ClockBits[4] == '1';
    ManchesterAt(ClockBits, 5);
    assert ClockBits[5] == '0';
    ManchesterAt(ClockBits, 6);
    assert ClockBits[6] == '1';
    ManchesterAt(ClockBits, 7);
    assert ClockBits[7] == '0';
    ManchesterAt(ClockBits, 8);
    assert ClockBits[8] == '1';
    ManchesterAt(ClockBits, 9);
    assert ClockBits[9] == '0';
    assert e == [e[0], e[1], e[2], e[3], e[4], e[5], e[6], e[7], e[8], e[9], e[10], e[11], e[12], e[13], e[14], e[15], e[16], e[17], e[18], e[19]];
  }

  /** generate_manchester_clock_wave with the half-period tone of each clock frequency, the
      number of pattern repeats and the total sample count given. */
  method GenerateManchesterClockWave(halfTones: seq<seq<real>>, numCycles: nat, totalSamples: nat)
    returns (r: Result<seq<real>, Error>)
    ensures r == ManchesterClockWave(halfTones, numCycles, totalSamples)
  {
    var encodedClock := ManchesterEncode(ClockBits);
    ClockSchedule();
    var waveSegments: seq<seq<real>> := [];
    for k := 0 to |encodedClock|
      invariant k > 0 ==> |halfTones| >= 2
      invariant waveSegments == seq(k, i requires 0 <= i < k && |halfTones| >= 2 =>
        halfTones[HalfPeriodFreq(encodedClock[i])])
    {
      var freq := if encodedClock[k] == '1' then 0 else 1;
      if freq >= |halfTones| {
        return Err(ClockIndexError);
      }
      waveSegments := waveSegments + [halfTones[freq]];
    }
    assert waveSegments == seq(|encodedClock|, i requires 0 <= i < |encodedClock| =>
      halfTones[HalfPeriodFreq(encodedClock[i])]);
    var clockWave := Tile(Concat(waveSegments), numCycles);
    if |clockWave| > totalSamples {
      clockWave := clockWave[..totalSamples];
    } else {
      clockWave := clockWave + Fill(0.0, totalSamples - |clockWave|);
    }
    assert clockWave == FitLength(Tile(ClockPattern(halfTones), numCycles), totalSamples, 0.0);
    r := Ok(clockWave);
  }

  /** With half-period tones of `half` samples, the pattern holds 20 half-periods and
      half-period `k` is the tone of `clock_freqs[0]` when encoded bit `k` is '1' and of
      `clock_freqs[1]` otherwise. */
  lemma ClockPatternAt(halfTones: seq<seq<real>>, half: nat, k: nat, j: nat)
    requires |halfTones| >= 2 && forall f :: 0 <= f < |halfTones| ==> |halfTones[f]| == half
    requires k < 20 && j < half
    ensures |ClockPattern(halfTones)| == 20 * half
    ensures ClockPattern(halfTones)[k * half + j] ==
      (if Manchester(ClockBits)[k] == '1' then halfTones[0][j] else halfTones[1][j])
  {
    ClockSchedule();
    var encoded := Manchester(ClockBits);
    var segments := seq(|encoded|, i requires 0 <= i < |encoded| => halfTones[HalfPeriodFreq(encoded[i])]);
    ConcatUniform(segments, half, k, j);
  }

  /** The clock track has exactly `totalSamples` samples, and sample `j` of repeat `c` is
      sample `j` of the pattern while it fits. */
  lemma ManchesterClockWaveShape(halfTones: seq<seq<real>>, numCycles: nat, totalSamples: nat, c: nat, j: nat)
    requires |halfTones| >= 2
    ensures ManchesterClockWave(halfTones, numCycles, totalSamples).Ok?
    ensures |ManchesterClockWave(halfTones, numCycles, totalSamples).value| == totalSamples
    ensures var pattern := ClockPattern(halfTones);
      c < numCycles && j < |pattern| && c * |pattern| + j < totalSamples ==>
        ManchesterClockWave(halfTones, numCycles, totalSamples).value[c * |pattern| + j] == pattern[j]
  {
    var pattern := ClockPattern(halfTones);
    TileLength(pattern, numCycles);
    if c < numCycles && j < |pattern| {
      TileAt(pattern, numCycles, c, j);
    }
  }

  /** Samples of the clock track past the last whole repeat of the pattern are zero. */
  lemma ManchesterClockWavePadding(halfTones: seq<seq<real>>, numCycles: nat, totalSamples: nat, i: nat)
    requires |halfTones| >= 2
    ensures var pattern := ClockPattern(halfTones);
      numCycles * |pattern| <= i < totalSamples ==>
        ManchesterClockWave(halfTones, numCycles, totalSamples).value[i] == 0.0
  {
    TileLength(ClockPattern(halfTones), numCycles);
  }
}
