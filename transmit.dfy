/** The discrete part of the live transmitter (binaric2/scripts/transmit.py): text to bit
    chunks and back, integers to fixed-width bit rows, and the segment layout and clock
    schedule of the content and clock tracks. Tone samples are opaque inputs (`seq<real>`),
    one pre-generated wave per frequency. */
module Transmit {
  import opened Wrappers
  import opened Bits
  import opened Seqs

  /** The exceptions the transmitter raises. */
  datatype Error =
    | ZeroChunkLength          // `range(0, n, 0)` in string_to_bitset
    | BitsetTooLong(index: nat) // a bitset with more bits than frequencies
    | EmptyData                // `np.max` of an empty array
    | ValueTooLarge            // a datum above 2**num_freqs - 1
    | FormatError              // a formatted row that is not all binary digits
    | NoClockFrequencies       // `i % len(freqs)` with no clock frequencies

  // ---------------------------------------------------------------------------
  // string_to_bitset / bitset_to_string

  /** `format(ord(c), '08b')` as bits: eight digits, or more for a code point above 255. */
  function CharBits(c: char): seq<Bit>
  {
    Format(c as int, 8)
  }

  /** The bit array of a text: the bits of each character in order. */
  function TextBits(text: string): seq<Bit>
  {
    Concat(seq(|text|, i requires 0 <= i < |text| => CharBits(text[i])))
  }

  /** The characters whose code point fits in one byte. */
  predicate IsByteText(text: string)
  {
    forall i :: 0 <= i < |text| ==> text[i] as int < 256
  }

  /** `string_to_bitset(text, chunk_length)`. A zero chunk length is a zero `range` step;
      a negative one makes the `range` empty. */
  function StringToBitset(text: string, chunkLength: int): (r: Result<seq<seq<Bit>>, Error>)
    ensures r.Err? <==> chunkLength == 0
    ensures chunkLength < 0 ==> r == Ok([])
    ensures chunkLength > 0 ==> Concat(r.value) == TextBits(text)
    ensures chunkLength > 0 ==> forall i :: 0 <= i < |r.value| ==> 0 < |r.value[i]| <= chunkLength
    ensures chunkLength > 0 ==> forall i :: 0 <= i < |r.value| - 1 ==> |r.value[i]| == chunkLength
  {
    if chunkLength == 0 then Err(ZeroChunkLength)
    else if chunkLength < 0 then Ok([])
    else Ok(Chunks(TextBits(text), chunkLength))
  }

  /** `chr(int(byte, 2))` for a slice of at most eight bits. */
  function ByteChar(piece: seq<Bit>): (c: char)
    requires |piece| <= 8
    ensures c as int < 256
  {
    Pow2Monotone(|piece|, 8);
    Pow2Byte();
    FromBits(piece) as char
  }

  /** `bitset_to_string(bitset)`: flatten, cut into 8-bit slices (the last may be shorter),
      read each slice as a character code. */
  function BitsetToString(bitset: seq<seq<Bit>>): (r: string)
    ensures IsByteText(r)
    ensures 8 * |r| - 8 < |Concat(bitset)| <= 8 * |r|
  {
    var bits := Concat(bitset);
    var bytes := Chunks(bits, 8);
    var r := seq(|bytes|, i requires 0 <= i < |bytes| => ByteChar(bytes[i]));
    if bits == [] then r
    else
      ChunksCount(bits, 8);
      r
  }

  /** A character below 256 becomes exactly its eight bits, most significant first; a larger
      one is widened beyond eight bits. */
  lemma CharBitsShape(c: char)
    ensures c as int < 256 ==> CharBits(c) == ToBits(c as int, 8) && FromBits(CharBits(c)) == c as int
    ensures c as int >= 256 ==> |CharBits(c)| > 8
  {
    Pow2Byte();
    if c as int < 256 {
      FormatFits(c as int, 8);
    } else if BitLength(c as int) <= 8 {
      Pow2Monotone(BitLength(c as int), 8);
    }
  }

  /** Each character of a byte text occupies bits 8i..8i+8 of the bit array, and those bits
      read back as its code. */
  lemma TextBitsAt(text: string, i: nat)
    requires IsByteText(text) && i < |text|
    ensures |TextBits(text)| == 8 * |text|
    ensures TextBits(text)[8 * i .. 8 * i + 8] == ToBits(text[i] as int, 8)
    ensures FromBits(TextBits(text)[8 * i .. 8 * i + 8]) == text[i] as int
  {
    var pieces := seq(|text|, k requires 0 <= k < |text| => CharBits(text[k]));
    forall k | 0 <= k < |text| ensures |pieces[k]| == 8 {
      CharBitsShape(text[k]);
    }
    ConcatUniformLength(pieces, 8);
    forall j | 0 <= j < 8 ensures TextBits(text)[8 * i + j] == pieces[i][j] {
      ConcatUniform(pieces, 8, i, j);
    }
    CharBitsShape(text[i]);
  }

  /** With a positive chunk length the chunks partition the text's 8|text| bits: all but the
      last hold exactly `chunkLength` bits, the last between 1 and `chunkLength`, and there are
      ceil(8|text| / chunkLength) of them. */
  lemma StringToBitsetShape(text: string, chunkLength: int)
    requires chunkLength > 0 && IsByteText(text)
    ensures StringToBitset(text, chunkLength).Ok?
    ensures var chunks := StringToBitset(text, chunkLength).value;
      && Concat(chunks) == TextBits(text)
      && (forall i :: 0 <= i < |chunks| - 1 ==> |chunks[i]| == chunkLength)
      && (|chunks| > 0 ==> 0 < |chunks[|chunks| - 1]| <= chunkLength)
      && (text == [] ==> chunks == [])
      && (text != [] ==> (|chunks| - 1) * chunkLength < 8 * |text| <= |chunks| * chunkLength)
  {
    if text != [] {
      TextBitsAt(text, 0);
      ChunksCount(TextBits(text), chunkLength);
    } else {
      assert TextBits(text) == [];
    }
  }

  /** `bitset_to_string(string_to_bitset(s, k)) == s` for every positive `k` and every text
      whose code points are below 256. */
  lemma {:induction false} BitsetRoundTrip(text: string, chunkLength: int)
    requires chunkLength > 0 && IsByteText(text)
    ensures StringToBitset(text, chunkLength).Ok?
    ensures BitsetToString(StringToBitset(text, chunkLength).value) == text
  {
    var pieces := seq(|text|, k requires 0 <= k < |text| => CharBits(text[k]));
    forall k | 0 <= k < |text| ensures |pieces[k]| == 8 {
      CharBitsShape(text[k]);
    }
    ChunksOfConcat(pieces, 8);
    var bytes := Chunks(Concat(Chunks(TextBits(text), chunkLength)), 8);
    assert bytes == pieces;
    var r := BitsetToString(StringToBitset(text, chunkLength).value);
    forall i | 0 <= i < |text| ensures r[i] == text[i] {
      CharBitsShape(text[i]);
    }
  }

  /** A code point in 256..511 is written as nine bits. */
  lemma NineBitChar(c: char)
    requires 256 <= c as int < 512
    ensures |CharBits(c)| == 9
  {
    Pow2Byte();
    assert Pow2(9) == 2 * Pow2(8);
    BitLengthBound(c as int, 9);
    CharBitsShape(c);
  }

  lemma WideCharBits()
    ensures |TextBits("Ā")| == 9
  {
    var text := "Ā";
    NineBitChar(text[0]);
    var pieces := seq(|text|, k requires 0 <= k < |text| => CharBits(text[k]));
    assert Concat(pieces) == pieces[0] + Concat(pieces[1..]);
  }

  /** Code points above 255 break the round trip: "Ā" is written as nine bits, which
      read back as two characters. */
  lemma WideCharBreaksRoundTrip()
    ensures var text := "Ā";
      |BitsetToString(StringToBitset(text, 8).value)| == 2 != |text|
  {
    var text := "Ā";
    WideCharBits();
    var bits := TextBits(text);
    var chunks := StringToBitset(text, 8).value;
    assert Concat(chunks) == bits;
    ChunksCount(bits, 8);
    assert |Chunks(bits, 8)| == 2;
  }

  /** The bits of a non-empty text are those of its first character, then those of the rest. */
  lemma TextBitsCons(text: string)
    requires text != []
    ensures TextBits(text) == CharBits(text[0]) + TextBits(text[1..])
  {
    var pieces := seq(|text|, i requires 0 <= i < |text| => CharBits(text[i]));
    var rest := text[1..];
    assert pieces[1..] == seq(|rest|, i requires 0 <= i < |rest| => CharBits(rest[i]));
  }

  /** Every character takes at least eight bits, and a code point above 255 takes more. */
  lemma {:induction false} TextBitsLength(text: string)
    ensures |TextBits(text)| >= 8 * |text|
    ensures !IsByteText(text) ==> |TextBits(text)| > 8 * |text|
    decreases |text|
  {
    if text == [] {
      assert TextBits(text) == Concat([]);
    } else {
      TextBitsCons(text);
      TextBitsLength(text[1..]);
      CharBitsShape(text[0]);
      if !IsByteText(text) && text[0] as int < 256 {
        var i :| 0 <= i < |text| && text[i] as int >= 256;
        assert text[1..][i - 1] == text[i];
      }
    }
  }

  /** For every positive chunk length, a text with a code point above 255 comes back longer
      than it went in; with BitsetRoundTrip, the round trip holds exactly for byte texts. */
  lemma BitsetRoundTripIff(text: string, chunkLength: int)
    requires chunkLength > 0
    ensures StringToBitset(text, chunkLength).Ok?
    ensures !IsByteText(text) ==> |BitsetToString(StringToBitset(text, chunkLength).value)| > |text|
    ensures BitsetToString(StringToBitset(text, chunkLength).value) == text <==> IsByteText(text)
  {
    TextBitsLength(text);
    if IsByteText(text) {
      BitsetRoundTrip(text, chunkLength);
    }
  }

  // ---------------------------------------------------------------------------
  // convert_int_data_to_bits

  /** `convert_int_data_to_bits(num_freqs, data)`: each datum as a `num_freqs`-digit binary
      row. An empty array has no maximum; a maximum above 2**num_freqs - 1 is refused; a negative
      datum formats with a '-' that is not a digit; a negative width makes 2**num_freqs - 1
      negative, so a datum >= 0 is too large and an all-negative array fails to format. */
  function ConvertIntDataToBits(numFreqs: int, data: seq<int>): (r: Result<seq<seq<Bit>>, Error>)
    ensures r.Ok? ==> |r.value| == |data|
    ensures r.Ok? ==> forall i :: 0 <= i < |data| ==> FromBits(r.value[i]) == data[i]
  {
    if |data| == 0 then Err(EmptyData)
    else if numFreqs < 0 then (if MaxOf(data) >= 0 then Err(ValueTooLarge) else Err(FormatError))
    else if MaxOf(data) > Pow2(numFreqs) - 1 then Err(ValueTooLarge)
    else if exists i :: 0 <= i < |data| && data[i] < 0 then Err(FormatError)
    else Ok(seq(|data|, i requires 0 <= i < |data| && data[i] >= 0 => Format(data[i], numFreqs)))
  }

  /** The conversion succeeds exactly when the data are non-empty and every datum lies in
      0..2**num_freqs - 1; it reports ValueTooLarge exactly when some datum exceeds that bound. */
  lemma ConvertIntDataErrors(numFreqs: int, data: seq<int>)
    ensures ConvertIntDataToBits(numFreqs, data).Ok? <==>
      |data| > 0 && numFreqs >= 0 && forall i :: 0 <= i < |data| ==> 0 <= data[i] <= Pow2(numFreqs) - 1
    ensures numFreqs >= 0 ==>
      (ConvertIntDataToBits(numFreqs, data) == Err(ValueTooLarge) <==>
        exists i :: 0 <= i < |data| && data[i] > Pow2(numFreqs) - 1)
  {
    if |data| > 0 && numFreqs < 0 {
      if MaxOf(data) < 0 {
        assert data[0] < 0;
      }
    }
  }

  /** For valid data each row holds exactly `num_freqs` bits, most significant first, and reads
      back as the datum; with `num_freqs == 0` the only valid datum 0 is written as the single
      digit "0". */
  lemma ConvertIntDataRow(numFreqs: int, data: seq<int>, i: nat)
    requires ConvertIntDataToBits(numFreqs, data).Ok? && i < |data|
    ensures var rows := ConvertIntDataToBits(numFreqs, data).value;
      && |rows| == |data|
      && FromBits(rows[i]) == data[i]
      && (numFreqs >= 1 ==> rows[i] == ToBits(data[i], numFreqs))
      && (numFreqs == 0 ==> rows[i] == [0])
  {
    ConvertIntDataErrors(numFreqs, data);
    assert 0 <= data[i] <= Pow2(numFreqs) - 1;
    var rows := ConvertIntDataToBits(numFreqs, data).value;
    assert rows[i] == Format(data[i], numFreqs);
    FormatRow(data[i], numFreqs);
  }

  /** A value that fits in `w >= 1` digits is written as exactly `w` digits; with `w == 0` the
      only such value, 0, is written as one digit. */
  lemma FormatRow(n: nat, w: nat)
    requires n <= Pow2(w) - 1
    ensures w >= 1 ==> Format(n, w) == ToBits(n, w)
    ensures w == 0 ==> Format(n, w) == [0]
  {
    if w >= 1 {
      FormatFits(n, w);
    } else {
      assert n == 0;
      var r := Format(0, 0);
      assert |r| == 1 && FromBits(r) == 0;
    }
  }

  // ---------------------------------------------------------------------------
  // build_content_sequence_from_bits

  /** The pre-generated tone map: one wave of `segLength` samples per frequency. */
  predicate ToneMap(tones: seq<seq<real>>, segLength: nat)
  {
    forall f :: 0 <= f < |tones| ==> |tones[f]| == segLength
  }

  /** Element-wise sum of two waves of equal length (numpy `+`). */
  function AddWaves(a: seq<real>, b: seq<real>): seq<real>
    requires |a| == |b|
  {
    seq(|a|, j requires 0 <= j < |a| => a[j] + b[j])
  }

  /** Number of 1 bits. */
  function ActiveCount(bits: seq<Bit>): nat
  {
    if bits == [] then 0 else ActiveCount(bits[..|bits| - 1]) + bits[|bits| - 1]
  }

  /** Sample `j` of the sum of the tones whose bit is 1. */
  function ActiveSum(tones: seq<seq<real>>, bits: seq<Bit>, j: nat): real
    requires |bits| <= |tones|
    requires forall f :: 0 <= f < |bits| ==> j < |tones[f]|
  {
    if bits == [] then 0.0
    else
      var last := |bits| - 1;
      ActiveSum(tones, bits[..last], j) + (if bits[last] == 1 then tones[last][j] else 0.0)
  }

  /** The segment for one bitset: per sample, the sum of the active tones, divided by their
      number when more than one is active. */
  function Segment(tones: seq<seq<real>>, bits: seq<Bit>, segLength: nat): (r: seq<real>)
    requires ToneMap(tones, segLength) && |bits| <= |tones|
    ensures |r| == segLength
  {
    var count := ActiveCount(bits);
    seq(segLength, j requires 0 <= j < segLength =>
      ActiveSum(tones, bits, j) / (if count > 1 then count else 1) as real)
  }

  /** Index of the first bitset wider than `width`. */
  function FirstTooLong(bitsets: seq<seq<Bit>>, width: nat): (k: nat)
    requires exists k :: 0 <= k < |bitsets| && |bitsets[k]| > width
    ensures k < |bitsets| && |bitsets[k]| > width
    ensures forall k' :: 0 <= k' < k ==> |bitsets[k']| <= width
  {
    if |bitsets[0]| > width then 0
    else
      var k :| 0 <= k < |bitsets| && |bitsets[k]| > width;
      assert bitsets[1..][k - 1] == bitsets[k];
      1 + FirstTooLong(bitsets[1..], width)
  }

  /** The content track build_content_sequence_from_bits produces: the first bitset wider than
      the frequency list is an error, otherwise the segments of all bitsets in order. */
  function ContentSequence(tones: seq<seq<real>>, bitsets: seq<seq<Bit>>, segLength: nat): (r: Result<seq<real>, Error>)
    requires ToneMap(tones, segLength)
    ensures r.Err? ==> r.error.BitsetTooLong? && r.error.index < |bitsets|
    ensures r.Err? ==> |bitsets[r.error.index]| > |tones|
    ensures r.Err? ==> forall k :: 0 <= k < r.error.index ==> |bitsets[k]| <= |tones|
  {
    if exists k :: 0 <= k < |bitsets| && |bitsets[k]| > |tones| then
      Err(BitsetTooLong(FirstTooLong(bitsets, |tones|)))
    else
      Ok(Concat(seq(|bitsets|, k requires 0 <= k < |bitsets| && |bitsets[k]| <= |tones| =>
        Segment(tones, bitsets[k], segLength))))
  }

  /** build_content_sequence_from_bits with the tone map and segment length given. */
  method BuildContentSequenceFromBits(tones: seq<seq<real>>, bitsets: seq<seq<Bit>>, segLength: nat)
    returns (r: Result<seq<real>, Error>)
    requires ToneMap(tones, segLength)
    ensures r == ContentSequence(tones, bitsets, segLength)
  {
    var allSegments: seq<seq<real>> := [];
    for k := 0 to |bitsets|
      invariant forall k' :: 0 <= k' < k ==> |bitsets[k']| <= |tones|
      invariant |allSegments| == k
      invariant forall k' :: 0 <= k' < k ==> allSegments[k'] == Segment(tones, bitsets[k'], segLength)
    {
      var bitset := bitsets[k];
      if |bitset| > |tones| {
        return Err(BitsetTooLong(k));
      }
      var segment := Fill(0.0, segLength);
      var activeCount := 0;
      for i := 0 to |bitset|
        invariant |segment| == segLength
        invariant forall j :: 0 <= j < segLength ==> segment[j] == ActiveSum(tones, bitset[..i], j)
        invariant activeCount == ActiveCount(bitset[..i])
      {
        assert bitset[..i + 1][..i] == bitset[..i];
        if bitset[i] == 1 {
          segment := AddWaves(segment, tones[i]);
          activeCount := activeCount + 1;
        }
      }
      assert bitset[..|bitset|] == bitset;
      ghost var spec := Segment(tones, bitset, segLength);
      if activeCount > 1 {
        segment := seq(segLength, j requires 0 <= j < segLength => segment[j] / activeCount as real);
      }
      forall j | 0 <= j < segLength ensures segment[j] == spec[j] {
      }
      assert segment == spec;
      allSegments := allSegments + [segment];
    }
    assert allSegments == seq(|bitsets|, k requires 0 <= k < |bitsets| && |bitsets[k]| <= |tones| =>
      Segment(tones, bitsets[k], segLength));
    r := Ok(Concat(allSegments));
  }

  /** The content track is an error exactly when some bitset is wider than the frequency list,
      naming the first; otherwise it has one `segLength`-sample segment per bitset, segment `k`
      occupying samples k*segLength..(k+1)*segLength. */
  lemma ContentSequenceShape(tones: seq<seq<real>>, bitsets: seq<seq<Bit>>, segLength: nat)
    requires ToneMap(tones, segLength)
    ensures ContentSequence(tones, bitsets, segLength).Ok? <==>
      forall k :: 0 <= k < |bitsets| ==> |bitsets[k]| <= |tones|
    ensures ContentSequence(tones, bitsets, segLength).Ok? ==>
      |ContentSequence(tones, bitsets, segLength).value| == |bitsets| * segLength
    ensures ContentSequence(tones, bitsets, segLength).Ok? && segLength > 0 ==>
      (ContentSequence(tones, bitsets, segLength).value == [] <==> bitsets == [])
  {
    if forall k :: 0 <= k < |bitsets| ==> |bitsets[k]| <= |tones| {
      var segments := seq(|bitsets|, k requires 0 <= k < |bitsets| && |bitsets[k]| <= |tones| =>
        Segment(tones, bitsets[k], segLength));
      ConcatUniformLength(segments, segLength);
    }
  }

  /** Sample `j` of segment `k` of the content track is sample `j` of bitset `k`'s segment. */
  lemma ContentSequenceAt(tones: seq<seq<real>>, bitsets: seq<seq<Bit>>, segLength: nat, k: nat, j: nat)
    requires ToneMap(tones, segLength)
    requires ContentSequence(tones, bitsets, segLength).Ok?
    requires k < |bitsets| && j < segLength
    ensures |bitsets[k]| <= |tones|
    ensures k * segLength + j < |ContentSequence(tones, bitsets, segLength).value|
    ensures ContentSequence(tones, bitsets, segLength).value[k * segLength + j] ==
      Segment(tones, bitsets[k], segLength)[j]
  {
    var segments := seq(|bitsets|, k requires 0 <= k < |bitsets| && |bitsets[k]| <= |tones| =>
      Segment(tones, bitsets[k], segLength));
    ConcatUniform(segments, segLength, k, j);
  }

  lemma {:induction false} SilentSum(tones: seq<seq<real>>, bits: seq<Bit>, j: nat)
    requires |bits| <= |tones|
    requires forall f :: 0 <= f < |bits| ==> j < |tones[f]|
    requires ActiveCount(bits) == 0
    ensures ActiveSum(tones, bits, j) == 0.0
  {
    if bits != [] {
      SilentSum(tones, bits[..|bits| - 1], j);
    }
  }

  /** A bitset with no 1 bit gives a silent segment. */
  lemma SilentSegment(tones: seq<seq<real>>, bits: seq<Bit>, segLength: nat)
    requires ToneMap(tones, segLength) && |bits| <= |tones|
    requires ActiveCount(bits) == 0
    ensures Segment(tones, bits, segLength) == Fill(0.0, segLength)
  {
    forall j | 0 <= j < segLength ensures Segment(tones, bits, segLength)[j] == 0.0 {
      SilentSum(tones, bits, j);
    }
  }

  lemma {:induction false} SingleToneSum(tones: seq<seq<real>>, bits: seq<Bit>, f: nat, j: nat)
    requires |bits| <= |tones|
    requires forall g :: 0 <= g < |bits| ==> j < |tones[g]|
    requires f < |bits| && forall g :: 0 <= g < |bits| ==> (bits[g] == 1 <==> g == f)
    ensures ActiveSum(tones, bits, j) == tones[f][j] && ActiveCount(bits) == 1
  {
    var init := bits[..|bits| - 1];
    if f == |bits| - 1 {
      ZeroCount(init);
      SilentSum(tones, init, j);
    } else {
      SingleToneSum(tones, init, f, j);
    }
  }

  lemma {:induction false} ZeroCount(bits: seq<Bit>)
    requires forall g :: 0 <= g < |bits| ==> bits[g] == 0
    ensures ActiveCount(bits) == 0
  {
    if bits != [] {
      ZeroCount(bits[..|bits| - 1]);
    }
  }

  /** A bitset with exactly one 1 bit, at `f`, gives tone `f` unchanged. */
  lemma SingleToneSegment(tones: seq<seq<real>>, bits: seq<Bit>, segLength: nat, f: nat)
    requires ToneMap(tones, segLength) && |bits| <= |tones|
    requires f < |bits| && forall g :: 0 <= g < |bits| ==> (bits[g] == 1 <==> g == f)
    ensures Segment(tones, bits, segLength) == tones[f]
  {
    forall j | 0 <= j < segLength ensures Segment(tones, bits, segLength)[j] == tones[f][j] {
      SingleToneSum(tones, bits, f, j);
    }
  }

  // ---------------------------------------------------------------------------
  // add_clock_signal

  /** The clock track before fitting: `cycles` clock segments, cycle `i` using clock
      frequency `i % len(freqs)`. */
  function ClockTrack(clockTones: seq<seq<real>>, cycles: nat): seq<real>
    requires |clockTones| > 0 || cycles == 0
  {
    Concat(seq(cycles, i requires 0 <= i < cycles && |clockTones| > 0 => clockTones[i % |clockTones|]))
  }

  /** What add_clock_signal mixes before its final normalisation: no audio gives no audio;
      otherwise the clock track, trimmed or zero-padded to the content's length, added sample
      by sample. Clock cycles with no clock frequency are a division by zero. */
  function ClockedContent(audio: seq<real>, clockTones: seq<seq<real>>, cycles: nat): (r: Result<seq<real>, Error>)
    ensures r.Ok? ==> |r.value| == |audio|
    ensures r.Ok? && (|clockTones| > 0 || cycles == 0) ==>
      forall i :: |ClockTrack(clockTones, cycles)| <= i < |audio| ==> r.value[i] == audio[i]
  {
    if audio == [] then Ok([])
    else if cycles > 0 && clockTones == [] then Err(NoClockFrequencies)
    else Ok(AddWaves(audio, FitLength(ClockTrack(clockTones, cycles), |audio|, 0.0)))
  }

  /** add_clock_signal up to its float normalisation, with the clock tones and the number of
      whole clock cycles given. */
  method AddClockSignal(audio: seq<real>, clockTones: seq<seq<real>>, cycles: nat)
    returns (r: Result<seq<real>, Error>)
    ensures r == ClockedContent(audio, clockTones, cycles)
  {
    if |audio| == 0 {
      return Ok([]);
    }
    var clockSegments: seq<seq<real>> := [];
    for i := 0 to cycles
      invariant i > 0 ==> |clockTones| > 0
      invariant clockSegments == seq(i, c requires 0 <= c < i && |clockTones| > 0 => clockTones[c % |clockTones|])
    {
      if |clockTones| == 0 {
        return Err(NoClockFrequencies);
      }
      clockSegments := clockSegments + [clockTones[i % |clockTones|]];
    }
    var clockSignal := Concat(clockSegments);
    if |clockSignal| < |audio| {
      clockSignal := clockSignal + Fill(0.0, |audio| - |clockSignal|);
    } else {
      clockSignal := clockSignal[..|audio|];
    }
    assert clockSignal == FitLength(ClockTrack(clockTones, cycles), |audio|, 0.0);
    r := Ok(AddWaves(audio, clockSignal));
  }

  /** The output has exactly the content's length; empty content gives empty output; the only
      error is clock cycles without clock frequencies. */
  lemma ClockedContentShape(audio: seq<real>, clockTones: seq<seq<real>>, cycles: nat)
    ensures audio == [] ==> ClockedContent(audio, clockTones, cycles) == Ok([])
    ensures ClockedContent(audio, clockTones, cycles).Err? <==> audio != [] && cycles > 0 && clockTones == []
    ensures ClockedContent(audio, clockTones, cycles).Ok? ==>
      |ClockedContent(audio, clockTones, cycles).value| == |audio|
  {
  }

  /** Sample `j` of clock cycle `c` is sample `j` of clock tone `c % len(freqs)` added to the
      content; past the last whole cycle the clock is zero-padded and the content passes
      through. */
  lemma ClockedContentAt(audio: seq<real>, clockTones: seq<seq<real>>, cycles: nat, segLength: nat, c: nat, j: nat)
    requires ToneMap(clockTones, segLength) && |clockTones| > 0
    requires c < cycles && j < segLength && c * segLength + j < |audio|
    ensures ClockedContent(audio, clockTones, cycles).value[c * segLength + j] ==
      audio[c * segLength + j] + clockTones[c % |clockTones|][j]
  {
    var segments := seq(cycles, i requires 0 <= i < cycles && |clockTones| > 0 => clockTones[i % |clockTones|]);
    var idx := c * segLength + j;
    var track := ClockTrack(clockTones, cycles);
    assert track == Concat(segments);
    ConcatUniform(segments, segLength, c, j);
    assert track[idx] == clockTones[c % |clockTones|][j];
    var fit := FitLength(track, |audio|, 0.0);
    assert fit[idx] == track[idx];
    assert ClockedContent(audio, clockTones, cycles) == Ok(AddWaves(audio, fit));
  }

  lemma ClockedContentPadding(audio: seq<real>, clockTones: seq<seq<real>>, cycles: nat, segLength: nat, i: nat)
    requires ToneMap(clockTones, segLength) && |clockTones| > 0
    requires cycles * segLength <= i < |audio|
    ensures ClockedContent(audio, clockTones, cycles).value[i] == audio[i]
  {
    var segments := seq(cycles, i requires 0 <= i < cycles && |clockTones| > 0 => clockTones[i % |clockTones|]);
    ConcatUniformLength(segments, segLength);
  }
}
