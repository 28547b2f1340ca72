# Binaric bit framing and sample handling, in Dafny

Binaric is an acoustic modem. It turns text or bytes into bits, then bits into tones, mixes in a clock track and writes 16-bit PCM audio. This project models the discrete part of that pipeline:

- **Text ↔ bit-chunk codec** (`binaric2/scripts/transmit.py`), module `Transmit`:
  - `string_to_bitset` and `bitset_to_string`;
  - `convert_int_data_to_bits`;
  - the validation and the segment layout of `build_content_sequence_from_bits`;
  - the clock schedule, trimming and padding of `add_clock_signal`.
- **Static encoder framing** (`binaric_test.py`), module `StaticEncoder`:
  - `string_to_bits`, `pad_bits`, `manchester_encode`;
  - symbol splitting in `encode_segment_from_bits`;
  - the clock pattern, repetition and length fixing of `generate_manchester_clock_wave`.
- **Sample store** (`binaric2/classes/AudioBuffer.py`), module `AudioBuffers`:
  - a `class AudioBuffer` whose methods append decoded int16 samples, read the latest samples and clear the buffer;
  - the last step of `build_transmission_sequence`, which stores the finished int16 track.
- **Integer mixing** (`binaric2/scripts/AudioHelper.py`), module `AudioHelper`:
  - `combine_audio`, with int32 accumulation and int16 clipping;
  - `concatenate_audio` and `clear_audio`.

Three support modules hold shared definitions:

- `Wrappers`: Option, Result and Outcome.
- `Bits`: bits, bytes, 16-bit samples, and Python's `format(n, '0<w>b')` and `int(s, 2)`.
- `Seqs`: concatenation, the maximum of a sequence, fixed-width chunking, trim-or-pad and tiling.

Where a Python call can raise, the model returns an error value. The model keeps the code's actual edge cases, not only the intended ones:

- `range(0, n, 0)` raises, and a negative `range` step gives an empty range.
- Python's `%` takes the sign of the divisor, and `'0' * n` is empty for `n <= 0`.
- `format` widens a number that does not fit the requested width.
- `max()` and `np.concatenate` raise on an empty input.
- A slice `[-0:]` returns the whole buffer.

Sine tones are floating-point values. The model treats them as opaque inputs: one `seq<real>` per frequency, all of one segment length. What is proved is where each tone goes, not what it contains.

## Model

| member | source | states |
|---|---|---|
| Bits.Format | binaric2/scripts/transmit.py:13 | `format(n, '0wb')` has max(w, bit length of n) digits and reads back as n, so a value wider than w is widened, not truncated |
| Bits.FormatFits | binaric2/scripts/transmit.py:13 | a value below 2^w, with w >= 1, is written as exactly its w low-order digits, most significant first |
| Bits.FromToBits | binaric2/scripts/transmit.py:27 | `int(s, 2)` of the w-digit binary form of n < 2^w gives n |
| Bits.ToFromBits | binaric2/scripts/transmit.py:27 | a digit sequence read as a number and written back at its own width is unchanged |
| Seqs.Chunks | binaric2/scripts/transmit.py:17 | cutting into slices of k: the slices concatenate back to the input; all but the last have length k; the last has 1..k elements; there are none iff the input is empty |
| Seqs.ChunksCount | binaric2/scripts/transmit.py:17 | a non-empty input of length n is cut into ceil(n/k) slices |
| Seqs.ChunksOfConcat | binaric2/scripts/transmit.py:25 | cutting a concatenation of k-long pieces into k-slices gives back the pieces |
| Seqs.FitLength | binaric2/scripts/transmit.py:153-157 | the result has exactly n elements: the input's first n, then the filler |
| Seqs.TileAt | binaric_test.py:65 | element j of repeat c of a tiled pattern is the pattern's element j |
| Seqs.TileLength | binaric_test.py:65 | tiling a pattern c times gives c times its length |
| Transmit.StringToBitset | binaric2/scripts/transmit.py:11-19 | a zero chunk length is an error and nothing else is; a negative one gives no chunks; a positive one gives chunks that concatenate to the text's bits, all but the last of exactly chunk_length bits and the last of 1..chunk_length |
| Transmit.BitsetToString | binaric2/scripts/transmit.py:21-27 | every character of the result is below 256, and there are ceil(n/8) of them for n bits in all |
| Transmit.CharBitsShape | binaric2/scripts/transmit.py:13 | a character below 256 becomes exactly its 8 bits, most significant first, which read back as its code; a larger code becomes more than 8 bits |
| Transmit.TextBitsAt | binaric2/scripts/transmit.py:13-14 | for a byte text, the bit array has 8 bits per character, and character i sits at bits 8i..8i+8 |
| Transmit.TextBitsLength | binaric2/scripts/transmit.py:13 | every character takes at least 8 bits, and a text with a code point above 255 takes more than 8·len bits in all |
| Transmit.StringToBitsetShape | binaric2/scripts/transmit.py:11-19 | for a byte text (every code point below 256) and a positive chunk length the chunks partition the text's bits: all but the last hold chunk_length bits, the last 1..chunk_length, there are ceil(8·len/chunk_length) of them, and an empty text gives none |
| Transmit.BitsetRoundTrip | binaric2/scripts/transmit.py:11-27 | `bitset_to_string(string_to_bitset(s, k)) == s` for every k > 0 and every s whose code points are below 256 |
| Transmit.WideCharBreaksRoundTrip | binaric2/scripts/transmit.py:13-27 | the round trip fails above 255: "Ā" is written as 9 bits, which decode to 2 characters |
| Transmit.BitsetRoundTripIff | binaric2/scripts/transmit.py:11-27 | for every k > 0 the round trip gives the text back iff all its code points are below 256; otherwise the decoded text is longer |
| Seqs.MaxOf | binaric2/scripts/transmit.py:105 | `np.max`: no datum exceeds the result, and some datum equals it |
| Transmit.ConvertIntDataToBits | binaric2/scripts/transmit.py:88-113 | on success there is one row per datum, and each row reads back as its datum |
| Transmit.ConvertIntDataErrors | binaric2/scripts/transmit.py:102-111 | the conversion succeeds iff the data are non-empty, num_freqs >= 0 and every datum lies in 0..2^num_freqs-1; for num_freqs >= 0 it reports ValueTooLarge iff some datum exceeds 2^num_freqs-1 |
| Transmit.ConvertIntDataRow | binaric2/scripts/transmit.py:109-111 | on success there is one row per datum; each row reads back as its datum and is exactly num_freqs bits, MSB first; for num_freqs == 0 it is the single digit 0 |
| Transmit.FormatRow | binaric2/scripts/transmit.py:110 | `f"{x:0{w}b}"` of a value below 2^w is exactly w digits for w >= 1, and "0" for w == 0 |
| Transmit.Segment | binaric2/scripts/transmit.py:63-72 | every segment is exactly seg_length samples long |
| Transmit.FirstTooLong | binaric2/scripts/transmit.py:58-60 | names a bitset wider than the frequency list, with no earlier bitset wider |
| Transmit.ContentSequence | binaric2/scripts/transmit.py:58-60 | a failure names the first bitset wider than the frequency list |
| Transmit.BuildContentSequenceFromBits | binaric2/scripts/transmit.py:56-82 | the loop rejects the first over-wide bitset, builds each segment by summing the active tones and dividing by their count when more than one is active, and concatenates the segments; the result equals the content track |
| Transmit.ContentSequenceShape | binaric2/scripts/transmit.py:58-80 | the content track fails iff some bitset is wider than the frequency list; otherwise its length is len(bitsets)·seg_length, and it is empty iff there are no bitsets (for seg_length > 0) |
| Transmit.ContentSequenceAt | binaric2/scripts/transmit.py:74-78 | sample j of segment k of the track is sample j of bitset k's segment |
| Transmit.SilentSegment | binaric2/scripts/transmit.py:63-69 | a bitset with no 1 bit gives seg_length zero samples |
| Transmit.SingleToneSegment | binaric2/scripts/transmit.py:63-72 | a bitset with exactly one 1 bit, at position f, gives tone f unscaled |
| Transmit.ClockedContent | binaric2/scripts/transmit.py:141-160 | the output is as long as the content, and past the end of the clock track the content passes through unchanged |
| Transmit.AddClockSignal | binaric2/scripts/transmit.py:129-160 | the loop picks clock frequency i mod len(freqs) for cycle i, concatenates the cycles, pads or trims to the content length and adds; the result equals the clocked content |
| Transmit.ClockedContentShape | binaric2/scripts/transmit.py:129-160 | empty audio gives empty output; the only error is clock cycles with no clock frequency; the output is exactly as long as the content |
| Transmit.ClockedContentAt | binaric2/scripts/transmit.py:141-160 | sample j of clock cycle c is the content sample plus sample j of clock tone c mod len(freqs) |
| Transmit.ClockedContentPadding | binaric2/scripts/transmit.py:153-160 | past the last whole clock cycle the clock is zero-padded, so the content passes through unchanged |
| StaticEncoder.StringToBits | binaric_test.py:8-9 | the string has eight characters per byte |
| StaticEncoder.StringToBitsRoundTrip | binaric_test.py:8-9 | 8 digits per byte, all of them '0' or '1'; byte i is at 8i..8i+8, MSB first; reading every 8 digits back gives the bytes |
| StaticEncoder.StringToBitsAt | binaric_test.py:9 | byte i of the input is written at digits 8i..8i+8 as its eight binary digits, most significant first |
| StaticEncoder.PyMod | binaric_test.py:13 | Python's `%`: the remainder lies in [0, b) for b > 0 and in (b, 0] for b < 0, and a equals the floor quotient a // b times b plus the remainder |
| StaticEncoder.Padded | binaric_test.py:12-16 | padding fails iff the group size is 0; otherwise the input is a prefix of the result |
| StaticEncoder.PadBits | binaric_test.py:12-16 | equals the padded bits: an error for group size 0, unchanged for a negative group size, otherwise the fewest '0's that make the length a multiple |
| StaticEncoder.PaddedShape | binaric_test.py:12-16 | for a positive group size, the padded length is a multiple of it, in [len, len+g); the input is a prefix; every added character is '0' |
| StaticEncoder.PaddedIdempotent | binaric_test.py:12-16 | padding twice gives the same as padding once |
| StaticEncoder.Manchester | binaric_test.py:19-24 | the encoding is twice as long as its input |
| StaticEncoder.ManchesterEncode | binaric_test.py:19-24 | the loop's output equals the Manchester encoding: for each bit, in order, "10" for '0' and "01" otherwise |
| StaticEncoder.ManchesterAt | binaric_test.py:19-24 | bit i becomes characters 2i and 2i+1: '1' then '0' for '0', '0' then '1' otherwise |
| StaticEncoder.ManchesterPairAt | binaric_test.py:19-24 | characters 2i..2i+2 of the encoding are the code of bit i |
| StaticEncoder.ManchesterDecodeSound | binaric_test.py:19-24 | a string that decodes to `bits` is the encoding of `bits`, and `bits` is a '0'/'1' string |
| StaticEncoder.ManchesterDecodeComplete | binaric_test.py:19-24 | the encoding of a '0'/'1' string decodes back to it |
| StaticEncoder.ManchesterRoundTrip | binaric_test.py:19-24 | a string decodes to `bits` iff `bits` is a '0'/'1' string and the string is its encoding |
| StaticEncoder.SegmentSymbols | binaric_test.py:37-41 | the symbols concatenate to the padded bits; the error is ZeroDivision iff there are no frequencies |
| StaticEncoder.SegmentSymbolsShape | binaric_test.py:37-42 | there are symbols iff there are frequencies and bits; every symbol has len(freqs) characters; together they are the padded bits; there are ceil(len/len(freqs)) of them |
| StaticEncoder.ClockSchedule | binaric_test.py:51-52 | "1010101010" encodes to the 20 half-periods "01100110011001100110" |
| StaticEncoder.GenerateManchesterClockWave | binaric_test.py:45-74 | the loop picks clock_freqs[0] for '1' and clock_freqs[1] otherwise, with fewer than two frequencies an error; then it tiles and trims or pads; the result equals the clock track |
| StaticEncoder.ManchesterClockWave | binaric_test.py:45-74 | the track fails iff there are fewer than two clock frequencies, and otherwise has exactly total_samples samples |
| StaticEncoder.ClockPatternAt | binaric_test.py:51-61 | the pattern holds 20 half-periods; half-period k is the tone of clock_freqs[0] when encoded bit k is '1', else of clock_freqs[1] |
| StaticEncoder.ManchesterClockWaveShape | binaric_test.py:63-72 | the track has exactly total_samples samples; repeat c carries the pattern while it fits |
| StaticEncoder.ManchesterClockWavePadding | binaric_test.py:63-72 | samples after the last whole repeat of the pattern are 0 |
| AudioHelper.WrapAdd | binaric2/scripts/AudioHelper.py:81-84 | wrapping the int32 accumulator after every addition equals wrapping the exact sum once |
| AudioHelper.MaxLength | binaric2/scripts/AudioHelper.py:80 | `max(len(w))`: no input is longer, and some input has that length |
| AudioHelper.AddInto | binaric2/scripts/AudioHelper.py:84 | `combined[:len(wave)] += wave` on the int32 array: each of the first len(wave) entries gains its sample, with int32 wrap-around; the other entries are unchanged |
| AudioHelper.Combined | binaric2/scripts/AudioHelper.py:70-87 | mixing fails iff there is no input; no input is longer than the mix |
| AudioHelper.CombineAudio | binaric2/scripts/AudioHelper.py:70-87 | the in-place int32 loop over a zeroed accumulator, then the clip, gives the mix: max-length output, sample i the clipped int32 sum of the inputs longer than i; no inputs is an error |
| AudioHelper.CombinedShape | binaric2/scripts/AudioHelper.py:80-81 | mixing fails iff there is no input; the output is exactly as long as the longest input |
| AudioHelper.CombinedExact | binaric2/scripts/AudioHelper.py:81-87 | with at most 65536 int16 inputs the accumulator never overflows: sample i is clamp(Σ w[i], -32768, 32767) over the inputs longer than i |
| AudioHelper.CombineSingle | binaric2/scripts/AudioHelper.py:80-87 | mixing a single int16 waveform returns it unchanged |
| AudioHelper.CombineSwap | binaric2/scripts/AudioHelper.py:83-84 | the mix of two waveforms does not depend on their order |
| AudioHelper.CombineZeroPadded | binaric2/scripts/AudioHelper.py:81-84 | zero-padding an input, up to the longest length, does not change the mix: a shorter input contributes nothing past its end |
| AudioHelper.ConcatenateAudio | binaric2/scripts/AudioHelper.py:190-200 | concatenation fails iff there is no input; the output length is the sum of the input lengths |
| AudioHelper.ConcatenateAudioShape | binaric2/scripts/AudioHelper.py:189-200 | the output length is the sum of the input lengths; input k occupies the samples right after inputs 0..k-1 |
| AudioHelper.ClearAudio | binaric2/scripts/AudioHelper.py:142-149 | the cleared waveform holds no samples |
| AudioHelper.ClearAudioIdentity | binaric2/scripts/AudioHelper.py:141-149 | the cleared waveform is empty; it is the identity of concatenation on both sides; mixing it with w gives w |
| AudioBuffers.DecodeSample | binaric2/classes/AudioBuffer.py:64 | a little-endian byte pair as int16: negative iff the high byte is >= 128, and congruent to lo + 256·hi modulo 65536 |
| AudioBuffers.DecodeInt16 | binaric2/classes/AudioBuffer.py:64 | `np.frombuffer(chunk, int16)`: half as many samples as bytes; sample i is bytes 2i and 2i+1 |
| AudioBuffers.EncodeInt16 | binaric2/scripts/transmit.py:201 | `tobytes()`: two bytes per sample, low byte first |
| AudioBuffers.SampleRoundTrip | binaric2/classes/AudioBuffer.py:64 | splitting a sample into bytes and decoding them gives the sample back |
| AudioBuffers.BytePairRoundTrip | binaric2/classes/AudioBuffer.py:64 | decoding a byte pair and splitting the sample gives the bytes back |
| AudioBuffers.DecodeEncode | binaric2/scripts/transmit.py:201 | samples written with `tobytes` read back unchanged with `frombuffer` |
| AudioBuffers.EncodeDecode | binaric2/classes/AudioBuffer.py:64 | every even-length byte string is the `tobytes` of the samples it decodes to |
| AudioBuffers.SliceFrom | binaric2/classes/AudioBuffer.py:79 | Python's `s[start:]`: a negative start counts from the end and is clamped at 0; a start past the end gives nothing |
| AudioBuffers.LatestAfterAppend | binaric2/classes/AudioBuffer.py:64-79 | after appending at least k > 0 samples, the last k samples of the buffer are the last k samples appended |
| AudioBuffers.AudioBuffer.constructor | binaric2/classes/AudioBuffer.py:51-55 | a new buffer is empty and keeps the given rate and channel count, 44100 and 1 by default |
| AudioBuffers.AudioBuffer.AppendChunk | binaric2/classes/AudioBuffer.py:57-65 | an odd-length chunk fails and leaves the buffer unchanged; otherwise the old samples stay as a prefix, the decoded samples follow, and the length grows by len(chunk)/2; rate and channels are unchanged |
| AudioBuffers.AudioBuffer.GetLatestChunk | binaric2/classes/AudioBuffer.py:67-79 | None iff fewer than chunk_size samples are held; otherwise exactly the last chunk_size samples, the whole buffer for 0, and the buffer without its first -chunk_size samples for a negative size; nothing changes |
| AudioBuffers.AudioBuffer.Clear | binaric2/classes/AudioBuffer.py:106-110 | the buffer is empty; rate and channels are unchanged |
| AudioBuffers.StoreTransmission | binaric2/scripts/transmit.py:177-202 | a fresh default buffer (44100 Hz, mono), after the int16 track is appended as bytes, holds exactly that track |

## Left out

- Sine, square and noise generation, `normalize_audio`, the fades and `generate_symbol_wave` (binaric2/scripts/AudioHelper.py:17-139, binaric_test.py:27-34). These are floating-point numerics, and noise is random. Tones enter the model as opaque `seq<real>` inputs, and float32 rounding is not modelled.
- Transmit.AddClockSignal: stops before the final normalisation, the 0.9 scaling and the int16 cast (binaric2/scripts/transmit.py:162-170). Those are floating-point steps on the mixed track.
- Transmit.BuildContentSequenceFromBits: `seg_length` is a parameter, because it comes from `int(1/clock_speed * sample_rate)` in floating point. A `clock_speed` of 0 raises ZeroDivisionError there, even for an empty bitset list (binaric2/scripts/transmit.py:45); the model has no clock speed and returns Ok in that case. A negative `clock_speed` gives a negative `seg_length`, and `np.linspace` in `create_sine_wave` (binaric2/scripts/AudioHelper.py:30, reached from binaric2/scripts/transmit.py:52) or `np.zeros(seg_length)` (binaric2/scripts/transmit.py:63) raises; a `nat` segment length cannot express this.
- Transmit.AddClockSignal: the cycle count is a parameter, because it comes from `floor(len/sample_rate * clock_speed)` in floating point; a negative clock speed is therefore not modelled. For non-empty audio, a `clock_speed` of 0 raises ZeroDivisionError at `1.0 / clock_speed` (binaric2/scripts/transmit.py:138); the model returns Ok in that case.
- StaticEncoder.GenerateManchesterClockWave: the samples per half-period, the repeat count and the total sample count are parameters, because they come from float products. A `clock_speed` of 0 raises ZeroDivisionError at `1.0 / clock_speed` (binaric_test.py:47); the model returns Ok there for two or more clock frequencies. A negative `clock_speed` gives a negative sample count, and `np.linspace` raises (binaric_test.py:58); the `nat` parameters cannot express this.
- StaticEncoder.StringToBitsRoundTrip: takes the UTF-8 bytes of the string as input. The UTF-8 encoding itself (RFC 3629) is not modelled.
- Transmit.BitsetRoundTrip: a Dafny `char` cannot hold a lone surrogate code point, which a Python `str` can. Such characters are above 255 anyway and fall outside the round trip.
- AudioBuffers.AudioBuffer: the sample type is fixed to the default `dtype`, int16, in native byte order, which is modelled as little-endian (binaric2/classes/AudioBuffer.py:51,64; binaric2/scripts/transmit.py:201). Other dtypes, big-endian hosts and the `dtype` field itself are not modelled.
- AudioBuffers.AudioBuffer.GetLatestChunk: returns the samples as a value. In the code the result is a NumPy view that shares memory with the buffer (binaric2/classes/AudioBuffer.py:79); that aliasing is not modelled.
- AudioHelper.CombineAudio: the inputs are int16 waveforms. NumPy also accepts other integer arrays, which can hold values outside the int16 range (binaric2/scripts/AudioHelper.py:84).
- AudioHelper.ConcatenateAudio: the inputs are int16 waveforms. NumPy would also join arrays of other dtypes, promoting the result type (binaric2/scripts/AudioHelper.py:190-200).
- `save_to_wav`, `load_from_wav`, `AudioHelper.save_wav`, `write_wav`, `read_wav`, `encode_binaric_file_to_wav` and the JSON configuration load (binaric2/scripts/transmit.py:8-9). These are file I/O.
- `trim_audio`: it converts float seconds to sample indices.
- `build_transmission_sequence`: only its last step is modelled, as StoreTransmission. The steps before it are the modelled string_to_bitset, content and clock functions, chained with float parameters from the configuration.
- The decoding and spectrogram scripts. They are numeric signal analysis over recorded audio.
- `binaric/core/data_struct.py`. Besides dataclass fields and `NegotiationPackage.to_dict`, it holds a SHA-256 checksum over `json.dumps` (a foreign library call) and a `to_wav` stub that writes the header JSON, the payload and the footer JSON to a file (file I/O).
- `binaric/core/binaric_file.py`, `binaric/scripts/stream_node.py` and `binaric/scripts/downloader.py`. Apart from constructors that store their arguments, every method is `pass`.
- Negotiation, sessions, ARQ, CRC and block codes. No code for them exists in the repository.
