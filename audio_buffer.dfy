/** The streaming sample store of binaric2/classes/AudioBuffer.py, with its default int16
    sample type: raw bytes are read as two's-complement 16-bit samples in native byte order,
    modelled here as little-endian. */
module AudioBuffers {
  import opened Wrappers
  import opened Bits

  /** The exception `np.frombuffer` raises for a byte string that is not a whole number of
      int16 samples. */
  datatype Error = BufferSizeNotMultiple

  /** One sample from its low and high byte (little-endian), read as two's complement. */
  function DecodeSample(lo: Byte, hi: Byte): (s: Int16)
    ensures s >= 0 <==> hi < 128
    ensures (s + 65536) % 65536 == lo + 256 * hi
  {
    var u := lo + 256 * hi;
    if u >= 32768 then u - 65536 else u
  }

  /** The low byte of a sample's two's-complement form. */
  function LowByte(s: Int16): Byte
  {
    ((s + 65536) % 65536) % 256
  }

  /** The high byte of a sample's two's-complement form. */
  function HighByte(s: Int16): Byte
  {
    ((s + 65536) % 65536) / 256
  }

  /** `np.frombuffer(chunk, dtype=np.int16)`: byte pairs, in order, as samples. */
  function DecodeInt16(chunk: seq<Byte>): (r: seq<Int16>)
    requires |chunk| % 2 == 0
    ensures 2 * |r| == |chunk|
    ensures forall i :: 0 <= i < |r| ==> r[i] == DecodeSample(chunk[2 * i], chunk[2 * i + 1])
  {
    seq(|chunk| / 2, i requires 0 <= i < |chunk| / 2 => DecodeSample(chunk[2 * i], chunk[2 * i + 1]))
  }

  /** `ndarray.tobytes()` on an int16 array: every sample as its low byte, then its high byte. */
  function EncodeInt16(samples: seq<Int16>): (r: seq<Byte>)
    ensures |r| == 2 * |samples|
    ensures forall i :: 0 <= i < |samples| ==> r[2 * i] == LowByte(samples[i]) && r[2 * i + 1] == HighByte(samples[i])
  {
    seq(2 * |samples|, j requires 0 <= j < 2 * |samples| =>
      if j % 2 == 0 then LowByte(samples[j / 2]) else HighByte(samples[j / 2]))
  }

  /** A sample survives being split into bytes and read back. */
  lemma SampleRoundTrip(s: Int16)
    ensures DecodeSample(LowByte(s), HighByte(s)) == s
  {
    var u := (s + 65536) % 65536;
    assert u == LowByte(s) + 256 * HighByte(s);
    if s < 0 {
      assert u == s + 65536;
    } else {
      assert u == s;
    }
  }

  /** A byte pair survives being read as a sample and split again. */
  lemma BytePairRoundTrip(lo: Byte, hi: Byte)
    ensures LowByte(DecodeSample(lo, hi)) == lo && HighByte(DecodeSample(lo, hi)) == hi
  {
    var s: int := DecodeSample(lo, hi);
    assert (s + 65536) % 65536 == lo + 256 * hi;
    assert (lo + 256 * hi) / 256 == hi && (lo + 256 * hi) % 256 == lo;
  }

  /** Samples written with `tobytes` read back unchanged with `frombuffer`. */
  lemma DecodeEncode(samples: seq<Int16>)
    ensures DecodeInt16(EncodeInt16(samples)) == samples
  {
    var r := DecodeInt16(EncodeInt16(samples));
    forall i | 0 <= i < |samples| ensures r[i] == samples[i] {
      SampleRoundTrip(samples[i]);
    }
  }

  /** Every even-length byte string is the `tobytes` of the samples it decodes to. */
  lemma EncodeDecode(chunk: seq<Byte>)
    requires |chunk| % 2 == 0
    ensures EncodeInt16(DecodeInt16(chunk)) == chunk
  {
    var d := DecodeInt16(chunk);
    var r := EncodeInt16(d);
    forall i | 0 <= i < |d| ensures r[2 * i] == chunk[2 * i] && r[2 * i + 1] == chunk[2 * i + 1] {
      BytePairRoundTrip(chunk[2 * i], chunk[2 * i + 1]);
    }
    forall j | 0 <= j < |chunk| ensures r[j] == chunk[j] {
      var i := j / 2;
      assert j == 2 * i || j == 2 * i + 1;
    }
  }

  /** Python's `s[start:]`: a negative start counts from the end and is clamped at the
      front, a start past the end leaves nothing. */
  function SliceFrom<T>(s: seq<T>, start: int): (r: seq<T>)
    ensures start >= 0 ==> r == s[if start <= |s| then start else |s|..]
    ensures start < 0 ==> r == s[if -start <= |s| then |s| + start else 0..]
  {
    if start < 0 then
      (if |s| + start >= 0 then s[|s| + start..] else s)
    else
      (if start <= |s| then s[start..] else [])
  }

  /** After appending at least `k > 0` samples, the last `k` samples of the buffer are the
      last `k` samples appended. */
  lemma LatestAfterAppend(before: seq<Int16>, added: seq<Int16>, k: int)
    requires 0 < k <= |added|
    ensures SliceFrom(before + added, -k) == added[|added| - k..]
  {
    var all := before + added;
    var r := SliceFrom(all, -k);
    assert r == all[|all| - k..];
    forall i | 0 <= i < k ensures r[i] == added[|added| - k + i] {
      assert r[i] == all[|all| - k + i];
    }
  }

  /** A buffer of int16 audio samples with its sample rate and channel count. */
  class AudioBuffer {
    var sampleRate: int
    var channels: int
    var buffer: seq<Int16>

    /** A new buffer holds no samples; the rate and channel count are the arguments,
        44100 Hz mono by default. */
    constructor (sampleRate: int := 44100, channels: int := 1)
      ensures this.sampleRate == sampleRate && this.channels == channels
      ensures buffer == []
    {
      this.sampleRate := sampleRate;
      this.channels := channels;
      buffer := [];
    }

    /** append_chunk: the decoded samples of `chunk` follow the old ones. A chunk of odd
        length is rejected and leaves the buffer as it was. */
    method AppendChunk(chunk: seq<Byte>) returns (r: Outcome<Error>)
      modifies this
      ensures sampleRate == old(sampleRate) && channels == old(channels)
      ensures r.Fail? <==> |chunk| % 2 != 0
      ensures r.Fail? ==> buffer == old(buffer)
      ensures r.Pass? ==> buffer == old(buffer) + DecodeInt16(chunk)
      ensures r.Pass? ==> 2 * |buffer| == 2 * |old(buffer)| + |chunk|
    {
      if |chunk| % 2 != 0 {
        return Fail(BufferSizeNotMultiple);
      }
      buffer := buffer + DecodeInt16(chunk);
      r := Pass;
    }

    /** get_latest_chunk: nothing when fewer than `chunkSize` samples are held; otherwise
        `buffer[-chunkSize:]`, which is the last `chunkSize` samples for a positive size, the
        whole buffer for size 0, and the buffer without its first `-chunkSize` samples for a
        negative size. The buffer is not changed. */
    method GetLatestChunk(chunkSize: int := 1024) returns (r: Option<seq<Int16>>)
      ensures r.None? <==> |buffer| < chunkSize
      ensures r.Some? && chunkSize > 0 ==>
        |r.value| == chunkSize && buffer == buffer[..|buffer| - chunkSize] + r.value
      ensures chunkSize == 0 ==> r == Some(buffer)
      ensures chunkSize < 0 ==>
        r == Some(if -chunkSize <= |buffer| then buffer[-chunkSize..] else [])
    {
      if |buffer| < chunkSize {
        return None;
      }
      r := Some(SliceFrom(buffer, -chunkSize));
    }

    /** clear: the buffer holds no samples; the rate and channel count stay. */
    method Clear()
      modifies this
      ensures buffer == []
      ensures sampleRate == old(sampleRate) && channels == old(channels)
    {
      buffer := [];
    }
  }

  /** The last step of build_transmission_sequence: a fresh default buffer, into which the
      finished int16 transmission is appended as bytes. The buffer then holds exactly the
      transmission. */
  method StoreTransmission(samples: seq<Int16>) returns (audio: AudioBuffer)
    ensures fresh(audio)
    ensures audio.sampleRate == 44100 && audio.channels == 1
    ensures audio.buffer == samples
  {
    audio := new AudioBuffer();
    var bytes := EncodeInt16(samples);
    var outcome := audio.AppendChunk(bytes);
    DecodeEncode(samples);
  }
}
