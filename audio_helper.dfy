/** The integer waveform helpers of binaric2/scripts/AudioHelper.py: mixing with int32
    accumulation and int16 clipping, concatenation, and the empty waveform. */
module AudioHelper {
  import opened Wrappers
  import opened Bits
  import opened Seqs

  /** The exceptions the helpers raise. */
  datatype Error =
    | EmptyMaxArgument      // `max()` of no waveform lengths in combine_audio
    | NothingToConcatenate  // `np.concatenate(())` in concatenate_audio

  /** `np.clip(x, -32768, 32767)`. */
  function Clip16(x: int): Int16
  {
    if x < -32768 then -32768 else if x > 32767 then 32767 else x
  }

  /** The value an int32 holds after two's-complement wrap-around. */
  function Wrap32(x: int): int
  {
    (x + 0x8000_0000) % 0x1_0000_0000 - 0x8000_0000
  }

  /** Wrapping after every addition gives the same int32 as wrapping once at the end. */
  lemma WrapAdd(a: int, b: int)
    ensures Wrap32(Wrap32(a) + b) == Wrap32(a + b)
  {
    var m := 0x1_0000_0000;
    var x := a + 0x8000_0000;
    assert Wrap32(a) + b + 0x8000_0000 == x % m + b;
    assert x == (x / m) * m + x % m;
    assert a + b + 0x8000_0000 == (x % m + b) + (x / m) * m;
    ModShift(x % m + b, x / m);
  }

  lemma ModShift(y: int, q: int)
    ensures (y + q * 0x1_0000_0000) % 0x1_0000_0000 == y % 0x1_0000_0000
  {
    var m := 0x1_0000_0000;
    var z := y + q * m;
    assert z == (y / m + q) * m + y % m;
    assert 0 <= y % m < m;
    // Euclidean division by the positive constant m is unique
    assert z / m == y / m + q && z % m == y % m;
  }

  /** An int32 value within range is unchanged by wrap-around. */
  lemma WrapInRange(x: int)
    requires -0x8000_0000 <= x < 0x8000_0000
    ensures Wrap32(x) == x
  {
  }

  /** Adding input `k` to the first `k` inputs adds its sample `i`, or nothing past its end. */
  lemma SumAtStep(ws: seq<seq<Int16>>, k: nat, i: nat)
    requires k < |ws|
    ensures SumAt(ws[..k + 1], i) == SumAt(ws[..k], i) + (if i < |ws[k]| then ws[k][i] else 0)
  {
    assert ws[..k + 1][..k] == ws[..k];
  }

  /** `max(len(w) for w in waveforms)`. */
  function MaxLength(ws: seq<seq<Int16>>): (m: nat)
    requires |ws| > 0
    ensures forall k :: 0 <= k < |ws| ==> |ws[k]| <= m
    ensures exists k :: 0 <= k < |ws| && |ws[k]| == m
  {
    var lengths := seq(|ws|, k requires 0 <= k < |ws| => |ws[k]|);
    assert forall k :: 0 <= k < |ws| ==> lengths[k] == |ws[k]|;
    MaxOf(lengths)
  }

  /** Sample `i` of the exact sum: the waveforms longer than `i` contribute their sample `i`,
      the shorter ones (zero-padded) nothing. */
  function SumAt(ws: seq<seq<Int16>>, i: nat): int
  {
    if ws == [] then 0
    else
      var last := ws[|ws| - 1];
      SumAt(ws[..|ws| - 1], i) + (if i < |last| then last[i] else 0)
  }

  /** The mix combine_audio returns: as long as the longest input, sample `i` the int32 sum of
      the inputs' samples `i`, clipped to the int16 range. No input has no maximum length. */
  function Combined(ws: seq<seq<Int16>>): (r: Result<seq<Int16>, Error>)
    ensures r.Err? <==> ws == []
    ensures r.Ok? ==> forall k :: 0 <= k < |ws| ==> |ws[k]| <= |r.value|
  {
    if ws == [] then Err(EmptyMaxArgument)
    else Ok(seq(MaxLength(ws), i requires 0 <= i < MaxLength(ws) => Clip16(Wrap32(SumAt(ws, i)))))
  }

  /** `acc[:len(wave)] += wave` on an int32 array: each of the first `len(wave)` entries gains
      the matching sample, with wrap-around; the rest are untouched. */
  method AddInto(acc: array<int>, wave: seq<Int16>)
    requires |wave| <= acc.Length
    modifies acc
    ensures forall j :: 0 <= j < |wave| ==> acc[j] == Wrap32(old(acc[j]) + wave[j])
    ensures forall j :: |wave| <= j < acc.Length ==> acc[j] == old(acc[j])
  {
    for j := 0 to |wave|
      invariant forall j' :: 0 <= j' < j ==> acc[j'] == Wrap32(old(acc[j']) + wave[j'])
      invariant forall j' :: j <= j' < acc.Length ==> acc[j'] == old(acc[j'])
    {
      acc[j] := Wrap32(acc[j] + wave[j]);
    }
  }

  /** combine_audio: a zeroed int32 array, each waveform added in place over its own length,
      then clipped to int16. */
  method CombineAudio(waveforms: seq<seq<Int16>>) returns (r: Result<seq<Int16>, Error>)
    ensures r == Combined(waveforms)
  {
    if |waveforms| == 0 {
      return Err(EmptyMaxArgument);
    }
    var maxLength := MaxLength(waveforms);
    var combined := new int[maxLength](_ => 0);
    for k := 0 to |waveforms|
      invariant forall j :: 0 <= j < maxLength ==> combined[j] == Wrap32(SumAt(waveforms[..k], j))
    {
      AddInto(combined, waveforms[k]);
      forall j | 0 <= j < maxLength ensures combined[j] == Wrap32(SumAt(waveforms[..k + 1], j)) {
        SumAtStep(waveforms, k, j);
        if j < |waveforms[k]| {
          WrapAdd(SumAt(waveforms[..k], j), waveforms[k][j]);
        }
      }
    }
    assert waveforms[..|waveforms|] == waveforms;
    var out := seq(maxLength, i requires 0 <= i < maxLength reads combined => Clip16(combined[i]));
    assert forall i :: 0 <= i < maxLength ==> out[i] == Clip16(Wrap32(SumAt(waveforms, i)));
    assert out == Combined(waveforms).value;
    r := Ok(out);
  }

  /** Two input lists with the same longest length and the same sums mix to the same output. */
  lemma CombinedEqual(ws: seq<seq<Int16>>, vs: seq<seq<Int16>>)
    requires ws != [] && vs != [] && MaxLength(ws) == MaxLength(vs)
    requires forall i :: 0 <= i < MaxLength(ws) ==> SumAt(ws, i) == SumAt(vs, i)
    ensures Combined(ws) == Combined(vs)
  {
    var a, b := Combined(ws).value, Combined(vs).value;
    assert |a| == |b|;
    forall i | 0 <= i < |a| ensures a[i] == b[i] {
    }
    assert a == b;
  }

  /** Mixing fails exactly when there is no input; otherwise the output is as long as the
      longest input, and every sample is the clipped int32 sum. */
  lemma CombinedShape(ws: seq<seq<Int16>>)
    ensures Combined(ws).Err? <==> ws == []
    ensures ws != [] ==> |Combined(ws).value| == MaxLength(ws)
    ensures ws != [] ==> forall k :: 0 <= k < |ws| ==> |ws[k]| <= |Combined(ws).value|
  {
  }

  lemma {:induction false} SumAtBounds(ws: seq<seq<Int16>>, i: nat)
    ensures -32768 * |ws| <= SumAt(ws, i) <= 32767 * |ws|
  {
    if ws != [] {
      SumAtBounds(ws[..|ws| - 1], i);
    }
  }

  /** Up to 65536 int16 inputs never overflow the int32 accumulator, so each output sample is
      the exact sum of the inputs' samples clipped to [-32768, 32767]. */
  lemma CombinedExact(ws: seq<seq<Int16>>, i: nat)
    requires 0 < |ws| <= 65536 && i < MaxLength(ws)
    ensures Combined(ws).value[i] == Clip16(SumAt(ws, i))
  {
    SumAtBounds(ws, i);
    WrapInRange(SumAt(ws, i));
  }

  /** Mixing one in-range waveform returns it unchanged. */
  lemma CombineSingle(w: seq<Int16>)
    ensures Combined([w]) == Ok(w)
  {
    assert MaxLength([w]) == |w|;
    var c := Combined([w]).value;
    forall i | 0 <= i < |w| ensures c[i] == w[i] {
      assert [w][..0] == [];
      assert SumAt([w], i) == SumAt([], i) + w[i];
      WrapInRange(w[i]);
    }
    assert c == w;
  }

  /** Mixing is independent of the order of two inputs. */
  lemma CombineSwap(a: seq<Int16>, b: seq<Int16>)
    ensures Combined([a, b]) == Combined([b, a])
  {
    assert [a, b][..1] == [a] && [b, a][..1] == [b];
    assert [a][..0] == [] && [b][..0] == [];
    assert MaxLength([a, b]) == MaxLength([b, a]) by {
      var m, m' := MaxLength([a, b]), MaxLength([b, a]);
      assert m >= |a| && m >= |b| && (m == |a| || m == |b|);
      assert m' >= |a| && m' >= |b| && (m' == |a| || m' == |b|);
    }
    forall i: nat ensures SumAt([a, b], i) == SumAt([b, a], i) {
      assert SumAt([a], i) == SumAt([], i) + (if i < |a| then a[i] else 0);
      assert SumAt([b], i) == SumAt([], i) + (if i < |b| then b[i] else 0);
    }
    CombinedEqual([a, b], [b, a]);
  }

  lemma {:induction false} SumAtPadded(ws: seq<seq<Int16>>, k: nat, n: nat, i: nat)
    requires k < |ws|
    ensures SumAt(ws[k := ws[k] + Fill(0, n)], i) == SumAt(ws, i)
  {
    var ws' := ws[k := ws[k] + Fill(0, n)];
    var last := |ws| - 1;
    if k < last {
      assert ws'[..last] == ws[..last][k := ws[k] + Fill(0, n)];
      SumAtPadded(ws[..last], k, n, i);
    } else {
      assert ws'[..last] == ws[..last];
    }
  }

  /** Zero-padding an input that still fits within the longest one does not change the mix:
      a shorter input contributes nothing past its end. */
  lemma CombineZeroPadded(ws: seq<seq<Int16>>, k: nat, n: nat)
    requires k < |ws| && |ws[k]| + n <= MaxLength(ws)
    ensures Combined(ws[k := ws[k] + Fill(0, n)]) == Combined(ws)
  {
    var ws' := ws[k := ws[k] + Fill(0, n)];
    var j :| 0 <= j < |ws| && |ws[j]| == MaxLength(ws);
    if j != k {
      assert ws'[j] == ws[j];
    }
    assert MaxLength(ws') == MaxLength(ws) by {
      var m' := MaxLength(ws');
      var j' :| 0 <= j' < |ws'| && |ws'[j']| == m';
      assert m' >= |ws'[j]|;
    }
    forall i | 0 <= i < MaxLength(ws) ensures SumAt(ws', i) == SumAt(ws, i) {
      SumAtPadded(ws, k, n, i);
    }
    CombinedEqual(ws', ws);
  }

  /** concatenate_audio: the inputs one after another; no input leaves nothing to join. */
  function ConcatenateAudio(ws: seq<seq<Int16>>): (r: Result<seq<Int16>, Error>)
    ensures r.Err? <==> ws == []
    ensures r.Ok? ==> |r.value| == TotalLength(ws)
  {
    if ws == [] then Err(NothingToConcatenate)
    else
      ConcatLength(ws);
      Ok(Concat(ws))
  }

  /** The output length is the sum of the input lengths, and input `k` occupies the samples
      right after inputs 0..k-1, in argument order. */
  lemma ConcatenateAudioShape(ws: seq<seq<Int16>>, k: nat)
    requires k < |ws|
    ensures |ConcatenateAudio(ws).value| == TotalLength(ws)
    ensures var start := TotalLength(ws[..k]);
      start + |ws[k]| <= |ConcatenateAudio(ws).value| &&
      ConcatenateAudio(ws).value[start .. start + |ws[k]|] == ws[k]
  {
    ConcatLength(ws);
    assert ws == ws[..k] + ([ws[k]] + ws[k + 1..]);
    ConcatSplit(ws[..k], [ws[k]] + ws[k + 1..]);
    ConcatSplit([ws[k]], ws[k + 1..]);
    assert Concat([ws[k]]) == ws[k] + Concat([ws[k]][1..]);
    ConcatLength(ws[..k]);
  }

  /** clear_audio: an empty int16 waveform. */
  function ClearAudio(): (r: seq<Int16>)
    ensures |r| == 0
  {
    []
  }

  /** The cleared waveform is empty, is the identity of concatenation on either side, and adds
      silence when mixed with a waveform. */
  lemma ClearAudioIdentity(w: seq<Int16>)
    ensures |ClearAudio()| == 0
    ensures ConcatenateAudio([ClearAudio(), w]) == Ok(w)
    ensures ConcatenateAudio([w, ClearAudio()]) == Ok(w)
    ensures Combined([w, ClearAudio()]) == Ok(w)
  {
    var e: seq<Int16> := ClearAudio();
    assert [w][1..] == [] && [e][1..] == [];
    assert [e, w][1..] == [w] && [w, e][1..] == [e];
    assert Concat([w]) == w + Concat([w][1..]);
    assert Concat([e]) == e + Concat([e][1..]);
    assert Concat([e, w]) == e + Concat([w]);
    assert Concat([w, e]) == w + Concat([e]);
    assert Concat([w]) == w && Concat([e, w]) == w && Concat([w, e]) == w;
    CombineSingle(w);
    assert [w, e][..1] == [w];
    assert MaxLength([w, e]) == MaxLength([w]) by {
      assert MaxLength([w, e]) >= |w|;
    }
    forall i: nat ensures SumAt([w, e], i) == SumAt([w], i) {
    }
    CombinedEqual([w, e], [w]);
  }
}
