/** The sequence shapes the numpy and list code relies on: concatenation (`np.concatenate`,
    `''.join`), fixed-width slicing (`s[i:i+k] for i in range(0, len(s), k)`), trimming or
    zero-padding to a length (`s[:n]` / `np.pad`), and repetition (`np.tile`, `c * n`). */
module Seqs {

  /** `n` copies of `x`. */
  function Fill<T>(x: T, n: nat): (r: seq<T>)
    ensures |r| == n
    ensures forall i :: 0 <= i < n ==> r[i] == x
  {
    if n == 0 then [] else Fill(x, n - 1) + [x]
  }

  /** The pieces one after another. */
  function Concat<T>(ss: seq<seq<T>>): seq<T>
  {
    if ss == [] then [] else ss[0] + Concat(ss[1..])
  }

  /** Sum of the lengths of the pieces. */
  function TotalLength<T>(ss: seq<seq<T>>): nat
  {
    if ss == [] then 0 else |ss[0]| + TotalLength(ss[1..])
  }

  lemma {:induction false} ConcatLength<T>(ss: seq<seq<T>>)
    ensures |Concat(ss)| == TotalLength(ss)
  {
    if ss != [] {
      ConcatLength(ss[1..]);
    }
  }

  /** Concatenation distributes over joining the list of pieces. */
  lemma {:induction false} ConcatSplit<T>(a: seq<seq<T>>, b: seq<seq<T>>)
    ensures Concat(a + b) == Concat(a) + Concat(b)
    ensures TotalLength(a + b) == TotalLength(a) + TotalLength(b)
  {
    if a == [] {
      assert a + b == b;
    } else {
      assert (a + b)[1..] == a[1..] + b;
      ConcatSplit(a[1..], b);
    }
  }

  /** Appending one piece to the list appends its elements. */
  lemma ConcatAppend<T>(ss: seq<seq<T>>, x: seq<T>)
    ensures Concat(ss + [x]) == Concat(ss) + x
  {
    ConcatSplit(ss, [x]);
    assert Concat([x]) == x + Concat([x][1..]);
  }

  /** When every piece has length `len`, there are |ss|*len elements and element `j` of
      piece `k` sits at position k*len + j. */
  lemma {:induction false} ConcatUniform<T>(ss: seq<seq<T>>, len: nat, k: nat, j: nat)
    requires forall i :: 0 <= i < |ss| ==> |ss[i]| == len
    requires k < |ss| && j < len
    ensures |Concat(ss)| == |ss| * len
    ensures k * len + j < |Concat(ss)| && Concat(ss)[k * len + j] == ss[k][j]
  {
    ConcatUniformLength(ss, len);
    if k > 0 {
      var rest := Concat(ss[1..]);
      ConcatUniform(ss[1..], len, k - 1, j);
      var x := (k - 1) * len + j;
      assert k * len + j == len + x;
      assert Concat(ss) == ss[0] + rest;
      assert Concat(ss)[len + x] == rest[x];
    }
  }

  lemma {:induction false} ConcatUniformLength<T>(ss: seq<seq<T>>, len: nat)
    requires forall i :: 0 <= i < |ss| ==> |ss[i]| == len
    ensures |Concat(ss)| == |ss| * len
  {
    if ss != [] {
      ConcatUniformLength(ss[1..], len);
    }
  }

  /** The largest element of a non-empty sequence (`max`, `np.max`). */
  function MaxOf(data: seq<int>): (m: int)
    requires |data| > 0
    ensures forall i :: 0 <= i < |data| ==> data[i] <= m
    ensures exists i :: 0 <= i < |data| && data[i] == m
  {
    if |data| == 1 then data[0]
    else
      var m := MaxOf(data[1..]);
      assert data[1..][0] == data[1];
      if data[0] >= m then data[0] else m
  }

  /** `[s[i:i+k] for i in range(0, len(s), k)]` with `k > 0`: consecutive slices of `k`
      elements, the last one possibly shorter. */
  function Chunks<T>(s: seq<T>, k: nat): (r: seq<seq<T>>)
    requires k > 0
    ensures Concat(r) == s
    ensures forall i :: 0 <= i < |r| - 1 ==> |r[i]| == k
    ensures |r| > 0 ==> 0 < |r[|r| - 1]| <= k
    ensures r == [] <==> s == []
    decreases |s|
  {
    if s == [] then []
    else if |s| <= k then [s]
    else
      var rest := Chunks(s[k..], k);
      assert s == s[..k] + s[k..];
      [s[..k]] + rest
  }

  lemma MulStep(n: int, k: int)
    ensures (n + 1) * k == n * k + k && (n - 1) * k == n * k - k
  {
  }

  /** A non-empty sequence is cut into ceil(|s| / k) slices. */
  lemma {:induction false} ChunksCount<T>(s: seq<T>, k: nat)
    requires k > 0 && s != []
    ensures (|Chunks(s, k)| - 1) * k < |s| <= |Chunks(s, k)| * k
    decreases |s|
  {
    if |s| > k {
      var n := |Chunks(s[k..], k)|;
      ChunksCount(s[k..], k);
      assert |Chunks(s, k)| == n + 1;
      MulStep(n, k);
    } else {
      assert |Chunks(s, k)| == 1;
    }
  }

  /** Slicing a concatenation of `k`-element pieces into `k`-element slices gives the pieces back. */
  lemma {:induction false} ChunksOfConcat<T>(pieces: seq<seq<T>>, k: nat)
    requires k > 0
    requires forall i :: 0 <= i < |pieces| ==> |pieces[i]| == k
    ensures Chunks(Concat(pieces), k) == pieces
  {
    if pieces != [] {
      var s := Concat(pieces);
      var rest := Concat(pieces[1..]);
      assert s == pieces[0] + rest;
      assert s[..k] == pieces[0] && s[k..] == rest;
      ChunksOfConcat(pieces[1..], k);
    }
  }

  /** `s[:n]` when `s` is long enough, otherwise `s` padded with `zero` up to `n` elements. */
  function FitLength<T>(s: seq<T>, n: nat, zero: T): (r: seq<T>)
    ensures |r| == n
    ensures forall i :: 0 <= i < n ==> r[i] == if i < |s| then s[i] else zero
  {
    if |s| >= n then s[..n] else s + Fill(zero, n - |s|)
  }

  /** `np.tile(s, n)`: `n` copies of `s` one after another. */
  function Tile<T>(s: seq<T>, n: nat): seq<T>
  {
    Concat(Fill(s, n))
  }

  /** The tiled sequence has n*|s| elements, and element `j` of copy `c` is `s[j]`. */
  lemma TileAt<T>(s: seq<T>, n: nat, c: nat, j: nat)
    requires c < n && j < |s|
    ensures |Tile(s, n)| == n * |s|
    ensures c * |s| + j < |Tile(s, n)| && Tile(s, n)[c * |s| + j] == s[j]
  {
    ConcatUniform(Fill(s, n), |s|, c, j);
  }

  lemma TileLength<T>(s: seq<T>, n: nat)
    ensures |Tile(s, n)| == n * |s|
  {
    ConcatUniformLength(Fill(s, n), |s|);
  }
}
