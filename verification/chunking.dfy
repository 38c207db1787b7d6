/** How `transcribe_large_audio` cuts a decoded recording into windows
    (app.py:48-52): the loop `for i in range(0, total_samples, chunk_size)` takes
    the slice `audio[:, i:i + chunk_size]` of every channel, so window `k` starts
    at `k * chunk_size` and the last one is cut short by the end of the
    recording. Sample values are not modelled; only sample counts matter. */
module Chunking {
  import opened Text
  import opened Results

  /** The samples `[start, start + len)` of the recording. */
  datatype Window = Window(start: nat, len: nat) {
    function End(): nat { start + len }

    predicate Contains(sample: int) { start <= sample < start + len }
  }

  function Min(a: int, b: int): int { if a <= b then a else b }

  /** `chunk_length_sec * sr`: samples per window (app.py:49). */
  function ChunkSize(chunkLengthSec: int, sampleRate: nat): int {
    chunkLengthSec * sampleRate
  }

  /** Number of elements of the Python slice `a[i:j]` of a sequence of length
      `n`, for non-negative bounds: both bounds are clamped to `n`. */
  function SliceLen(n: nat, i: nat, j: nat): nat {
    if j <= i then 0 else Min(j, n) - Min(i, n)
  }

  /** The windows visited from offset `i` on: one per value `range` yields. */
  function WindowsFrom(i: nat, total: nat, size: nat): seq<Window>
    requires size > 0
    decreases total - i
  {
    if i >= total then []
    else [Window(i, SliceLen(total, i, i + size))] + WindowsFrom(i + size, total, size)
  }

  /** The windows of a recording of `total` samples cut every `size` samples. */
  function Windows(total: nat, size: nat): seq<Window>
    requires size > 0
  {
    WindowsFrom(0, total, size)
  }

  /** The windows the loop visits for a signed `chunk_size`: `range` refuses a
      zero step, and a negative step from 0 towards a non-negative stop yields
      nothing. For a positive step, window `k` starts at the `k`-th value of
      `range(0, total, chunk_size)` and holds the samples of its slice, so the
      windows number `ceil(total / chunk_size)` and their lengths add up to the
      whole recording. */
  function Plan(total: nat, chunkSize: int): (r: Result<seq<Window>>)
    ensures r.Failure? <==> chunkSize == 0
    ensures r.Failure? ==> r.error == ZeroRangeStep
    ensures r.Success? ==> TotalLength(r.value) == (if chunkSize > 0 then total else 0)
    ensures r.Success? ==> forall k :: 0 <= k < |r.value| ==>
      && r.value[k].start == k * chunkSize < total
      && r.value[k].len == Min(chunkSize, total - k * chunkSize)
    ensures chunkSize > 0 ==> |r.value| == CeilDiv(total, chunkSize)
  {
    if chunkSize == 0 then Failure(ZeroRangeStep)
    else if chunkSize < 0 then Success([])
    else
      PlanWindows(total, chunkSize);
      Success(Windows(total, chunkSize))
  }

  lemma PlanWindows(total: nat, size: nat)
    requires size > 0
    ensures TotalLength(Windows(total, size)) == total
    ensures |Windows(total, size)| == CeilDiv(total, size)
    ensures var ws := Windows(total, size);
      forall k :: 0 <= k < |ws| ==> ws[k].start == k * size < total && ws[k].len == Min(size, total - k * size)
  {
    WindowsTotalLength(total, size);
    WindowCount(total, size);
    var ws := Windows(total, size);
    forall k | 0 <= k < |ws|
      ensures ws[k].start == k * size < total && ws[k].len == Min(size, total - k * size)
    {
      WindowAt(total, size, k);
    }
  }

  /** `ceil(a / d)` for positive `d`. */
  function CeilDiv(a: nat, d: nat): nat
    requires d > 0
  {
    (a + d - 1) / d
  }

  /** The shape of every window list from offset `i`, stated without
      multiplication: windows start where the previous one started plus
      `size`, each is non-empty, no longer than `size`, truncated only by the
      end of the recording, and the last one ends exactly at `total`. */
  lemma {:induction false} WindowsFromShape(i: nat, total: nat, size: nat)
    requires size > 0
    ensures var ws := WindowsFrom(i, total, size);
      && (|ws| == 0 <==> i >= total)
      && (|ws| > 0 ==> ws[0].start == i)
      && (forall k :: 0 <= k < |ws| ==> ws[k].start < total)
      && (forall k :: 0 <= k < |ws| ==> ws[k].len == Min(size, total - ws[k].start))
      && (forall k :: 0 <= k < |ws| ==> 1 <= ws[k].len <= size)
      && (forall j, k :: 0 <= j && k == j + 1 && k < |ws| ==> ws[k].start == ws[j].start + size)
      && (forall j, k :: 0 <= j && k == j + 1 && k < |ws| ==> ws[j].End() == ws[k].start)
      && (|ws| > 0 ==> ws[|ws| - 1].End() == total)
  {
    var ws := WindowsFrom(i, total, size);
    forall k | 0 <= k < |ws|
      ensures ws[k].start < total && ws[k].len == Min(size, total - ws[k].start)
      ensures k + 1 == |ws| ==> ws[k].End() == total
    {
      WindowsFromElement(i, total, size, k);
    }
    forall j, k | 0 <= j && k == j + 1 && k < |ws|
      ensures ws[k].start == ws[j].start + size
    {
      WindowsFromElement(i, total, size, j);
    }
  }

  /** Window `k` starts at `k * size` (app.py:50). */
  lemma {:induction false} WindowsFromStart(i: nat, total: nat, size: nat, k: nat)
    requires size > 0
    requires k < |WindowsFrom(i, total, size)|
    ensures WindowsFrom(i, total, size)[k].start == i + k * size
    decreases k
  {
    if k > 0 {
      WindowsFromStart(i, total, size, k - 1);
      WindowsFromElement(i, total, size, k - 1);
      assert k * size == (k - 1) * size + size;
    }
  }

  /** Multiplying by a non-negative number keeps order. */
  lemma MulMonotone(a: int, b: int, c: nat)
    requires a <= b
    ensures a * c <= b * c
  {
  }

  /** Order of products with a common positive factor reflects order of the
      other factors. */
  lemma MulStrict(a: int, b: int, d: int)
    requires d > 0
    requires a * d < b * d
    ensures a < b
  {
  }

  /** If `q * d <= x < q * d + d` then `x / d == q`. */
  lemma DivBetween(x: nat, d: nat, q: nat)
    requires d > 0
    requires q * d <= x < q * d + d
    ensures x / d == q
  {
    var q' := x / d;
    assert x == q' * d + x % d;
    assert (q + 1) * d == q * d + d;
    assert (q' + 1) * d == q' * d + d;
    MulStrict(q', q + 1, d);
    MulStrict(q, q' + 1, d);
  }

  /** The window list is exactly the `range(0, total, size)` walk: window `k`
      is `audio[:, k*size : k*size + size]`, which starts below `total`; there
      are no windows exactly when the recording is empty, and the last one
      ends at `total`. */
  lemma WindowsShape(total: nat, size: nat)
    requires size > 0
    ensures var ws := Windows(total, size);
      && (|ws| == 0 <==> total == 0)
      && (forall k :: 0 <= k < |ws| ==>
            k * size < total && ws[k] == Window(k * size, SliceLen(total, k * size, k * size + size)))
      && (|ws| > 0 ==> ws[|ws| - 1].End() == total)
  {
    var ws := Windows(total, size);
    if total > 0 {
      WindowsFromElement(0, total, size, |ws| - 1);
    }
    forall k | 0 <= k < |ws|
      ensures k * size < total && ws[k] == Window(k * size, SliceLen(total, k * size, k * size + size))
    {
      WindowAt(total, size, k);
    }
  }

  /** Window `k` of the walk from 0, stated without quantifiers: it starts at
      `k * size`, below `total`, and holds `min(size, total - k * size)`
      samples. */
  lemma WindowAt(total: nat, size: nat, k: nat)
    requires size > 0
    requires k < |Windows(total, size)|
    ensures k * size < total
    ensures Windows(total, size)[k] == Window(k * size, Min(size, total - k * size))
  {
    WindowsFromShape(0, total, size);
    WindowsFromStart(0, total, size, k);
  }

  /** There are `ceil(total / size)` windows: the last one starts before
      `total` and reaches it. */
  lemma WindowCount(total: nat, size: nat)
    requires size > 0
    ensures |Windows(total, size)| == CeilDiv(total, size)
  {
    var n := |Windows(total, size)|;
    WindowsReach(total, size);
    if n > 0 {
      MulSucc(n - 1, size);
      DivBetween(total + size - 1, size, n);
    } else {
      DivBetween(total + size - 1, size, 0);
    }
  }

  /** The windows reach `total`, and all but the last would not. */
  lemma WindowsReach(total: nat, size: nat)
    requires size > 0
    ensures |Windows(total, size)| * size >= total
    ensures |Windows(total, size)| > 0 ==> (|Windows(total, size)| - 1) * size < total
  {
    var ws := Windows(total, size);
    var n := |ws|;
    if n > 0 {
      WindowAt(total, size, n - 1);
      WindowsFromElement(0, total, size, n - 1);
      var m := (n - 1) * size;
      assert m < total <= m + size;
      MulSucc(n - 1, size);
    }
  }

  /** A sample below `total` lies in the `sample / size`-th run of `size`
      samples, and that run is one of the first `n` when `n` runs reach
      `total`. */
  lemma SampleIndex(sample: nat, total: nat, size: nat, n: nat)
    requires size > 0 && sample < total && n * size >= total
    ensures sample / size < n
    ensures (sample / size) * size <= sample < (sample / size) * size + size
  {
    var k := sample / size;
    DivFloor(sample, size);
    MulStrict(k, n, size);
  }

  /** `x / d` is the number of whole `d`s in `x`. */
  lemma DivFloor(x: nat, d: nat)
    requires d > 0
    ensures (x / d) * d <= x < (x / d) * d + d
  {
  }

  lemma MulSucc(a: nat, b: nat)
    ensures (a + 1) * b == a * b + b
  {
  }

  /** Window `k` is the slice `audio[:, start : start + size]` of the
      recording at its offset, which lies below `total`; the next window starts
      `size` later, and the last one ends at `total`. */
  lemma {:induction false} WindowsFromElement(i: nat, total: nat, size: nat, k: nat)
    requires size > 0
    requires k < |WindowsFrom(i, total, size)|
    ensures var ws := WindowsFrom(i, total, size);
      && ws[k].start < total
      && ws[k].len == SliceLen(total, ws[k].start, ws[k].start + size)
      && ws[k].len == Min(size, total - ws[k].start)
      && (k + 1 < |ws| ==> ws[k + 1].start == ws[k].start + size)
      && (k + 1 == |ws| ==> ws[k].End() == total)
    decreases total - i
  {
    var ws := WindowsFrom(i, total, size);
    var rest := WindowsFrom(i + size, total, size);
    assert ws == [Window(i, SliceLen(total, i, i + size))] + rest;
    if k > 0 {
      WindowsFromElement(i + size, total, size, k - 1);
      assert ws[k] == rest[k - 1];
      if k + 1 < |ws| { assert ws[k + 1] == rest[k]; }
    } else if |rest| > 0 {
      WindowsFromElement(i + size, total, size, 0);
      assert ws[1] == rest[0];
    } else {
      assert i + size >= total;
    }
  }

  /** Sum of the window lengths. */
  function TotalLength(ws: seq<Window>): nat
    decreases |ws|
  {
    if |ws| == 0 then 0 else ws[0].len + TotalLength(ws[1..])
  }

  /** No padding: the window lengths add up to the number of samples. */
  lemma {:induction false} WindowsFromTotalLength(i: nat, total: nat, size: nat)
    requires size > 0
    requires i <= total
    ensures TotalLength(WindowsFrom(i, total, size)) == total - i
    decreases total - i
  {
    if i < total {
      var ws := WindowsFrom(i, total, size);
      assert ws[1..] == WindowsFrom(i + size, total, size);
      if i + size <= total {
        WindowsFromTotalLength(i + size, total, size);
      } else {
        assert WindowsFrom(i + size, total, size) == [];
      }
    }
  }

  lemma WindowsTotalLength(total: nat, size: nat)
    requires size > 0
    ensures TotalLength(Windows(total, size)) == total
  {
    WindowsFromTotalLength(0, total, size);
  }

  /** Sample `sample` lies in window `sample / size`. */
  lemma WindowOfSample(total: nat, size: nat, sample: nat)
    requires size > 0
    requires sample < total
    ensures sample / size < |Windows(total, size)|
    ensures Windows(total, size)[sample / size].Contains(sample)
  {
    WindowsReach(total, size);
    SampleIndex(sample, total, size, |Windows(total, size)|);
    WindowAt(total, size, sample / size);
  }

  /** Every sample of the recording lies in some window, and nothing outside
      the recording does: the windows cover `[0, total)` exactly. */
  lemma WindowsCover(total: nat, size: nat, sample: int)
    requires size > 0
    ensures var ws := Windows(total, size);
      0 <= sample < total <==> exists k :: 0 <= k < |ws| && ws[k].Contains(sample)
  {
    var ws := Windows(total, size);
    WindowsFromShape(0, total, size);
    if 0 <= sample < total {
      WindowOfSample(total, size, sample);
    }
    forall k | 0 <= k < |ws| && ws[k].Contains(sample)
      ensures 0 <= sample < total
    {
    }
  }

  /** Windows do not overlap: an earlier window ends no later than a later one
      starts, so no sample is in two windows. */
  lemma WindowsDisjoint(total: nat, size: nat)
    requires size > 0
    ensures var ws := Windows(total, size);
      forall j, k :: 0 <= j < k < |ws| ==> ws[j].End() <= ws[k].start
    ensures var ws := Windows(total, size);
      forall j, k, sample :: 0 <= j < |ws| && 0 <= k < |ws| && ws[j].Contains(sample) && ws[k].Contains(sample) ==> j == k
  {
    var ws := Windows(total, size);
    forall j, k | 0 <= j < k < |ws|
      ensures ws[j].End() <= ws[k].start
    {
      WindowAt(total, size, j);
      WindowAt(total, size, k);
      MulMonotone(j + 1, k, size);
      assert (j + 1) * size == j * size + size;
    }
  }

  /** Sixty-five seconds of audio cut every thirty seconds give two full
      windows and one of five seconds. */
  lemma SixtyFiveSecondsInThirtySecondWindows(sr: nat)
    requires sr > 0
    ensures var ws := Windows(65 * sr, ChunkSize(30, sr));
      && |ws| == 3
      && ws[0] == Window(0, 30 * sr)
      && ws[1] == Window(30 * sr, 30 * sr)
      && ws[2] == Window(60 * sr, 5 * sr)
  {
    var size := ChunkSize(30, sr);
    var ws := Windows(65 * sr, size);
    WindowCount(65 * sr, size);
    DivBetween(65 * sr + size - 1, size, 3);
    WindowAt(65 * sr, size, 0);
    WindowAt(65 * sr, size, 1);
    WindowAt(65 * sr, size, 2);
  }

  /** `f"chunk_{i}.wav"`: the file each window is written to (app.py:52). */
  function ChunkPath(start: nat): string {
    "chunk_" + Decimal(start) + ".wav"
  }

  /** Distinct offsets give distinct chunk file names. */
  lemma ChunkPathInjective(a: nat, b: nat)
    ensures ChunkPath(a) == ChunkPath(b) <==> a == b
  {
    var pa, pb := ChunkPath(a), ChunkPath(b);
    assert pa[6..|pa| - 4] == Decimal(a);
    assert pb[6..|pb| - 4] == Decimal(b);
    DecimalInjective(a, b);
  }

  /** The file names of the windows of one call are pairwise distinct, so no
      window's file is overwritten by another's. */
  lemma ChunkPathsDistinct(total: nat, size: nat)
    requires size > 0
    ensures var ws := Windows(total, size);
      forall j, k :: 0 <= j < k < |ws| ==> ChunkPath(ws[j].start) != ChunkPath(ws[k].start)
  {
    var ws := Windows(total, size);
    forall j, k | 0 <= j < k < |ws|
      ensures ChunkPath(ws[j].start) != ChunkPath(ws[k].start)
    {
      WindowAt(total, size, j);
      WindowAt(total, size, k);
      assert ws[j].start < ws[k].start by {
        MulMonotone(j + 1, k, size);
        assert (j + 1) * size == j * size + size;
      }
      ChunkPathInjective(ws[j].start, ws[k].start);
    }
  }
}
