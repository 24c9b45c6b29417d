/**
 The window loop of `audiopredict`. The loop always makes 300
 passes; pass `i` asks the feature extractor for the slice `[100*i, 100*i + 1000)`
 milliseconds, pads the 32-row MFCC matrix it gets back to 1024 values, reshapes
 them to 32x32 and asks the disfluency classifier for a score. A score of at
 least 0.9 marks the window active; a disfluency is counted on each
 active-to-inactive transition, so an active run still open after the last
 window is never counted.

 The padding appends the zeros to the row-major flattening of the matrix
 (`np.append` without an axis flattens), so for fewer than 32 columns the
 reshaped matrix does not hold the original rows followed by zero columns:
 row 0 wraps into row 1's data (`PaddingWrapsRows`).

 The extractor and the classifier are parameters; slicing, file export and the
 MFCC computation behind the extractor are outside the model.
 */
module AudioWindows {
  import Hysteresis

  const WindowCount: nat := 300
  const Stride: nat := 100
  const WindowLength: nat := 1000
  const MfccRows: nat := 32
  const MfccCols: nat := 32
  const ActiveThreshold: real := 0.9

  /** A half-open slice `[start, stop)` of the audio track, in milliseconds. */
  datatype Window = Window(start: nat, stop: nat)

  /** A matrix as a list of rows. */
  type Matrix = seq<seq<real>>

  /** The `i`-th window the loop requests. */
  function WindowAt(i: nat): (w: Window)
    ensures w.stop - w.start == WindowLength
  {
    Window(Stride * i, Stride * i + WindowLength)
  }

  /** What the extractor yields for a window: 32 rows of one common width, at most 32. */
  predicate IsMfcc(m: Matrix)
  {
    && |m| == MfccRows
    && |m[0]| <= MfccCols
    && forall r :: 0 <= r < |m| ==> |m[r]| == |m[0]|
  }

  /** The extractor yields a well-shaped MFCC matrix for each of the windows the loop requests. */
  predicate ExtractsMfcc(extract: Window -> Matrix)
  {
    forall i :: 0 <= i < WindowCount ==> IsMfcc(extract(WindowAt(i)))
  }

  /** The rows of `m` concatenated in order (numpy's C-order flattening). */
  function RowMajor(m: Matrix): (flat: seq<real>)
    ensures forall x :: x in flat <==> exists q :: 0 <= q < |m| && x in m[q]
  {
    if m == [] then [] else m[0] + RowMajor(m[1..])
  }

  lemma {:induction false} RowMajorLength(m: Matrix, width: nat)
    requires forall r :: 0 <= r < |m| ==> |m[r]| == width
    ensures |RowMajor(m)| == |m| * width
    decreases |m|
  {
    if m != [] {
      RowMajorLength(m[1..], width);
    }
  }

  /** Entry `(r, k)` of a matrix of uniform width sits at offset `r * width + k` of its flattening. */
  lemma {:induction false} RowMajorIndex(m: Matrix, width: nat, r: nat, k: nat)
    requires forall q :: 0 <= q < |m| ==> |m[q]| == width
    requires r < |m| && k < width
    ensures r * width + k < |RowMajor(m)|
    ensures RowMajor(m)[r * width + k] == m[r][k]
    decreases r
  {
    RowMajorLength(m, width);
    RowMajorLength(m[1..], width);
    if r > 0 {
      RowMajorIndex(m[1..], width, r - 1, k);
      assert r * width + k == width + ((r - 1) * width + k);
    }
  }

  function Zeros(n: nat): (z: seq<real>)
    ensures |z| == n
  {
    seq(n, _ => 0.0)
  }

  /** The padding step: a matrix narrower than 32 columns gets `32 * (32 - width)`
      zeros appended to its flattening; a full-width matrix is only flattened. */
  function Pad(m: Matrix): (flat: seq<real>)
    requires IsMfcc(m)
    ensures |flat| == MfccRows * MfccCols
    ensures flat[..MfccRows * |m[0]|] == RowMajor(m)
    ensures forall k :: MfccRows * |m[0]| <= k < |flat| ==> flat[k] == 0.0
  {
    RowMajorLength(m, |m[0]|);
    var width := |m[0]|;
    if width < MfccCols then RowMajor(m) + Zeros(MfccRows * (MfccCols - width))
    else RowMajor(m)
  }

  /** `reshape(32, 32)`: consecutive runs of 32 values become the rows. */
  function Reshape(flat: seq<real>): (grid: Matrix)
    requires |flat| == MfccRows * MfccCols
    ensures |grid| == MfccRows
    ensures forall r :: 0 <= r < MfccRows ==> |grid[r]| == MfccCols
    ensures forall r, k :: 0 <= r < MfccRows && 0 <= k < MfccCols ==> grid[r][k] == flat[MfccCols * r + k]
  {
    seq(MfccRows, r requires 0 <= r < MfccRows => flat[MfccCols * r .. MfccCols * r + MfccCols])
  }

  /** The matrix handed to the classifier, entry by entry: offset `32 * r + k` of the
      row-major data when that offset is inside it, zero after it. */
  lemma PaddedEntry(m: Matrix, r: nat, k: nat, q: nat, j: nat)
    requires IsMfcc(m)
    requires r < MfccRows && k < MfccCols
    requires q < MfccRows && j < |m[0]| && MfccCols * r + k == q * |m[0]| + j
    ensures Reshape(Pad(m))[r][k] == m[q][j]
  {
    RowMajorIndex(m, |m[0]|, q, j);
    RowMajorLength(m, |m[0]|);
    var flat := Pad(m);
    assert flat[q * |m[0]| + j] == flat[..MfccRows * |m[0]|][q * |m[0]| + j];
  }

  /** Entries of the classifier's matrix past the row-major data are zero. */
  lemma PaddedTailIsZero(m: Matrix, r: nat, k: nat)
    requires IsMfcc(m)
    requires r < MfccRows && k < MfccCols
    requires MfccCols * r + k >= MfccRows * |m[0]|
    ensures Reshape(Pad(m))[r][k] == 0.0
  {
  }

  /** A full-width (32x32) matrix reaches the classifier unchanged. */
  lemma FullWidthUnchanged(m: Matrix)
    requires IsMfcc(m) && |m[0]| == MfccCols
    ensures Reshape(Pad(m)) == m
  {
    forall r | 0 <= r < MfccRows
      ensures Reshape(Pad(m))[r] == m[r]
    {
      forall k | 0 <= k < MfccCols
        ensures Reshape(Pad(m))[r][k] == m[r][k]
      {
        PaddedEntry(m, r, k, r, k);
      }
    }
  }

  /** For a narrower, non-empty matrix the padding is not column padding: the cell just
      right of row 0's data holds the first value of row 1, not a zero. */
  lemma PaddingWrapsRows(m: Matrix)
    requires IsMfcc(m) && 0 < |m[0]| < MfccCols
    ensures Reshape(Pad(m))[0][|m[0]|] == m[1][0]
  {
    PaddedEntry(m, 0, |m[0]|, 1, 0);
  }

  /** An empty feature matrix (32 rows, no columns) becomes 32x32 zeros. */
  lemma EmptyFeaturesPadToZeros(m: Matrix)
    requires IsMfcc(m) && |m[0]| == 0
    ensures forall r, k :: 0 <= r < MfccRows && 0 <= k < MfccCols ==> Reshape(Pad(m))[r][k] == 0.0
  {
  }

  /** Number of active-to-inactive transitions in `active`: indices `i >= 1` with
      `active[i - 1]` and not `active[i]`. */
  function Falls(active: seq<bool>): (count: nat)
    ensures count == |FallIndices(active)|
  {
    if |active| < 2 then
      assert FallIndices(active) == {};
      0
    else
      var n := |active|;
      var init := active[..n - 1];
      var fall := active[n - 2] && !active[n - 1];
      assert FallIndices(active) == FallIndices(init) + (if fall then {n - 1} else {});
      assert n - 1 !in FallIndices(init);
      Falls(init) + (if fall then 1 else 0)
  }

  /** The indices of the windows that end a disfluency: inactive, right after an active one. */
  function FallIndices(active: seq<bool>): set<nat>
  {
    set i: nat | i < |active| && EndsRunAt(active, i)
  }

  /** Window `i` is inactive and window `i - 1` is active. */
  predicate EndsRunAt(active: seq<bool>, i: nat)
  {
    0 < i < |active| && active[i - 1] && !active[i]
  }

  /** True when the last window is active (an episode still open at the end). */
  predicate EndsActive(active: seq<bool>)
  {
    |active| > 0 && active[|active| - 1]
  }

  /** Each counted transition closes a run of at least one active window, and the two
      windows of one transition cannot share with another: at most half the windows. */
  lemma {:induction false} FallsBound(active: seq<bool>)
    ensures 2 * Falls(active) <= |active|
    decreases |active|
  {
    var n := |active|;
    if n >= 2 {
      var init := active[..n - 1];
      FallsBound(init);
      if active[n - 2] && !active[n - 1] {
        FallsBound(active[..n - 2]);
        assert init[..n - 2] == active[..n - 2];
        if n >= 3 {
          assert Falls(init) == Falls(active[..n - 2]);
        }
      }
    }
  }

  /** The debounce counts completed episodes: adding back the episode still open at the
      end gives exactly the number of maximal active runs. */
  lemma {:induction false} FallsCountCompletedEpisodes(active: seq<bool>)
    ensures Falls(active) + (if EndsActive(active) then 1 else 0) == Hysteresis.Episodes(active, 1)
  {
    FeedFalls(active);
    Hysteresis.FeedCountsEpisodes(active, 1);
  }

  /** A counter with threshold 1 fires at the start of each active run; relative to the
      debounce, which counts run ends, it is ahead by one exactly when a run is open. */
  lemma {:induction false} FeedFalls(active: seq<bool>)
    ensures Hysteresis.Feed(Hysteresis.Idle, active, 1).events
            == Falls(active) + (if EndsActive(active) then 1 else 0)
    decreases |active|
  {
    var n := |active|;
    if n > 0 {
      var init := active[..n - 1];
      assert active == init + [active[n - 1]];
      Hysteresis.FeedSnoc(Hysteresis.Idle, init, active[n - 1], 1);
      Hysteresis.FeedRunIsTrailingRun(init, 1);
      FeedFalls(init);
    }
  }

  /** `det >= 0.9` for each window's classifier score. */
  function Detections(extract: Window -> Matrix, classify: Matrix -> real): (active: seq<bool>)
    requires ExtractsMfcc(extract)
    ensures |active| == WindowCount
  {
    seq(WindowCount, i requires 0 <= i < WindowCount =>
      classify(Reshape(Pad(extract(WindowAt(i))))) >= ActiveThreshold)
  }

  /** The `audiopredict` loop. Also returns the windows it requested, in order. */
  method AudioPredict(extract: Window -> Matrix, classify: Matrix -> real)
    returns (disCount: nat, requested: seq<Window>)
    requires ExtractsMfcc(extract)
    ensures |requested| == WindowCount
    ensures forall i :: 0 <= i < WindowCount ==> requested[i] == Window(Stride * i, Stride * i + WindowLength)
    ensures disCount == Falls(Detections(extract, classify))
    ensures 2 * disCount <= WindowCount
  {
    ghost var active := Detections(extract, classify);
    var st: nat := 0;
    var sp: nat := WindowLength;
    disCount := 0;
    var disDetect := false;
    requested := [];
    for i := 0 to WindowCount
      invariant st == Stride * i && sp == st + WindowLength
      invariant |requested| == i
      invariant forall k :: 0 <= k < i ==> requested[k] == WindowAt(k)
      invariant disCount == Falls(active[..i])
      invariant disDetect == EndsActive(active[..i])
    {
      var window := Window(st, sp);
      assert window == WindowAt(i);
      var flat := Pad(extract(window));
      st := st + Stride;
      sp := sp + Stride;
      var det := classify(Reshape(flat));
      assert active[..i + 1][..i] == active[..i];
      if det >= ActiveThreshold {
        disDetect := true;
      } else {
        if disDetect {
          disCount := disCount + 1;
        }
        disDetect := false;
      }
      requested := requested + [window];
    }
    assert active[..WindowCount] == active;
    FallsBound(active);
  }

  /** Three active windows, one inactive, five active, two inactive: two disfluencies. */
  lemma DebounceExample()
    ensures Falls([true, true, true, false, true, true, true, true, true, false, false]) == 2
  {
    var s := [true, true, true, false, true, true, true, true, true, false, false];
    assert Falls(s[..2]) == 0;
    assert s[..3][..2] == s[..2];
    assert Falls(s[..3]) == 0;
    assert s[..4][..3] == s[..3];
    assert Falls(s[..4]) == 1;
    assert s[..5][..4] == s[..4];
    assert Falls(s[..5]) == 1;
    assert s[..6][..5] == s[..5];
    assert Falls(s[..6]) == 1;
    assert s[..7][..6] == s[..6];
    assert Falls(s[..7]) == 1;
    assert s[..8][..7] == s[..7];
    assert Falls(s[..8]) == 1;
    assert s[..9][..8] == s[..8];
    assert Falls(s[..9]) == 1;
    assert s[..10][..9] == s[..9];
    assert Falls(s[..10]) == 2;
    assert s[..11][..10] == s[..10];
    assert Falls(s[..11]) == 2;
    assert s[..11] == s;
  }

  /** A trailing active run is never counted: ending on an active window counts one
      episode fewer than the active runs. */
  lemma OpenEpisodeUncounted(active: seq<bool>)
    requires EndsActive(active)
    ensures Falls(active) + 1 == Hysteresis.Episodes(active, 1)
  {
    FallsCountCompletedEpisodes(active);
  }
}
