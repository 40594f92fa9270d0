/** The single-TR processor (process_single_tr.py): a buffer of masked voxel vectors,
    one row per TR, and the epoch state `currentEpoch`, which is `NoEpoch` while idle
    and otherwise the TR index at which the current epoch of interest began. Each call
    of `Step` handles one incoming TR: it writes the TR's row, advances the epoch state
    and, once the epoch has run long enough, selects the rows to normalise. */
module SingleTR {
  import opened Results
  import opened MaskExtraction
  import opened Normalization

  /** The value of `currentEpoch` meaning "not inside an epoch of interest". */
  const NoEpoch: int := -1

  /** The exceptions the processor can raise. */
  datatype Fault =
    | NegativeTotal     // np.zeros is asked for a negative number of rows
    | SizeMismatch     // the volume has a different number of voxels from the mask
    | RowOutOfRange     // the TR index is not below the buffer's row count
    | LabelOutOfRange   // the TR index is not below the number of epoch labels

  /** The processor's state. `labels` is the per-TR epoch array (1 inside an epoch of
      interest, 0 outside), `window` the configured window threshold, `numVoxels` the
      voxel count derived from the mask, and `buffer` the `total` by `numVoxels`
      time series, one row per TR. */
  datatype Processor = Processor(
    labels: seq<int>,
    mask: seq<int>,
    window: int,
    numVoxels: nat,
    buffer: seq<seq<int>>,
    currentEpoch: int)
  {
    /** What construction establishes and every step keeps. */
    predicate Valid()
    {
      && numVoxels == CountPositive(mask)
      && Rectangular(buffer, numVoxels)
      && (currentEpoch == NoEpoch || 0 <= currentEpoch < |buffer|)
    }

    /** The configuration, which no step changes. */
    predicate SameConfig(other: Processor)
    {
      && labels == other.labels
      && mask == other.mask
      && window == other.window
      && numVoxels == other.numVoxels
      && |buffer| == |other.buffer|
    }
  }

  /** A row of `n` zeros, the buffer's fill value. */
  function Zeros(n: nat): (z: seq<int>)
    ensures |z| == n && forall k :: 0 <= k < n ==> z[k] == 0
  {
    seq(n, _ => 0)
  }

  /** `SingleTRProcessor.__init__`: a `total` by `numVoxels` buffer of zeros, where
      `numVoxels` is the number of mask entries greater than zero, and no epoch open. */
  function Init(labels: seq<int>, mask: seq<int>, total: int, window: int): (r: Result<Processor, Fault>)
    ensures r.Err? <==> total < 0
    ensures r.Err? ==> r.error == NegativeTotal
    ensures r.Ok? ==> var p := r.value;
      && p.Valid()
      && p.currentEpoch == NoEpoch
      && p.labels == labels && p.mask == mask && p.window == window
      && p.numVoxels == CountPositive(mask)
      && |p.buffer| == total
      && forall k, j :: 0 <= k < total && 0 <= j < p.numVoxels ==> p.buffer[k][j] == 0
  {
    if total < 0 then Err(NegativeTotal)
    else
      PositiveIndicesCount(mask);
      var n := |PositiveIndices(mask)|;
      Ok(Processor(labels, mask, window, n, seq(total, _ => Zeros(n)), NoEpoch))
  }

  /** `rows[lo:hi]` for `hi` within bounds: Python slicing yields nothing when `lo`
      is not below `hi`. */
  function Slice(rows: seq<seq<int>>, lo: nat, hi: nat): (r: seq<seq<int>>)
    requires hi <= |rows|
    ensures lo < hi ==> |r| == hi - lo && forall i :: 0 <= i < |r| ==> r[i] == rows[lo + i]
    ensures hi <= lo ==> r == []
  {
    if lo < hi then rows[lo..hi] else []
  }

  /** A selected window: rows `first` to `last` of the buffer, as copied out of it,
      and their normalised form. */
  datatype Selection = Selection(first: nat, last: nat, raw: seq<seq<int>>, normalized: seq<seq<Cell>>)

  /** The result of one step: the processor afterwards and the window it selected, or
      the exception it raised together with the processor as the exception left it. */
  datatype StepResult =
    | Stepped(next: Processor, selection: Option<Selection>)
    | Raised(fault: Fault, left: Processor)
  {
    /** The processor after the step, whether or not it raised. */
    function After(): (q: Processor)
    {
      if Stepped? then next else left
    }
  }

  /** The row assignment `raw_data[t, :] = data[mask > 0]`. */
  function Write(p: Processor, t: nat, volume: seq<int>): (q: Processor)
    requires p.Valid() && |volume| == |p.mask| && t < |p.buffer|
    ensures q.Valid() && q.SameConfig(p) && q.currentEpoch == p.currentEpoch
    ensures q.buffer[t] == Extract(p.mask, volume)
    ensures forall k :: 0 <= k < |p.buffer| && k != t ==> q.buffer[k] == p.buffer[k]
  {
    PositiveIndicesCount(p.mask);
    p.(buffer := p.buffer[t := Extract(p.mask, volume)])
  }

  /** The epoch state machine and window selection, run once the row is written. */
  function Advance(p: Processor, t: nat): (r: StepResult)
    requires p.Valid() && t < |p.buffer| && t < |p.labels|
    ensures r.Stepped? && r.next.Valid() && r.next.SameConfig(p) && r.next.buffer == p.buffer
    // epoch transitions
    ensures p.currentEpoch == NoEpoch ==>
              r.next.currentEpoch == (if p.labels[t] == 1 then t else NoEpoch)
    ensures p.currentEpoch != NoEpoch ==>
              r.next.currentEpoch == (if p.labels[t] == 0 then NoEpoch else p.currentEpoch)
    // a window is selected exactly on an active step with a nonzero label past the threshold
    ensures r.selection.Some? <==>
              p.currentEpoch != NoEpoch && p.labels[t] != 0 && t - p.currentEpoch >= p.window
    // the window is rows currentEpoch .. t of the buffer, normalised as a whole
    ensures r.selection.Some? ==>
              var w := r.selection.value;
              && w.first == p.currentEpoch && w.last == t
              && (w.first <= t ==> |w.raw| == t - w.first + 1)
              && (t < w.first ==> w.raw == [])
              && (forall i :: 0 <= i < |w.raw| ==> w.raw[i] == p.buffer[w.first + i])
              && Rectangular(w.raw, p.numVoxels)
              && w.normalized == Normalize(w.raw, p.numVoxels)
  {
    if p.currentEpoch == NoEpoch then
      if p.labels[t] == 1 then Stepped(p.(currentEpoch := t), None)
      else Stepped(p, None)
    else if p.labels[t] == 0 then
      Stepped(p.(currentEpoch := NoEpoch), None)
    else if t - p.currentEpoch >= p.window then
      var raw := Slice(p.buffer, p.currentEpoch, t + 1);
      Stepped(p, Some(Selection(p.currentEpoch, t, raw, Normalize(raw, p.numVoxels))))
    else
      Stepped(p, None)
  }

  /** `process_single_tr_nifti(volume, t)`. The masked vector is computed before the row
      is assigned and the label is read after it, so a label index out of range raises
      with row `t` already overwritten. */
  function Step(p: Processor, t: nat, volume: seq<int>): (r: StepResult)
    requires p.Valid()
    // which exception is raised, in the order the source meets them
    ensures r.Raised? && r.fault == SizeMismatch <==> |volume| != |p.mask|
    ensures r.Raised? && r.fault == RowOutOfRange <==> |volume| == |p.mask| && t >= |p.buffer|
    ensures r.Raised? && r.fault == LabelOutOfRange <==>
              |volume| == |p.mask| && t < |p.buffer| && t >= |p.labels|
    ensures r.Raised? ==> r.fault != NegativeTotal
    // the configuration never changes and the processor stays valid
    ensures r.After().Valid() && r.After().SameConfig(p)
  {
    if |volume| != |p.mask| then Raised(SizeMismatch, p)
    else if t >= |p.buffer| then Raised(RowOutOfRange, p)
    else
      var written := Write(p, t, volume);
      if t >= |p.labels| then Raised(LabelOutOfRange, written)
      else Advance(written, t)
  }

  /** A step that raises nothing is the row assignment followed by `Advance`. */
  lemma StepIsWriteThenAdvance(p: Processor, t: nat, volume: seq<int>)
    requires p.Valid() && Step(p, t, volume).Stepped?
    ensures |volume| == |p.mask| && t < |p.buffer| && t < |p.labels|
    ensures Step(p, t, volume) == Advance(Write(p, t, volume), t)
  {
  }

  /** What one step does to the buffer and the epoch state. */
  lemma StepEffect(p: Processor, t: nat, volume: seq<int>)
    requires p.Valid()
    ensures var r := Step(p, t, volume);
      // an exception raised before the row assignment leaves the processor untouched
      && (r.Raised? && r.fault != LabelOutOfRange ==> r.left == p)
      && (r.Raised? ==> r.left.currentEpoch == p.currentEpoch)
      // once the row is assigned, exactly row t holds the masked volume
      && (r.Stepped? || r.fault == LabelOutOfRange ==>
            && |volume| == |p.mask| && t < |p.buffer|
            && r.After().buffer == p.buffer[t := Extract(p.mask, volume)])
      // epoch transitions: idle becomes active on label 1, active becomes idle on label 0
      && (r.Stepped? && p.currentEpoch == NoEpoch ==>
            r.next.currentEpoch == (if p.labels[t] == 1 then t else NoEpoch))
      && (r.Stepped? && p.currentEpoch != NoEpoch ==>
            r.next.currentEpoch == (if p.labels[t] == 0 then NoEpoch else p.currentEpoch))
      && (r.Stepped? && p.labels[t] == 0 ==> r.next.currentEpoch == NoEpoch)
      && (r.Stepped? && p.labels[t] == 1 ==> r.next.currentEpoch != NoEpoch)
      // a window is selected exactly on an active step with a nonzero label past the threshold
      && (r.Stepped? ==>
            (r.selection.Some? <==>
               p.currentEpoch != NoEpoch && p.labels[t] != 0 && t - p.currentEpoch >= p.window))
      // the window runs from the epoch's first TR to t
      && (r.Stepped? && r.selection.Some? ==>
            r.selection.value.first == p.currentEpoch && r.selection.value.last == t)
  {
  }
}
