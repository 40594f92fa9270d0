/** The watcher's driver: TRs are handed to the processor with the indices 0, 1, 2, ...
    of a counter that starts at zero and is incremented after every processed file
    (nifti_file_watcher.py, lines 19, 27 and 33). An exception ends the run. The lemmas
    here state what the epoch state and the selected windows are under that sequential
    driving. */
module Driver {
  import opened Results
  import opened MaskExtraction
  import opened Normalization
  import opened SingleTR

  /** A run that handled every volume, with the window selected at each TR (if any),
      or one that stopped at TR `at` with an exception. */
  datatype RunResult =
    | Running(proc: Processor, selections: seq<Option<Selection>>)
    | Stopped(fault: Fault, at: nat, proc: Processor)

  /** Processes `volumes[t]` as TR `t` for t = 0, 1, ..., n - 1, in that order. */
  function RunFirst(p: Processor, volumes: seq<seq<int>>, n: nat): (r: RunResult)
    requires p.Valid() && n <= |volumes|
    ensures r.proc.Valid() && r.proc.SameConfig(p)
    ensures r.Running? ==> |r.selections| == n
    ensures r.Stopped? ==> r.at < n
    decreases n
  {
    if n == 0 then Running(p, [])
    else
      match RunFirst(p, volumes, n - 1)
      case Stopped(f, at, q) => Stopped(f, at, q)
      case Running(q, sel) =>
        match Step(q, n - 1, volumes[n - 1])
        case Raised(f, q') => Stopped(f, n - 1, q')
        case Stepped(q', w) => Running(q', sel + [w])
  }

  /** Processes every volume, `volumes[t]` as TR `t`. */
  function Run(p: Processor, volumes: seq<seq<int>>): (r: RunResult)
    requires p.Valid()
    ensures r.proc.Valid() && r.proc.SameConfig(p)
    ensures r.Running? ==> |r.selections| == |volumes|
    ensures r.Stopped? ==> r.at < |volumes|
  {
    RunFirst(p, volumes, |volumes|)
  }

  /** One more TR: a run of the first `t + 1` TRs is the run of the first `t` followed
      by the step of TR `t`. */
  lemma RunFirstNext(p: Processor, volumes: seq<seq<int>>, t: nat)
    requires p.Valid() && t < |volumes| && RunFirst(p, volumes, t).Running?
    ensures var r := Step(RunFirst(p, volumes, t).proc, t, volumes[t]);
      && (r.Raised? ==> RunFirst(p, volumes, t + 1) == Stopped(r.fault, t, r.left))
      && (r.Stepped? ==>
            RunFirst(p, volumes, t + 1) == Running(r.next, RunFirst(p, volumes, t).selections + [r.selection]))
  {
  }

  /** A run that completes also completes on every prefix, selecting the same windows. */
  lemma {:induction false} RunPrefix(p: Processor, volumes: seq<seq<int>>, n: nat, m: nat)
    requires p.Valid() && n <= m <= |volumes| && RunFirst(p, volumes, m).Running?
    ensures RunFirst(p, volumes, n).Running?
    ensures RunFirst(p, volumes, n).selections == RunFirst(p, volumes, m).selections[..n]
    decreases m
  {
    if n < m {
      RunPrefix(p, volumes, n, m - 1);
      var all := RunFirst(p, volumes, m).selections;
      var init := RunFirst(p, volumes, m - 1).selections;
      assert all[..n] == init[..n];
    }
  }

  /** In a completed run, the step of TR `t` raised nothing; it started from the state
      the first `t` TRs left behind, produced the state after `t + 1` TRs, and its
      selection is the one recorded for TR `t`. */
  lemma RunStepAt(p: Processor, volumes: seq<seq<int>>, m: nat, t: nat)
    requires p.Valid() && t < m <= |volumes| && RunFirst(p, volumes, m).Running?
    ensures RunFirst(p, volumes, t).Running? && RunFirst(p, volumes, t + 1).Running?
    ensures var q := RunFirst(p, volumes, t).proc;
      && Step(q, t, volumes[t]).Stepped?
      && Step(q, t, volumes[t]).next == RunFirst(p, volumes, t + 1).proc
      && Step(q, t, volumes[t]).selection == RunFirst(p, volumes, m).selections[t]
  {
    RunPrefix(p, volumes, t + 1, m);
    RunFirstNext(p, volumes, t);
    var before := RunFirst(p, volumes, t);
    var after := RunFirst(p, volumes, t + 1);
    var r := Step(before.proc, t, volumes[t]);
    if r.Raised? {
      assert false;
    }
    assert after == Running(r.next, before.selections + [r.selection]);
    assert after.selections[t] == r.selection;
  }

  /** Rows of the first `n` TRs hold their masked volumes; the other rows are as they
      were before the run. */
  ghost predicate Filled(p0: Processor, volumes: seq<seq<int>>, n: nat, q: Processor)
    requires n <= |volumes|
  {
    && q.mask == p0.mask
    && n <= |q.buffer| == |p0.buffer|
    && n <= |q.labels|
    && (forall k :: 0 <= k < n ==>
          |volumes[k]| == |q.mask| && q.buffer[k] == Extract(q.mask, volumes[k]))
    && (forall k :: n <= k < |q.buffer| ==> q.buffer[k] == p0.buffer[k])
  }

  /** The epoch state `s` after TRs 0 .. n-1: an open epoch began at a TR labelled 1
      that follows a TR not labelled 1 (or is TR 0), and no label since has been 0; the
      last label decides whether an epoch is open when it is 0 or 1. */
  ghost predicate EpochInvariant(labels: seq<int>, n: nat, s: int)
    requires n <= |labels|
  {
    && (s == NoEpoch || (
          && 0 <= s < n
          && labels[s] == 1
          && (forall k :: s <= k < n ==> labels[k] != 0)
          && (s == 0 || labels[s - 1] != 1)))
    && (n > 0 && labels[n - 1] == 0 ==> s == NoEpoch)
    && (n > 0 && labels[n - 1] == 1 ==> s != NoEpoch)
  }

  /** One step of TR `t` keeps the epoch invariant. */
  lemma StepKeepsEpochInvariant(q: Processor, t: nat, volume: seq<int>)
    requires q.Valid() && t < |q.labels| && Step(q, t, volume).Stepped?
    requires EpochInvariant(q.labels, t, q.currentEpoch)
    ensures EpochInvariant(q.labels, t + 1, Step(q, t, volume).next.currentEpoch)
  {
    StepEffect(q, t, volume);
  }

  /** One step of TR `t` extends the filled rows by row `t`. */
  lemma StepKeepsFilled(p: Processor, volumes: seq<seq<int>>, t: nat, q: Processor)
    requires t < |volumes| && p.Valid() && q.Valid()
    requires Filled(p, volumes, t, q)
    requires Step(q, t, volumes[t]).Stepped?
    ensures Filled(p, volumes, t + 1, Step(q, t, volumes[t]).next)
  {
    StepEffect(q, t, volumes[t]);
  }

  /** What a completed run from an idle processor keeps. */
  lemma {:induction false} RunInvariant(p: Processor, volumes: seq<seq<int>>, n: nat)
    requires p.Valid() && p.currentEpoch == NoEpoch
    requires n <= |volumes| && RunFirst(p, volumes, n).Running?
    ensures Filled(p, volumes, n, RunFirst(p, volumes, n).proc)
    ensures EpochInvariant(p.labels, n, RunFirst(p, volumes, n).proc.currentEpoch)
    decreases n
  {
    if n > 0 {
      RunInvariant(p, volumes, n - 1);
      var q := RunFirst(p, volumes, n - 1).proc;
      StepKeepsEpochInvariant(q, n - 1, volumes[n - 1]);
      StepKeepsFilled(p, volumes, n - 1, q);
    }
  }

  /** What a window selected at TR `t` of a sequential run satisfies. */
  ghost predicate WindowFacts(p: Processor, volumes: seq<seq<int>>, t: nat, w: Selection)
    requires t < |volumes| && t < |p.labels|
  {
    && w.last == t && w.first < t
    && t - w.first >= p.window
    && |w.raw| == t - w.first + 1 >= p.window + 1
    && p.labels[w.first] == 1
    && (w.first == 0 || p.labels[w.first - 1] != 1)
    && (forall k :: w.first <= k <= t ==> p.labels[k] != 0)
    && (forall i :: 0 <= i < |w.raw| ==>
          |volumes[w.first + i]| == |p.mask| && w.raw[i] == Extract(p.mask, volumes[w.first + i]))
  }

  /** After step `t`, every row up to `t` holds its TR's masked volume. */
  lemma StepRowsWritten(p: Processor, volumes: seq<seq<int>>, t: nat, q: Processor, k: nat)
    requires t < |volumes| && p.Valid() && q.Valid() && q.SameConfig(p)
    requires Filled(p, volumes, t, q)
    requires Step(q, t, volumes[t]).Stepped?
    requires k <= t
    ensures |volumes[k]| == |p.mask|
    ensures Step(q, t, volumes[t]).next.buffer[k] == Extract(p.mask, volumes[k])
  {
    StepEffect(q, t, volumes[t]);
  }

  /** The window selected at step `t` from the state the first `t` TRs left behind. */
  lemma StepSelection(p: Processor, volumes: seq<seq<int>>, t: nat, q: Processor)
    requires t < |volumes| && p.Valid() && q.Valid() && q.SameConfig(p)
    requires Filled(p, volumes, t, q)
    requires EpochInvariant(p.labels, t, q.currentEpoch)
    requires Step(q, t, volumes[t]).Stepped? && Step(q, t, volumes[t]).selection.Some?
    ensures WindowFacts(p, volumes, t, Step(q, t, volumes[t]).selection.value)
  {
    StepEffect(q, t, volumes[t]);
    StepIsWriteThenAdvance(q, t, volumes[t]);
    var w := Step(q, t, volumes[t]).selection.value;
    forall i | 0 <= i < |w.raw|
      ensures |volumes[w.first + i]| == |p.mask| && w.raw[i] == Extract(p.mask, volumes[w.first + i])
    {
      StepRowsWritten(p, volumes, t, q, w.first + i);
    }
  }

  /** Under sequential driving every selected window lies in the current epoch, comes
      after the epoch's opening TR, has at least `window + 1` rows, and consists of rows
      that have already been written: row `i` of the window is the masked volume of TR
      `first + i`. No buffer fill value ever enters a window. */
  lemma SelectionWritten(p: Processor, volumes: seq<seq<int>>, t: nat)
    requires p.Valid() && p.currentEpoch == NoEpoch && Run(p, volumes).Running?
    requires t < |volumes| && Run(p, volumes).selections[t].Some?
    ensures |volumes| <= |p.labels|
    ensures WindowFacts(p, volumes, t, Run(p, volumes).selections[t].value)
  {
    RunInvariant(p, volumes, |volumes|);
    RunStepAt(p, volumes, |volumes|, t);
    RunInvariant(p, volumes, t);
    StepSelection(p, volumes, t, RunFirst(p, volumes, t).proc);
  }

  /** A selected window normalises to a matrix of its own shape, `t - first + 1` rows of
      `numVoxels` entries, each divided by the square root of that row count. */
  lemma SelectionShape(p: Processor, volumes: seq<seq<int>>, t: nat)
    requires p.Valid() && p.currentEpoch == NoEpoch && Run(p, volumes).Running?
    requires t < |volumes| && Run(p, volumes).selections[t].Some?
    ensures var w := Run(p, volumes).selections[t].value;
      && |w.normalized| == |w.raw| == t - w.first + 1
      && (forall i :: 0 <= i < |w.normalized| ==> |w.normalized[i]| == p.numVoxels)
      && (forall i, j :: 0 <= i < |w.normalized| && 0 <= j < p.numVoxels ==>
            w.normalized[i][j].rows == t - w.first + 1)
  {
    RunStepAt(p, volumes, |volumes|, t);
    SelectionWritten(p, volumes, t);
    var q := RunFirst(p, volumes, t).proc;
    StepIsWriteThenAdvance(q, t, volumes[t]);
    NormalizeEntries(Step(q, t, volumes[t]).selection.value.raw, p.numVoxels);
  }

  /** Every label of the first `n` TRs is 0 or 1. */
  ghost predicate Binary(labels: seq<int>, n: nat)
  {
    forall k :: 0 <= k < n && k < |labels| ==> labels[k] == 0 || labels[k] == 1
  }

  /** Reference definition of the epoch state after TR `t`, independent of the state
      machine: the first TR of the run of 1-labels that ends at `t`, or `NoEpoch` when
      TR `t` is not labelled 1. */
  function EpochStart(labels: seq<int>, t: nat): (s: int)
    requires t < |labels|
    ensures s == NoEpoch <==> labels[t] != 1
    ensures s != NoEpoch ==>
              && 0 <= s <= t
              && (forall k :: s <= k <= t ==> labels[k] == 1)
              && (s == 0 || labels[s - 1] != 1)
  {
    if labels[t] != 1 then NoEpoch
    else if t == 0 || labels[t - 1] != 1 then t
    else EpochStart(labels, t - 1)
  }

  /** A run of 1-labels from `s` to `t` that is not preceded by a 1 starts at `s`. */
  lemma EpochStartUnique(labels: seq<int>, s: nat, t: nat)
    requires s <= t < |labels|
    requires forall k :: s <= k <= t ==> labels[k] == 1
    requires s == 0 || labels[s - 1] != 1
    ensures EpochStart(labels, t) == s
  {
    // EpochStart's own contract leaves no other value: a smaller start would put the
    // label at s - 1 inside its run of 1-labels, a larger one would need labels[s'-1] != 1
    // inside this one.
  }

  /** With 0/1 labels the state machine tracks the reference exactly: after TRs
      0 .. n-1 the epoch state is the start of the run of 1-labels ending at TR n-1,
      or `NoEpoch` when TR n-1 is labelled 0. */
  lemma RunFollowsReference(p: Processor, volumes: seq<seq<int>>, n: nat)
    requires p.Valid() && p.currentEpoch == NoEpoch
    requires 0 < n <= |volumes| && RunFirst(p, volumes, n).Running?
    requires Binary(p.labels, n)
    ensures n <= |p.labels|
    ensures RunFirst(p, volumes, n).proc.currentEpoch == EpochStart(p.labels, n - 1)
  {
    RunInvariant(p, volumes, n);
    var s := RunFirst(p, volumes, n).proc.currentEpoch;
    if s != NoEpoch {
      EpochStartUnique(p.labels, s, n - 1);
    }
  }

  /** With 0/1 labels, TR `t` selects a window exactly when it is labelled 1, its epoch
      began before `t`, and `t - start >= window`; the window then starts at the
      epoch's first TR and ends at `t`. */
  lemma SelectionIff(p: Processor, volumes: seq<seq<int>>, t: nat)
    requires p.Valid() && p.currentEpoch == NoEpoch && Run(p, volumes).Running?
    requires t < |volumes| && Binary(p.labels, |volumes|)
    ensures t < |p.labels|
    ensures var s := EpochStart(p.labels, t);
      Run(p, volumes).selections[t].Some? <==>
        p.labels[t] == 1 && s < t && t - s >= p.window
    ensures Run(p, volumes).selections[t].Some? ==>
      && Run(p, volumes).selections[t].value.first == EpochStart(p.labels, t)
      && Run(p, volumes).selections[t].value.last == t
  {
    RunInvariant(p, volumes, |volumes|);
    RunStepAt(p, volumes, |volumes|, t);
    var q := RunFirst(p, volumes, t).proc;
    if t > 0 {
      RunFollowsReference(p, volumes, t);
    } else {
      assert q.currentEpoch == NoEpoch;
    }
    StepEffect(q, t, volumes[t]);
  }

  /** Once a run has stopped it stays stopped, with the same exception at the same TR. */
  lemma {:induction false} RunStaysStopped(p: Processor, volumes: seq<seq<int>>, n: nat, m: nat)
    requires p.Valid() && n <= m <= |volumes| && RunFirst(p, volumes, n).Stopped?
    ensures RunFirst(p, volumes, m).Stopped?
    ensures RunFirst(p, volumes, m).fault == RunFirst(p, volumes, n).fault
    ensures RunFirst(p, volumes, m).at == RunFirst(p, volumes, n).at
    decreases m
  {
    if n < m {
      RunStaysStopped(p, volumes, n, m - 1);
    }
  }

  /** TR indices are never clamped or wrapped: a run over volumes with as many voxels as the mask
      completes when the buffer and the label array cover every index. */
  lemma {:induction false} RunCompletes(p: Processor, volumes: seq<seq<int>>, n: nat)
    requires p.Valid() && n <= |volumes|
    requires forall k :: 0 <= k < n ==> |volumes[k]| == |p.mask|
    requires n <= |p.buffer| && n <= |p.labels|
    ensures RunFirst(p, volumes, n).Running?
    decreases n
  {
    if n > 0 {
      RunCompletes(p, volumes, n - 1);
    }
  }

  /** The first TR whose volume has a different voxel count from the mask, or whose index reaches the buffer's
      row count or the label array's length, stops the run with the matching exception. */
  lemma RunStopsAtFirstFault(p: Processor, volumes: seq<seq<int>>, b: nat)
    requires p.Valid() && b < |volumes|
    requires forall k :: 0 <= k < b ==> |volumes[k]| == |p.mask|
    requires b <= |p.buffer| && b <= |p.labels|
    requires |volumes[b]| != |p.mask| || b == |p.buffer| || b == |p.labels|
    ensures Run(p, volumes).Stopped? && Run(p, volumes).at == b
    ensures Run(p, volumes).fault ==
      if |volumes[b]| != |p.mask| then SizeMismatch
      else if b == |p.buffer| then RowOutOfRange
      else LabelOutOfRange
  {
    RunCompletes(p, volumes, b);
    RunFirstNext(p, volumes, b);
    RunStaysStopped(p, volumes, b + 1, |volumes|);
  }

  /** Processing the same TR index again replaces its row: the buffer afterwards is the
      one a single step with the second volume would have produced. */
  lemma StepRewritesRow(p: Processor, t: nat, first: seq<int>, second: seq<int>)
    requires p.Valid() && Step(p, t, first).Stepped? && |second| == |p.mask|
    ensures Step(Step(p, t, first).next, t, second).Stepped?
    ensures Step(Step(p, t, first).next, t, second).next.buffer == Step(p, t, second).next.buffer
  {
    var q := Step(p, t, first).next;
    StepEffect(p, t, first);
    StepEffect(q, t, second);
    StepEffect(p, t, second);
    var a := Step(q, t, second).next.buffer;
    var b := Step(p, t, second).next.buffer;
    assert |a| == |b|;
    forall k | 0 <= k < |a| ensures a[k] == b[k] {
      if k != t {
        assert a[k] == q.buffer[k] == p.buffer[k];
      }
    }
  }

  /** The labels of the growing-window example, `[0, 0, 1, 1, 1, ...]`: idle for two
      TRs, then one epoch to the end. */
  predicate ExampleLabels(labels: seq<int>)
  {
    && |labels| >= 2
    && labels[0] == 0 && labels[1] == 0
    && forall k :: 2 <= k < |labels| ==> labels[k] == 1
  }

  /** The epoch of the growing-window example starts at TR 2. */
  lemma ExampleEpochStart(labels: seq<int>, t: nat)
    requires ExampleLabels(labels) && t < |labels|
    ensures EpochStart(labels, t) == if t < 2 then NoEpoch else 2
  {
    if t >= 2 {
      EpochStartUnique(labels, 2, t);
    }
  }

  /** Labels `[0, 0, 1, 1, ...]` with `window = 8`: TRs 0 to 9 select nothing, and every
      later TR `t` selects the growing window [2, t], of `t - 1` rows; the first is
      [2, 10], then [2, 11], and so on. */
  lemma GrowingWindowExample(p: Processor, volumes: seq<seq<int>>, t: nat)
    requires p.Valid() && p.currentEpoch == NoEpoch
    requires ExampleLabels(p.labels) && p.window == 8
    requires Run(p, volumes).Running? && t < |volumes|
    ensures Run(p, volumes).selections[t].Some? <==> t >= 10
    ensures Run(p, volumes).selections[t].Some? ==>
      var w := Run(p, volumes).selections[t].value;
      w.first == 2 && w.last == t && |w.raw| == t - 1
  {
    RunInvariant(p, volumes, |volumes|);
    assert Binary(p.labels, |volumes|);
    SelectionIff(p, volumes, t);
    ExampleEpochStart(p.labels, t);
    if Run(p, volumes).selections[t].Some? {
      SelectionWritten(p, volumes, t);
    }
  }

  /** An epoch whose labels drop back to 0 before the threshold selects no window and
      leaves the processor idle: labels `[0, 1, 1, 0]` with `window = 8`. */
  lemma EarlyDropExample(p: Processor, volumes: seq<seq<int>>)
    requires p.Valid() && p.currentEpoch == NoEpoch
    requires p.labels == [0, 1, 1, 0] && p.window == 8
    requires |volumes| == 4 <= |p.buffer|
    requires forall k :: 0 <= k < 4 ==> |volumes[k]| == |p.mask|
    ensures Run(p, volumes).Running?
    ensures forall t :: 0 <= t < 4 ==> Run(p, volumes).selections[t].None?
    ensures Run(p, volumes).proc.currentEpoch == NoEpoch
  {
    RunCompletes(p, volumes, |volumes|);
    RunInvariant(p, volumes, |volumes|);
    forall t | 0 <= t < 4 ensures Run(p, volumes).selections[t].None? {
      if Run(p, volumes).selections[t].Some? {
        SelectionWritten(p, volumes, t);
      }
    }
  }
}
