# Single-TR processor of the real-time fMRI pipeline, in Dafny

This project models the core of the real-time processor. A `SingleTRProcessor` is
built from four things:

- an epoch label array, with one label per TR;
- a voxel mask;
- a buffer size `total`;
- a window threshold.

It allocates a zero buffer of `total` rows by `num_voxels` columns, and starts idle
(`current_epoch = -1`). The file watcher then calls `process_single_tr_nifti` once for
each TR, with the indices 0, 1, 2, …. Each call does three things:

1. It writes the masked voxels of the TR's volume into buffer row `t`.
2. It advances the epoch state machine:
   - when idle, a label of 1 opens an epoch at `t`;
   - when active, a label of 0 closes the epoch.
3. While an epoch is open and `t - start >= window`, it takes buffer rows `start`
   through `t`, z-scores each voxel column, and divides the result by the square root
   of the row count.

The modules follow that structure:

- `MaskExtraction`: the mask's positive positions and `data[mask > 0]`.
- `Normalization`: the shape of the normalised window. Each entry is kept symbolically
  as the column, row and row count it is computed from.
- `SingleTR`: the processor state, its construction, one step, and the exceptions a
  step can raise.
- `Driver`: the watcher's sequential driving over TRs 0, 1, 2, …, and what the epoch
  state and the selected windows are under it.

The window is not a fixed-size sliding window. The code slices
`raw_data[current_epoch : tr_count + 1]` (process_single_tr.py:33), so the window grows
from the epoch's first TR. It is selected once `tr_count - current_epoch >= window`
(process_single_tr.py:31), so every selected window has at least `window + 1` rows.
`Driver.GrowingWindowExample` states this for labels `[0, 0, 1, 1, …]` with
`window = 8`. The first window is TRs [2, 10], and every later TR `t` selects [2, t].

Labels are integers, as the numpy array's values are. The idle branch tests `== 1` and
the active branch tests `== 0`, so any other label keeps the current state. The exact
characterisation against a reference definition (`Driver.SelectionIff`) assumes 0/1
labels. The invariants of `Driver.RunInvariant` hold for any labels.

## Model

| member | source | states |
|---|---|---|
| MaskExtraction.PositiveIndicesSpec | process_single_tr.py:15 | the positions `np.where(mask > 0)` yields are exactly the positive mask positions, each once, in increasing order |
| MaskExtraction.PositiveBelowSound | process_single_tr.py:15 | every listed position below `n` is in range and has a positive mask value, and the list increases strictly |
| MaskExtraction.PositiveBelowComplete | process_single_tr.py:15 | every positive mask position below `n` is listed |
| MaskExtraction.IncreasingCard | process_single_tr.py:15 | a strictly increasing list of positions has as many distinct positions as entries |
| MaskExtraction.PositiveIndicesCount | process_single_tr.py:15 | `num_voxels`, the length of the index list, equals the number of mask entries greater than zero |
| MaskExtraction.Extract | process_single_tr.py:24 | `data[mask > 0]` has `num_voxels` entries |
| MaskExtraction.ExtractBelowSpec | process_single_tr.py:24 | entry `k` of the masked values below `n` is the volume's value at the `k`-th positive mask position |
| MaskExtraction.ExtractSpec | process_single_tr.py:24 | entry `k` of the masked vector is the volume's value at the `k`-th positive mask position |
| MaskExtraction.ExtractIgnoresUnmasked | process_single_tr.py:24 | values outside the mask never reach the buffer: volumes that agree on the mask give the same row |
| Normalization.Normalize | process_single_tr.py:34-38 | the normalised window has the raw window's shape: `|m|` rows of `width` entries |
| Normalization.NormalizeKeepsRawValue | process_single_tr.py:34-38 | the series an entry is standardised against holds that entry's raw value at its row |
| Normalization.NormalizeIsColumnwise | process_single_tr.py:34 | z-scoring with `axis=0` is per voxel: windows that agree on column j agree on normalised column j |
| SingleTR.Init | process_single_tr.py:10-17 | a negative `total` raises, and nothing else does; otherwise the processor is idle, has `total` all-zero rows of `num_voxels` entries, and keeps the labels, mask and window |
| SingleTR.Slice | process_single_tr.py:33 | Python slicing `rows[lo:hi]`: rows `lo .. hi-1` in order, or empty when `hi <= lo` |
| SingleTR.Write | process_single_tr.py:24 | the row assignment puts the masked volume in row `t`, leaves every other row, the epoch state and the configuration unchanged, and keeps the buffer rectangular |
| SingleTR.Advance | process_single_tr.py:26-38 | the epoch transitions; a window is selected iff the epoch is open, the label is not 0 and `t - current_epoch >= window`; the window is buffer rows `current_epoch .. t` with its normalisation |
| SingleTR.Step | process_single_tr.py:20-38 | which exception a call raises and when: a volume whose voxel count differs from the mask's first, then a row index past the buffer, then a label index past the epoch array; the configuration never changes |
| SingleTR.StepEffect | process_single_tr.py:22-33 | a call that raises before the assignment changes nothing; a label-index error leaves row `t` written; the epoch transitions; when a window is selected, and that it spans `current_epoch .. t` |
| Driver.RunFirst | nifti_file_watcher.py:19-33 | feeding TRs 0 .. n-1 in order keeps the processor valid and configured, records one selection per TR, or stops at a TR below `n` |
| Driver.Run | nifti_file_watcher.py:19-33 | the same for every volume the watcher receives |
| Driver.RunPrefix | nifti_file_watcher.py:19-33 | a completed run also completes on every prefix, with the same selections |
| Driver.RunStepAt | nifti_file_watcher.py:27-33 | in a completed run, the call for TR `t` raised nothing, started from the state the earlier TRs left behind, and produced the selection recorded for `t` |
| Driver.StepKeepsEpochInvariant | process_single_tr.py:26-30 | one call keeps the epoch invariant: an open epoch starts at a label-1 TR not preceded by a 1, with no 0 label since |
| Driver.StepKeepsFilled | process_single_tr.py:24 | one call extends the written rows by row `t` and leaves the later rows alone |
| Driver.RunInvariant | process_single_tr.py:24-30 | after TRs 0 .. n-1, rows 0 .. n-1 hold their masked volumes, later rows still hold their initial values, and the epoch invariant holds |
| Driver.StepRowsWritten | process_single_tr.py:24 | after the call for TR `t`, every row up to `t` holds its TR's masked volume |
| Driver.StepSelection | process_single_tr.py:31-33 | a window selected by the call for TR `t`, from the state TRs 0 .. t-1 left behind, starts at an epoch opening before `t`, has at least `window + 1` rows, and its row i is the masked volume of TR `first + i` |
| Driver.SelectionWritten | process_single_tr.py:31-33 | every selected window starts at the epoch's opening TR, before `t`, has at least `window + 1` rows, spans only TRs with nonzero labels, and consists only of rows already written: row i is the masked volume of TR `first + i` |
| Driver.SelectionShape | process_single_tr.py:33-38 | a selected window normalises to `t - first + 1` rows of `num_voxels` entries, each scaled by the square root of that row count |
| Driver.EpochStart | process_single_tr.py:26-30 | reference epoch state: the first TR of the run of 1-labels ending at `t`, or `-1` iff TR `t` is not labelled 1 |
| Driver.EpochStartUnique | process_single_tr.py:26-30 | a run of 1-labels from `s` to `t` that is not preceded by a 1 has reference start `s` |
| Driver.RunFollowsReference | process_single_tr.py:26-30 | with 0/1 labels the state machine's `current_epoch` after TRs 0 .. n-1 equals the reference start for TR n-1 |
| Driver.SelectionIff | process_single_tr.py:26-33 | with 0/1 labels, TR `t` selects a window iff it is labelled 1, its epoch began before `t` and `t - start >= window`; the window is then [start, t] |
| Driver.RunStaysStopped | nifti_file_watcher.py:27-33 | once a call has raised, the run stays stopped with the same exception at the same TR |
| Driver.RunCompletes | nifti_file_watcher.py:19-33 | a run over volumes with as many voxels as the mask completes whenever the buffer and the label array cover every TR index |
| Driver.RunStopsAtFirstFault | process_single_tr.py:22-27 | the first TR whose volume has a different voxel count from the mask, or whose index reaches the buffer size or the label count, stops the run with the matching exception |
| Driver.StepRewritesRow | process_single_tr.py:24 | handling the same TR index twice leaves the buffer as if only the second volume had been handled |
| Driver.ExampleEpochStart | process_single_tr.py:26-28 | for labels `[0, 0, 1, 1, …]` the reference epoch starts at TR 2 from TR 2 on |
| Driver.GrowingWindowExample | process_single_tr.py:31-33 | labels `[0, 0, 1, 1, …]` with window 8: no selection before TR 10; from TR 10 on, TR `t` selects the growing window [2, t] of `t - 1` rows |
| Driver.EarlyDropExample | process_single_tr.py:29-31 | labels `[0, 1, 1, 0]` with window 8: an epoch that ends before the threshold selects nothing, and the processor ends idle |

## Left out

- SingleTR.Step: a volume is compared with the mask by element count only. numpy also rejects a volume with the same number of elements but a different shape (a 1x4 volume against a 2x2 mask raises IndexError at process_single_tr.py:24); the model writes such a volume, because volumes and masks are flattened.
- Loading the epoch file, the mask and each volume (`np.load`, `nib.load`) is left out. Labels, the mask and volumes are given as values. A mask or volume is flattened in row-major order.
- The file watcher's inotify loop, its timing, and its directory handling are left out. Only its TR counter (start at 0, add 1 after each file) is modelled, by `Driver.RunFirst`.
- The command-line defaults (`window` 8, `total` 1500) are left out. They are parameters of `SingleTR.Init`.
- Floating point is left out: voxel values are integers. The `float32` buffer type and its rounding on assignment are not modelled.
- `Normalization.Normalize`: the numerical results of `zscore`, `nan_to_num` and the division by `sqrt` are not computed. Each entry is kept as the column, row and row count it is computed from. So the contract fixes which values an entry depends on, but not the value.
- Logging is left out.
- The commented-out prediction step (lines 39-41) is left out.
- Python's negative indexing is not modelled. The TR index is a natural number, because the watcher's counter starts at 0 and only increases. An index past the end raises `RowOutOfRange` or `LabelOutOfRange`.
- The `total` attribute is not stored separately. It is the buffer's row count.
- A mask value that is not a number is not modelled. `mask > 0` is taken as integer comparison.
