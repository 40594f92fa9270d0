/** The voxel mask: which coordinates of a volume are kept, and how a volume is
    reduced to the vector of its masked voxels (`data[mask > 0]` in the processor).
    Volumes and masks are taken in their flattened, row-major form. */
module MaskExtraction {

  /** The positions below `n` where `mask` holds a value greater than zero, in
      increasing order. */
  function PositiveBelow(mask: seq<int>, n: nat): (idx: seq<nat>)
    requires n <= |mask|
    ensures |idx| <= n
    decreases n
  {
    if n == 0 then []
    else PositiveBelow(mask, n - 1) + (if mask[n - 1] > 0 then [n - 1] else [])
  }

  /** All positions of `mask` holding a value greater than zero, in increasing order:
      the flattened form of `np.where(mask > 0)`. */
  function PositiveIndices(mask: seq<int>): (idx: seq<nat>)
    ensures |idx| <= |mask|
  {
    PositiveBelow(mask, |mask|)
  }

  /** Every entry of the index list below `n` is a position below `n` whose mask value
      is greater than zero, and the entries increase strictly. */
  lemma {:induction false} PositiveBelowSound(mask: seq<int>, n: nat)
    requires n <= |mask|
    ensures forall k :: 0 <= k < |PositiveBelow(mask, n)| ==>
              PositiveBelow(mask, n)[k] < n && mask[PositiveBelow(mask, n)[k]] > 0
    ensures forall k, l :: 0 <= k < l < |PositiveBelow(mask, n)| ==>
              PositiveBelow(mask, n)[k] < PositiveBelow(mask, n)[l]
    decreases n
  {
    if n > 0 {
      PositiveBelowSound(mask, n - 1);
      var prefix := PositiveBelow(mask, n - 1);
      assert forall k :: 0 <= k < |prefix| ==> prefix[k] < n - 1;
    }
  }

  /** Every position below `n` whose mask value is greater than zero is in the index
      list below `n`. */
  lemma {:induction false} PositiveBelowComplete(mask: seq<int>, n: nat)
    requires n <= |mask|
    ensures forall i :: 0 <= i < n && mask[i] > 0 ==> i in PositiveBelow(mask, n)
    decreases n
  {
    if n > 0 {
      PositiveBelowComplete(mask, n - 1);
      var prefix := PositiveBelow(mask, n - 1);
      var idx := PositiveBelow(mask, n);
      forall i | 0 <= i < n && mask[i] > 0 ensures i in idx {
        if i < n - 1 {
          var k :| 0 <= k < |prefix| && prefix[k] == i;
          assert idx[k] == i;
        } else {
          assert idx[|idx| - 1] == i;
        }
      }
    }
  }

  /** The index list holds exactly the positions of positive mask entries, each once,
      in increasing order. */
  lemma PositiveIndicesSpec(mask: seq<int>)
    ensures var idx := PositiveIndices(mask);
      && (forall k :: 0 <= k < |idx| ==> idx[k] < |mask| && mask[idx[k]] > 0)
      && (forall k, l :: 0 <= k < l < |idx| ==> idx[k] < idx[l])
      && (forall i :: 0 <= i < |mask| && mask[i] > 0 ==> i in idx)
  {
    PositiveBelowSound(mask, |mask|);
    PositiveBelowComplete(mask, |mask|);
  }

  /** The number of mask entries greater than zero, counted as a set of positions. */
  function CountPositive(mask: seq<int>): (c: nat)
  {
    |set i | 0 <= i < |mask| && mask[i] > 0|
  }

  /** The distinct values of a sequence of positions. */
  function Elements(s: seq<nat>): (e: set<nat>)
  {
    set x | x in s
  }

  /** A strictly increasing sequence has as many distinct elements as it has entries. */
  lemma {:induction false} IncreasingCard(s: seq<nat>)
    requires forall k, l :: 0 <= k < l < |s| ==> s[k] < s[l]
    ensures |Elements(s)| == |s|
  {
    if |s| > 0 {
      var n := |s| - 1;
      var init := s[..n];
      IncreasingCard(init);
      assert s[n] !in Elements(init) by {
        forall k | 0 <= k < n ensures init[k] < s[n] {
          assert init[k] == s[k];
        }
      }
      assert Elements(s) == Elements(init) + {s[n]} by {
        assert s == init + [s[n]];
      }
    }
  }

  /** The length of the index list, which is what the processor takes as the voxel
      count, is the number of mask entries greater than zero. */
  lemma PositiveIndicesCount(mask: seq<int>)
    ensures |PositiveIndices(mask)| == CountPositive(mask)
  {
    var idx := PositiveIndices(mask);
    PositiveIndicesSpec(mask);
    IncreasingCard(idx);
    assert Elements(idx) == (set i | 0 <= i < |mask| && mask[i] > 0);
  }

  /** The masked values of `volume` at positions below `n`. */
  function ExtractBelow(mask: seq<int>, volume: seq<int>, n: nat): (v: seq<int>)
    requires |volume| == |mask| && n <= |mask|
    ensures |v| == |PositiveBelow(mask, n)|
    decreases n
  {
    if n == 0 then []
    else ExtractBelow(mask, volume, n - 1) + (if mask[n - 1] > 0 then [volume[n - 1]] else [])
  }

  /** The masked voxel vector of `volume`: its values at the positions where `mask` is
      greater than zero, in increasing position order. The ordering depends on the mask
      alone, so voxel `k` names the same physical location for every volume. */
  function Extract(mask: seq<int>, volume: seq<int>): (v: seq<int>)
    requires |volume| == |mask|
    ensures |v| == |PositiveIndices(mask)|
  {
    ExtractBelow(mask, volume, |mask|)
  }

  /** Entry `k` of the values below `n` is the volume's value at the `k`-th positive
      mask position. */
  lemma {:induction false} ExtractBelowSpec(mask: seq<int>, volume: seq<int>, n: nat)
    requires |volume| == |mask| && n <= |mask|
    ensures var idx := PositiveBelow(mask, n);
      forall k :: 0 <= k < |idx| ==> idx[k] < |volume| && ExtractBelow(mask, volume, n)[k] == volume[idx[k]]
    decreases n
  {
    PositiveBelowSound(mask, n);
    if n > 0 {
      ExtractBelowSpec(mask, volume, n - 1);
    }
  }

  /** Entry `k` of the masked vector is the volume's value at the `k`-th positive mask
      position. */
  lemma ExtractSpec(mask: seq<int>, volume: seq<int>)
    requires |volume| == |mask|
    ensures var idx := PositiveIndices(mask);
      forall k :: 0 <= k < |idx| ==> idx[k] < |volume| && Extract(mask, volume)[k] == volume[idx[k]]
  {
    ExtractBelowSpec(mask, volume, |mask|);
    var idx := PositiveIndices(mask);
    assert idx == PositiveBelow(mask, |mask|);
    assert Extract(mask, volume) == ExtractBelow(mask, volume, |mask|);
  }

  /** Two volumes that agree on every masked position have the same masked vector;
      values outside the mask never reach the buffer. */
  lemma ExtractIgnoresUnmasked(mask: seq<int>, a: seq<int>, b: seq<int>)
    requires |a| == |mask| && |b| == |mask|
    requires forall i :: 0 <= i < |mask| && mask[i] > 0 ==> a[i] == b[i]
    ensures Extract(mask, a) == Extract(mask, b)
  {
    var idx := PositiveIndices(mask);
    PositiveIndicesSpec(mask);
    ExtractSpec(mask, a);
    ExtractSpec(mask, b);
    assert forall k :: 0 <= k < |idx| ==> a[idx[k]] == b[idx[k]];
  }
}
