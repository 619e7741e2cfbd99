/**
 * Index selection of the training script's older batch sources.
 * `SquadSequence` serves batch `idx` as the slice `idx*b .. (idx+1)*b` of a
 * random permutation, redrawn at the end of each epoch; `SquadTestGenerator`
 * cuts `range(n)` into consecutive chunks of `b`.  Neither wraps around.
 */
module Legacy {
  import opened Common

  /** Python's `range(lo, n, b)` for a positive step. */
  function StepRange(lo: nat, n: nat, b: nat): (r: seq<nat>)
    requires b > 0
    ensures lo < n ==> |r| == Steps(n - lo, b)
    ensures lo >= n ==> r == []
    decreases n - lo
  {
    if lo >= n then [] else [lo] + StepRange(lo + b, n, b)
  }

  /** The k-th start is `lo + k*b`. */
  lemma {:induction false} StepRangeAt(lo: nat, n: nat, b: nat, k: nat)
    requires b > 0 && k < |StepRange(lo, n, b)|
    ensures StepRange(lo, n, b)[k] == lo + k * b
    decreases n - lo
  {
    if k > 0 {
      StepRangeAt(lo + b, n, b, k - 1);
      assert (k - 1) * b + b == k * b;
    }
  }

  /** `[s[i:i + b] for i in range(lo, len(s), b)]`. */
  function ChunksFrom<T>(s: seq<T>, lo: nat, b: nat): (r: seq<seq<T>>)
    requires b > 0
  {
    var starts := StepRange(lo, |s|, b);
    seq(|starts|, k requires 0 <= k < |starts| => Slice(s, starts[k], starts[k] + b))
  }

  /** One chunk, then the chunks after it. */
  lemma ChunksFromUnfold<T>(s: seq<T>, lo: nat, b: nat)
    requires b > 0 && lo < |s|
    ensures ChunksFrom(s, lo, b) == [Slice(s, lo, lo + b)] + ChunksFrom(s, lo + b, b)
  {
    var starts := StepRange(lo, |s|, b);
    assert starts == [lo] + StepRange(lo + b, |s|, b);
    var rest := ChunksFrom(s, lo + b, b);
    assert |ChunksFrom(s, lo, b)| == 1 + |rest|;
    forall k | 1 <= k < |starts|
      ensures ChunksFrom(s, lo, b)[k] == rest[k - 1]
    {
      assert starts[k] == StepRange(lo + b, |s|, b)[k - 1];
    }
  }

  /** The chunks from `lo` concatenate to `s[lo..]`. */
  lemma {:induction false} ChunksFromFlatten<T>(s: seq<T>, lo: nat, b: nat)
    requires b > 0 && lo < |s|
    ensures Flatten(ChunksFrom(s, lo, b)) == s[lo..]
    decreases |s| - lo
  {
    ChunksFromUnfold(s, lo, b);
    var rest := ChunksFrom(s, lo + b, b);
    if lo + b >= |s| {
      assert rest == [];
      assert Slice(s, lo, lo + b) == s[lo..];
      assert Flatten(ChunksFrom(s, lo, b)) == Slice(s, lo, lo + b) + Flatten(rest);
    } else {
      ChunksFromFlatten(s, lo + b, b);
      assert Flatten(ChunksFrom(s, lo, b)) == Slice(s, lo, lo + b) + Flatten(rest);
      assert s[lo..] == s[lo..lo + b] + s[lo + b..];
    }
  }

  /**
   * There are `Steps` chunks from `lo`; each has `b` entries except the
   * last, which has the `b - TopUp` that remain.
   */
  lemma {:induction false} ChunksFromSizes<T>(s: seq<T>, lo: nat, b: nat)
    requires b > 0 && lo < |s|
    ensures var c := ChunksFrom(s, lo, b);
      && |c| == Steps(|s| - lo, b)
      && (forall k :: 0 <= k < |c| - 1 ==> |c[k]| == b)
      && |c[|c| - 1]| == b - TopUp(|s| - lo, b)
    decreases |s| - lo
  {
    var c := ChunksFrom(s, lo, b);
    ChunksFromUnfold(s, lo, b);
    var rest := ChunksFrom(s, lo + b, b);
    assert c[0] == Slice(s, lo, lo + b) && c[1..] == rest;
    if lo + b >= |s| {
      assert rest == [];
      assert |c| == 1;
    } else {
      ChunksFromSizes(s, lo + b, b);
      assert |s| - (lo + b) == |s| - lo - b;
      assert forall k :: 1 <= k < |c| ==> c[k] == rest[k - 1];
    }
  }

  /** Both facts about the chunks from `lo`. */
  lemma ChunksFromFacts<T>(s: seq<T>, lo: nat, b: nat)
    requires b > 0 && lo < |s|
    ensures Flatten(ChunksFrom(s, lo, b)) == s[lo..]
    ensures var c := ChunksFrom(s, lo, b);
      && |c| == Steps(|s| - lo, b)
      && (forall k :: 0 <= k < |c| - 1 ==> |c[k]| == b)
      && |c[|c| - 1]| == b - TopUp(|s| - lo, b)
  {
    ChunksFromFlatten(s, lo, b);
    ChunksFromSizes(s, lo, b);
  }

  /** `SquadTestGenerator._indices`; `range` refuses a step of 0. */
  function TestIndices(n: nat, b: nat): (r: Option<seq<seq<nat>>>)
    ensures r.None? <==> b == 0
  {
    if b == 0 then None else Some(ChunksFrom(Range(0, n), 0, b))
  }

  /**
   * The test generator's chunks concatenate to `0 .. n-1`; there are
   * `ceil(n/b)` of them, as `len` says; all hold `b` indices but the last,
   * which holds the remaining `n - (ceil(n/b) - 1)*b`.
   */
  lemma TestIndicesFacts(n: nat, b: nat)
    requires n > 0 && b > 0
    ensures var c := TestIndices(n, b).value;
      && Flatten(c) == Range(0, n)
      && |c| == CeilDiv(n, b)
      && (forall k :: 0 <= k < |c| - 1 ==> |c[k]| == b)
      && |c[|c| - 1]| == n - (|c| - 1) * b
  {
    var c := ChunksFrom(Range(0, n), 0, b);
    ChunksFromFacts(Range(0, n), 0, b);
    assert |Range(0, n)| - 0 == n;
    assert Range(0, n)[0..] == Range(0, n);
    StepsIsCeilDiv(n, b);
    LastBatchSize(n, b);
    assert |c[|c| - 1]| == n - (Steps(n, b) - 1) * b;
  }

  /** With no records there are no chunks. */
  lemma TestIndicesEmpty(b: nat)
    requires b > 0
    ensures TestIndices(0, b) == Some([])
  {
    assert |ChunksFrom(Range(0, 0), 0, b)| == |StepRange(0, 0, b)| == 0;
  }

  /** `len(generator)` and `len(sequence)`: `ceil(n / b)`, a division by zero for `b == 0`. */
  function BatchCount(n: nat, b: nat): (q: Option<nat>)
    ensures q.Some? <==> b > 0
    ensures q.Some? ==> n <= q.value * b && (q.value > 0 ==> (q.value - 1) * b < n)
  {
    if b == 0 then None else Some(CeilDiv(n, b))
  }

  /** `self._indices[idx * b:(idx + 1) * b]` for a non-negative batch number. */
  function BatchAt(indices: seq<nat>, b: nat, idx: nat): seq<nat>
  {
    Slice(indices, idx * b, (idx + 1) * b)
  }

  /** Batch `idx` of the sequence is chunk `idx` of its permutation, so no batch wraps. */
  lemma BatchIsChunk(indices: seq<nat>, b: nat, idx: nat)
    requires b > 0 && idx < |ChunksFrom(indices, 0, b)|
    ensures BatchAt(indices, b, idx) == ChunksFrom(indices, 0, b)[idx]
  {
    StepRangeAt(0, |indices|, b, idx);
    assert (idx + 1) * b == idx * b + b;
  }

  /**
   * One epoch of `SquadSequence`: the batches `0 .. len-1` are the positions
   * `idx*b .. min((idx+1)*b, n)-1` of the permutation, and together they
   * serve every record exactly once, in the order of the permutation.
   */
  lemma EpochServesEachOnce(indices: seq<nat>, b: nat, n: nat)
    requires IsPermutation(indices, n) && n > 0 && b > 0
    ensures var batches := seq(CeilDiv(n, b), idx requires 0 <= idx < CeilDiv(n, b) => BatchAt(indices, b, idx));
      && Flatten(batches) == indices
      && multiset(Flatten(batches)) == multiset(Range(0, n))
  {
    PermutationContents(indices, n);
    ChunksFromFacts(indices, 0, b);
    StepsIsCeilDiv(n, b);
    var c := ChunksFrom(indices, 0, b);
    var batches := seq(CeilDiv(n, b), idx requires 0 <= idx < CeilDiv(n, b) => BatchAt(indices, b, idx));
    forall idx | 0 <= idx < |c|
      ensures batches[idx] == c[idx]
    {
      BatchIsChunk(indices, b, idx);
    }
    assert batches == c;
    assert indices[0..] == indices;
  }

  /** Keras's `Sequence` over the training file's record indices. */
  class SquadSequence {
    const total: nat
    const batchSize: nat
    var indices: seq<nat>

    ghost predicate Valid()
      reads this
    {
      IsPermutation(indices, total)
    }

    /** `__init__` for a file of `total + 1` lines, drawing the first permutation `perm`. */
    constructor (total: nat, batchSize: nat, perm: seq<nat>)
      requires IsPermutation(perm, total)
      ensures this.total == total && this.batchSize == batchSize && indices == perm
      ensures Valid()
    {
      this.total := total;
      this.batchSize := batchSize;
      indices := perm;
    }

    /** `len(sequence)`. */
    function Length(): (q: Option<nat>)
      reads this
      ensures q == BatchCount(total, batchSize)
      ensures q.Some? ==> total <= q.value * batchSize
    {
      BatchCount(total, batchSize)
    }

    /**
     * The record indices `sequence[idx]` reads: positions
     * `idx*b .. min((idx+1)*b, total)-1` of the permutation, in order and
     * without wrapping, so batch `idx` is chunk `idx` of `EpochServesEachOnce`.
     */
    function Batch(idx: nat): (r: seq<nat>)
      reads this
      requires Valid()
      ensures r == BatchAt(indices, batchSize, idx)
      ensures forall k :: 0 <= k < |r| ==> r[k] == indices[idx * batchSize + k]
      ensures forall k :: 0 <= k < |r| ==> r[k] in indices && r[k] < total
      ensures idx * batchSize <= total ==> |r| == Min((idx + 1) * batchSize, total) - idx * batchSize
      ensures idx * batchSize >= total ==> r == []
    {
      PermutationContents(indices, total);
      var lo := idx * batchSize;
      assert (idx + 1) * batchSize == lo + batchSize;
      var r := Slice(indices, lo, lo + batchSize);
      assert forall k :: 0 <= k < |r| ==> r[k] == indices[lo + k] && r[k] in indices;
      r
    }

    /** `on_epoch_end`: a fresh permutation `perm`. */
    method OnEpochEnd(perm: seq<nat>)
      requires IsPermutation(perm, total)
      modifies this
      ensures indices == perm && Valid()
    {
      indices := perm;
    }
  }
}
