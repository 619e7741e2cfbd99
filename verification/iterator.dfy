/**
 * `SquadIterator`: an endless stream of fixed-size batches over a dataset,
 * visiting the records in a random order and reshuffling the order whenever
 * the cursor runs past its end, topping the batch up from the fresh order.
 * The random permutations are parameters: `reset` receives the new order and
 * each `next` receives the result of shuffling the current order in place,
 * which only a wrapping call uses.
 */
module Batching {
  import opened Common

  /** The iterator's mutable state: `_current_position` and `_order`. */
  datatype Cursor = Cursor(position: nat, order: seq<nat>)

  /** What one `next` takes from the order and the cursor it leaves. */
  datatype Step = Step(picked: seq<nat>, next: Cursor)

  /**
   * One `__next__` over a dataset of `n` records with batch size `b`:
   * `order[i:i+b]`, and when `i+b >= n` the shuffled order replaces the old
   * one and its first `i+b-n` entries complete the batch.
   */
  function NextStep(c: Cursor, b: nat, n: nat, shuffled: seq<nat>): (s: Step)
    ensures c.position + b < n ==> s.next == Cursor(c.position + b, c.order)
    ensures c.position + b >= n ==> s.next == Cursor(c.position + b - n, shuffled)
  {
    var i := c.position;
    var iEnd := i + b;
    var head := Slice(c.order, i, iEnd);
    if iEnd >= n then
      var rest := iEnd - n;
      Step(head + (if rest > 0 then Slice(shuffled, 0, rest) else []), Cursor(rest, shuffled))
    else
      Step(head, Cursor(iEnd, c.order))
  }

  /**
   * From a cursor inside a permutation with `b <= n`, a step returns exactly
   * `b` entries, the new cursor stays below `n` (`pos + b` without a wrap,
   * `pos + b - n` after one, so `pos + b == n` wraps to 0 with no top-up), and
   * the order stays a permutation; every entry indexes a record.
   */
  lemma NextStepFacts(c: Cursor, b: nat, n: nat, shuffled: seq<nat>)
    requires IsPermutation(c.order, n) && IsPermutation(shuffled, n)
    requires c.position < n && b <= n
    ensures var s := NextStep(c, b, n, shuffled);
      && |s.picked| == b
      && s.next.position < n
      && IsPermutation(s.next.order, n)
      && (c.position + b == n ==> s.next.position == 0 && s.picked == c.order[c.position..])
      && (forall k :: 0 <= k < |s.picked| ==> s.picked[k] < n)
  {
    PermutationContents(c.order, n);
    PermutationContents(shuffled, n);
    NextStepBelow(c, b, n, shuffled);
  }

  /** Whatever the cursor, a step only picks entries of the two orders, all below `n`. */
  lemma NextStepBelow(c: Cursor, b: nat, n: nat, shuffled: seq<nat>)
    requires IsPermutation(c.order, n) && IsPermutation(shuffled, n)
    ensures forall k :: 0 <= k < |NextStep(c, b, n, shuffled).picked| ==> NextStep(c, b, n, shuffled).picked[k] < n
  {
    PermutationContents(c.order, n);
    PermutationContents(shuffled, n);
    var s := NextStep(c, b, n, shuffled);
    var head := Slice(c.order, c.position, c.position + b);
    forall k | 0 <= k < |s.picked|
      ensures s.picked[k] < n
    {
      if k < |head| {
        assert s.picked[k] == c.order[c.position + k] && c.order[c.position + k] in c.order;
      } else {
        assert s.picked[k] == shuffled[k - |head|] && shuffled[k - |head|] in shuffled;
      }
    }
  }

  /** Entries taken from one order before it is replaced are pairwise distinct. */
  lemma PickedDistinct(c: Cursor, b: nat, n: nat, shuffled: seq<nat>)
    requires IsPermutation(c.order, n)
    requires c.position + b < n
    ensures NoDup(NextStep(c, b, n, shuffled).picked)
  {
    PermutationContents(c.order, n);
    PermutationNoDup(c.order, n);
    var p := NextStep(c, b, n, shuffled).picked;
    assert p == c.order[c.position..c.position + b];
    forall i, j | 0 <= i < j < |p|
      ensures p[i] != p[j]
    {
      assert p[i] == c.order[c.position + i] && p[j] == c.order[c.position + j];
    }
  }

  /** A permutation of 0 .. n-1 repeats no entry. */
  lemma PermutationNoDup(s: seq<nat>, n: nat)
    requires IsPermutation(s, n)
    ensures NoDup(s)
  {
    var r := Range(0, n);
    forall x | x in multiset(s)
      ensures multiset(s)[x] <= 1
    {
      if 0 <= x < n {
        RangeCountOne(n, x);
      }
    }
    forall i, j | 0 <= i < j < |s|
      ensures s[i] != s[j]
    {
      if s[i] == s[j] {
        TwoOccurrences(s, i, j);
      }
    }
  }

  /** An index below n occurs once in `range(n)`. */
  lemma {:induction false} RangeCountOne(n: nat, x: nat)
    requires x < n
    ensures multiset(Range(0, n))[x] == 1
  {
    if n == x + 1 {
      assert Range(0, n) == Range(0, x) + [x];
      assert x !in Range(0, x);
    } else {
      RangeCountOne(n - 1, x);
      assert Range(0, n) == Range(0, n - 1) + [n - 1];
    }
  }

  /** An entry at two positions is counted at least twice. */
  lemma TwoOccurrences(s: seq<nat>, i: nat, j: nat)
    requires i < j < |s| && s[i] == s[j]
    ensures multiset(s)[s[i]] >= 2
  {
    assert s == s[..i] + [s[i]] + s[i + 1..j] + [s[j]] + s[j + 1..];
  }

  /**
   * `n` consecutive `next` calls, the k-th receiving `shuffles[k]` as the
   * result of its potential reshuffle; the list of index batches.
   */
  function Run(c: Cursor, b: nat, n: nat, shuffles: seq<seq<nat>>): (r: seq<seq<nat>>)
    ensures |r| == |shuffles|
    decreases |shuffles|
  {
    if shuffles == [] then []
    else
      var s := NextStep(c, b, n, shuffles[0]);
      [s.picked] + Run(s.next, b, n, shuffles[1..])
  }

  /**
   * From position p of an order over n records, the next `ceil((n-p)/b)`
   * batches consist of the rest of the order followed by the first
   * entries of the last step's reshuffled order.
   */
  lemma {:induction false} RunFrom(p: nat, order: seq<nat>, b: nat, n: nat, shuffles: seq<seq<nat>>)
    requires |order| == n && p < n && b > 0
    requires |shuffles| == Steps(n - p, b)
    ensures Flatten(Run(Cursor(p, order), b, n, shuffles))
         == order[p..] + Slice(shuffles[|shuffles| - 1], 0, TopUp(n - p, b))
    decreases n - p
  {
    if p + b >= n {
      RunLast(p, order, b, n, shuffles);
    } else {
      var m := |shuffles|;
      var s := NextStep(Cursor(p, order), b, n, shuffles[0]);
      var tail := Run(s.next, b, n, shuffles[1..]);
      assert Run(Cursor(p, order), b, n, shuffles) == [s.picked] + tail;
      FlattenCons(s.picked, tail);
      NoWrapStep(Cursor(p, order), b, n, shuffles[0]);
      assert n - (p + b) == n - p - b;
      assert Steps(n - p, b) == 1 + Steps(n - (p + b), b);
      assert TopUp(n - p, b) == TopUp(n - (p + b), b);
      RunFrom(p + b, order, b, n, shuffles[1..]);
      assert shuffles[1..][m - 2] == shuffles[m - 1];
      SplitAfterBatch(Flatten(Run(Cursor(p, order), b, n, shuffles)), s.picked, Flatten(tail),
                      order, p, b, Slice(shuffles[m - 1], 0, TopUp(n - p, b)));
    }
  }

  /** The last step of an epoch takes the rest of the order and tops up from the reshuffle. */
  lemma RunLast(p: nat, order: seq<nat>, b: nat, n: nat, shuffles: seq<seq<nat>>)
    requires |order| == n && p < n <= p + b
    requires |shuffles| == 1
    ensures Flatten(Run(Cursor(p, order), b, n, shuffles))
         == order[p..] + Slice(shuffles[0], 0, TopUp(n - p, b))
  {
    var s := NextStep(Cursor(p, order), b, n, shuffles[0]);
    assert shuffles[1..] == [];
    assert Run(Cursor(p, order), b, n, shuffles) == [s.picked];
    FlattenCons(s.picked, []);
    WrapStep(Cursor(p, order), b, n, shuffles[0]);
    assert TopUp(n - p, b) == p + b - n;
  }

  /** A batch of the order followed by the rest of the order is the order from the batch on. */
  lemma SplitAfterBatch(whole: seq<nat>, picked: seq<nat>, flatTail: seq<nat>,
                        order: seq<nat>, p: nat, b: nat, extra: seq<nat>)
    requires p + b <= |order|
    requires whole == picked + flatTail
    requires picked == order[p..p + b] && flatTail == order[p + b..] + extra
    ensures whole == order[p..] + extra
  {
    assert order[p..] == order[p..p + b] + order[p + b..];
  }

  /** A step that stays inside the order takes the next `b` entries. */
  lemma NoWrapStep(c: Cursor, b: nat, n: nat, shuffled: seq<nat>)
    requires |c.order| == n && c.position + b < n
    ensures NextStep(c, b, n, shuffled).picked == c.order[c.position..c.position + b]
  {
  }

  /** A step that reaches the end takes the rest of the order and tops up from the new one. */
  lemma WrapStep(c: Cursor, b: nat, n: nat, shuffled: seq<nat>)
    requires |c.order| == n && c.position <= n <= c.position + b
    ensures NextStep(c, b, n, shuffled).picked == c.order[c.position..] + Slice(shuffled, 0, c.position + b - n)
  {
  }

  lemma FlattenCons<T>(a: seq<T>, r: seq<seq<T>>)
    ensures Flatten([a] + r) == a + Flatten(r)
  {
    assert ([a] + r)[0] == a && ([a] + r)[1..] == r;
  }

  /**
   * Coverage: starting from a reset, the first `ceil(n/b)` batches together
   * are the whole order followed by the first `ceil(n/b)*b - n` entries of
   * the order that replaced it, hence they hold every record index 0 .. n-1.
   */
  lemma FirstEpochCovers(order: seq<nat>, b: nat, n: nat, shuffles: seq<seq<nat>>)
    requires IsPermutation(order, n) && n > 0 && b > 0
    requires |shuffles| == CeilDiv(n, b)
    ensures |shuffles| > 0
    ensures Flatten(Run(Cursor(0, order), b, n, shuffles))
         == order + Slice(shuffles[|shuffles| - 1], 0, CeilDiv(n, b) * b - n)
    ensures forall x: nat :: x < n ==> x in Flatten(Run(Cursor(0, order), b, n, shuffles))
  {
    PermutationContents(order, n);
    StepsIsCeilDiv(n, b);
    RunFrom(0, order, b, n, shuffles);
    assert order[0..] == order;
    var all := Flatten(Run(Cursor(0, order), b, n, shuffles));
    forall x: nat | x < n
      ensures x in all
    {
      assert x in order;
      var k :| 0 <= k < |order| && order[k] == x;
      assert all[k] == order[k];
    }
  }

  /** `[dataset[index] for index in indices]`. */
  function Records<T>(dataset: seq<T>, indices: seq<nat>): (r: seq<T>)
    requires forall k :: 0 <= k < |indices| ==> indices[k] < |dataset|
    ensures |r| == |indices|
    ensures forall k :: 0 <= k < |r| ==> r[k] == dataset[indices[k]]
  {
    seq(|indices|, k requires 0 <= k < |indices| => dataset[indices[k]])
  }

  /** Every index lies below `n`. */
  predicate Below(indices: seq<nat>, n: nat)
  {
    forall k :: 0 <= k < |indices| ==> indices[k] < n
  }

  /**
   * The iterator over `dataset`; each batch of records is passed through
   * `converter` before it is returned.
   */
  class SquadIterator<T, U> {
    const dataset: seq<T>
    const batchSize: nat
    const converter: seq<T> -> U
    var position: nat
    var order: seq<nat>

    /** The order is a permutation of the record indices, and with `0 < b <= n` the cursor is inside it. */
    ghost predicate Valid()
      reads this
    {
      && IsPermutation(order, |dataset|)
      && (0 < batchSize <= |dataset| ==> position < |dataset|)
    }

    /** `__init__` followed by `reset`, whose permutation is `perm`. */
    constructor (dataset: seq<T>, batchSize: nat, converter: seq<T> -> U, perm: seq<nat>)
      requires IsPermutation(perm, |dataset|)
      ensures this.dataset == dataset && this.batchSize == batchSize && this.converter == converter
      ensures position == 0 && order == perm
      ensures Valid()
    {
      this.dataset := dataset;
      this.batchSize := batchSize;
      this.converter := converter;
      position := 0;
      order := perm;
      new;
      PermutationContents(perm, |dataset|);
    }

    /** `reset`: cursor back to 0 and a fresh permutation. */
    method Reset(perm: seq<nat>)
      requires IsPermutation(perm, |dataset|)
      modifies this
      ensures position == 0 && order == perm
      ensures Valid()
    {
      position := 0;
      order := perm;
      PermutationContents(perm, |dataset|);
    }

    /** `len(iterator)`: `ceil(n / b)`, and a division by zero for `b == 0`. */
    function Length(): (q: Option<nat>)
      reads this
      ensures q.Some? <==> batchSize > 0
      ensures q.Some? ==> |dataset| <= q.value * batchSize
      ensures q.Some? && q.value > 0 ==> (q.value - 1) * batchSize < |dataset|
    {
      if batchSize == 0 then None else Some(CeilDiv(|dataset|, batchSize))
    }

    /**
     * `next(iterator)`; `shuffled` is the current order after
     * `np.random.shuffle`, used only if the cursor wraps.
     */
    method Next(shuffled: seq<nat>) returns (result: U)
      requires Valid()
      requires multiset(shuffled) == multiset(order)
      modifies this
      ensures Valid()
      ensures var s := NextStep(Cursor(old(position), old(order)), batchSize, |dataset|, shuffled);
        && Cursor(position, order) == s.next
        && Below(s.picked, |dataset|)
        && result == converter(Records(dataset, s.picked))
        && (0 < batchSize <= |dataset| ==> |s.picked| == batchSize)
    {
      var n := |dataset|;
      var i := position;
      var iEnd := i + batchSize;
      ghost var step := NextStep(Cursor(i, order), batchSize, n, shuffled);
      PermutationContents(order, n);
      PermutationContents(shuffled, n);
      var picked := Slice(order, i, iEnd);
      if iEnd >= n {
        var rest := iEnd - n;
        order := shuffled;
        if rest > 0 {
          picked := picked + Slice(order, 0, rest);
        }
        position := rest;
      } else {
        position := iEnd;
      }
      assert picked == step.picked;
      NextStepBelow(Cursor(i, old(order)), batchSize, n, shuffled);
      if 0 < batchSize <= n {
        NextStepFacts(Cursor(i, old(order)), batchSize, n, shuffled);
      }
      result := converter(Records(dataset, picked));
    }
  }

  /** The unit test's length: 100 records in batches of 32 make 4 batches. */
  lemma LengthTestExample()
    ensures CeilDiv(100, 32) == 4
  {
  }

  /**
   * The unit test's loop: ten successive `next` calls over 100 records with
   * batch size 32, whatever the shuffles, each return 32 records.
   */
  method TenBatchesTestExample(perm: seq<nat>, shuffles: seq<seq<nat>>) returns (sizes: seq<nat>)
    requires IsPermutation(perm, 100)
    requires |shuffles| == 10 && forall k :: 0 <= k < 10 ==> IsPermutation(shuffles[k], 100)
    ensures sizes == seq(10, _ => 32)
  {
    var dataset := Range(0, 100);
    var it := new SquadIterator(dataset, 32, (batch: seq<nat>) => batch, perm);
    sizes := [];
    var k := 0;
    while k < 10
      invariant 0 <= k <= 10
      invariant it.Valid() && it.dataset == dataset && it.batchSize == 32
      invariant it.converter == (batch: seq<nat>) => batch
      invariant sizes == seq(k, _ => 32)
    {
      var batch := it.Next(shuffles[k]);
      sizes := sizes + [|batch|];
      k := k + 1;
    }
  }
}
