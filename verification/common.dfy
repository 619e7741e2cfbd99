/**
 * Small shared vocabulary of the model: failure-carrying results, Python's
 * range / slicing / ceil-division, flattening of batches, and permutations.
 */
module Common {

  datatype Option<+T> = None | Some(value: T)

  datatype Result<+T, +E> = Ok(value: T) | Err(error: E)

  function Min(a: int, b: int): int { if a <= b then a else b }

  function Max(a: int, b: int): int { if a >= b then a else b }

  /** Python's `range(lo, hi)` as a sequence. */
  function Range(lo: nat, hi: nat): (r: seq<nat>)
    ensures |r| == if lo <= hi then hi - lo else 0
    ensures forall k :: 0 <= k < |r| ==> r[k] == lo + k
  {
    if lo < hi then seq(hi - lo, k requires 0 <= k < hi - lo => lo + k) else []
  }

  /** `math.ceil(n / b)` for a positive divisor. */
  function CeilDiv(n: nat, b: nat): (q: nat)
    requires b > 0
    ensures n <= q * b
    ensures q > 0 ==> (q - 1) * b < n
  {
    (n + b - 1) / b
  }

  /** The ceiling quotient is the only number with the two properties above. */
  lemma CeilDivUnique(n: nat, b: nat, q: nat)
    requires b > 0
    requires n <= q * b
    requires q > 0 ==> (q - 1) * b < n
    ensures q == CeilDiv(n, b)
  {
    var c := CeilDiv(n, b);
    assert (c - q) * b == c * b - q * b;
    assert c > 0 ==> (c - 1) * b == c * b - b;
    assert q > 0 ==> (q - 1) * b == q * b - b;
    MulGrows(c - q, b);
  }

  /** A non-zero integer multiple of b is at least b away from 0. */
  lemma MulGrows(k: int, b: int)
    requires b > 0
    ensures k >= 1 ==> k * b >= b
    ensures k <= -1 ==> k * b <= -b
  {
  }

  /** One more full batch of `b` adds exactly one step. */
  lemma CeilDivStep(n: nat, b: nat)
    requires 0 < b < n
    ensures CeilDiv(n, b) == 1 + CeilDiv(n - b, b)
  {
    var q := CeilDiv(n - b, b);
    assert (q + 1) * b == q * b + b;
    assert q * b == (q - 1) * b + b;
    CeilDivUnique(n, b, q + 1);
  }

  /** A remainder of at most one batch takes exactly one step. */
  lemma CeilDivOne(n: nat, b: nat)
    requires 0 < n <= b
    ensures CeilDiv(n, b) == 1
  {
    CeilDivUnique(n, b, 1);
  }

  /** Batches of `b` needed for `r > 0` remaining entries, counted one batch at a time. */
  function Steps(r: nat, b: nat): (k: nat)
    requires r > 0 && b > 0
    ensures k >= 1
    decreases r
  {
    if r <= b then 1 else 1 + Steps(r - b, b)
  }

  /** Entries the last of those batches takes beyond the remaining ones. */
  function TopUp(r: nat, b: nat): (t: nat)
    requires r > 0 && b > 0
    ensures t < b
    decreases r
  {
    if r <= b then b - r else TopUp(r - b, b)
  }

  /** The batch count is `ceil(r / b)` and the top-up is what that many full batches exceed `r` by. */
  lemma {:induction false} StepsIsCeilDiv(r: nat, b: nat)
    requires r > 0 && b > 0
    ensures Steps(r, b) == CeilDiv(r, b)
    ensures TopUp(r, b) == CeilDiv(r, b) * b - r
    decreases r
  {
    if r <= b {
      CeilDivOne(r, b);
    } else {
      StepsIsCeilDiv(r - b, b);
      CeilDivStep(r, b);
      var q := CeilDiv(r - b, b);
      assert (1 + q) * b - r == q * b - (r - b);
    }
  }

  /** The last batch holds what the full batches before it leave over. */
  lemma {:induction false} LastBatchSize(r: nat, b: nat)
    requires r > 0 && b > 0
    ensures b - TopUp(r, b) == r - (Steps(r, b) - 1) * b
    decreases r
  {
    if r > b {
      LastBatchSize(r - b, b);
      var k := Steps(r - b, b);
      assert (k - 1) * b + b == k * b;
    }
  }

  /** Python's `s[lo:hi]` for non-negative bounds: both ends are clamped to |s|. */
  function Slice<T>(s: seq<T>, lo: nat, hi: nat): (r: seq<T>)
    requires lo <= hi
    ensures |r| == Min(hi, |s|) - Min(lo, |s|)
    ensures forall k :: 0 <= k < |r| ==> r[k] == s[lo + k]
  {
    s[Min(lo, |s|)..Min(hi, |s|)]
  }

  /** Concatenation of a list of batches. */
  function Flatten<T>(ss: seq<seq<T>>): seq<T>
  {
    if ss == [] then [] else ss[0] + Flatten(ss[1..])
  }

  lemma FlattenAppend<T>(a: seq<seq<T>>, b: seq<seq<T>>)
    ensures Flatten(a + b) == Flatten(a) + Flatten(b)
  {
    if a == [] {
      assert a + b == b;
    } else {
      assert (a + b)[0] == a[0];
      assert (a + b)[1..] == a[1..] + b;
      FlattenAppend(a[1..], b);
    }
  }

  /** No element occurs twice. */
  predicate NoDup<T(==)>(s: seq<T>)
  {
    forall i, j :: 0 <= i < j < |s| ==> s[i] != s[j]
  }

  lemma NoDupPrefix<T>(p: seq<T>, s: seq<T>)
    requires p <= s && NoDup(s)
    ensures NoDup(p)
  {
    forall i, j | 0 <= i < j < |p|
      ensures p[i] != p[j]
    {
      assert p[i] == s[i] && p[j] == s[j];
    }
  }

  lemma NoDupConcat<T>(a: seq<T>, b: seq<T>)
    requires NoDup(a) && NoDup(b)
    requires forall x :: x in a ==> x !in b
    ensures NoDup(a + b)
  {
    var ab := a + b;
    forall i, j | 0 <= i < j < |ab|
      ensures ab[i] != ab[j]
    {
      if j < |a| {
        assert ab[i] == a[i] && ab[j] == a[j];
      } else if i >= |a| {
        assert ab[i] == b[i - |a|] && ab[j] == b[j - |a|];
      } else {
        assert ab[i] == a[i] && a[i] in a;
        assert ab[j] == b[j - |a|] && b[j - |a|] in b;
      }
    }
  }

  /** `s` holds each of 0 .. n-1 exactly once, as `np.random.permutation(n)` does. */
  ghost predicate IsPermutation(s: seq<nat>, n: nat)
  {
    multiset(s) == multiset(Range(0, n))
  }

  /** A permutation of 0 .. n-1 has length n, contains every index below n and nothing else. */
  lemma PermutationContents(s: seq<nat>, n: nat)
    requires IsPermutation(s, n)
    ensures |s| == n
    ensures forall x: int :: x in s <==> 0 <= x < n
  {
    assert |multiset(s)| == |multiset(Range(0, n))|;
    var r := Range(0, n);
    forall x: int
      ensures x in s <==> 0 <= x < n
    {
      assert x in s <==> x in multiset(s);
      assert x in r <==> x in multiset(r);
      if 0 <= x < n {
        assert r[x] == x;
      }
    }
  }
}
