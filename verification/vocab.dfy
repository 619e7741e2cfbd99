/**
 * The vocabulary builder (`make_vocab`) in its two versions: the newer one,
 * which keeps the leading run of tokens counted at least `min_count` times,
 * and the older one, which keeps every token.  Both count the token stream
 * (`Counter`), order it by descending count with ties in first-seen order
 * (`Counter.most_common`), put the special tokens first, cut the list to the
 * maximum size and build the forward dictionary.
 */
module Vocab {
  import opened Common

  /** The default special tokens, at indices 0 to 3. */
  const DefaultSpecials: seq<string> := ["<pad>", "<unk>", "<s>", "</s>"]

  datatype Vocabulary = Vocabulary(tokenToIndex: map<string, int>, indexToToken: seq<string>)

  /** Unpacking `zip(*[])` into two names fails when no token is kept. */
  datatype VocabError = NothingToUnpack

  /** `Counter(tokens)[t]`. */
  function Count(tokens: seq<string>, t: string): nat
  {
    multiset(tokens)[t]
  }

  /** The keys of `Counter(tokens)` in insertion order: each token at its first occurrence. */
  function Distinct(tokens: seq<string>): (d: seq<string>)
    ensures NoDup(d)
    ensures forall t :: t in d <==> t in tokens
    ensures forall i, j, q :: 0 <= i < j < |d| && 0 <= q < |tokens| && tokens[q] == d[j] ==> d[i] in tokens[..q]
  {
    if tokens == [] then []
    else
      var init := tokens[..|tokens| - 1];
      var t := tokens[|tokens| - 1];
      assert tokens == init + [t];
      var d := Distinct(init);
      assert forall q :: 0 <= q < |init| ==> tokens[q] == init[q] && tokens[..q] == init[..q];
      assert tokens[..|init|] == init;
      if t in d then d else d + [t]
  }

  /** Counting as a function of the token, for the sort below. */
  function CounterOf(tokens: seq<string>): string -> nat
  {
    t => Count(tokens, t)
  }

  /** Keys never increase along `s`. */
  ghost predicate Descending<T>(key: T -> nat, s: seq<T>)
  {
    forall i, j :: 0 <= i < j < |s| ==> key(s[i]) >= key(s[j])
  }

  /** The elements of `s` whose key is exactly `c`, in their order in `s`. */
  function WithKey<T>(key: T -> nat, s: seq<T>, c: nat): seq<T>
  {
    if s == [] then []
    else (if key(s[0]) == c then [s[0]] else []) + WithKey(key, s[1..], c)
  }

  /** Places `t` after every element of higher key and before the others. */
  function Insert<T>(key: T -> nat, t: T, r: seq<T>): seq<T>
  {
    if r == [] || key(r[0]) <= key(t) then [t] + r
    else [r[0]] + Insert(key, t, r[1..])
  }

  /** A stable sort by descending key, as `sorted(..., key=key, reverse=True)`. */
  function SortBy<T>(key: T -> nat, s: seq<T>): seq<T>
  {
    if s == [] then [] else Insert(key, s[0], SortBy(key, s[1..]))
  }

  /** `Counter(tokens).most_common()`, keys only. */
  function MostCommon(tokens: seq<string>): seq<string>
  {
    SortBy(CounterOf(tokens), Distinct(tokens))
  }

  lemma InsertFacts<T>(key: T -> nat, t: T, r: seq<T>)
    requires Descending(key, r)
    ensures Descending(key, Insert(key, t, r))
    ensures multiset(Insert(key, t, r)) == multiset(r) + multiset{t}
  {
    InsertDescending(key, t, r);
    InsertMultiset(key, t, r);
  }

  /** Inserting adds `t` and nothing else. */
  lemma {:induction false} InsertMultiset<T>(key: T -> nat, t: T, r: seq<T>)
    ensures multiset(Insert(key, t, r)) == multiset(r) + multiset{t}
  {
    if !(r == [] || key(r[0]) <= key(t)) {
      InsertMultiset(key, t, r[1..]);
      assert r == [r[0]] + r[1..];
    }
  }

  /** An element no lower than everything in a descending list may go in front of it. */
  lemma ConsDescending<T>(key: T -> nat, h: T, s: seq<T>)
    requires Descending(key, s)
    requires forall k :: 0 <= k < |s| ==> key(h) >= key(s[k])
    ensures Descending(key, [h] + s)
  {
    var x := [h] + s;
    forall i, j | 0 <= i < j < |x|
      ensures key(x[i]) >= key(x[j])
    {
      assert x[j] == s[j - 1];
      if i > 0 {
        assert x[i] == s[i - 1];
      }
    }
  }

  /** Inserting into a descending list keeps it descending. */
  lemma {:induction false} InsertDescending<T>(key: T -> nat, t: T, r: seq<T>)
    requires Descending(key, r)
    ensures Descending(key, Insert(key, t, r))
  {
    if r == [] || key(r[0]) <= key(t) {
      forall k | 0 <= k < |r|
        ensures key(t) >= key(r[k])
      {
        if k > 0 {
          assert key(r[0]) >= key(r[k]);
        }
      }
      ConsDescending(key, t, r);
    } else {
      var tail := r[1..];
      assert Descending(key, tail) by {
        forall i, j | 0 <= i < j < |tail|
          ensures key(tail[i]) >= key(tail[j])
        {
          assert tail[i] == r[i + 1] && tail[j] == r[j + 1];
        }
      }
      InsertDescending(key, t, tail);
      InsertMultiset(key, t, tail);
      var ins := Insert(key, t, tail);
      forall k | 0 <= k < |ins|
        ensures key(r[0]) >= key(ins[k])
      {
        assert ins[k] in multiset(ins);
        MemberOfInsert(key, t, tail, ins[k]);
        if ins[k] != t {
          var m :| 0 <= m < |tail| && tail[m] == ins[k];
          assert r[m + 1] == ins[k];
        }
      }
      ConsDescending(key, r[0], ins);
    }
  }

  /** An element of the tail plus `t` is `t` or an element of the tail. */
  lemma MemberOfInsert<T>(key: T -> nat, t: T, tail: seq<T>, y: T)
    requires y in multiset(tail) + multiset{t}
    ensures y == t || y in tail
  {
  }

  lemma WithKeyCons<T>(key: T -> nat, x: T, ys: seq<T>, c: nat)
    ensures WithKey(key, [x] + ys, c) == (if key(x) == c then [x] else []) + WithKey(key, ys, c)
  {
    assert ([x] + ys)[0] == x;
    assert ([x] + ys)[1..] == ys;
  }

  /** Inserting `t` adds it in front of the elements of its own key and leaves every other key's order alone. */
  lemma {:induction false} InsertStable<T>(key: T -> nat, t: T, r: seq<T>, c: nat)
    ensures WithKey(key, Insert(key, t, r), c)
         == (if key(t) == c then [t] else []) + WithKey(key, r, c)
  {
    if r == [] || key(r[0]) <= key(t) {
      WithKeyCons(key, t, r, c);
    } else {
      var ins := Insert(key, t, r[1..]);
      InsertStable(key, t, r[1..], c);
      WithKeyCons(key, r[0], ins, c);
      assert r == [r[0]] + r[1..];
      WithKeyCons(key, r[0], r[1..], c);
      if key(t) == c {
        assert key(r[0]) != c;
      }
    }
  }

  /**
   * The sort lists its input once, by non-increasing key, and elements of
   * equal key in their input order.
   */
  lemma {:induction false} SortByFacts<T>(key: T -> nat, s: seq<T>)
    ensures Descending(key, SortBy(key, s))
    ensures multiset(SortBy(key, s)) == multiset(s)
    ensures forall c: nat :: WithKey(key, SortBy(key, s), c) == WithKey(key, s, c)
  {
    if s != [] {
      SortByFacts(key, s[1..]);
      var r := SortBy(key, s[1..]);
      InsertFacts(key, s[0], r);
      assert s == [s[0]] + s[1..];
      forall c: nat
        ensures WithKey(key, SortBy(key, s), c) == WithKey(key, s, c)
      {
        InsertStable(key, s[0], r, c);
      }
    }
  }

  /**
   * `most_common` lists every counted token once, by non-increasing count,
   * and tokens of equal count in the order they were first seen.
   */
  lemma MostCommonFacts(tokens: seq<string>)
    ensures Descending(CounterOf(tokens), MostCommon(tokens))
    ensures forall i, j :: 0 <= i < j < |MostCommon(tokens)| ==>
      Count(tokens, MostCommon(tokens)[i]) >= Count(tokens, MostCommon(tokens)[j])
    ensures NoDup(MostCommon(tokens))
    ensures forall t :: t in MostCommon(tokens) <==> t in tokens
    ensures forall c: nat :: WithKey(CounterOf(tokens), MostCommon(tokens), c)
                          == WithKey(CounterOf(tokens), Distinct(tokens), c)
  {
    var d := Distinct(tokens);
    var m := MostCommon(tokens);
    SortByFacts(CounterOf(tokens), d);
    forall t
      ensures t in m <==> t in d
    {
      assert t in m <==> t in multiset(m);
      assert t in d <==> t in multiset(d);
    }
    MultisetNoDup(d, m);
  }

  /** A rearrangement of a sequence without repetitions has none either. */
  lemma MultisetNoDup<T>(a: seq<T>, b: seq<T>)
    requires NoDup(a)
    requires multiset(a) == multiset(b)
    ensures NoDup(b)
  {
    forall i, j | 0 <= i < j < |b|
      ensures b[i] != b[j]
    {
      TwiceCounted(b, i, j);
      NoDupCount(a, b[i]);
    }
  }

  lemma {:induction false} NoDupCount<T>(a: seq<T>, x: T)
    requires NoDup(a)
    ensures multiset(a)[x] <= 1
  {
    if a != [] {
      assert a == [a[0]] + a[1..];
      NoDupCount(a[1..], x);
      if a[0] == x {
        assert x !in a[1..];
      }
    }
  }

  lemma TwiceCounted<T>(b: seq<T>, i: nat, j: nat)
    requires i < j < |b|
    ensures b[i] == b[j] ==> multiset(b)[b[i]] >= 2
  {
    assert b == b[..i] + [b[i]] + b[i + 1..j] + [b[j]] + b[j + 1..];
  }

  /** The longest prefix of `s` whose every token was counted at least `minCount` times (`takewhile`). */
  function TakeWhileFrequent(tokens: seq<string>, s: seq<string>, minCount: int): (p: seq<string>)
    ensures p <= s
    ensures forall t :: t in p ==> Count(tokens, t) >= minCount
    ensures |p| < |s| ==> Count(tokens, s[|p|]) < minCount
  {
    if s == [] || Count(tokens, s[0]) < minCount then []
    else [s[0]] + TakeWhileFrequent(tokens, s[1..], minCount)
  }

  /** Python's `s[:k]`: a negative `k` drops |k| elements from the end. */
  function PyPrefix<T>(s: seq<T>, k: int): (r: seq<T>)
    ensures r <= s
    ensures k >= 0 ==> |r| == Min(k, |s|)
    ensures k < 0 ==> |r| == Max(0, |s| + k)
  {
    if k >= 0 then s[..Min(k, |s|)] else s[..Max(0, |s| + k)]
  }

  /** `dict(zip(s, range(len(s))))`: a later duplicate overwrites an earlier one. */
  function IndexOf(s: seq<string>): (m: map<string, int>)
    ensures forall t :: t in m <==> t in s
    ensures forall t :: t in m ==> 0 <= m[t] < |s| && s[m[t]] == t
    ensures forall k :: 0 <= k < |s| ==> k <= m[s[k]]
  {
    if s == [] then map[]
    else
      var init := s[..|s| - 1];
      assert s == init + [s[|s| - 1]];
      IndexOf(init)[s[|s| - 1] := |s| - 1]
  }

  /** Without duplicates the dictionary is the exact inverse of the list. */
  lemma {:induction false} IndexOfInverse(s: seq<string>)
    requires NoDup(s)
    ensures forall k :: 0 <= k < |s| ==> IndexOf(s)[s[k]] == k
    ensures |IndexOf(s)| == |s|
  {
    if s != [] {
      var init := s[..|s| - 1];
      var last := s[|s| - 1];
      assert NoDup(init);
      IndexOfInverse(init);
      var m0 := IndexOf(init);
      assert IndexOf(s) == m0[last := |s| - 1];
      assert last !in init;
      assert last !in m0;
      assert |IndexOf(s)| == |m0| + 1;
      forall k | 0 <= k < |s|
        ensures IndexOf(s)[s[k]] == k
      {
        if k < |s| - 1 {
          assert s[k] == init[k];
        }
      }
    }
  }

  /** Special tokens first, then the kept tokens, cut to the maximum size. */
  function Assemble(specials: seq<string>, kept: seq<string>, maxSize: int): (v: Vocabulary)
    ensures v.indexToToken <= specials + kept
    ensures maxSize >= 0 ==> |v.indexToToken| == Min(maxSize, |specials + kept|)
    ensures forall t :: t in v.tokenToIndex <==> t in v.indexToToken
    ensures forall t :: t in v.tokenToIndex ==>
      0 <= v.tokenToIndex[t] < |v.indexToToken| && v.indexToToken[v.tokenToIndex[t]] == t
  {
    var all := specials + kept;
    var indexToToken := if |all| > maxSize then PyPrefix(all, maxSize) else all;
    var tokenToIndex := IndexOf(indexToToken);
    Vocabulary(tokenToIndex, indexToToken)
  }

  /** `make_vocab(tokens, min_count, max_vocab_size, speicial_tokens)` of data.py. */
  function MakeVocab(tokens: seq<string>, minCount: int, maxVocabSize: int, specials: seq<string>)
    : (r: Result<Vocabulary, VocabError>)
  {
    var kept := TakeWhileFrequent(tokens, MostCommon(tokens), minCount);
    if kept == [] then Err(NothingToUnpack)
    else Ok(Assemble(specials, kept, maxVocabSize))
  }

  /** `make_vocab(tokens, max_size)` of the older training script: no count filter, fixed specials. */
  function MakeVocabUnfiltered(tokens: seq<string>, maxSize: int): (r: Result<Vocabulary, VocabError>)
  {
    var ordered := MostCommon(tokens);
    if ordered == [] then Err(NothingToUnpack)
    else Ok(Assemble(DefaultSpecials, ordered, maxSize))
  }

  /** The call fails exactly when no token reaches `minCount`. */
  lemma MakeVocabFails(tokens: seq<string>, minCount: int, maxVocabSize: int, specials: seq<string>)
    ensures MakeVocab(tokens, minCount, maxVocabSize, specials).Err?
        <==> forall t :: t in tokens ==> Count(tokens, t) < minCount
  {
    var m := MostCommon(tokens);
    MostCommonFacts(tokens);
    if m != [] && Count(tokens, m[0]) >= minCount {
      assert m[0] in tokens;
    }
    if m != [] && Count(tokens, m[0]) < minCount {
      forall t | t in tokens
        ensures Count(tokens, t) < minCount
      {
        assert t in m;
        var k :| 0 <= k < |m| && m[k] == t;
        assert k == 0 || Count(tokens, m[0]) >= Count(tokens, m[k]);
      }
    }
  }

  /**
   * A successful vocabulary starts with the special tokens in order, is at
   * most `maxVocabSize` long, and every dictionary entry indexes back to its
   * token.
   */
  lemma MakeVocabLayout(tokens: seq<string>, minCount: int, maxVocabSize: int, specials: seq<string>)
    requires MakeVocab(tokens, minCount, maxVocabSize, specials).Ok?
    ensures var v := MakeVocab(tokens, minCount, maxVocabSize, specials).value;
      && (forall k :: 0 <= k < |specials| && k < |v.indexToToken| ==> v.indexToToken[k] == specials[k])
      && (maxVocabSize >= |specials| ==> v.indexToToken[..|specials|] == specials)
      && (maxVocabSize >= 0 ==> |v.indexToToken| <= maxVocabSize)
      && (forall t :: t in v.tokenToIndex <==> t in v.indexToToken)
      && (forall t :: t in v.tokenToIndex ==> v.indexToToken[v.tokenToIndex[t]] == t)
  {
    var kept := TakeWhileFrequent(tokens, MostCommon(tokens), minCount);
    var itt := MakeVocab(tokens, minCount, maxVocabSize, specials).value.indexToToken;
    assert itt <= specials + kept;
    assert maxVocabSize >= |specials| ==> |itt| >= |specials|;
  }

  /** Past the special tokens, the assembled list follows the kept tokens. */
  lemma AssembleTail(specials: seq<string>, kept: seq<string>, maxSize: int)
    ensures var itt := Assemble(specials, kept, maxSize).indexToToken;
      forall k :: |specials| <= k < |itt| ==> itt[k] == kept[k - |specials|]
  {
    var itt := Assemble(specials, kept, maxSize).indexToToken;
    forall k | |specials| <= k < |itt|
      ensures itt[k] == kept[k - |specials|]
    {
      assert itt[k] == (specials + kept)[k];
    }
  }

  /** Past the special tokens, the assembled list repeats no token when neither part does and they share none. */
  lemma AssembleNoDup(specials: seq<string>, kept: seq<string>, maxSize: int)
    requires NoDup(specials) && NoDup(kept)
    requires forall t :: t in specials ==> t !in kept
    ensures NoDup(Assemble(specials, kept, maxSize).indexToToken)
  {
    NoDupConcat(specials, kept);
    NoDupPrefix(Assemble(specials, kept, maxSize).indexToToken, specials + kept);
  }

  /** The most-common list is ordered by non-increasing count. */
  lemma MostCommonOrdered(tokens: seq<string>)
    ensures forall i, j :: 0 <= i < j < |MostCommon(tokens)| ==>
      Count(tokens, MostCommon(tokens)[i]) >= Count(tokens, MostCommon(tokens)[j])
  {
    MostCommonFacts(tokens);
  }

  /**
   * After the special tokens come the most frequent tokens of the stream,
   * by non-increasing count, each counted at least `minCount` times.
   */
  lemma MakeVocabFrequent(tokens: seq<string>, minCount: int, maxVocabSize: int, specials: seq<string>)
    requires MakeVocab(tokens, minCount, maxVocabSize, specials).Ok?
    ensures var itt := MakeVocab(tokens, minCount, maxVocabSize, specials).value.indexToToken;
      && (forall k :: |specials| <= k < |itt| ==> itt[k] == MostCommon(tokens)[k - |specials|])
      && (forall k :: |specials| <= k < |itt| ==> Count(tokens, itt[k]) >= minCount)
      && (forall i, j :: |specials| <= i < j < |itt| ==> Count(tokens, itt[i]) >= Count(tokens, itt[j]))
  {
    var m := MostCommon(tokens);
    var kept := TakeWhileFrequent(tokens, m, minCount);
    var v := Assemble(specials, kept, maxVocabSize);
    assert MakeVocab(tokens, minCount, maxVocabSize, specials) == Ok(v);
    MostCommonOrdered(tokens);
    FrequentTail(tokens, v.indexToToken, specials, kept, m, minCount);
  }

  /**
   * A prefix of the specials followed by a prefix of a count-ordered list
   * continues, past the specials, with that list in order and within the bound.
   */
  lemma FrequentTail(tokens: seq<string>, itt: seq<string>, specials: seq<string>, kept: seq<string>,
                     m: seq<string>, minCount: int)
    requires itt <= specials + kept
    requires kept <= m
    requires forall t :: t in kept ==> Count(tokens, t) >= minCount
    requires forall i, j :: 0 <= i < j < |m| ==> Count(tokens, m[i]) >= Count(tokens, m[j])
    ensures forall k :: |specials| <= k < |itt| ==> itt[k] == m[k - |specials|]
    ensures forall k :: |specials| <= k < |itt| ==> Count(tokens, itt[k]) >= minCount
    ensures forall i, j :: |specials| <= i < j < |itt| ==> Count(tokens, itt[i]) >= Count(tokens, itt[j])
  {
    var n := |specials|;
    forall k | n <= k < |itt|
      ensures itt[k] == m[k - n] && Count(tokens, itt[k]) >= minCount
    {
      assert itt[k] == (specials + kept)[k] == kept[k - n];
      assert kept[k - n] in kept;
    }
    forall i, j | n <= i < j < |itt|
      ensures Count(tokens, itt[i]) >= Count(tokens, itt[j])
    {
      assert itt[i] == m[i - n] && itt[j] == m[j - n];
    }
  }

  /**
   * When no special token occurs in the stream (and the specials are
   * distinct) the two structures are inverse bijections of the same size.
   */
  lemma MakeVocabBijective(tokens: seq<string>, minCount: int, maxVocabSize: int, specials: seq<string>)
    requires MakeVocab(tokens, minCount, maxVocabSize, specials).Ok?
    requires NoDup(specials)
    requires forall s :: s in specials ==> s !in tokens
    ensures var v := MakeVocab(tokens, minCount, maxVocabSize, specials).value;
      && |v.tokenToIndex| == |v.indexToToken|
      && forall k :: 0 <= k < |v.indexToToken| ==> v.tokenToIndex[v.indexToToken[k]] == k
  {
    var m := MostCommon(tokens);
    var kept := TakeWhileFrequent(tokens, m, minCount);
    var v := Assemble(specials, kept, maxVocabSize);
    assert MakeVocab(tokens, minCount, maxVocabSize, specials) == Ok(v);
    MostCommonFacts(tokens);
    NoDupPrefix(kept, m);
    assert forall x :: x in kept ==> x in m;
    AssembleNoDup(specials, kept, maxVocabSize);
    IndexOfInverse(v.indexToToken);
  }

  /** The older builder is the newer one with `min_count = 1` and the default specials. */
  lemma {:induction false} UnfilteredIsMinCountOne(tokens: seq<string>, maxSize: int)
    ensures MakeVocabUnfiltered(tokens, maxSize) == MakeVocab(tokens, 1, maxSize, DefaultSpecials)
  {
    var m := MostCommon(tokens);
    MostCommonFacts(tokens);
    forall t | t in m
      ensures Count(tokens, t) >= 1
    {
      assert t in tokens;
    }
    TakeAllFrequent(tokens, m, 1);
  }

  lemma {:induction false} TakeAllFrequent(tokens: seq<string>, s: seq<string>, minCount: int)
    requires forall t :: t in s ==> Count(tokens, t) >= minCount
    ensures TakeWhileFrequent(tokens, s, minCount) == s
  {
    if s != [] {
      TakeAllFrequent(tokens, s[1..], minCount);
    }
  }

  /** The older builder fails exactly on an empty token stream. */
  lemma MakeVocabUnfilteredFails(tokens: seq<string>, maxSize: int)
    ensures MakeVocabUnfiltered(tokens, maxSize).Err? <==> tokens == []
  {
    MostCommonFacts(tokens);
    if tokens != [] {
      assert tokens[0] in MostCommon(tokens);
    }
  }

  /** A list without repetitions has as many elements as its set. */
  lemma {:induction false} NoDupCardinality(s: seq<string>)
    requires NoDup(s)
    ensures |set t | t in s| == |s|
  {
    if s != [] {
      var init := s[..|s| - 1];
      var last := s[|s| - 1];
      assert s == init + [last];
      assert NoDup(init);
      NoDupCardinality(init);
      assert (set t | t in s) == (set t | t in init) + {last};
      assert last !in init;
    }
  }

  /**
   * With `minCount <= 1` every distinct token is kept, so a stream free of
   * special tokens yields `min(maxVocabSize, |specials| + distinct tokens)`
   * entries in both structures.
   */
  lemma MakeVocabSize(tokens: seq<string>, minCount: int, maxVocabSize: nat, specials: seq<string>)
    requires tokens != [] && minCount <= 1
    requires NoDup(specials)
    requires forall s :: s in specials ==> s !in tokens
    ensures MakeVocab(tokens, minCount, maxVocabSize, specials).Ok?
    ensures var v := MakeVocab(tokens, minCount, maxVocabSize, specials).value;
      var size := Min(maxVocabSize, |specials| + |set t | t in tokens|);
      |v.indexToToken| == size && |v.tokenToIndex| == size
  {
    var m := MostCommon(tokens);
    KeepAll(tokens, minCount);
    var v := Assemble(specials, m, maxVocabSize);
    assert MakeVocab(tokens, minCount, maxVocabSize, specials) == Ok(v);
    assert |v.indexToToken| == Min(maxVocabSize, |specials| + |m|);
    MakeVocabBijective(tokens, minCount, maxVocabSize, specials);
  }

  /** With `minCount <= 1` the whole non-empty most-common list is kept; it has one entry per distinct token. */
  lemma KeepAll(tokens: seq<string>, minCount: int)
    requires tokens != [] && minCount <= 1
    ensures TakeWhileFrequent(tokens, MostCommon(tokens), minCount) == MostCommon(tokens) != []
    ensures |MostCommon(tokens)| == |set t | t in tokens|
  {
    var m := MostCommon(tokens);
    MostCommonFacts(tokens);
    forall t | t in m
      ensures Count(tokens, t) >= minCount
    {
      assert t in tokens;
    }
    TakeAllFrequent(tokens, m, minCount);
    assert tokens[0] in m;
    DistinctCount(m, tokens);
  }

  lemma DistinctCount(m: seq<string>, tokens: seq<string>)
    requires NoDup(m)
    requires forall t :: t in m <==> t in tokens
    ensures |m| == |set t | t in tokens|
  {
    NoDupCardinality(m);
    assert (set t | t in m) == (set t | t in tokens);
  }

  /** Under the same conditions, special token k is looked up at index k. */
  lemma MakeVocabSpecialIndices(tokens: seq<string>, minCount: int, maxVocabSize: int, specials: seq<string>)
    requires MakeVocab(tokens, minCount, maxVocabSize, specials).Ok?
    requires maxVocabSize >= |specials|
    requires NoDup(specials)
    requires forall s :: s in specials ==> s !in tokens
    ensures var v := MakeVocab(tokens, minCount, maxVocabSize, specials).value;
      forall k :: 0 <= k < |specials| ==> specials[k] in v.tokenToIndex && v.tokenToIndex[specials[k]] == k
  {
    var v := MakeVocab(tokens, minCount, maxVocabSize, specials).value;
    MakeVocabLayout(tokens, minCount, maxVocabSize, specials);
    MakeVocabBijective(tokens, minCount, maxVocabSize, specials);
    forall k | 0 <= k < |specials|
      ensures specials[k] in v.tokenToIndex && v.tokenToIndex[specials[k]] == k
    {
      assert v.indexToToken[k] == specials[k];
    }
  }

  /** The token stream of the repository's own unit test of `make_vocab`. */
  const TestTokens: seq<string> :=
    ["Rock", "n", "Roll", "is", "a", "risk", ".", "You", "rick", "being", "ridiculed", "."]

  /** The distinct test tokens in first-seen order. */
  const TestDistinct: seq<string> :=
    ["Rock", "n", "Roll", "is", "a", "risk", ".", "You", "rick", "being", "ridiculed"]

  lemma TestTokensDistinct()
    ensures |set t | t in TestTokens| == 11
  {
    assert NoDup(TestDistinct);
    NoDupCardinality(TestDistinct);
    assert (set t | t in TestTokens) == (set t | t in TestDistinct);
  }

  lemma TestTokensFreeOfSpecials()
    ensures NoDup(DefaultSpecials)
    ensures forall s :: s in DefaultSpecials ==> s !in TestTokens
  {
  }

  /**
   * `make_vocab(tokens, 1, 10)` on the test stream: ten entries in both
   * structures, the first four being the special tokens.
   */
  lemma MakeVocabTestSize()
    ensures MakeVocab(TestTokens, 1, 10, DefaultSpecials).Ok?
    ensures var v := MakeVocab(TestTokens, 1, 10, DefaultSpecials).value;
      && v.indexToToken[..4] == DefaultSpecials
      && |v.indexToToken| == 10
      && |v.tokenToIndex| == 10
  {
    TestTokensFreeOfSpecials();
    TestTokensDistinct();
    MakeVocabSize(TestTokens, 1, 10, DefaultSpecials);
    MakeVocabLayout(TestTokens, 1, 10, DefaultSpecials);
  }
}
