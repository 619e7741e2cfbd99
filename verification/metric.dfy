/**
 * Answer scoring of the training script: `normalize_answer` (lower case,
 * punctuation removed, whitespace collapsed; articles are kept), exact
 * match, bag-of-words F1, the maximum over gold answers, and the running
 * `SquadMetric` averages.  Scores are exact `real`s; characters are ASCII.
 */
module Metric {
  import opened Common

  /** Python's `string.punctuation`. */
  const Punctuation: string := "!\"#$%&'()*+,-./:;<=>?@[\\]^_`{|}~"

  /** Membership in `string.punctuation`: the four ASCII runs it is made of. */
  predicate IsPunctuation(c: char)
  {
    33 <= c as int <= 47 || 58 <= c as int <= 64 || 91 <= c as int <= 96 || 123 <= c as int <= 126
  }

  /** `string.punctuation` holds exactly the characters `IsPunctuation` accepts. */
  lemma PunctuationRuns(c: char)
    ensures c in Punctuation <==> IsPunctuation(c)
  {
    if IsPunctuation(c) {
      var i := if c as int <= 47 then c as int - 33
               else if c as int <= 64 then c as int - 58 + 15
               else if c as int <= 96 then c as int - 91 + 22
               else c as int - 123 + 28;
      assert Punctuation[i] == c;
    }
  }

  /** What `str.split()` splits on, restricted to ASCII. */
  predicate IsSpace(c: char)
  {
    c == ' ' || 9 <= c as int <= 13 || 28 <= c as int <= 31
  }

  predicate IsUpper(c: char)
  {
    'A' <= c <= 'Z'
  }

  function LowerChar(c: char): (d: char)
    ensures IsUpper(c) ==> d as int == c as int + 32
    ensures !IsUpper(d)
    ensures !IsUpper(c) ==> d == c
    ensures IsSpace(d) <==> IsSpace(c)
  {
    if IsUpper(c) then (c as int + 32) as char else c
  }

  /** `str.lower(text)` on ASCII. */
  function Lower(s: string): (r: string)
    ensures |r| == |s|
    ensures forall i :: 0 <= i < |r| ==> r[i] == LowerChar(s[i])
  {
    if s == [] then [] else [LowerChar(s[0])] + Lower(s[1..])
  }

  /** `remove_punc`: the characters of `s` outside `string.punctuation`, in order. */
  function RemovePunc(s: string): (r: string)
    ensures forall c :: c in r ==> c in s && !IsPunctuation(c)
    ensures forall c :: c in s && !IsPunctuation(c) ==> c in r
  {
    if s == [] then []
    else if IsPunctuation(s[0]) then RemovePunc(s[1..])
    else [s[0]] + RemovePunc(s[1..])
  }

  /** The longest prefix of `s` free of whitespace. */
  function LeadingWord(s: string): (w: string)
    ensures w <= s
    ensures forall c :: c in w ==> !IsSpace(c)
    ensures |w| < |s| ==> IsSpace(s[|w|])
  {
    if s == [] || IsSpace(s[0]) then [] else [s[0]] + LeadingWord(s[1..])
  }

  /** `str.split()`: the maximal runs of non-whitespace characters. */
  function Words(s: string): (ws: seq<string>)
    ensures forall k :: 0 <= k < |ws| ==> ws[k] != [] && forall c :: c in ws[k] ==> !IsSpace(c) && c in s
    decreases |s|
  {
    if s == [] then []
    else if IsSpace(s[0]) then Words(s[1..])
    else
      var w := LeadingWord(s);
      [w] + Words(s[|w|..])
  }

  /** `' '.join(ws)`. */
  function JoinSpace(ws: seq<string>): string
  {
    if ws == [] then [] else if |ws| == 1 then ws[0] else ws[0] + " " + JoinSpace(ws[1..])
  }

  /** Words fit for joining: non-empty and free of whitespace. */
  predicate WordList(ws: seq<string>)
  {
    forall k :: 0 <= k < |ws| ==> ws[k] != [] && forall c :: c in ws[k] ==> !IsSpace(c)
  }

  /** `s` has no leading, trailing or doubled whitespace, and all of it is plain spaces. */
  predicate Tidy(s: string)
  {
    forall i :: 0 <= i < |s| && IsSpace(s[i]) ==>
      s[i] == ' ' && 0 < i < |s| - 1 && !IsSpace(s[i + 1])
  }

  /** `normalize_answer(text)`. */
  function Normalize(s: string): string
  {
    JoinSpace(Words(RemovePunc(Lower(s))))
  }

  /** A whitespace-free word followed by whitespace or nothing is the leading word. */
  lemma {:induction false} LeadingWordOf(w: string, t: string)
    requires forall c :: c in w ==> !IsSpace(c)
    requires t == [] || IsSpace(t[0])
    ensures LeadingWord(w + t) == w
  {
    if w != [] {
      assert (w + t)[1..] == w[1..] + t;
      LeadingWordOf(w[1..], t);
    } else {
      assert w + t == t;
    }
  }

  /** A non-empty whitespace-free word followed by whitespace or nothing splits off as the first word. */
  lemma WordsOfWord(w: string, t: string)
    requires w != [] && forall c :: c in w ==> !IsSpace(c)
    requires t == [] || IsSpace(t[0])
    ensures Words(w + t) == [w] + Words(t)
  {
    LeadingWordOf(w, t);
    assert w[0] in w && (w + t)[0] == w[0];
    assert (w + t)[|w|..] == t;
  }

  /** A non-empty whitespace-free string is a single word. */
  lemma WordsOfNonSpace(w: string)
    requires w != [] && forall c :: c in w ==> !IsSpace(c)
    ensures Words(w) == [w]
  {
    WordsOfWord(w, []);
    assert w + [] == w;
  }

  /**
   * Splitting at a whitespace character: the words of `a + [c] + b` are the
   * words of `a` followed by the words of `b`.  With `WordsOfNonSpace` this
   * determines `str.split()` on every string.
   */
  lemma {:induction false} WordsSplitAt(a: string, c: char, b: string)
    requires IsSpace(c)
    ensures Words(a + [c] + b) == Words(a) + Words(b)
    decreases |a|
  {
    var s := a + [c] + b;
    if a == [] {
      assert s == [c] + b && s[1..] == b;
    } else if IsSpace(a[0]) {
      assert s[1..] == a[1..] + [c] + b;
      WordsSplitAt(a[1..], c, b);
    } else {
      var w := LeadingWord(a);
      var rest := a[|w|..];
      assert a == w + rest;
      assert a[0] in w;
      assert s == w + (rest + [c] + b);
      LeadingWordOf(w, rest + [c] + b);
      assert s[|w|..] == rest + [c] + b;
      WordsSplitAt(rest, c, b);
    }
  }

  /** Splitting a space-joined word list gives the list back. */
  lemma {:induction false} WordsJoin(ws: seq<string>)
    requires WordList(ws)
    ensures Words(JoinSpace(ws)) == ws
  {
    if |ws| == 1 {
      WordsOfWord(ws[0], []);
      assert ws[0] + [] == ws[0];
    } else if |ws| > 1 {
      var rest := JoinSpace(ws[1..]);
      WordsOfWord(ws[0], " " + rest);
      assert ws[0] + " " + rest == ws[0] + (" " + rest);
      assert (" " + rest)[1..] == rest;
      assert Words(" " + rest) == Words(rest);
      WordsJoin(ws[1..]);
      assert ws == [ws[0]] + ws[1..];
    }
  }

  /** A joined word list starts and ends with a word character (when not empty). */
  lemma {:induction false} JoinSpaceEnds(ws: seq<string>)
    requires WordList(ws) && ws != []
    ensures |JoinSpace(ws)| > 0
    ensures !IsSpace(JoinSpace(ws)[0]) && !IsSpace(JoinSpace(ws)[|JoinSpace(ws)| - 1])
  {
    assert ws[0][0] in ws[0];
    if |ws| > 1 {
      JoinSpaceEnds(ws[1..]);
      var rest := JoinSpace(ws[1..]);
      assert JoinSpace(ws) == ws[0] + " " + rest;
    } else {
      assert ws[0][|ws[0]| - 1] in ws[0];
    }
  }

  /** Joining non-empty whitespace-free words with single spaces gives a tidy string. */
  lemma {:induction false} JoinSpaceTidy(ws: seq<string>)
    requires WordList(ws)
    ensures Tidy(JoinSpace(ws))
  {
    if |ws| == 1 {
      assert forall i :: 0 <= i < |ws[0]| ==> ws[0][i] in ws[0];
    } else if |ws| > 1 {
      var w := ws[0];
      var rest := JoinSpace(ws[1..]);
      JoinSpaceTidy(ws[1..]);
      JoinSpaceEnds(ws[1..]);
      var s := w + " " + rest;
      forall i | 0 <= i < |s|
        ensures IsSpace(s[i]) ==> s[i] == ' ' && 0 < i < |s| - 1 && !IsSpace(s[i + 1])
      {
        if i < |w| {
          assert s[i] == w[i] && w[i] in w;
        } else if i > |w| {
          assert s[i] == rest[i - |w| - 1];
          if i - |w| - 1 < |rest| - 1 {
            assert s[i + 1] == rest[i - |w|];
          }
        } else {
          assert s[i + 1] == rest[0];
        }
      }
    }
  }

  /** Every character of a joined list is a space or a character of some word. */
  lemma {:induction false} JoinSpaceChars(ws: seq<string>, c: char)
    requires c in JoinSpace(ws)
    ensures c == ' ' || exists k :: 0 <= k < |ws| && c in ws[k]
  {
    if |ws| == 1 {
      assert c in ws[0];
    } else if |ws| > 1 {
      var rest := JoinSpace(ws[1..]);
      assert JoinSpace(ws) == ws[0] + " " + rest;
      if c in ws[0] {
      } else if c != ' ' {
        assert c in rest;
        JoinSpaceChars(ws[1..], c);
        var k :| 0 <= k < |ws| - 1 && c in ws[1..][k];
        assert c in ws[k + 1];
      }
    }
  }

  /**
   * What `normalize_answer` guarantees: no upper-case letter, no
   * punctuation, and only single spaces between words.
   */
  lemma NormalizeShape(s: string)
    ensures Tidy(Normalize(s))
    ensures forall c :: c in Normalize(s) ==> !IsUpper(c) && !IsPunctuation(c)
  {
    var low := Lower(s);
    var ws := Words(RemovePunc(low));
    JoinSpaceTidy(ws);
    forall c | c in Normalize(s)
      ensures !IsUpper(c) && !IsPunctuation(c)
    {
      JoinSpaceChars(ws, c);
      if c != ' ' {
        var k :| 0 <= k < |ws| && c in ws[k];
        assert c in RemovePunc(low);
        assert c in low;
        var i :| 0 <= i < |low| && low[i] == c;
      }
    }
  }

  /** A string without upper-case letters is its own lower case. */
  lemma LowerNoUpper(s: string)
    requires forall c :: c in s ==> !IsUpper(c)
    ensures Lower(s) == s
  {
    assert forall i :: 0 <= i < |s| ==> s[i] in s;
  }

  /** A string without punctuation loses nothing to `remove_punc`. */
  lemma {:induction false} RemovePuncNone(s: string)
    requires forall c :: c in s ==> !IsPunctuation(c)
    ensures RemovePunc(s) == s
  {
    if s != [] {
      assert s[0] in s;
      assert forall c :: c in s[1..] ==> c in s;
      RemovePuncNone(s[1..]);
      assert s == [s[0]] + s[1..];
    }
  }

  /** `remove_punc` filters character by character, so it distributes over concatenation. */
  lemma {:induction false} RemovePuncAppend(a: string, b: string)
    ensures RemovePunc(a + b) == RemovePunc(a) + RemovePunc(b)
  {
    if a != [] {
      assert (a + b)[0] == a[0] && (a + b)[1..] == a[1..] + b;
      RemovePuncAppend(a[1..], b);
    } else {
      assert a + b == b;
    }
  }

  /** `normalize_answer` is idempotent. */
  lemma NormalizeIdempotent(s: string)
    ensures Normalize(Normalize(s)) == Normalize(s)
  {
    var n := Normalize(s);
    NormalizeShape(s);
    LowerNoUpper(n);
    RemovePuncNone(n);
    WordsJoin(Words(RemovePunc(Lower(s))));
  }

  /**
   * The tokens F1 compares, `normalize_answer(s).split()`: splitting the
   * normalised answer again gives back the words of the cleaned text.
   */
  function Tokens(s: string): seq<string>
  {
    Words(RemovePunc(Lower(s)))
  }

  lemma TokensOfNormalized(s: string)
    ensures Tokens(s) == Words(Normalize(s))
  {
    WordsJoin(Words(RemovePunc(Lower(s))));
  }

  /** `exact_match_score`, as the 0/1 score the accumulator adds up. */
  function ExactMatch(prediction: string, truth: string): (r: real)
    ensures r == 1.0 || r == 0.0
    ensures r == 1.0 <==> Normalize(prediction) == Normalize(truth)
  {
    if Normalize(prediction) == Normalize(truth) then 1.0 else 0.0
  }

  /** `sum((Counter(p) & Counter(g)).values())`: the number of shared tokens, repeats included. */
  function Overlap(p: seq<string>, g: seq<string>): (n: nat)
    ensures n <= |p| && n <= |g|
  {
    MultisetIntersectionSize(multiset(p), multiset(g));
    |multiset(p) * multiset(g)|
  }

  /** The overlap does not depend on the order of its arguments. */
  lemma OverlapSymmetric(p: seq<string>, g: seq<string>)
    ensures Overlap(p, g) == Overlap(g, p)
  {
    assert multiset(p) * multiset(g) == multiset(g) * multiset(p);
  }

  /** The intersection of two multisets is no larger than either. */
  lemma MultisetIntersectionSize(a: multiset<string>, b: multiset<string>)
    ensures |a * b| <= |a| && |a * b| <= |b|
  {
    SubMultisetSize(a * b, a);
    SubMultisetSize(a * b, b);
  }

  lemma {:induction false} SubMultisetSize(a: multiset<string>, b: multiset<string>)
    requires a <= b
    ensures |a| <= |b|
    decreases |a|
  {
    if a != multiset{} {
      var x :| x in a;
      SubMultisetSize(a - multiset{x}, b - multiset{x});
    }
  }

  /** `f1_score(prediction, ground_truth)`. */
  function F1(prediction: string, truth: string): real
  {
    if prediction == "" && truth == "" then 1.0
    else TokenF1(Tokens(prediction), Tokens(truth))
  }

  /**
   * The token-level part of `f1_score`: 0 when the bags share nothing,
   * otherwise the harmonic mean of precision and recall, which is
   * `2·same/(|p|+|g|)` and lies in (0, 1].
   */
  function TokenF1(p: seq<string>, g: seq<string>): (f: real)
    ensures f == 0.0 <==> Overlap(p, g) == 0
    ensures 0.0 <= f <= 1.0
  {
    var same := Overlap(p, g);
    if same == 0 then 0.0 else PrecisionRecallF1(same, |p|, |g|)
  }

  /** `2·same/total`: twice the shared tokens over all tokens of both answers. */
  function Dice(same: nat, total: nat): real
    requires total > 0
  {
    2.0 * same as real / total as real
  }

  /** With shared tokens, the token F1 is `2·same/(|p|+|g|)`. */
  lemma TokenF1Closed(p: seq<string>, g: seq<string>)
    requires Overlap(p, g) > 0
    ensures |p| + |g| > 0
    ensures TokenF1(p, g) == Dice(Overlap(p, g), |p| + |g|)
  {
    var f := PrecisionRecallF1(Overlap(p, g), |p|, |g|);
  }

  /**
   * `(2 * precision * recall) / (precision + recall)` for `same` shared
   * tokens out of `np` predicted and `ng` gold ones: `2·same/(np+ng)`.
   */
  function PrecisionRecallF1(same: nat, np: nat, ng: nat): (f: real)
    requires 0 < same <= np && same <= ng
    ensures f == Dice(same, np + ng)
    ensures 0.0 < f <= 1.0
  {
    var precision := same as real / np as real;
    var recall := same as real / ng as real;
    HarmonicMean(same as real, np as real, ng as real);
    assert (np + ng) as real == np as real + ng as real;
    DiceBounds(same, np + ng);
    (2.0 * precision * recall) / (precision + recall)
  }

  /** With at most half of all tokens shared, and some, the ratio lies in (0, 1]. */
  lemma DiceBounds(same: nat, total: nat)
    requires 0 < same && 2 * same <= total
    ensures 0.0 < Dice(same, total) <= 1.0
  {
    var s := 2.0 * same as real;
    var t := total as real;
    var d := s / t;
    assert d * t == s;
    if d > 1.0 {
      assert (d - 1.0) * t > 0.0;
    }
  }

  /** Dividing by a positive `y`: `x / y` is the `q` with `q * y == x`. */
  lemma DivideBy(x: real, y: real, q: real)
    requires y > 0.0 && q * y == x
    ensures x / y == q
  {
  }

  /** A positive factor cancels. */
  lemma CancelPositive(x: real, y: real, c: real)
    requires c > 0.0 && x * c == y * c
    ensures x == y
  {
    assert (x - y) * c == 0.0;
  }

  /** The harmonic mean of `s/a` and `s/b` is `2s/(a+b)`. */
  lemma HarmonicMean(s: real, a: real, b: real)
    requires s > 0.0 && a > 0.0 && b > 0.0
    ensures (2.0 * (s / a) * (s / b)) / ((s / a) + (s / b)) == 2.0 * s / (a + b)
  {
    var p := s / a;
    var r := s / b;
    var q := 2.0 * s / (a + b);
    assert p * a == s && r * b == s && q * (a + b) == 2.0 * s;
    assert p > 0.0 && r > 0.0;
    assert (q * (p + r)) * (a * b) == q * ((p * a) * b + (r * b) * a);
    assert q * ((p * a) * b + (r * b) * a) == s * (q * (a + b));
    assert (2.0 * p * r) * (a * b) == 2.0 * (p * a) * (r * b);
    assert a * b > 0.0;
    CancelPositive(q * (p + r), 2.0 * p * r, a * b);
    DivideBy(2.0 * p * r, p + r, q);
  }

  /**
   * The cases of `f1_score`: 1 when both raw strings are empty, 0 when the
   * token bags share nothing, and otherwise `2·same/(|p|+|g|)`.
   */
  lemma F1Cases(prediction: string, truth: string)
    ensures prediction == "" && truth == "" ==> F1(prediction, truth) == 1.0
    ensures !(prediction == "" && truth == "") && Overlap(Tokens(prediction), Tokens(truth)) == 0 ==>
      F1(prediction, truth) == 0.0
    ensures !(prediction == "" && truth == "") && Overlap(Tokens(prediction), Tokens(truth)) > 0 ==>
      F1(prediction, truth) == Dice(Overlap(Tokens(prediction), Tokens(truth)),
                                    |Tokens(prediction)| + |Tokens(truth)|)
  {
    if !(prediction == "" && truth == "") {
      var p := Tokens(prediction);
      var g := Tokens(truth);
      assert F1(prediction, truth) == TokenF1(p, g);
      if Overlap(p, g) > 0 {
        TokenF1Closed(p, g);
      }
    }
  }

  /** F1 lies between 0 and 1. */
  lemma F1Bounds(prediction: string, truth: string)
    ensures 0.0 <= F1(prediction, truth) <= 1.0
  {
  }

  /** F1 does not depend on which answer is the prediction. */
  lemma F1Symmetric(prediction: string, truth: string)
    ensures F1(prediction, truth) == F1(truth, prediction)
  {
    F1Cases(prediction, truth);
    F1Cases(truth, prediction);
    var p := Tokens(prediction);
    var g := Tokens(truth);
    OverlapSymmetric(p, g);
    assert (|p| + |g|) as real == (|g| + |p|) as real;
  }

  /** A non-empty token list scored against itself has F1 1. */
  lemma TokenF1Self(p: seq<string>)
    requires p != []
    ensures TokenF1(p, p) == 1.0
  {
    assert multiset(p) * multiset(p) == multiset(p);
    TokenF1Closed(p, p);
    var n := |p| as real;
    assert 2.0 * n / (n + n) == 1.0;
  }

  /** An exact match with at least one token scores F1 1. */
  lemma ExactMatchFullF1(prediction: string, truth: string)
    requires ExactMatch(prediction, truth) == 1.0
    requires Tokens(prediction) != []
    ensures F1(prediction, truth) == 1.0
  {
    var p := Tokens(prediction);
    TokensOfNormalized(prediction);
    TokensOfNormalized(truth);
    assert Tokens(truth) == p;
    assert prediction != "" by {
      assert Tokens("") == [];
    }
    assert F1(prediction, truth) == TokenF1(p, p);
    TokenF1Self(p);
  }

  /**
   * The raw-empty test looks at the strings before normalisation: "." and ""
   * match exactly, both normalising to "", yet score F1 0.
   */
  lemma PunctuationOnlyScoresZero()
    ensures ExactMatch(".", "") == 1.0
    ensures F1(".", "") == 0.0
  {
    assert Lower(".") == ".";
    assert RemovePunc(".") == "";
    assert Normalize(".") == "";
    assert Normalize("") == "";
    assert Tokens(".") == [];
  }

  /** `lower` works character by character, so it distributes over concatenation. */
  lemma LowerAppend(a: string, b: string)
    ensures Lower(a + b) == Lower(a) + Lower(b)
  {
    assert forall i :: 0 <= i < |a + b| ==> Lower(a + b)[i] == (Lower(a) + Lower(b))[i];
  }

  /** Lower-casing twice is lower-casing once. */
  lemma LowerIdempotent(s: string)
    ensures Lower(Lower(s)) == Lower(s)
  {
    assert forall i :: 0 <= i < |s| ==> Lower(Lower(s))[i] == Lower(s)[i];
  }

  /** A string of punctuation only is removed entirely. */
  lemma {:induction false} RemovePuncAll(t: string)
    requires forall c :: c in t ==> IsPunctuation(c)
    ensures RemovePunc(t) == []
  {
    if t != [] {
      assert t[0] in t;
      assert forall c :: c in t[1..] ==> c in t;
      RemovePuncAll(t[1..]);
    }
  }

  /** Case does not matter to `normalize_answer`. */
  lemma NormalizeIgnoresCase(s: string)
    ensures Normalize(Lower(s)) == Normalize(s)
  {
    LowerIdempotent(s);
  }

  /** Trailing punctuation does not matter to `normalize_answer`. */
  lemma NormalizeIgnoresPunctuation(s: string, t: string)
    requires forall c :: c in t ==> IsPunctuation(c)
    ensures Normalize(s + t) == Normalize(s)
  {
    LowerAppend(s, t);
    LowerNoUpper(t);
    RemovePuncAppend(Lower(s), t);
    RemovePuncAll(t);
    assert RemovePunc(Lower(s)) + [] == RemovePunc(Lower(s));
  }

  /**
   * The answer written in another case and followed by punctuation, as in
   * "Paris." against "paris", is an exact match.
   */
  lemma ExactMatchIgnoresCaseAndPunctuation(s: string, t: string)
    requires forall c :: c in t ==> IsPunctuation(c)
    ensures ExactMatch(s + t, Lower(s)) == 1.0
  {
    NormalizeIgnoresPunctuation(s, t);
    NormalizeIgnoresCase(s);
  }

  /** "The Answer Is 5." exactly matches "the answer is 5": case and the final full stop are ignored. */
  lemma MixedCaseExactMatch(prediction: string, truth: string)
    requires prediction == "The Answer Is 5." && truth == "the answer is 5"
    ensures ExactMatch(prediction, truth) == 1.0
  {
    var s := prediction[..15];
    assert prediction == s + ".";
    ExactMatchIgnoresCaseAndPunctuation(s, ".");
    LowerAnswer(s, truth);
  }

  /** Lower-casing the answer of the example above. */
  lemma LowerAnswer(s: string, t: string)
    requires s == "The Answer Is 5" && t == "the answer is 5"
    ensures Lower(s) == t
  {
    var r := Lower(s);
    assert forall i :: 0 <= i < 15 ==> r[i] == LowerChar(s[i]);
  }

  /** The tokens of a two-letter-word lower-case answer such as "a b". */
  lemma TwoWordTokens(x: char, y: char)
    requires 'a' <= x <= 'z' && 'a' <= y <= 'z'
    ensures Tokens([x, ' ', y]) == [[x], [y]]
  {
    var s := [x, ' ', y];
    LowerNoUpper(s);
    RemovePuncNone(s);
    assert JoinSpace([[x], [y]]) == s;
    WordsJoin([[x], [y]]);
  }

  /** Two two-token lists with exactly one token in common share one token. */
  lemma OverlapOneOfTwo(u: string, v: string, w: string)
    requires u != v && v != w && u != w
    ensures Overlap([u, v], [v, w]) == 1
  {
    var shared := multiset([u, v]) * multiset([v, w]);
    assert multiset([u, v]) == multiset{u, v};
    assert multiset([v, w]) == multiset{v, w};
    assert shared == multiset{v};
  }

  /** One shared token out of four in all: F1 is 1/2. */
  lemma TokenF1Quarter(p: seq<string>, g: seq<string>)
    requires Overlap(p, g) == 1 && |p| + |g| == 4
    ensures TokenF1(p, g) == 0.5
  {
    TokenF1Closed(p, g);
  }

  /** Answers such as "a b" and "b c", sharing one of their two words, score F1 1/2. */
  lemma F1OneOfTwoShared(x: char, y: char, z: char)
    requires 'a' <= x <= 'z' && 'a' <= y <= 'z' && 'a' <= z <= 'z'
    requires x != y && y != z && x != z
    ensures F1([x, ' ', y], [y, ' ', z]) == 0.5
  {
    TwoWordTokens(x, y);
    TwoWordTokens(y, z);
    assert [x] != [y] && [y] != [z] && [x] != [z] by {
      assert [x][0] == x && [y][0] == y && [z][0] == z;
    }
    var p := [[x], [y]];
    var g := [[y], [z]];
    OverlapOneOfTwo([x], [y], [z]);
    assert |p| + |g| == 4;
    TokenF1Quarter(p, g);
    assert F1([x, ' ', y], [y, ' ', z]) == TokenF1(p, g);
  }

  /**
   * `metric_max_over_ground_truths`: the scores of the prediction against
   * each gold answer, then their maximum; `max` of no scores fails.
   */
  method MetricMaxOverGroundTruths(metric: (string, string) -> real, prediction: string, truths: seq<string>)
    returns (r: Option<real>)
    ensures r.None? <==> truths == []
    ensures r.Some? ==> forall k :: 0 <= k < |truths| ==> metric(prediction, truths[k]) <= r.value
    ensures r.Some? ==> exists k :: 0 <= k < |truths| && r.value == metric(prediction, truths[k])
  {
    var scores: seq<real> := [];
    var i := 0;
    while i < |truths|
      invariant 0 <= i <= |truths|
      invariant |scores| == i
      invariant forall k :: 0 <= k < i ==> scores[k] == metric(prediction, truths[k])
    {
      scores := scores + [metric(prediction, truths[i])];
      i := i + 1;
    }
    if scores == [] {
      return None;
    }
    var best := scores[0];
    var j := 1;
    while j < |scores|
      invariant 1 <= j <= |scores|
      invariant forall k :: 0 <= k < j ==> scores[k] <= best
      invariant exists k :: 0 <= k < j && best == scores[k]
    {
      if scores[j] > best {
        best := scores[j];
      }
      j := j + 1;
    }
    r := Some(best);
  }

  /** `total / count if count > 0 else 0`. */
  function Average(total: real, count: nat): (a: real)
    requires 0.0 <= total <= count as real
    ensures 0.0 <= a <= 1.0
    ensures count > 0 ==> a * count as real == total
    ensures count == 0 ==> a == 0.0
  {
    if count > 0 then total / count as real else 0.0
  }

  /** The running exact-match and F1 totals over the answers scored so far. */
  class SquadMetric {
    var totalEm: real
    var totalF1: real
    var count: nat

    /** Each total adds at most 1 per scored answer. */
    ghost predicate Valid()
      reads this
    {
      0.0 <= totalEm <= count as real && 0.0 <= totalF1 <= count as real
    }

    constructor ()
      ensures totalEm == 0.0 && totalF1 == 0.0 && count == 0
      ensures Valid()
    {
      totalEm := 0.0;
      totalF1 := 0.0;
      count := 0;
    }

    /** `metric(best_span_string, answer_string)`: one more answer scored. */
    method Call(best: string, answer: string)
      requires Valid()
      modifies this
      ensures totalEm == old(totalEm) + ExactMatch(best, answer)
      ensures totalF1 == old(totalF1) + F1(best, answer)
      ensures count == old(count) + 1
      ensures Valid()
    {
      var em := MetricMaxOverGroundTruths(ExactMatch, best, [answer]);
      var f1 := MetricMaxOverGroundTruths(F1, best, [answer]);
      F1Bounds(best, answer);
      totalEm := totalEm + em.value;
      totalF1 := totalF1 + f1.value;
      count := count + 1;
    }

    /** `get_metric(reset)`: the two averages, with every field zeroed afterwards on request. */
    method GetMetric(reset: bool) returns (em: real, f1: real)
      requires Valid()
      modifies this
      ensures em == Average(old(totalEm), old(count)) && f1 == Average(old(totalF1), old(count))
      ensures 0.0 <= em <= 1.0 && 0.0 <= f1 <= 1.0
      ensures reset ==> totalEm == 0.0 && totalF1 == 0.0 && count == 0
      ensures !reset ==> totalEm == old(totalEm) && totalF1 == old(totalF1) && count == old(count)
      ensures Valid()
    {
      em := Average(totalEm, count);
      f1 := Average(totalF1, count);
      if reset {
        totalEm := 0.0;
        totalF1 := 0.0;
        count := 0;
      }
    }
  }
}
