/**
 * `SquadConverter.__call__`: a batch of tokenised records becomes padded id
 * matrices for questions and contexts, a target matrix of span labels
 * (1 at the span start, 2 on the rest of the span, 0 elsewhere) and a
 * three-channel feature array (channel 0 up to the start, channel 1 just
 * after it, channel 2 on the rest of the span).  Both arrays start as zeros
 * and are filled row by row in place.  Token spans are inputs here; a
 * negative start marks an answer that could not be located.
 */
module Converter {
  import opened Common
  import opened Text

  /** A token span `(start, end)`, both ends inclusive. */
  datatype Span = Span(start: int, end: int)

  /**
   * The stop of the numpy slice `[lo:hi]` on an axis of length `len`: a
   * negative `hi` counts from the end, and both kinds are clamped to the axis.
   */
  function SliceStop(hi: int, len: nat): (stop: nat)
    ensures stop <= len
    ensures 0 <= hi ==> stop == Min(hi, len)
    ensures hi < 0 ==> stop == Max(0, len + hi)
  {
    if hi >= 0 then Min(hi, len) else Max(0, len + hi)
  }

  /** Label of position `j` in a row of length `len` whose span is `span`. */
  function TargetCell(span: Span, len: nat, j: nat): int
  {
    if span.start < 0 then 0
    else if j == span.start then 1
    else if span.start + 1 <= j < SliceStop(span.end + 1, len) then 2
    else 0
  }

  /** Value of channel `c` at position `j` in a row of length `len` whose span is `span`. */
  function FeatureCell(span: Span, len: nat, j: nat, c: nat): real
  {
    if span.start < 0 then 0.0
    else if c == 0 && j <= span.start then 1.0
    else if c == 1 && j == span.start + 1 then 1.0
    else if c == 2 && span.start + 2 <= j < SliceStop(span.end + 1, len) then 1.0
    else 0.0
  }

  /** `a[i, lo:hi] = v` for a non-empty or empty run `lo <= hi <= a.Length1`. */
  method FillTargetRun(a: array2<int>, i: nat, lo: nat, hi: nat, v: int)
    requires i < a.Length0 && lo <= hi <= a.Length1
    modifies a
    ensures forall r, j :: 0 <= r < a.Length0 && 0 <= j < a.Length1 ==>
      a[r, j] == if r == i && lo <= j < hi then v else old(a[r, j])
  {
    var j := lo;
    while j < hi
      invariant lo <= j <= hi
      invariant forall r, k :: 0 <= r < a.Length0 && 0 <= k < a.Length1 ==>
        a[r, k] == if r == i && lo <= k < j then v else old(a[r, k])
    {
      a[i, j] := v;
      j := j + 1;
    }
  }

  /** `a[i, lo:hi, c] = 1.` for `lo <= hi <= a.Length1` and `c < a.Length2`. */
  method FillFeatureRun(a: array3<real>, i: nat, lo: nat, hi: nat, c: nat)
    requires i < a.Length0 && lo <= hi <= a.Length1 && c < a.Length2
    modifies a
    ensures forall r, j, d :: 0 <= r < a.Length0 && 0 <= j < a.Length1 && 0 <= d < a.Length2 ==>
      a[r, j, d] == if r == i && d == c && lo <= j < hi then 1.0 else old(a[r, j, d])
  {
    var j := lo;
    while j < hi
      invariant lo <= j <= hi
      invariant forall r, k, d :: 0 <= r < a.Length0 && 0 <= k < a.Length1 && 0 <= d < a.Length2 ==>
        a[r, k, d] == if r == i && d == c && lo <= k < j then 1.0 else old(a[r, k, d])
    {
      a[i, j, c] := 1.0;
      j := j + 1;
    }
  }

  /** The target writes for one row whose span starts inside it; the row was zero. */
  method FillTarget(target: array2<int>, i: nat, span: Span)
    requires i < target.Length0
    requires 0 <= span.start < target.Length1
    requires forall j :: 0 <= j < target.Length1 ==> target[i, j] == 0
    modifies target
    ensures forall r, j :: 0 <= r < target.Length0 && 0 <= j < target.Length1 ==>
      target[r, j] == if r == i then TargetCell(span, target.Length1, j) else old(target[r, j])
  {
    var len := target.Length1;
    var stop := SliceStop(span.end + 1, len);
    target[i, span.start] := 1;
    if span.start + 1 <= stop {
      FillTargetRun(target, i, span.start + 1, stop, 2);
    }
  }

  /** The feature writes for one row whose span starts inside it, guards included; the row was zero. */
  method FillFeature(feature: array3<real>, i: nat, span: Span)
    requires i < feature.Length0 && feature.Length2 >= 3
    requires 0 <= span.start < feature.Length1
    requires forall j, c :: 0 <= j < feature.Length1 && 0 <= c < feature.Length2 ==> feature[i, j, c] == 0.0
    modifies feature
    ensures forall r, j, c :: 0 <= r < feature.Length0 && 0 <= j < feature.Length1 && 0 <= c < feature.Length2 ==>
      feature[r, j, c] == if r == i then FeatureCell(span, feature.Length1, j, c) else old(feature[r, j, c])
  {
    var len := feature.Length1;
    var s := span.start;
    FillFeatureRun(feature, i, 0, s + 1, 0);
    if s + 1 < len {
      FillFeatureRun(feature, i, s + 1, s + 2, 1);
    }
    if s + 2 < len {
      var stop := SliceStop(span.end + 1, len);
      if s + 2 <= stop {
        FillFeatureRun(feature, i, s + 2, stop, 2);
      }
    }
  }

  /** The converted batch: `[question_batch, context_batch, input_span_batch], output_span_batch`. */
  datatype Converted = Converted(question: seq<seq<int>>, context: seq<seq<int>>,
                                 feature: array3<real>, target: array2<int>)

  /** Every located span starts inside a row of length `len`. */
  predicate SpansFit(spans: seq<Span>, len: nat)
  {
    forall i :: 0 <= i < |spans| ==> spans[i].start < len
  }

  /**
   * `converter(batch)` with the batch already tokenised and its spans located.
   * It fails on an empty batch (nothing to unpack) and on a span starting at
   * or beyond the context width (numpy's index error).
   */
  method Call(contexts: seq<seq<string>>, questions: seq<seq<string>>, spans: seq<Span>,
              vocab: map<string, int>, unk: int, pad: string, categories: nat)
    returns (r: Option<Converted>)
    requires |questions| == |contexts| && |spans| == |contexts|
    requires categories >= 3
    ensures r.None? <==> contexts == [] || !SpansFit(spans, MaxLength(contexts))
    ensures r.Some? ==>
      var b := r.value;
      var len := MaxLength(contexts);
      && fresh(b.feature) && fresh(b.target)
      && Some(b.question) == ProcessText(questions, vocab, unk, pad)
      && Some(b.context) == ProcessText(contexts, vocab, unk, pad)
      && b.target.Length0 == |contexts| && b.target.Length1 == len
      && b.feature.Length0 == |contexts| && b.feature.Length1 == len && b.feature.Length2 == categories
      && (forall i, j :: 0 <= i < |contexts| && 0 <= j < len ==>
            b.target[i, j] == TargetCell(spans[i], len, j))
      && (forall i, j, c :: 0 <= i < |contexts| && 0 <= j < len && 0 <= c < categories ==>
            b.feature[i, j, c] == FeatureCell(spans[i], len, j, c))
  {
    if contexts == [] {
      return None;
    }
    var n := |contexts|;
    var len := MaxLength(contexts);
    var context := ProcessText(contexts, vocab, unk, pad).value;
    var question := ProcessText(questions, vocab, unk, pad).value;
    var target := new int[n, len]((i, j) => 0);
    var feature := new real[n, len, categories]((i, j, c) => 0.0);
    var ok := FillRows(target, feature, spans);
    if !ok {
      return None;
    }
    r := Some(Converted(question, context, feature, target));
  }

  /** The loop over the batch: rows are filled in order until a span starts beyond the width. */
  method FillRows(target: array2<int>, feature: array3<real>, spans: seq<Span>) returns (ok: bool)
    requires target.Length0 == |spans| && feature.Length0 == |spans|
    requires feature.Length1 == target.Length1 && feature.Length2 >= 3
    requires forall r, j :: 0 <= r < |spans| && 0 <= j < target.Length1 ==> target[r, j] == 0
    requires forall r, j, c :: 0 <= r < |spans| && 0 <= j < feature.Length1 && 0 <= c < feature.Length2 ==>
      feature[r, j, c] == 0.0
    modifies target, feature
    ensures ok <==> SpansFit(spans, target.Length1)
    ensures ok ==> forall r, j :: 0 <= r < |spans| && 0 <= j < target.Length1 ==>
      target[r, j] == TargetCell(spans[r], target.Length1, j)
    ensures ok ==> forall r, j, c :: 0 <= r < |spans| && 0 <= j < feature.Length1 && 0 <= c < feature.Length2 ==>
      feature[r, j, c] == FeatureCell(spans[r], feature.Length1, j, c)
  {
    var n := |spans|;
    var len := target.Length1;
    var i := 0;
    while i < n
      invariant 0 <= i <= n
      invariant forall k :: 0 <= k < i ==> spans[k].start < len
      invariant forall r, j :: 0 <= r < n && 0 <= j < len ==>
        target[r, j] == if r < i then TargetCell(spans[r], len, j) else 0
      invariant forall r, j, c :: 0 <= r < n && 0 <= j < len && 0 <= c < feature.Length2 ==>
        feature[r, j, c] == if r < i then FeatureCell(spans[r], len, j, c) else 0.0
    {
      var span := spans[i];
      if span.start >= len {
        return false;
      }
      if span.start >= 0 {
        FillTarget(target, i, span);
        FillFeature(feature, i, span);
      }
      i := i + 1;
    }
    ok := true;
  }

  /**
   * Labels of a row whose span starts inside it: 1 at the start only, 2
   * exactly on the clamped rest of the span, 0 elsewhere; a row with a
   * negative start is all zero.
   */
  lemma TargetLabels(span: Span, len: nat, j: nat)
    requires span.start < len && span.start <= span.end && j < len
    ensures TargetCell(span, len, j) in {0, 1, 2}
    ensures TargetCell(span, len, j) == 1 <==> j == span.start
    ensures TargetCell(span, len, j) == 2 <==> 0 <= span.start < j <= span.end
    ensures span.start < 0 ==> TargetCell(span, len, j) == 0
  {
  }

  /**
   * At most one channel is set at any position, and for a located span every
   * position up to the end of the span has exactly one: channel 0 up to the
   * start, channel 1 right after it, channel 2 on the remainder.
   */
  lemma OneChannel(span: Span, len: nat, j: nat, c: nat, d: nat)
    requires span.start < len && j < len
    requires FeatureCell(span, len, j, c) == 1.0 && FeatureCell(span, len, j, d) == 1.0
    ensures c == d
  {
  }

  /** Each position of a located span, up to the row's end, is covered by some channel. */
  lemma SpanCovered(span: Span, len: nat, j: nat)
    requires 0 <= span.start <= span.end && j < len && j <= span.end
    ensures FeatureCell(span, len, j, 0) == 1.0 || FeatureCell(span, len, j, 1) == 1.0
         || FeatureCell(span, len, j, 2) == 1.0
  {
  }

  /**
   * Target and features agree: the start label sits on the last position of
   * channel 0's run, and the positions labelled 2 are those up to the span's
   * end that carry channel 1 or 2.
   */
  lemma TargetMatchesFeature(span: Span, len: nat, j: nat)
    requires 0 <= span.start <= span.end && span.start < len && j < len
    ensures TargetCell(span, len, j) == 1 <==>
      FeatureCell(span, len, j, 0) == 1.0 && (j + 1 == len || FeatureCell(span, len, j + 1, 0) == 0.0)
    ensures TargetCell(span, len, j) == 2 <==>
      j <= span.end && (FeatureCell(span, len, j, 1) == 1.0 || FeatureCell(span, len, j, 2) == 1.0)
  {
  }

  /**
   * The unit test: one context of 12 tokens whose answer is token 10.  The
   * target is 1 at 10 only; channel 0 covers positions 0..10, channel 1 only
   * position 11, and channel 2 nothing.
   */
  lemma ConverterTestExample(j: nat)
    requires j < 12
    ensures TargetCell(Span(10, 10), 12, j) == if j == 10 then 1 else 0
    ensures FeatureCell(Span(10, 10), 12, j, 0) == if j <= 10 then 1.0 else 0.0
    ensures FeatureCell(Span(10, 10), 12, j, 1) == if j == 11 then 1.0 else 0.0
    ensures FeatureCell(Span(10, 10), 12, j, 2) == 0.0
  {
  }

  /** The unit test's question ids. */
  lemma QuestionTestExample()
    ensures ProcessText([["What", "is", "your", "risk", "?"]], TestVocab, 1, "<pad>")
         == Some([[9, 2, 10, 4, 1]])
  {
    var rows := [["What", "is", "your", "risk", "?"]];
    var r := ProcessText(rows, TestVocab, 1, "<pad>").value;
    ProcessTextCells(rows, TestVocab, 1, "<pad>");
    assert MaxLength(rows) == 5;
    assert r[0] == [9, 2, 10, 4, 1];
    assert r == [r[0]];
  }
}
