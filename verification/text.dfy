/**
 * Padding a batch of token rows to its longest row and mapping tokens to
 * vocabulary ids with an unknown-id fallback.  This chain is shared by
 * `SquadConverter._process_text` (data.py) and by the older `TextData`
 * builder of the training script, whose methods reassign its `data` field.
 */
module Text {
  import opened Common

  /** `max(len(x) for x in rows)`. */
  function MaxLength<T>(rows: seq<seq<T>>): (m: nat)
    requires |rows| > 0
    ensures forall i :: 0 <= i < |rows| ==> |rows[i]| <= m
    ensures exists i :: 0 <= i < |rows| && |rows[i]| == m
  {
    if |rows| == 1 then |rows[0]|
    else
      var m := MaxLength(rows[1..]);
      assert forall i :: 1 <= i < |rows| ==> rows[i] == rows[1..][i - 1];
      if |rows[0]| >= m then |rows[0]| else m
  }

  /** `x + [pad] * (length - len(x))`. */
  function PadRow(row: seq<string>, pad: string, length: nat): (r: seq<string>)
    requires |row| <= length
    ensures |r| == length
    ensures r[..|row|] == row
    ensures forall j :: |row| <= j < length ==> r[j] == pad
  {
    row + seq(length - |row|, _ => pad)
  }

  /** `TextData.padding`: every row padded to the longest one. */
  function PadRows(rows: seq<seq<string>>, pad: string): (r: seq<seq<string>>)
    requires |rows| > 0
    ensures |r| == |rows|
    ensures forall i :: 0 <= i < |r| ==> |r[i]| == MaxLength(rows)
    ensures forall i :: 0 <= i < |r| ==> |rows[i]| <= |r[i]| && r[i][..|rows[i]|] == rows[i]
    ensures forall i, j :: 0 <= i < |r| && |rows[i]| <= j < |r[i]| ==> r[i][j] == pad
  {
    var m := MaxLength(rows);
    seq(|rows|, i requires 0 <= i < |rows| => PadRow(rows[i], pad, m))
  }

  /** `token_to_index.get(token, unk_index)`. */
  function Lookup(vocab: map<string, int>, unk: int, token: string): (id: int)
    ensures token in vocab ==> id == vocab[token]
    ensures token !in vocab ==> id == unk
  {
    if token in vocab then vocab[token] else unk
  }

  /** Token rows mapped to id rows, cell by cell. */
  function EncodeRows(rows: seq<seq<string>>, vocab: map<string, int>, unk: int): (r: seq<seq<int>>)
    ensures |r| == |rows|
    ensures forall i :: 0 <= i < |r| ==> |r[i]| == |rows[i]|
    ensures forall i, j :: 0 <= i < |r| && 0 <= j < |r[i]| ==> r[i][j] == Lookup(vocab, unk, rows[i][j])
  {
    seq(|rows|, i requires 0 <= i < |rows| =>
      seq(|rows[i]|, j requires 0 <= j < |rows[i]| => Lookup(vocab, unk, rows[i][j])))
  }

  /** `SquadConverter._process_text`; `max()` of an empty batch fails. */
  function ProcessText(rows: seq<seq<string>>, vocab: map<string, int>, unk: int, pad: string)
    : (r: Option<seq<seq<int>>>)
  {
    if |rows| == 0 then None
    else Some(EncodeRows(PadRows(rows, pad), vocab, unk))
  }

  /**
   * What `_process_text` returns: one row per input row, all as long as the
   * longest; cell j of row i is the id of token j (or the unknown id) while
   * j is inside the row, and the id of the pad token after it.
   */
  lemma ProcessTextCells(rows: seq<seq<string>>, vocab: map<string, int>, unk: int, pad: string)
    ensures ProcessText(rows, vocab, unk, pad).None? <==> rows == []
    ensures rows != [] ==>
      var r := ProcessText(rows, vocab, unk, pad).value;
      && |r| == |rows|
      && (forall i :: 0 <= i < |r| ==> |r[i]| == MaxLength(rows))
      && (forall i, j :: 0 <= i < |r| && 0 <= j < |rows[i]| ==> r[i][j] == Lookup(vocab, unk, rows[i][j]))
      && (forall i, j :: 0 <= i < |r| && |rows[i]| <= j < |r[i]| ==> r[i][j] == Lookup(vocab, unk, pad))
  {
    if rows != [] {
      var padded := PadRows(rows, pad);
      forall i, j | 0 <= i < |rows| && 0 <= j < |rows[i]|
        ensures padded[i][j] == rows[i][j]
      {
        assert padded[i][..|rows[i]|] == rows[i];
      }
    }
  }

  /**
   * Decoding an encoded padded batch with an inverse list recovers every
   * in-vocabulary token and the pad token at every padded position.
   */
  lemma PaddingRoundTrip(rows: seq<seq<string>>, vocab: map<string, int>, unk: int, pad: string,
                         indexToToken: seq<string>)
    requires rows != []
    requires forall t :: t in vocab ==> 0 <= vocab[t] < |indexToToken| && indexToToken[vocab[t]] == t
    requires pad in vocab
    ensures var r := ProcessText(rows, vocab, unk, pad).value;
      && (forall i, j :: 0 <= i < |rows| && 0 <= j < |rows[i]| && rows[i][j] in vocab ==>
            indexToToken[r[i][j]] == rows[i][j])
      && (forall i, j :: 0 <= i < |rows| && |rows[i]| <= j < |r[i]| ==> indexToToken[r[i][j]] == pad)
  {
    ProcessTextCells(rows, vocab, unk, pad);
  }

  /** The unit test's vocabulary (`<unk>` has id 1). */
  const TestVocab: map<string, int> := map[
    "<pad>" := 0, "<unk>" := 1, "is" := 2, "a" := 3, "risk" := 4, "." := 5,
    "You" := 6, "being" := 7, "ridiculed" := 8, "What" := 9, "your" := 10]

  /** The tokens of the unit test's context sentence. */
  const TestContext: seq<string> :=
    ["Rock", "n", "Roll", "is", "a", "risk", ".", "You", "risk", "being", "ridiculed", "."]

  /** The unit test of `_process_text`: a one-row batch needs no padding and maps unknown words to 1. */
  lemma ProcessTextTestExample()
    ensures ProcessText([TestContext], TestVocab, 1, "<pad>")
         == Some([[1, 1, 1, 2, 3, 4, 5, 6, 4, 7, 8, 5]])
  {
    var r := ProcessText([TestContext], TestVocab, 1, "<pad>").value;
    ProcessTextCells([TestContext], TestVocab, 1, "<pad>");
    assert MaxLength([TestContext]) == 12;
    assert r[0] == [1, 1, 1, 2, 3, 4, 5, 6, 4, 7, 8, 5];
    assert r == [r[0]];
  }

  /** What `TextData.data` holds: token rows before `to_array`, id rows after it. */
  datatype Cells = Tokens(rows: seq<seq<string>>) | Ids(ids: seq<seq<int>>)

  /** Every row of the data has the same length, so numpy can build a matrix of it. */
  predicate Rectangular<T>(rows: seq<seq<T>>)
  {
    forall i, j :: 0 <= i < |rows| && 0 <= j < |rows| ==> |rows[i]| == |rows[j]|
  }

  /** The older builder of `lstm_seq2seq.py`, whose methods reassign `data` in place. */
  class TextData {
    var data: Cells

    constructor (rows: seq<seq<string>>)
      ensures data == Tokens(rows)
    {
      data := Tokens(rows);
    }

    /** The `max_length` property: `None` where `max()` of no rows fails. */
    function MaxLen(): (m: Option<nat>)
      reads this
      ensures m.None? <==> (if data.Tokens? then data.rows == [] else data.ids == [])
      ensures data.Tokens? && m.Some? ==> m.value == MaxLength(data.rows)
      ensures data.Ids? && m.Some? ==> m.value == MaxLength(data.ids)
    {
      match data
      case Tokens(rows) => if rows == [] then None else Some(MaxLength(rows))
      case Ids(ids) => if ids == [] then None else Some(MaxLength(ids))
    }

    /** `padding(pad_token)`: fails (leaving `data` alone) on no rows, as `max_length` does. */
    method Padding(pad: string) returns (ok: bool)
      requires data.Tokens?
      modifies this
      ensures ok <==> old(data).rows != []
      ensures ok ==> data == Tokens(PadRows(old(data).rows, pad))
      ensures !ok ==> data == old(data)
      ensures ok ==> Rectangular(data.rows)
    {
      var rows := data.rows;
      if rows == [] {
        return false;
      }
      data := Tokens(PadRows(rows, pad));
      ok := true;
    }

    /**
     * `to_array(token_to_index, unk_index)`: every token mapped with the
     * unknown fallback.  Ragged rows make numpy's int conversion fail, which
     * leaves `data` alone here.
     */
    method ToArray(vocab: map<string, int>, unk: int) returns (ok: bool)
      requires data.Tokens?
      modifies this
      ensures ok <==> Rectangular(old(data).rows)
      ensures ok ==> data == Ids(EncodeRows(old(data).rows, vocab, unk))
      ensures !ok ==> data == old(data)
    {
      var rows := data.rows;
      if !Rectangular(rows) {
        return false;
      }
      data := Ids(EncodeRows(rows, vocab, unk));
      ok := true;
    }
  }

  /**
   * The chain `TextData(rows).padding(pad).to_array(vocab, unk)` used by the
   * training script gives the same ids as `_process_text`.
   */
  method PadThenEncode(rows: seq<seq<string>>, pad: string, vocab: map<string, int>, unk: int)
    returns (ids: Option<seq<seq<int>>>)
    ensures ids == ProcessText(rows, vocab, unk, pad)
  {
    var text := new TextData(rows);
    var padded := text.Padding(pad);
    if !padded {
      return None;
    }
    var encoded := text.ToArray(vocab, unk);
    assert encoded;
    ids := Some(text.data.ids);
  }
}
