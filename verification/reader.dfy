/**
 * `SquadReader`: random access to the tab-separated rows of a dataset file.
 * The file is given as its sequence of lines (without line terminators);
 * `linecache.getline` is 1-based and yields the empty string for a line
 * number outside the file.
 */
module Reader {
  import opened Common

  const Tab: char := '\t'

  /** `reader[i]` with `i` beyond the last accepted index. */
  datatype ReadError = IndexError

  /** Python's `s.split(sep)`: the pieces between occurrences of `sep`. */
  function SplitOn(s: string, sep: char): (r: seq<string>)
    ensures |r| >= 1
    ensures forall k :: 0 <= k < |r| ==> sep !in r[k]
  {
    if s == [] then [""]
    else
      var rest := SplitOn(s[1..], sep);
      if s[0] == sep then [""] + rest
      else [[s[0]] + rest[0]] + rest[1..]
  }

  /** `sep.join(parts)`. */
  function JoinWith(parts: seq<string>, sep: char): string
    requires |parts| >= 1
  {
    if |parts| == 1 then parts[0] else parts[0] + [sep] + JoinWith(parts[1..], sep)
  }

  /** Joining the pieces back gives the line: splitting loses nothing. */
  lemma {:induction false} JoinSplit(s: string, sep: char)
    ensures JoinWith(SplitOn(s, sep), sep) == s
  {
    if s != [] {
      var rest := SplitOn(s[1..], sep);
      JoinSplit(s[1..], sep);
      if s[0] == sep {
        assert ([""] + rest)[1..] == rest;
      } else {
        var r := [[s[0]] + rest[0]] + rest[1..];
        if |rest| == 1 {
          assert r == [[s[0]] + rest[0]];
        } else {
          assert r[1..] == rest[1..];
          assert JoinWith(rest, sep) == rest[0] + [sep] + JoinWith(rest[1..], sep);
        }
      }
    }
  }

  /** Splitting a join of separator-free pieces gives the pieces back. */
  lemma {:induction false} SplitJoin(parts: seq<string>, sep: char)
    requires |parts| >= 1
    requires forall k :: 0 <= k < |parts| ==> sep !in parts[k]
    ensures SplitOn(JoinWith(parts, sep), sep) == parts
  {
    if |parts| == 1 {
      SplitNoSep(parts[0], sep);
    } else {
      SplitJoin(parts[1..], sep);
      SplitPrefix(parts[0], JoinWith(parts[1..], sep), sep);
      assert parts == [parts[0]] + parts[1..];
    }
  }

  /** A piece without the separator splits into itself. */
  lemma {:induction false} SplitNoSep(s: string, sep: char)
    requires sep !in s
    ensures SplitOn(s, sep) == [s]
  {
    if s != [] {
      SplitNoSep(s[1..], sep);
      assert [s[0]] + s[1..] == s;
    }
  }

  /** A separator-free piece followed by the separator becomes the first field. */
  lemma {:induction false} SplitPrefix(p: string, tail: string, sep: char)
    requires sep !in p
    ensures SplitOn(p + [sep] + tail, sep) == [p] + SplitOn(tail, sep)
  {
    var s := p + [sep] + tail;
    if p == [] {
      assert s == [sep] + tail;
      assert s[1..] == tail;
    } else {
      assert s[1..] == p[1..] + [sep] + tail;
      SplitPrefix(p[1..], tail, sep);
      assert [p[0]] + p[1..] == p;
    }
  }

  /** One row of `csv.reader(..., delimiter='\t')`: an empty line has no fields, quoting is not modelled. */
  function Fields(line: string): (r: seq<string>)
    ensures line == "" ==> r == []
    ensures line != "" ==> |r| >= 1 && JoinWith(r, Tab) == line
    ensures forall k :: 0 <= k < |r| ==> Tab !in r[k]
  {
    if line == "" then [] else (JoinSplit(line, Tab); SplitOn(line, Tab))
  }

  /** The reader over the lines of one file; only `len` and indexing are offered. */
  datatype SquadReader = SquadReader(lines: seq<string>)
  {
    /** `len(f.readlines()) - 1`, computed at construction. */
    function Len(): (n: int)
      ensures n + 1 == |lines|
    {
      |lines| - 1
    }

    /** `linecache.getline(filename, lineno)`. */
    function GetLine(lineno: int): (line: string)
      ensures 1 <= lineno <= |lines| ==> line == lines[lineno - 1]
      ensures lineno < 1 || lineno > |lines| ==> line == ""
    {
      if 1 <= lineno <= |lines| then lines[lineno - 1] else ""
    }

    /**
     * `reader[i]`: refused exactly when `i > len(reader)` (so `i == len` is
     * accepted); otherwise the fields of 1-based line `i + 1`, which for
     * `0 <= i <= len` is `lines[i]` and for a negative `i` is no line at all.
     */
    function GetItem(i: int): (r: Result<seq<string>, ReadError>)
      ensures r.Err? <==> i > Len()
      ensures 0 <= i <= Len() ==> r == Ok(Fields(lines[i]))
      ensures i < 0 ==> r == Ok([])
    {
      if i > Len() then Err(IndexError)
      else Ok(Fields(GetLine(i + 1)))
    }
  }

  /**
   * Every accepted non-negative index reads an existing line, and the fields
   * it returns joined by tabs give that line back.
   */
  lemma GetItemRoundTrip(reader: SquadReader, i: int)
    requires 0 <= i <= reader.Len()
    requires reader.lines[i] != ""
    ensures reader.GetItem(i).Ok?
    ensures JoinWith(reader.GetItem(i).value, Tab) == reader.lines[i]
  {
  }

  /** The unit test's two-line file. */
  const TestLines: seq<string> := [
    "context1\tquestion1\tstart1\tend1\tanswer1",
    "context2\tquestion2\tstart2\tend2\tanswer2"]

  lemma TestLineJoin()
    ensures JoinWith(["context2", "question2", "start2", "end2", "answer2"], Tab)
         == "context2\tquestion2\tstart2\tend2\tanswer2"
  {
    var parts := ["context2", "question2", "start2", "end2", "answer2"];
    assert parts[1..][1..][1..][1..] == ["answer2"];
    assert JoinWith(parts[1..][1..][1..], Tab) == "end2\tanswer2";
    assert JoinWith(parts[1..][1..], Tab) == "start2\tend2\tanswer2";
    assert JoinWith(parts[1..], Tab) == "question2\tstart2\tend2\tanswer2";
  }

  lemma TestLineFields()
    ensures SplitOn("context2\tquestion2\tstart2\tend2\tanswer2", Tab)
         == ["context2", "question2", "start2", "end2", "answer2"]
  {
    var parts := ["context2", "question2", "start2", "end2", "answer2"];
    assert forall k :: 0 <= k < |parts| ==> Tab !in parts[k];
    SplitJoin(parts, Tab);
    TestLineJoin();
  }

  /** On the unit test's file `len` is 1, index 1 reads the second line and index 2 is refused. */
  lemma ReaderTestExample()
    ensures SquadReader(TestLines).Len() == 1
    ensures SquadReader(TestLines).GetItem(1) == Ok(["context2", "question2", "start2", "end2", "answer2"])
    ensures SquadReader(TestLines).GetItem(2) == Err(IndexError)
  {
    TestLineFields();
  }
}
