/** The row joining of `html_table_to_text`: each `<tr>` becomes its cells'
    texts joined by tabs, rows whose cells are all blank are dropped, and the
    rows are joined by newlines. Parsing the HTML and `get_text` are outside
    the model; a row arrives as its list of cell texts. */
module TableText {
  import opened Strings
  import opened Seqs

  type Cells = seq<string>

  /** `any(cell.strip() for cell in row_text)`. */
  predicate HasContent(row: Cells) {
    exists i :: 0 <= i < |row| && !IsBlank(row[i])
  }

  function KeptRows(rows: seq<Cells>): (kept: seq<Cells>)
    ensures IsSubseq(kept, rows)
    ensures forall i :: 0 <= i < |kept| ==> HasContent(kept[i])
    ensures forall i :: 0 <= i < |rows| && HasContent(rows[i]) ==> rows[i] in kept
  {
    Filter(rows, HasContent)
  }

  /** A repeated row with content is kept as often as it occurs. */
  lemma KeptRowsKeepEveryCopy(rows: seq<Cells>)
    ensures forall row :: multiset(KeptRows(rows))[row] == if HasContent(row) then multiset(rows)[row] else 0
  {
    FilterKeepsEveryCopy(rows, HasContent);
  }

  /** `"\t".join(row_text)` for every kept row. */
  function RowLines(kept: seq<Cells>): seq<string> {
    seq(|kept|, i requires 0 <= i < |kept| => Join('\t', kept[i]))
  }

  /** The text handed to the language model. */
  function TableToText(rows: seq<Cells>): (text: string)
    ensures text == "" <==> forall i :: 0 <= i < |rows| ==> !HasContent(rows[i])
  {
    var kept := KeptRows(rows);
    var lines := RowLines(kept);
    FilterMembers(rows, HasContent);
    if |kept| > 0 then
      JoinedRowIsNotEmpty(kept[0]);
      JoinHeadIsPrefix('\n', lines);
      Join('\n', lines)
    else
      Join('\n', lines)
  }

  /** Reading the text back: lines at newlines, cells at tabs. */
  function ParseTable(text: string): (rows: seq<Cells>)
    ensures |rows| > 0
  {
    var lines := Split(text, '\n');
    seq(|lines|, i requires 0 <= i < |lines| => Split(lines[i], '\t'))
  }

  /** Cells free of tabs and newlines come back unchanged, row for row: the
      text keeps exactly the rows with content, in order. */
  lemma TableRoundTrip(rows: seq<Cells>)
    requires forall i, j :: 0 <= i < |rows| && 0 <= j < |rows[i]| ==> '\t' !in rows[i][j] && '\n' !in rows[i][j]
    requires exists i :: 0 <= i < |rows| && HasContent(rows[i])
    ensures ParseTable(TableToText(rows)) == KeptRows(rows)
  {
    var kept := KeptRows(rows);
    var lines := RowLines(kept);
    FilterMembers(rows, HasContent);
    forall i | 0 <= i < |kept|
      ensures '\n' !in lines[i] && Split(lines[i], '\t') == kept[i]
    {
      var row := kept[i];
      assert row in rows;
      var k :| 0 <= k < |rows| && rows[k] == row;
      assert forall j :: 0 <= j < |row| ==> '\t' !in row[j] && '\n' !in row[j];
      JoinAvoids('\t', row, '\n');
      SplitJoin('\t', row);
    }
    SplitJoin('\n', lines);
  }

  /** A joined row with a non-blank cell is not empty. */
  lemma {:induction false} JoinedRowIsNotEmpty(row: Cells)
    requires HasContent(row)
    ensures |Join('\t', row)| > 0
    decreases |row|
  {
    if |row| > 1 && IsBlank(row[0]) {
      var i :| 0 <= i < |row| && !IsBlank(row[i]);
      assert row[1..][i - 1] == row[i];
      JoinedRowIsNotEmpty(row[1..]);
    }
  }

  /** Joining starts with the first part. */
  lemma JoinHeadIsPrefix(sep: char, parts: seq<string>)
    requires |parts| > 0
    ensures |Join(sep, parts)| >= |parts[0]|
  {
  }

  /** A character that is neither the separator nor in any part is not in
      the joined text. */
  lemma {:induction false} JoinAvoids(sep: char, parts: seq<string>, c: char)
    requires c != sep
    requires forall j :: 0 <= j < |parts| ==> c !in parts[j]
    ensures c !in Join(sep, parts)
    decreases |parts|
  {
    if |parts| > 1 {
      assert forall j :: 0 <= j < |parts| - 1 ==> parts[1..][j] == parts[j + 1];
      JoinAvoids(sep, parts[1..], c);
    }
  }

  /** A row of only blank cells and a row with no cells are both dropped. */
  lemma BlankRowsDropped()
    ensures TableToText([["Revenue", "100"], [" ", ""], []]) == "Revenue\t100"
  {
    var rows: seq<Cells> := [["Revenue", "100"], [" ", ""], []];
    assert HasContent(rows[0]) by { assert !IsBlank(rows[0][0]) by { assert rows[0][0][0] == 'R' && !IsSpace('R'); } }
    assert !HasContent(rows[1]) by { assert IsBlank(" ") && IsBlank(""); }
    assert !HasContent(rows[2]);
    assert Filter(rows[2..], HasContent) == [] by { assert rows[2..][1..] == []; }
    assert Filter(rows[1..], HasContent) == [] by { assert rows[1..][1..] == rows[2..]; }
    assert Filter(rows, HasContent) == [rows[0]] by { assert rows[1..] == rows[1..]; }
    assert Join('\t', rows[0]) == "Revenue\t100" by {
      assert Join('\t', rows[0][1..]) == "100";
    }
    assert RowLines([rows[0]]) == ["Revenue\t100"];
  }
}
