/** Saving a table with `save_to_csv` and reading the file back with the
    CSV constructor gives the same header and the same columns. */
module RoundTrip {
  import opened Wrappers
  import opened Text
  import opened Columns
  import opened Csv

  /** `save_to_csv(path, index = false)`: comma separator, header, missing
      cells written as empty text, all columns. */
  function Saved(cd: map<string, Column>, cols: seq<string>): Result<string, Error>
    requires RenderDefined(cd, cols, [])
  {
    SaveToCsv(cd, cols, false, ",", true, "", [])
  }

  /** A table the CSV format can carry: at least one column, the listed
      names are exactly the keys, every entry is named by its key, the
      columns are equally long, no name or cell holds a comma or a line
      break, and the last name is not empty. */
  ghost predicate Saveable(cd: map<string, Column>, cols: seq<string>)
  {
    && |cols| > 0
    && (forall c :: c in cols <==> c in cd)
    && (forall c :: c in cd ==> cd[c].name == c)
    && (forall c :: c in cd ==> |cd[c].data| == |cd[cols[0]].data|)
    && (forall j :: 0 <= j < |cols| ==> ',' !in cols[j] && '\n' !in cols[j])
    && cols[|cols| - 1] != ""
    && (forall c, i :: c in cd && 0 <= i < |cd[c].data| ==> ',' !in cd[c].data[i] && '\n' !in cd[c].data[i])
  }

  /** A row written with commas and read back with `getline` and the
      constructor's padding is the row itself: a final empty cell lost by
      `getline` is restored by the padding. */
  lemma RowBack(cells: seq<string>)
    requires |cells| > 0
    requires forall j :: 0 <= j < |cells| ==> ',' !in cells[j]
    ensures |FieldsOf(Join(cells, ","))| <= |cells|
    ensures Pad(FieldsOf(Join(cells, ",")), |cells|) == cells
  {
    if cells[|cells| - 1] == "" {
      SplitGetlineJoinLastEmpty(cells, ',');
      assert cells[..|cells| - 1] + [""] == cells;
    } else {
      SplitGetlineJoin(cells, ',');
    }
  }

  /** The cells of row `i`, as `save_to_csv` writes them with an empty
      `na_rep`. */
  function RowCells(cd: map<string, Column>, cols: seq<string>, i: nat): (r: seq<string>)
    requires Saveable(cd, cols) && i < |cd[cols[0]].data|
    ensures |r| == |cols|
    ensures forall j :: 0 <= j < |cols| ==> cols[j] in cd && r[j] == cd[cols[j]].data[i]
  {
    assert forall j :: 0 <= j < |cols| ==> cols[j] in cd && i < |cd[cols[j]].data| by {
      forall j | 0 <= j < |cols| ensures cols[j] in cd && i < |cd[cols[j]].data| {
        assert cols[j] in cols && cols[0] in cols;
      }
    }
    RowTexts(cd, cols, i, "")
  }

  /** The lines a saved table consists of. */
  ghost predicate SavedShape(cd: map<string, Column>, cols: seq<string>, text: string)
    requires Saveable(cd, cols)
  {
    var n := |cd[cols[0]].data|;
    && |LinesOf(text)| == n + 1
    && LinesOf(text)[0] == Join(cols, ",")
    && forall i :: 0 <= i < n ==> LinesOf(text)[i + 1] == Join(RowCells(cd, cols, i), ",")
  }

  /** A written data line holds no line break. */
  lemma RowLineFree(cd: map<string, Column>, cols: seq<string>, i: nat)
    requires Saveable(cd, cols) && i < |cd[cols[0]].data|
    ensures '\n' !in Join(RowCells(cd, cols, i), ",")
  {
    var cells := RowCells(cd, cols, i);
    forall j | 0 <= j < |cells| ensures '\n' !in cells[j] {
      assert cols[j] in cd;
    }
    JoinFree(cells, ",", '\n');
  }

  /** Data line `i` as written without the index is row `i`'s cells
      joined by commas. */
  lemma BodyLineAt(cd: map<string, Column>, cols: seq<string>, i: nat, body: seq<string>)
    requires Saveable(cd, cols) && i < |cd[cols[0]].data|
    requires forall j :: 0 <= j < |cols| ==> cols[j] in cd && |cd[cols[0]].data| <= |cd[cols[j]].data|
    requires body == BodyLines(cd, cols, |cd[cols[0]].data|, false, ",", "")
    ensures body[i] == Join(RowCells(cd, cols, i), ",")
  {
    assert body[i] == RowLine(cd, cols, i, false, ",", "");
  }

  /** The lines `save_to_csv` writes for a saveable table: the names, then
      the cells of each row, joined by commas. */
  function WrittenLines(cd: map<string, Column>, cols: seq<string>): (ls: seq<string>)
    requires Saveable(cd, cols)
    ensures |ls| == |cd[cols[0]].data| + 1
    ensures ls[0] == Join(cols, ",")
    ensures forall i :: 0 <= i < |cd[cols[0]].data| ==> ls[i + 1] == Join(RowCells(cd, cols, i), ",")
    ensures forall i :: 0 <= i < |ls| ==> '\n' !in ls[i]
  {
    var n := |cd[cols[0]].data|;
    assert cols[0] in cols;
    var body := BodyLines(cd, cols, n, false, ",", "");
    var ls := [HeaderLine(cols, false, ",")] + body;
    forall i | 0 <= i < n ensures ls[i + 1] == Join(RowCells(cd, cols, i), ",") {
      BodyLineAt(cd, cols, i, body);
    }
    JoinFree(cols, ",", '\n');
    assert forall i :: 0 <= i < |ls| ==> '\n' !in ls[i] by {
      forall i | 0 <= i < |ls| ensures '\n' !in ls[i] {
        if i > 0 {
          RowLineFree(cd, cols, i - 1);
        }
      }
    }
    ls
  }

  /** The text written is the written lines, each ended by a line break. */
  lemma SavedIsWritten(cd: map<string, Column>, cols: seq<string>)
    requires Saveable(cd, cols)
    ensures RenderDefined(cd, cols, [])
    ensures Saved(cd, cols) == Success(Terminated(WrittenLines(cd, cols), '\n'))
  {
    assert cols[0] in cols;
  }

  /** The lines written, and what `getline` reads back from them. */
  lemma SavedLines(cd: map<string, Column>, cols: seq<string>)
    requires Saveable(cd, cols)
    ensures RenderDefined(cd, cols, [])
    ensures Saved(cd, cols).Success?
    ensures SavedShape(cd, cols, Saved(cd, cols).value)
  {
    SavedIsWritten(cd, cols);
    var lines := WrittenLines(cd, cols);
    SplitGetlineTerminated(lines, '\n');
    assert LinesOf(Saved(cd, cols).value) == lines;
  }

  /** A saved text read back: it fits the constructor, its header is the
      column list, and data row `i` holds cell `i` of every column. */
  lemma ReadRows(cd: map<string, Column>, cols: seq<string>, text: string)
    requires Saveable(cd, cols) && SavedShape(cd, cols, text)
    ensures RowsFit(text)
    ensures HeaderOf(text) == cols
    ensures |DataRowsOf(text)| == |cd[cols[0]].data|
    ensures forall i :: 0 <= i < |cd[cols[0]].data| ==> DataRowsOf(text)[i] == RowCells(cd, cols, i)
  {
    var ls := LinesOf(text);
    assert cols[0] in cols;
    SplitGetlineJoin(cols, ',');
    forall i | 1 <= i < |ls|
      ensures |FieldsOf(ls[i])| <= |HeaderOf(text)|
      ensures DataRowsOf(text)[i - 1] == RowCells(cd, cols, i - 1)
    {
      var cells := RowCells(cd, cols, i - 1);
      forall j | 0 <= j < |cells| ensures ',' !in cells[j] {
        assert cols[j] in cd;
      }
      assert ls[(i - 1) + 1] == Join(cells, ",");
      RowBack(cells);
      DataRowsAt(text, i - 1);
    }
  }

  /** Column `j` read back holds the cells the data rows hold at `j`. */
  lemma ReadColumn(text: string, isFloat: string -> bool, j: nat, c: Column)
    requires j < |HeaderOf(text)| && c.name == HeaderOf(text)[j]
    requires |c.data| == |DataRowsOf(text)|
    requires forall i :: 0 <= i < |DataRowsOf(text)| ==>
      j < |DataRowsOf(text)[i]| && DataRowsOf(text)[i][j] == c.data[i]
    ensures ColumnsOf(text, isFloat)[j] == c.(dtype := DtypeOf(c.data, isFloat))
  {
    var rows := DataRowsOf(text);
    ColumnsOfAt(text, isFloat, j);
    CellsOfFull(rows, j);
    assert CellsOf(rows, j) == c.data;
  }

  /** Storing columns by name gives `m` when each column is `m`'s entry
      for its name and every key of `m` names one of them. */
  lemma ToMapCovers(cs: seq<Column>, m: map<string, Column>)
    requires forall j :: 0 <= j < |cs| ==> cs[j].name in m && cs[j] == m[cs[j].name]
    requires forall c :: c in m ==> exists j :: 0 <= j < |cs| && cs[j].name == c
    ensures ToMap(cs) == m
  {
    ToMapUniform(cs, m);
  }

  /** Saving and reading back: the file fits the constructor, its header is
      the table's column list, and every column comes back with its name
      and cells and the dtype its cells infer. */
  lemma SaveThenRead(cd: map<string, Column>, cols: seq<string>, isFloat: string -> bool)
    requires Saveable(cd, cols)
    ensures RenderDefined(cd, cols, []) && Saved(cd, cols).Success?
    ensures var text := Saved(cd, cols).value;
      && RowsFit(text)
      && HeaderOf(text) == cols
      && |DataRowsOf(text)| == |cd[cols[0]].data|
      && ColDataOf(text, isFloat) == map c | c in cd :: cd[c].(dtype := DtypeOf(cd[c].data, isFloat))
  {
    SavedLines(cd, cols);
    var text := Saved(cd, cols).value;
    ReadRows(cd, cols, text);
    var cs := ColumnsOf(text, isFloat);
    var m := map c | c in cd :: cd[c].(dtype := DtypeOf(cd[c].data, isFloat));
    forall j | 0 <= j < |cs| ensures cs[j].name in m && cs[j] == m[cs[j].name] {
      assert cols[j] in cd && cols[0] in cols;
      ReadColumn(text, isFloat, j, cd[cols[j]]);
    }
    forall c | c in m ensures exists j :: 0 <= j < |cs| && cs[j].name == c {
      var j :| 0 <= j < |cols| && cols[j] == c;
      assert cs[j].name == c;
    }
    ToMapCovers(cs, m);
  }

  /** When every column already has the dtype its cells infer, reading the
      saved file gives back exactly the table. */
  lemma SaveThenReadExact(cd: map<string, Column>, cols: seq<string>, isFloat: string -> bool)
    requires Saveable(cd, cols)
    requires forall c :: c in cd ==> cd[c].dtype == DtypeOf(cd[c].data, isFloat)
    ensures RenderDefined(cd, cols, []) && Saved(cd, cols).Success?
    ensures HeaderOf(Saved(cd, cols).value) == cols
    ensures ColDataOf(Saved(cd, cols).value, isFloat) == cd
  {
    SaveThenRead(cd, cols, isFloat);
  }
}
