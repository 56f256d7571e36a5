/** What the CSV constructor of a DataFrame reads from its text, and what
    `save_to_csv` writes, as functions of the text and of the table. */
module Csv {
  import opened Wrappers
  import opened Text
  import opened Columns
  import opened Rows

  // ---------------------------------------------------------------------------
  // Reading
  // ---------------------------------------------------------------------------

  /** The lines `getline(file, line)` yields. */
  function LinesOf(text: string): seq<string>
  {
    SplitGetline(text, '\n')
  }

  /** The column names: the fields of the first line (none for an empty
      text). */
  function HeaderOf(text: string): seq<string>
  {
    var ls := LinesOf(text);
    if ls == [] then [] else SplitGetline(ls[0], ',')
  }

  /** The fields `getline(ss, element, ',')` yields from one line. */
  function FieldsOf(line: string): seq<string>
  {
    SplitGetline(line, ',')
  }

  /** A row read with fewer fields than the header gets one missing cell
      appended, at the position after its last field. */
  function Pad(fields: seq<string>, width: nat): (r: seq<string>)
    ensures |fields| < width ==> |r| == |fields| + 1 && r[|fields|] == ""
    ensures |fields| >= width ==> r == fields
    ensures r[..|fields|] == fields
  {
    if |fields| < width then fields + [""] else fields
  }

  /** The data rows as the constructor stores them: every line after the
      first, split and padded. */
  function DataRowsOf(text: string): (rows: seq<seq<string>>)
    ensures |rows| == if LinesOf(text) == [] then 0 else |LinesOf(text)| - 1
  {
    var ls := LinesOf(text);
    if ls == [] then [] else PaddedRows(ls, |HeaderOf(text)|)
  }

  /** Every line of `ls` after the first, split and padded to `w`. */
  function PaddedRows(ls: seq<string>, w: nat): (rows: seq<seq<string>>)
    requires ls != []
    ensures |rows| == |ls| - 1
    ensures forall i :: 0 <= i < |ls| - 1 ==> rows[i] == Pad(FieldsOf(ls[i + 1]), w)
  {
    seq(|ls| - 1, i requires 0 <= i < |ls| - 1 => Pad(FieldsOf(ls[i + 1]), w))
  }

  /** `row_data`: the header row followed by the data rows. */
  function RowsOf(text: string): seq<seq<string>>
  {
    if LinesOf(text) == [] then [] else [HeaderOf(text)] + DataRowsOf(text)
  }

  /** No data line has more fields than the header; a longer one would be
      written past the end of the constructor's column vector. */
  predicate RowsFit(text: string)
  {
    var ls := LinesOf(text);
    forall i :: 1 <= i < |ls| ==> |FieldsOf(ls[i])| <= |HeaderOf(text)|
  }

  /** The cells the constructor pushes onto column `j`: field `j` of every
      row that has one, in row order. */
  function CellsOf(rows: seq<seq<string>>, j: nat): seq<string>
  {
    if rows == [] then []
    else
      var last := rows[|rows| - 1];
      CellsOf(rows[..|rows| - 1], j) + (if j < |last| then [last[j]] else [])
  }

  /** The columns in header order, each with its cells and inferred dtype. */
  function ColumnsOf(text: string, isFloat: string -> bool): (cs: seq<Column>)
    ensures |cs| == |HeaderOf(text)|
  {
    var h := HeaderOf(text);
    var rows := DataRowsOf(text);
    seq(|h|, j requires 0 <= j < |h| => Column(h[j], CellsOf(rows, j), DtypeOf(CellsOf(rows, j), isFloat)))
  }

  /** `col_data[col.name] = col` for each column in order. */
  function ToMap(cs: seq<Column>): map<string, Column>
  {
    if cs == [] then map[]
    else ToMap(cs[..|cs| - 1])[cs[|cs| - 1].name := cs[|cs| - 1]]
  }

  /** `col_data` after the CSV constructor. */
  function ColDataOf(text: string, isFloat: string -> bool): map<string, Column>
  {
    ToMap(ColumnsOf(text, isFloat))
  }

  /** The map holds exactly the names of the columns. */
  lemma {:induction false} ToMapKeys(cs: seq<Column>)
    ensures forall n :: n in ToMap(cs) <==> exists j :: 0 <= j < |cs| && cs[j].name == n
  {
    if cs != [] {
      var p := cs[..|cs| - 1];
      ToMapKeys(p);
      forall n | n in ToMap(cs)
        ensures exists j :: 0 <= j < |cs| && cs[j].name == n
      {
        if n != cs[|cs| - 1].name {
          assert n in ToMap(p);
          var j :| 0 <= j < |p| && p[j].name == n;
          assert cs[j].name == n;
        }
      }
      forall n | exists j :: 0 <= j < |cs| && cs[j].name == n
        ensures n in ToMap(cs)
      {
        var j :| 0 <= j < |cs| && cs[j].name == n;
        if j < |p| {
          assert p[j].name == n;
        }
      }
    }
  }

  /** For a name that several columns share, the map holds the last of
      them. */
  lemma {:induction false} ToMapLastWins(cs: seq<Column>, j: nat)
    requires j < |cs|
    requires forall k :: j < k < |cs| ==> cs[k].name != cs[j].name
    ensures cs[j].name in ToMap(cs) && ToMap(cs)[cs[j].name] == cs[j]
  {
    var p := cs[..|cs| - 1];
    if j < |p| {
      assert p[j] == cs[j];
      forall k | j < k < |p| ensures p[k].name != p[j].name {
        assert p[k] == cs[k];
      }
      ToMapLastWins(p, j);
    }
  }

  /** When every column equals the entry `m` gives for its name, the map the
      constructor builds is `m` restricted to those names. */
  lemma {:induction false} ToMapUniform(cs: seq<Column>, m: map<string, Column>)
    requires forall j :: 0 <= j < |cs| ==> cs[j].name in m && cs[j] == m[cs[j].name]
    ensures forall n :: n in ToMap(cs) <==> exists j :: 0 <= j < |cs| && cs[j].name == n
    ensures forall n :: n in ToMap(cs) ==> ToMap(cs)[n] == m[n]
  {
    if cs != [] {
      var p := cs[..|cs| - 1];
      assert forall j :: 0 <= j < |p| ==> p[j] == cs[j];
      ToMapUniform(p, m);
      forall n | n in ToMap(cs)
        ensures exists j :: 0 <= j < |cs| && cs[j].name == n
      {
        if n != cs[|cs| - 1].name {
          var j :| 0 <= j < |p| && p[j].name == n;
          assert cs[j].name == n;
        }
      }
    }
  }

  /** Rows that all have a field `j` give column `j` one cell per row. */
  lemma {:induction false} CellsOfFull(rows: seq<seq<string>>, j: nat)
    requires forall i :: 0 <= i < |rows| ==> j < |rows[i]|
    ensures |CellsOf(rows, j)| == |rows|
    ensures forall i :: 0 <= i < |rows| ==> CellsOf(rows, j)[i] == rows[i][j]
  {
    if rows != [] {
      var p := rows[..|rows| - 1];
      CellsOfFull(p, j);
    }
  }

  /** Column names are the header fields in order, every column is stored
      under its own name with the dtype inference gives its cells, and cell
      `i` of column `j` is field `j` of data line `i` (or the padding "")
      whenever all data rows are that long. */
  lemma ParseShape(text: string, isFloat: string -> bool)
    ensures forall n :: n in ColDataOf(text, isFloat) <==> n in HeaderOf(text)
    ensures forall n :: n in ColDataOf(text, isFloat) ==>
      ColDataOf(text, isFloat)[n].name == n &&
      ColDataOf(text, isFloat)[n].dtype == DtypeOf(ColDataOf(text, isFloat)[n].data, isFloat)
  {
    var cs := ColumnsOf(text, isFloat);
    var h := HeaderOf(text);
    ToMapKeys(cs);
    forall n | n in h ensures n in ToMap(cs) {
      var j :| 0 <= j < |h| && h[j] == n;
      assert cs[j].name == n;
    }
    forall n | n in ToMap(cs)
      ensures n in h && ToMap(cs)[n].name == n && ToMap(cs)[n].dtype == DtypeOf(ToMap(cs)[n].data, isFloat)
    {
      LastIndex(cs, n);
      var j :| 0 <= j < |cs| && cs[j].name == n && (forall k :: j < k < |cs| ==> cs[k].name != n);
      ToMapLastWins(cs, j);
      assert h[j] == n;
    }
  }

  /** A name some column has has a last column with that name. */
  lemma LastIndex(cs: seq<Column>, n: string)
    requires exists j :: 0 <= j < |cs| && cs[j].name == n
    ensures exists j :: 0 <= j < |cs| && cs[j].name == n && forall k :: j < k < |cs| ==> cs[k].name != n
  {
    var j :| 0 <= j < |cs| && cs[j].name == n;
    while exists k :: j < k < |cs| && cs[k].name == n
      invariant 0 <= j < |cs| && cs[j].name == n
      decreases |cs| - j
    {
      var k :| j < k < |cs| && cs[k].name == n;
      j := k;
    }
  }

  /** When every data line has as many fields as the header or one fewer,
      every column has one cell per data line, the one from that line's
      padded row. */
  lemma ParseColumnLengths(text: string, isFloat: string -> bool)
    requires forall i :: 1 <= i < |LinesOf(text)| ==>
      |HeaderOf(text)| - 1 <= |FieldsOf(LinesOf(text)[i])| <= |HeaderOf(text)|
    ensures forall i :: 0 <= i < |DataRowsOf(text)| ==> |DataRowsOf(text)[i]| == |HeaderOf(text)|
    ensures forall j :: 0 <= j < |HeaderOf(text)| ==>
      |ColumnsOf(text, isFloat)[j].data| == |DataRowsOf(text)| &&
      forall i :: 0 <= i < |DataRowsOf(text)| ==> ColumnsOf(text, isFloat)[j].data[i] == DataRowsOf(text)[i][j]
  {
    var rows := DataRowsOf(text);
    var w := |HeaderOf(text)|;
    DataRowsWidth(text);
    var cs := ColumnsOf(text, isFloat);
    forall j | 0 <= j < w
      ensures |cs[j].data| == |rows|
      ensures forall i :: 0 <= i < |rows| ==> cs[j].data[i] == rows[i][j]
    {
      ColumnsOfAt(text, isFloat, j);
      CellsOfFull(rows, j);
    }
  }

  lemma ColumnsOfAt(text: string, isFloat: string -> bool, j: nat)
    requires j < |HeaderOf(text)|
    ensures ColumnsOf(text, isFloat)[j].name == HeaderOf(text)[j]
    ensures ColumnsOf(text, isFloat)[j].data == CellsOf(DataRowsOf(text), j)
    ensures ColumnsOf(text, isFloat)[j].dtype == DtypeOf(CellsOf(DataRowsOf(text), j), isFloat)
  {
  }

  /** Padding makes every data row as wide as the header when no line is
      short by more than one field. */
  lemma DataRowsWidth(text: string)
    requires forall i :: 1 <= i < |LinesOf(text)| ==>
      |HeaderOf(text)| - 1 <= |FieldsOf(LinesOf(text)[i])| <= |HeaderOf(text)|
    ensures forall i :: 0 <= i < |DataRowsOf(text)| ==> |DataRowsOf(text)[i]| == |HeaderOf(text)|
  {
    forall i | 0 <= i < |DataRowsOf(text)| ensures |DataRowsOf(text)[i]| == |HeaderOf(text)| {
      DataRowsAt(text, i);
    }
  }

  /** Data row `i` is line `i + 1`, split and padded to the header's width. */
  lemma DataRowsAt(text: string, i: nat)
    requires i + 1 < |LinesOf(text)|
    ensures i < |DataRowsOf(text)|
    ensures DataRowsOf(text)[i] == Pad(FieldsOf(LinesOf(text)[i + 1]), |HeaderOf(text)|)
  {
  }

  /** Extending the rows by one extends column `j` by that row's field `j`. */
  lemma CellsOfSnoc(rows: seq<seq<string>>, row: seq<string>, j: nat)
    ensures CellsOf(rows + [row], j) == CellsOf(rows, j) + (if j < |row| then [row[j]] else [])
  {
    assert (rows + [row])[..|rows|] == rows;
  }

  /** One data line read: the rows and the columns gain line `n`'s row. */
  lemma ReadLineStep(text: string, n: nat, temp: seq<Column>, next: seq<Column>, row: seq<string>)
    requires 1 <= n < |LinesOf(text)|
    requires row == Pad(FieldsOf(LinesOf(text)[n]), |HeaderOf(text)|)
    requires |temp| == |next| == |HeaderOf(text)|
    requires forall j :: 0 <= j < |temp| ==>
      temp[j] == Column(HeaderOf(text)[j], CellsOf(DataRowsOf(text)[..n - 1], j), Str)
    requires forall j :: 0 <= j < |temp| ==>
      next[j] == temp[j].(data := temp[j].data + (if j < |row| then [row[j]] else []))
    ensures DataRowsOf(text)[..n] == DataRowsOf(text)[..n - 1] + [row]
    ensures forall j :: 0 <= j < |next| ==>
      next[j] == Column(HeaderOf(text)[j], CellsOf(DataRowsOf(text)[..n], j), Str)
  {
    var all := DataRowsOf(text);
    assert all[n - 1] == row;
    PrefixSnoc(all, n);
    forall j | 0 <= j < |next|
      ensures next[j] == Column(HeaderOf(text)[j], CellsOf(all[..n], j), Str)
    {
      CellsOfSnoc(all[..n - 1], row, j);
    }
  }

  /** Row `n` of `row_data` and the prefix it ends. */
  lemma RowsOfStep(text: string, n: nat)
    requires n < |LinesOf(text)|
    ensures |RowsOf(text)| == |LinesOf(text)|
    ensures RowsOf(text)[..n + 1] == RowsOf(text)[..n] + [RowsOf(text)[n]]
    ensures RowsOf(text)[n] == if n == 0 then HeaderOf(text) else DataRowsOf(text)[n - 1]
  {
    var ls, h, d := LinesOf(text), HeaderOf(text), DataRowsOf(text);
    assert ls != [];
    assert RowsOf(text) == [h] + d;
    assert |d| == |ls| - 1;
    if n > 0 {
      assert ([h] + d)[n] == d[n - 1];
    }
    PrefixSnoc(RowsOf(text), n + 1);
  }

  /** The state of the line loop after `n` lines: the names, the first `n`
      rows of `row_data`, and the columns holding the cells of the data rows
      read so far. */
  predicate ReadState(text: string, n: nat, cols: seq<string>, rows: seq<seq<string>>, temp: seq<Column>)
  {
    && n <= |LinesOf(text)|
    && (n == 0 ==> cols == [] && rows == [] && temp == [])
    && (n > 0 ==>
         && cols == HeaderOf(text) && rows == RowsOf(text)[..n] && |temp| == |cols|
         && forall j :: 0 <= j < |temp| ==> temp[j] == Column(cols[j], CellsOf(DataRowsOf(text)[..n - 1], j), Str))
  }

  /** After the last line the loop state is what the constructor reads. */
  lemma ReadDone(text: string, n: nat, cols: seq<string>, rows: seq<seq<string>>, temp: seq<Column>)
    requires n == |LinesOf(text)| && ReadState(text, n, cols, rows, temp)
    ensures cols == HeaderOf(text) && rows == RowsOf(text)
    ensures |temp| == |cols|
    ensures forall j :: 0 <= j < |temp| ==> temp[j] == Column(cols[j], CellsOf(DataRowsOf(text), j), Str)
  {
    if n > 0 {
      var all := DataRowsOf(text);
      assert RowsOf(text)[..n] == RowsOf(text);
      assert all[..n - 1] == all;
      forall j | 0 <= j < |temp| ensures temp[j] == Column(cols[j], CellsOf(all, j), Str) {
        assert temp[j] == Column(cols[j], CellsOf(all[..n - 1], j), Str);
      }
    }
  }

  // ---------------------------------------------------------------------------
  // Writing
  // ---------------------------------------------------------------------------

  /** The columns `save_to_csv` writes: the selection, or all columns when
      the selection is empty. */
  function ColumnsToSave(columns: seq<string>, selected: seq<string>): seq<string>
  {
    if selected == [] then columns else selected
  }

  /** The number of data lines: the length of the first column to save. */
  function RowCount(colData: map<string, Column>, names: seq<string>): nat
  {
    if names != [] && names[0] in colData then |colData[names[0]].data| else 0
  }

  /** No column to save is shorter than the first one; a shorter one would
      be read past its end. */
  predicate RenderDefined(colData: map<string, Column>, columns: seq<string>, selected: seq<string>)
  {
    var names := ColumnsToSave(columns, selected);
    forall j :: 0 <= j < |names| && names[j] in colData ==> RowCount(colData, names) <= |colData[names[j]].data|
  }

  /** The header line: "index" and a separator when the index is written,
      then the names joined by the separator. */
  function HeaderLine(names: seq<string>, index: bool, sep: string): string
  {
    (if index then "index" + sep else "") + Join(names, sep)
  }

  /** A cell as written: a missing cell becomes `naRep`. */
  function CellText(cell: string, naRep: string): string
  {
    if cell == "" then naRep else cell
  }

  /** The cells of row `i` as written, one per name. */
  function RowTexts(colData: map<string, Column>, names: seq<string>, i: nat, naRep: string): (r: seq<string>)
    requires forall j :: 0 <= j < |names| ==> names[j] in colData && i < |colData[names[j]].data|
    ensures |r| == |names|
  {
    seq(|names|, j requires 0 <= j < |names| => CellText(colData[names[j]].data[i], naRep))
  }

  /** Data line `i`: its row number and a separator when the index is
      written, then the cells of row `i` joined by the separator. */
  function RowLine(colData: map<string, Column>, names: seq<string>, i: nat, index: bool, sep: string, naRep: string): string
    requires forall j :: 0 <= j < |names| ==> names[j] in colData && i < |colData[names[j]].data|
  {
    (if index then NatToString(i) + sep else "") + Join(RowTexts(colData, names, i, naRep), sep)
  }

  /** The data lines, one per row. */
  function BodyLines(colData: map<string, Column>, names: seq<string>, n: nat, index: bool, sep: string, naRep: string): (r: seq<string>)
    requires forall j :: 0 <= j < |names| ==> names[j] in colData && n <= |colData[names[j]].data|
    ensures |r| == n
  {
    seq(n, i requires 0 <= i < n => RowLine(colData, names, i, index, sep, naRep))
  }

  /** `save_to_csv` with the text it writes as its result. `index`, `sep`,
      `header`, `naRep` and `selected` are the options of the same names. */
  function SaveToCsv(colData: map<string, Column>, columns: seq<string>, index: bool, sep: string,
                     header: bool, naRep: string, selected: seq<string>): (r: Result<string, Error>)
    requires RenderDefined(colData, columns, selected)
    ensures r.Failure? ==> r.error == OutOfRange
    ensures (exists c :: c in selected && c !in colData) ==> r.Failure?
    ensures r.Success? ==> forall c :: c in ColumnsToSave(columns, selected) && RowCount(colData, ColumnsToSave(columns, selected)) > 0 ==> c in colData
    ensures selected == [] && (forall c :: c in columns ==> c in colData) ==> r.Success?
    ensures (forall c :: c in ColumnsToSave(columns, selected) ==> c in colData) ==> r.Success?
    ensures r.Failure? <==>
              (exists c :: c in selected && c !in colData)
              || (ColumnsToSave(columns, selected) != [] && ColumnsToSave(columns, selected)[0] !in colData)
              || (RowCount(colData, ColumnsToSave(columns, selected)) > 0
                  && exists c :: c in ColumnsToSave(columns, selected) && c !in colData)
  {
    if exists c :: c in selected && c !in colData then Failure(OutOfRange)
    else
      var names := ColumnsToSave(columns, selected);
      if names != [] && names[0] !in colData then Failure(OutOfRange)
      else
        var n := RowCount(colData, names);
        if n > 0 && exists c :: c in names && c !in colData then Failure(OutOfRange)
        else
          Success(Terminated(OutputLines(colData, names, n, index, sep, header, naRep), '\n'))
  }

  /** The lines `save_to_csv` writes: the header line when `header` is
      set, then one line per row (`OutputHeader` and `OutputLineAt` say
      what each holds). */
  function OutputLines(colData: map<string, Column>, names: seq<string>, n: nat, index: bool, sep: string,
                       header: bool, naRep: string): (ls: seq<string>)
    requires n > 0 ==> forall j :: 0 <= j < |names| ==> names[j] in colData && n <= |colData[names[j]].data|
    ensures |ls| == (if header then 1 else 0) + n
  {
    (if header then [HeaderLine(names, index, sep)] else [])
      + (if n == 0 then [] else BodyLines(colData, names, n, index, sep, naRep))
  }

  /** The header line: "index" and the separator when `index` is set, then
      the names joined by the separator. */
  lemma OutputHeader(colData: map<string, Column>, names: seq<string>, n: nat, index: bool, sep: string, naRep: string)
    requires n > 0 ==> forall j :: 0 <= j < |names| ==> names[j] in colData && n <= |colData[names[j]].data|
    ensures OutputLines(colData, names, n, index, sep, true, naRep)[0] == (if index then "index" + sep else "") + Join(names, sep)
  {
  }

  /** Line `k` after the header is the line of row `k - h`, `h` being 1
      when the header is written. */
  lemma OutputLineAt(colData: map<string, Column>, names: seq<string>, n: nat, index: bool, sep: string,
                     header: bool, naRep: string, k: nat)
    requires n > 0 ==> forall j :: 0 <= j < |names| ==> names[j] in colData && n <= |colData[names[j]].data|
    requires (if header then 1 else 0) <= k < (if header then 1 else 0) + n
    ensures OutputLines(colData, names, n, index, sep, header, naRep)[k]
         == RowLine(colData, names, k - (if header then 1 else 0), index, sep, naRep)
  {
    var h := if header then 1 else 0;
    var head := if header then [HeaderLine(names, index, sep)] else [];
    var body := BodyLines(colData, names, n, index, sep, naRep);
    assert OutputLines(colData, names, n, index, sep, header, naRep) == head + body;
    assert (head + body)[k] == body[k - h];
  }

  /** No saved name, and no cell of a saved column, holds a line break. */
  ghost predicate NoLineBreaks(colData: map<string, Column>, names: seq<string>)
  {
    forall j :: 0 <= j < |names| ==>
      && '\n' !in names[j]
      && (names[j] in colData ==>
            forall i :: 0 <= i < |colData[names[j]].data| ==> '\n' !in colData[names[j]].data[i])
  }

  /** A data line holds no line break when its cells, `naRep` and the
      separator hold none. */
  lemma RowLineNoBreak(colData: map<string, Column>, names: seq<string>, n: nat, i: nat, index: bool, sep: string, naRep: string)
    requires n > 0 ==> forall j :: 0 <= j < |names| ==> names[j] in colData && n <= |colData[names[j]].data|
    requires NoLineBreaks(colData, names) && '\n' !in sep && '\n' !in naRep
    requires i < n
    ensures '\n' !in RowLine(colData, names, i, index, sep, naRep)
  {
    var cells := RowTexts(colData, names, i, naRep);
    forall j | 0 <= j < |cells| ensures '\n' !in cells[j] {
      assert cells[j] == CellText(colData[names[j]].data[i], naRep);
    }
    JoinFree(cells, sep, '\n');
    var num := NatToString(i);
    assert forall k :: 0 <= k < |num| ==> num[k] != '\n';
  }

  /** What `getline` reads back from the text `save_to_csv` writes, for
      any options, is exactly the lines written. */
  lemma SavedTextLines(colData: map<string, Column>, columns: seq<string>, index: bool, sep: string,
                       header: bool, naRep: string, selected: seq<string>)
    requires RenderDefined(colData, columns, selected)
    requires SaveToCsv(colData, columns, index, sep, header, naRep, selected).Success?
    requires '\n' !in sep && '\n' !in naRep
    requires NoLineBreaks(colData, ColumnsToSave(columns, selected))
    ensures var names := ColumnsToSave(columns, selected);
      LinesOf(SaveToCsv(colData, columns, index, sep, header, naRep, selected).value)
        == OutputLines(colData, names, RowCount(colData, names), index, sep, header, naRep)
  {
    var names := ColumnsToSave(columns, selected);
    var n := RowCount(colData, names);
    var lines := OutputLines(colData, names, n, index, sep, header, naRep);
    assert SaveToCsv(colData, columns, index, sep, header, naRep, selected) == Success(Terminated(lines, '\n'));
    OutputLinesFree(colData, names, n, index, sep, header, naRep);
    SplitGetlineTerminated(lines, '\n');
  }

  /** No written line holds a line break when no name, cell, separator or
      `naRep` does. */
  lemma OutputLinesFree(colData: map<string, Column>, names: seq<string>, n: nat, index: bool, sep: string,
                        header: bool, naRep: string)
    requires n > 0 ==> forall j :: 0 <= j < |names| ==> names[j] in colData && n <= |colData[names[j]].data|
    requires NoLineBreaks(colData, names) && '\n' !in sep && '\n' !in naRep
    ensures forall k :: 0 <= k < |OutputLines(colData, names, n, index, sep, header, naRep)| ==>
      '\n' !in OutputLines(colData, names, n, index, sep, header, naRep)[k]
  {
    forall k | 0 <= k < |OutputLines(colData, names, n, index, sep, header, naRep)|
      ensures '\n' !in OutputLines(colData, names, n, index, sep, header, naRep)[k]
    {
      if header && k == 0 {
        OutputHeaderFree(colData, names, n, index, sep, naRep);
      } else {
        OutputRowFree(colData, names, n, index, sep, header, naRep, k);
      }
    }
  }

  /** The header line holds no line break. */
  lemma OutputHeaderFree(colData: map<string, Column>, names: seq<string>, n: nat, index: bool, sep: string, naRep: string)
    requires n > 0 ==> forall j :: 0 <= j < |names| ==> names[j] in colData && n <= |colData[names[j]].data|
    requires NoLineBreaks(colData, names) && '\n' !in sep
    ensures '\n' !in OutputLines(colData, names, n, index, sep, true, naRep)[0]
  {
    OutputHeader(colData, names, n, index, sep, naRep);
    JoinFree(names, sep, '\n');
  }

  /** A row's line holds no line break. */
  lemma OutputRowFree(colData: map<string, Column>, names: seq<string>, n: nat, index: bool, sep: string,
                      header: bool, naRep: string, k: nat)
    requires n > 0 ==> forall j :: 0 <= j < |names| ==> names[j] in colData && n <= |colData[names[j]].data|
    requires NoLineBreaks(colData, names) && '\n' !in sep && '\n' !in naRep
    requires (if header then 1 else 0) <= k < (if header then 1 else 0) + n
    ensures '\n' !in OutputLines(colData, names, n, index, sep, header, naRep)[k]
  {
    OutputLineAt(colData, names, n, index, sep, header, naRep, k);
    RowLineNoBreak(colData, names, n, k - (if header then 1 else 0), index, sep, naRep);
  }
}
