/** The DataFrame: a map from names to columns, the ordered list of names,
    and the row-oriented copy of the text it was read from. */
module Frame {
  import opened Wrappers
  import opened Text
  import opened Columns
  import opened Rows
  import opened Csv

  /** The largest `size_t`: `row_data.size() - 1` wraps to it on an empty
      table. */
  const SizeMax: int := 0xFFFF_FFFF_FFFF_FFFF

  // ---------------------------------------------------------------------------
  // rename
  // ---------------------------------------------------------------------------

  /** `columns` with every occurrence of `o` overwritten by `n`. */
  function ReplaceAll(cols: seq<string>, o: string, n: string): seq<string>
  {
    seq(|cols|, i requires 0 <= i < |cols| => if cols[i] == o then n else cols[i])
  }

  /** One pair of `rename` on `col_data`: the column under `o` is stored
      under `n` with its name set to `n`, then the key `o` is erased. When
      `o == n` that erases the entry just written. */
  function RenameStep(cd: map<string, Column>, o: string, n: string): (r: map<string, Column>)
    requires o in cd
    ensures o !in r
    ensures o != n ==> n in r && r[n] == cd[o].(name := n)
    ensures forall k :: k != o && k != n ==> (k in r <==> k in cd)
    ensures forall k :: k != o && k != n && k in cd ==> r[k] == cd[k]
  {
    cd[n := cd[o].(name := n)] - {o}
  }

  /** The state `rename` leaves and how it ends. */
  datatype Renamed = Renamed(colData: map<string, Column>, columns: seq<string>, outcome: Outcome<Error>)

  /** `rename(pairs)`: the pairs are applied in order; the first whose old
      name is not a key raises `out_of_range`, with the earlier pairs
      already applied. */
  function RenameAll(cd: map<string, Column>, cols: seq<string>, pairs: seq<(string, string)>): Renamed
    decreases |pairs|
  {
    if pairs == [] then Renamed(cd, cols, Pass)
    else if pairs[0].0 !in cd then Renamed(cd, cols, Fail(OutOfRange))
    else RenameAll(RenameStep(cd, pairs[0].0, pairs[0].1), ReplaceAll(cols, pairs[0].0, pairs[0].1), pairs[1..])
  }

  /** A pair whose old name is missing stops `rename` with `out_of_range`
      and keeps what the pairs before it did. */
  lemma {:induction false} RenameStopsAtMissing(cd: map<string, Column>, cols: seq<string>,
                                                before: seq<(string, string)>, o: string, n: string,
                                                after: seq<(string, string)>)
    requires RenameAll(cd, cols, before).outcome == Pass
    requires o !in RenameAll(cd, cols, before).colData
    ensures RenameAll(cd, cols, before + [(o, n)] + after)
         == Renamed(RenameAll(cd, cols, before).colData, RenameAll(cd, cols, before).columns, Fail(OutOfRange))
    decreases |before|
  {
    var all := before + [(o, n)] + after;
    if before == [] {
      assert all[0] == (o, n);
    } else {
      assert all[0] == before[0];
      assert all[1..] == before[1..] + [(o, n)] + after;
      var (p, q) := before[0];
      RenameStopsAtMissing(RenameStep(cd, p, q), ReplaceAll(cols, p, q), before[1..], o, n, after);
    }
  }

  /** Renaming `o` to `n != o` leaves `n` at every position `o` had, with
      the data and dtype of `o`'s column, and no key `o`. */
  lemma RenameMovesColumn(cd: map<string, Column>, cols: seq<string>, o: string, n: string)
    requires o in cd && o != n
    ensures var r := RenameAll(cd, cols, [(o, n)]);
      && r.outcome == Pass
      && o !in r.colData && n in r.colData
      && r.colData[n] == Column(n, cd[o].data, cd[o].dtype)
      && |r.columns| == |cols|
      && (forall i :: 0 <= i < |cols| && cols[i] == o ==> r.columns[i] == n)
      && (forall i :: 0 <= i < |cols| && cols[i] != o ==> r.columns[i] == cols[i])
  {
    assert [(o, n)][1..] == [];
  }

  /** Renaming a name to itself erases its entry while `columns` still
      lists it. */
  lemma RenameToItselfErases(cd: map<string, Column>, cols: seq<string>, o: string)
    requires o in cd
    ensures RenameAll(cd, cols, [(o, o)]) == Renamed(cd - {o}, cols, Pass)
  {
    assert [(o, o)][1..] == [];
    assert ReplaceAll(cols, o, o) == cols;
    assert RenameStep(cd, o, o) == cd - {o};
  }

  /** When the names listed are exactly the keys, renaming to a different
      name keeps them so. */
  lemma RenameKeepsNamesAndKeys(cd: map<string, Column>, cols: seq<string>, o: string, n: string)
    requires forall c :: c in cols <==> c in cd
    requires o in cd && o != n
    ensures forall c :: c in ReplaceAll(cols, o, n) <==> c in RenameStep(cd, o, n)
  {
    var rc, rd := ReplaceAll(cols, o, n), RenameStep(cd, o, n);
    forall c | c in rc ensures c in rd {
      var i :| 0 <= i < |rc| && rc[i] == c;
      assert cols[i] in cd;
    }
    forall c | c in rd ensures c in rc {
      if c == n {
        var i :| 0 <= i < |cols| && cols[i] == o;
        assert rc[i] == n;
      } else {
        var i :| 0 <= i < |cols| && cols[i] == c;
        assert rc[i] == c;
      }
    }
  }

  /** The loop of `rename` over `columns`: every entry equal to `o`
      becomes `n`. */
  method ReplaceName(cols: seq<string>, o: string, n: string) returns (r: seq<string>)
    ensures r == ReplaceAll(cols, o, n)
  {
    r := cols;
    var i := 0;
    while i < |r|
      invariant 0 <= i <= |r| && |r| == |cols|
      invariant forall j :: 0 <= j < i ==> r[j] == if cols[j] == o then n else cols[j]
      invariant forall j :: i <= j < |r| ==> r[j] == cols[j]
    {
      if r[i] == o {
        r := r[i := n];
      }
      i := i + 1;
    }
  }

  // ---------------------------------------------------------------------------
  // fillna
  // ---------------------------------------------------------------------------

  /** Every column of `cd` with its missing cells set to `v`. */
  function FillAll(cd: map<string, Column>, v: string): map<string, Column>
  {
    map k | k in cd :: cd[k].(data := FillMissing(cd[k].data, v))
  }

  /** Filling the whole table with an integer keeps every key, name, dtype
      and column length, leaves no missing cell, and a second fill changes
      nothing. */
  lemma FillAllProperties(cd: map<string, Column>, x: Int32)
    ensures var f := FillAll(cd, IntToString(x));
      && f.Keys == cd.Keys
      && (forall k :: k in f ==> f[k].name == cd[k].name && f[k].dtype == cd[k].dtype)
      && (forall k :: k in f ==> |f[k].data| == |cd[k].data|)
      && (forall k, i :: k in f && 0 <= i < |f[k].data| ==> f[k].data[i] != "")
      && FillAll(f, IntToString(x)) == f
  {
    var v := IntToString(x);
    IntToStringRoundTrip(x);
    var f := FillAll(cd, v);
    forall k | k in cd
      ensures f[k].data == FillMissing(cd[k].data, v)
      ensures forall i :: 0 <= i < |f[k].data| ==> f[k].data[i] != ""
      ensures FillMissing(f[k].data, v) == f[k].data
    {
      FillMissingCells(cd[k].data, v);
      FillMissingIdempotent(cd[k].data, v);
    }
  }

  // ---------------------------------------------------------------------------
  // dropna
  // ---------------------------------------------------------------------------

  /** `col_data[key]`, which default-inserts an absent key. */
  function WithKey(cd: map<string, Column>, key: string): (r: map<string, Column>)
    ensures key in r
  {
    if key in cd then cd else cd[key := DefaultColumn]
  }

  /** No column is shorter than the key column. A shorter column can be
      erased past its end, which is undefined; this condition is stronger
      than what definedness needs. */
  predicate DropDefined(cd: map<string, Column>, key: string)
  {
    key in cd ==> forall k :: k in cd ==> |cd[key].data| <= |cd[k].data|
  }

  /** `dropna(key)`: every column loses the rows whose key cell is missing. */
  function Dropped(cd: map<string, Column>, key: string): map<string, Column>
    requires DropDefined(cd, key)
  {
    var c := WithKey(cd, key);
    map k | k in c :: c[k].(data := DropRows(c[key].data, c[k].data))
  }

  /** An absent key gets a default column and nothing is removed. */
  lemma DroppedAbsentKey(cd: map<string, Column>, key: string)
    requires key !in cd
    ensures Dropped(cd, key) == cd[key := DefaultColumn]
  {
    var c := WithKey(cd, key);
    forall k | k in c ensures DropRows(c[key].data, c[k].data) == c[k].data {
      DropRowsNoMissing(c[key].data, c[k].data);
    }
  }

  /** After `dropna(key)` the key column has no missing cell, every column
      keeps its name and dtype, and a second `dropna(key)` removes nothing. */
  lemma DroppedProperties(cd: map<string, Column>, key: string)
    requires key in cd && DropDefined(cd, key)
    ensures var d := Dropped(cd, key);
      && d.Keys == cd.Keys
      && (forall k :: k in d ==> d[k].name == cd[k].name && d[k].dtype == cd[k].dtype)
      && (forall i :: 0 <= i < |d[key].data| ==> d[key].data[i] != "")
      && DropDefined(d, key)
      && Dropped(d, key) == d
  {
    var d := Dropped(cd, key);
    var kd := cd[key].data;
    DropRowsOfKey(kd);
    assert d[key].data == DropRows(kd, kd);
    forall k | k in d ensures |d[key].data| <= |d[k].data| {
      assert |d[k].data| == CountTrue(PresentMask(kd)) + (|cd[k].data| - |kd|);
      assert |d[key].data| == CountTrue(PresentMask(kd));
    }
    forall k | k in d ensures DropRows(d[key].data, d[k].data) == d[k].data {
      DropRowsNoMissing(d[key].data, d[k].data);
    }
  }

  // ---------------------------------------------------------------------------
  // Filtering by a mask
  // ---------------------------------------------------------------------------

  /** `row_data.size() - 1` in `size_t` arithmetic. */
  function DataRowCount(rowData: seq<seq<string>>): int
  {
    if |rowData| == 0 then SizeMax else |rowData| - 1
  }

  /** The columns the filter rebuilds are all at least as long as the mask. */
  predicate FilterDefined(cd: map<string, Column>, cols: seq<string>, n: nat)
  {
    forall c :: c in cols && c in cd ==> n <= |cd[c].data|
  }

  /** `col_data` of the filtered table: every listed column rebuilt from the
      cells the mask keeps; entries not listed are copied unchanged. */
  function Filtered(cd: map<string, Column>, cols: seq<string>, mask: seq<bool>): map<string, Column>
    requires FilterDefined(cd, cols, |mask|)
  {
    map k | k in cd :: if k in cols then Column(k, Select(cd[k].data[..|mask|], mask), cd[k].dtype) else cd[k]
  }

  /** An all-true mask gives back every listed column whose name field is
      its key and whose length is the mask's. */
  lemma FilteredAllTrue(cd: map<string, Column>, cols: seq<string>, mask: seq<bool>)
    requires FilterDefined(cd, cols, |mask|)
    requires forall i :: 0 <= i < |mask| ==> mask[i]
    ensures forall c :: c in cols && c in cd && cd[c].name == c && |cd[c].data| == |mask| ==>
      Filtered(cd, cols, mask)[c] == cd[c]
  {
    forall c | c in cols && c in cd && cd[c].name == c && |cd[c].data| == |mask|
      ensures Filtered(cd, cols, mask)[c] == cd[c]
    {
      assert cd[c].data[..|mask|] == cd[c].data;
      SelectAllTrue(cd[c].data, mask);
    }
  }

  /** An all-false mask leaves every listed column empty, with its name
      and dtype. */
  lemma FilteredAllFalse(cd: map<string, Column>, cols: seq<string>, mask: seq<bool>)
    requires FilterDefined(cd, cols, |mask|)
    requires forall i :: 0 <= i < |mask| ==> !mask[i]
    ensures forall c :: c in cols && c in cd ==> Filtered(cd, cols, mask)[c] == Column(c, [], cd[c].dtype)
  {
    forall c | c in cols && c in cd
      ensures Filtered(cd, cols, mask)[c] == Column(c, [], cd[c].dtype)
    {
      SelectAllFalse(cd[c].data[..|mask|], mask);
    }
  }

  // ---------------------------------------------------------------------------
  // Reading helpers of the CSV constructor
  // ---------------------------------------------------------------------------

  /** The header loop: one name, one empty column and one header cell per
      field. */
  method ReadHeader(fields: seq<string>) returns (cols: seq<string>, temp: seq<Column>, row: seq<string>)
    ensures cols == fields && row == fields
    ensures |temp| == |fields| && forall j :: 0 <= j < |temp| ==> temp[j] == Column(fields[j], [], Str)
  {
    cols, temp, row := [], [], [];
    var jdx := 0;
    while jdx < |fields|
      invariant 0 <= jdx <= |fields|
      invariant cols == fields[..jdx] && row == fields[..jdx]
      invariant |temp| == jdx && forall j :: 0 <= j < jdx ==> temp[j] == Column(fields[j], [], Str)
    {
      cols := cols + [fields[jdx]];
      temp := temp + [Column(fields[jdx], [], Str)];
      row := row + [fields[jdx]];
      jdx := jdx + 1;
    }
  }

  /** The data-line loop: field `j` is pushed onto column `j`, and a row
      short of the header gets one "" on the column after its last field. */
  method ReadRow(temp: seq<Column>, fields: seq<string>, width: nat) returns (next: seq<Column>, row: seq<string>)
    requires |temp| == width && |fields| <= width
    ensures row == Pad(fields, width)
    ensures |next| == width
    ensures forall j :: 0 <= j < width ==>
      next[j] == temp[j].(data := temp[j].data + (if j < |row| then [row[j]] else []))
  {
    next, row := temp, [];
    var jdx := 0;
    while jdx < |fields|
      invariant 0 <= jdx <= |fields| && |next| == width
      invariant row == fields[..jdx]
      invariant forall j :: 0 <= j < width ==>
        next[j] == temp[j].(data := temp[j].data + (if j < jdx then [fields[j]] else []))
    {
      next := next[jdx := next[jdx].(data := next[jdx].data + [fields[jdx]])];
      row := row + [fields[jdx]];
      jdx := jdx + 1;
    }
    if |row| < width {
      row := row + [""];
      next := next[jdx := next[jdx].(data := next[jdx].data + [""])];
    }
  }

  /** One pass of the line loop: the first line is the header, every
      other line a data row. */
  method ReadLine(text: string, lines: seq<string>, n: nat, cols: seq<string>, rows: seq<seq<string>>, temp: seq<Column>)
    returns (cols': seq<string>, rows': seq<seq<string>>, temp': seq<Column>)
    requires RowsFit(text) && lines == LinesOf(text) && n < |lines|
    requires ReadState(text, n, cols, rows, temp)
    ensures ReadState(text, n + 1, cols', rows', temp')
  {
    RowsOfStep(text, n);
    var fields := SplitGetline(lines[n], ',');
    var row;
    if n == 0 {
      cols', temp', row := ReadHeader(fields);
      assert DataRowsOf(text)[..0] == [];
    } else {
      var next;
      next, row := ReadRow(temp, fields, |rows[0]|);
      ReadLineStep(text, n, temp, next, row);
      cols', temp' := cols, next;
    }
    rows' := rows + [row];
  }

  /** The line loop of the CSV constructor: the header line names the
      columns, every other line adds a row and a cell to the columns. */
  method ReadLines(text: string) returns (cols: seq<string>, rows: seq<seq<string>>, temp: seq<Column>)
    requires RowsFit(text)
    ensures cols == HeaderOf(text) && rows == RowsOf(text)
    ensures |temp| == |cols|
    ensures forall j :: 0 <= j < |temp| ==> temp[j] == Column(cols[j], CellsOf(DataRowsOf(text), j), Str)
  {
    var lines := LinesOf(text);
    cols, rows, temp := [], [], [];
    var n := 0;
    while n < |lines|
      invariant ReadState(text, n, cols, rows, temp)
      decreases |lines| - n
    {
      cols, rows, temp := ReadLine(text, lines, n, cols, rows, temp);
      n := n + 1;
    }
    ReadDone(text, n, cols, rows, temp);
  }

  /** The inference loop: every column gets the dtype its cells infer. */
  method InferAll(temp: seq<Column>, isFloat: string -> bool) returns (r: seq<Column>)
    ensures |r| == |temp|
    ensures forall j :: 0 <= j < |r| ==> r[j] == temp[j].(dtype := DtypeOf(temp[j].data, isFloat))
  {
    r := temp;
    var j := 0;
    while j < |r|
      invariant 0 <= j <= |r| && |r| == |temp|
      invariant forall k :: 0 <= k < j ==> r[k] == temp[k].(dtype := DtypeOf(temp[k].data, isFloat))
      invariant forall k :: j <= k < |r| ==> r[k] == temp[k]
    {
      var t := InferDtype(r[j].data, isFloat);
      r := r[j := r[j].(dtype := t)];
      j := j + 1;
    }
  }

  /** The final loop: each column stored under its name, a later column
      overwriting an earlier one of the same name. */
  method BuildMap(cs: seq<Column>) returns (m: map<string, Column>)
    ensures m == ToMap(cs)
  {
    m := map[];
    var k := 0;
    while k < |cs|
      invariant 0 <= k <= |cs|
      invariant m == ToMap(cs[..k])
    {
      assert cs[..k + 1][..k] == cs[..k];
      m := m[cs[k].name := cs[k]];
      k := k + 1;
    }
    assert cs[..|cs|] == cs;
  }

  // ---------------------------------------------------------------------------
  // Helpers of dropna and of the mask filter
  // ---------------------------------------------------------------------------

  /** The positions of the missing cells of `data`, in increasing order. */
  method MissingPositions(data: seq<string>) returns (removed: seq<nat>)
    ensures forall j :: 0 <= j < |removed| ==> removed[j] < |data| && data[removed[j]] == ""
    ensures forall j1, j2 :: 0 <= j1 < j2 < |removed| ==> removed[j1] < removed[j2]
    ensures forall i :: 0 <= i < |data| && data[i] == "" ==> i in removed
  {
    removed := [];
    var idx := 0;
    while idx < |data|
      invariant 0 <= idx <= |data|
      invariant forall j :: 0 <= j < |removed| ==> removed[j] < idx && data[removed[j]] == ""
      invariant forall j1, j2 :: 0 <= j1 < j2 < |removed| ==> removed[j1] < removed[j2]
      invariant forall i :: 0 <= i < idx && data[i] == "" ==> i in removed
    {
      if data[idx] == "" {
        removed := removed + [idx];
      }
      idx := idx + 1;
    }
  }

  /** `r` is `cd` with every column as the erasures for the missing key
      cells before `b` leave it. */
  predicate AllPartlyDropped(cd: map<string, Column>, key: seq<string>, b: nat, r: map<string, Column>)
    requires b <= |key| && forall k :: k in cd ==> |key| <= |cd[k].data|
  {
    && r.Keys == cd.Keys
    && forall k :: k in cd ==> r[k] == cd[k].(data := PartlyDropped(cd[k].data, key, b))
  }

  /** `r` is `cd` with the element at `p` erased from every column. */
  predicate ErasedAt(cd: map<string, Column>, p: nat, r: map<string, Column>)
    requires forall k :: k in cd ==> p < |cd[k].data|
  {
    && r.Keys == cd.Keys
    && forall k :: k in cd ==> r[k] == cd[k].(data := Erase(cd[k].data, p))
  }

  /** The count of kept rows after one more missing key cell. */
  lemma CountStep(key: seq<string>, b: nat, p: nat)
    requires b <= p < |key|
    requires key[p] == "" && forall i :: b <= i < p ==> key[i] != ""
    ensures CountTrue(PresentMask(key[..b])) <= b
    ensures CountTrue(PresentMask(key[..p + 1])) == CountTrue(PresentMask(key[..b])) + (p - b)
  {
    CountBounds(PresentMask(key[..b]));
    CountBounds(PresentMask(key[b..p]));
    MaskStep(key, b, p);
    CountAppend(PresentMask(key[..b]), PresentMask(key[b..p]));
    CountAppend(PresentMask(key[..b]) + PresentMask(key[b..p]), [false]);
  }

  /** One pass of the erasure loop: with `jdx` rows erased before `b` and
      the next missing key cell at `p`, erasing at `p - jdx` in every column
      handles the rows up to `p`. */
  lemma EraseEachStep(cd: map<string, Column>, key: seq<string>, b: nat, p: nat, jdx: nat,
                      r: map<string, Column>, next: map<string, Column>)
    requires b <= p < |key| && forall k :: k in cd ==> |key| <= |cd[k].data|
    requires key[p] == "" && forall i :: b <= i < p ==> key[i] != ""
    requires CountTrue(PresentMask(key[..b])) + jdx == b
    requires AllPartlyDropped(cd, key, b, r)
    requires jdx <= p && forall k :: k in r ==> p - jdx < |r[k].data|
    requires ErasedAt(r, p - jdx, next)
    ensures AllPartlyDropped(cd, key, p + 1, next)
  {
    forall k | k in cd ensures next[k] == cd[k].(data := PartlyDropped(cd[k].data, key, p + 1)) {
      ColumnStep(cd[k], key, b, p, jdx, r[k], next[k]);
    }
  }

  /** One pass of the erasure loop on a single column `c`. */
  lemma ColumnStep(c: Column, key: seq<string>, b: nat, p: nat, jdx: nat, rc: Column, nc: Column)
    requires b <= p < |key| <= |c.data|
    requires key[p] == "" && forall i :: b <= i < p ==> key[i] != ""
    requires CountTrue(PresentMask(key[..b])) + jdx == b && jdx <= p
    requires rc == c.(data := PartlyDropped(c.data, key, b))
    requires p - jdx < |rc.data| && nc == rc.(data := Erase(rc.data, p - jdx))
    ensures nc == c.(data := PartlyDropped(c.data, key, p + 1))
  {
    DropStep(c.data, key, b, p);
  }

  /** Before a pass, the shifted position is inside every column. */
  lemma EraseEachBounds(cd: map<string, Column>, key: seq<string>, b: nat, p: nat, jdx: nat,
                        r: map<string, Column>)
    requires b <= p < |key| && forall k :: k in cd ==> |key| <= |cd[k].data|
    requires CountTrue(PresentMask(key[..b])) + jdx == b
    requires AllPartlyDropped(cd, key, b, r)
    ensures jdx <= p
    ensures forall k :: k in r ==> p - jdx < |r[k].data|
  {
    CountBounds(PresentMask(key[..b]));
  }

  /** With no missing key cell from `b` on, what is left is `dropna`'s
      result. */
  lemma PartlyDroppedDone(cd: map<string, Column>, key: seq<string>, b: nat, r: map<string, Column>)
    requires b <= |key| && forall k :: k in cd ==> |key| <= |cd[k].data|
    requires forall i :: b <= i < |key| ==> key[i] != ""
    requires AllPartlyDropped(cd, key, b, r)
    ensures r == map k | k in cd :: cd[k].(data := DropRows(key, cd[k].data))
  {
    var rhs := map k | k in cd :: cd[k].(data := DropRows(key, cd[k].data));
    assert r.Keys == rhs.Keys;
    forall k | k in r ensures r[k] == rhs[k] {
      DropFinish(cd[k].data, key, b);
    }
  }

  /** The inner loop of `dropna`: one erasure at `p` in every column. */
  method EraseAt(cd: map<string, Column>, p: nat) returns (r: map<string, Column>)
    requires forall k :: k in cd ==> p < |cd[k].data|
    ensures ErasedAt(cd, p, r)
  {
    r := cd;
    var todo := cd.Keys;
    while todo != {}
      invariant todo <= cd.Keys && r.Keys == cd.Keys
      invariant forall k :: k in r ==> r[k] == if k in todo then cd[k] else cd[k].(data := Erase(cd[k].data, p))
      decreases todo
    {
      var k :| k in todo;
      r := r[k := r[k].(data := r[k].data[..p] + r[k].data[p + 1..])];
      todo := todo - {k};
    }
  }

  /** `removed` lists, in increasing order, exactly the positions of the
      missing cells of `key`. */
  predicate MissingList(key: seq<string>, removed: seq<nat>)
  {
    && (forall j :: 0 <= j < |removed| ==> removed[j] < |key| && key[removed[j]] == "")
    && (forall j1, j2 :: 0 <= j1 < j2 < |removed| ==> removed[j1] < removed[j2])
    && (forall i :: 0 <= i < |key| && key[i] == "" ==> i in removed)
  }

  /** Every missing key cell from `b` on is among the positions from
      `jdx` on. */
  predicate Pending(key: seq<string>, removed: seq<nat>, jdx: nat, b: nat)
  {
    jdx <= |removed| && b <= |key| &&
    forall i :: b <= i < |key| && key[i] == "" ==> i in removed[jdx..]
  }

  /** Where the `jdx`-th missing position lies relative to the rows
      already handled. */
  lemma PassBounds(key: seq<string>, removed: seq<nat>, jdx: nat, b: nat)
    requires MissingList(key, removed) && Pending(key, removed, jdx, b)
    requires jdx < |removed| && b == (if jdx == 0 then 0 else removed[jdx - 1] + 1)
    ensures b <= removed[jdx] < |key| && key[removed[jdx]] == ""
    ensures forall i :: b <= i < removed[jdx] ==> key[i] != ""
    ensures Pending(key, removed, jdx + 1, removed[jdx] + 1)
  {
    var p := removed[jdx];
    forall i | p + 1 <= i < |key| && key[i] == "" ensures i in removed[jdx + 1..] {
      assert i in removed[jdx..];
      var j :| jdx <= j < |removed| && removed[j] == i;
      assert j != jdx;
      assert removed[j] == removed[jdx + 1..][j - jdx - 1];
    }
  }

  /** The number of rows handled after `jdx` passes: all rows up to and
      including the last position erased. */
  function Handled(removed: seq<nat>, jdx: nat): nat
    requires jdx <= |removed|
  {
    if jdx == 0 then 0 else removed[jdx - 1] + 1
  }

  /** The state of the outer loop of `dropna` after `jdx` passes: the rows
      before `Handled(removed, jdx)` are handled, `jdx` of them erased. */
  predicate EraseState(cd: map<string, Column>, key: seq<string>, removed: seq<nat>, jdx: nat,
                       r: map<string, Column>)
    requires forall k :: k in cd ==> |key| <= |cd[k].data|
  {
    && jdx <= |removed|
    && Pending(key, removed, jdx, Handled(removed, jdx))
    && CountTrue(PresentMask(key[..Handled(removed, jdx)])) + jdx == Handled(removed, jdx)
    && AllPartlyDropped(cd, key, Handled(removed, jdx), r)
  }

  /** Before the first pass nothing is handled. */
  lemma EraseStart(cd: map<string, Column>, key: seq<string>, removed: seq<nat>)
    requires forall k :: k in cd ==> |key| <= |cd[k].data|
    requires MissingList(key, removed)
    ensures EraseState(cd, key, removed, 0, cd)
  {
    assert key[..0] == [];
    assert removed[0..] == removed;
    forall k | k in cd ensures PartlyDropped(cd[k].data, key, 0) == cd[k].data {
      PartlyDroppedNone(cd[k].data, key);
    }
  }

  /** Where the next erasure goes: `jdx` rows are erased, all before
      `removed[jdx]`, so the shifted position is inside every column. */
  lemma EraseNextBounds(cd: map<string, Column>, key: seq<string>, removed: seq<nat>, jdx: nat,
                        r: map<string, Column>)
    requires (forall k :: k in cd ==> |key| <= |cd[k].data|) && MissingList(key, removed)
    requires EraseState(cd, key, removed, jdx, r) && jdx < |removed|
    ensures jdx <= removed[jdx]
    ensures forall k :: k in r ==> removed[jdx] - jdx < |r[k].data|
  {
    var b := Handled(removed, jdx);
    PassBounds(key, removed, jdx, b);
    EraseEachBounds(cd, key, b, removed[jdx], jdx, r);
  }

  /** One pass: erasing at the shifted position `removed[jdx] - jdx` in
      every column handles the rows up to `removed[jdx]`. */
  lemma EraseNext(cd: map<string, Column>, key: seq<string>, removed: seq<nat>, jdx: nat,
                  r: map<string, Column>, q: nat, next: map<string, Column>)
    requires (forall k :: k in cd ==> |key| <= |cd[k].data|) && MissingList(key, removed)
    requires EraseState(cd, key, removed, jdx, r) && jdx < |removed|
    requires q == removed[jdx] - jdx && forall k :: k in r ==> q < |r[k].data|
    requires ErasedAt(r, q, next)
    ensures EraseState(cd, key, removed, jdx + 1, next)
  {
    var b, p := Handled(removed, jdx), removed[jdx];
    assert Handled(removed, jdx + 1) == p + 1;
    PassBounds(key, removed, jdx, b);
    CountStep(key, b, p);
    EraseEachStep(cd, key, b, p, jdx, r, next);
  }

  /** After the last pass the columns are what `DropRows` says. */
  lemma EraseDone(cd: map<string, Column>, key: seq<string>, removed: seq<nat>, r: map<string, Column>)
    requires (forall k :: k in cd ==> |key| <= |cd[k].data|) && MissingList(key, removed)
    requires EraseState(cd, key, removed, |removed|, r)
    ensures r == map k | k in cd :: cd[k].(data := DropRows(key, cd[k].data))
  {
    PartlyDroppedDone(cd, key, Handled(removed, |removed|), r);
  }

  /** One pass of the outer loop of `dropna`: the `jdx`-th missing
      position, shifted down by the `jdx` rows already erased, is erased in
      every column, which handles the rows up to that position. */
  method ErasePass(cd: map<string, Column>, key: seq<string>, removed: seq<nat>, jdx: nat,
                   r: map<string, Column>) returns (next: map<string, Column>)
    requires (forall k :: k in cd ==> |key| <= |cd[k].data|) && MissingList(key, removed)
    requires EraseState(cd, key, removed, jdx, r) && jdx < |removed|
    ensures EraseState(cd, key, removed, jdx + 1, next)
  {
    EraseNextBounds(cd, key, removed, jdx, r);
    var q := removed[jdx] - jdx;
    next := EraseAt(r, q);
    EraseNext(cd, key, removed, jdx, r, q, next);
  }

  /** The outer loop of `dropna`: the `jdx`-th missing position, shifted
      down by the `jdx` rows already erased, is erased in every column. */
  method EraseRows(cd: map<string, Column>, key: seq<string>, removed: seq<nat>) returns (r: map<string, Column>)
    requires forall k :: k in cd ==> |key| <= |cd[k].data|
    requires MissingList(key, removed)
    ensures r == map k | k in cd :: cd[k].(data := DropRows(key, cd[k].data))
  {
    r := cd;
    var jdx := 0;
    EraseStart(cd, key, removed);
    while jdx < |removed|
      invariant EraseState(cd, key, removed, jdx, r)
      decreases |removed| - jdx
    {
      r := ErasePass(cd, key, removed, jdx, r);
      jdx := jdx + 1;
    }
    EraseDone(cd, key, removed, r);
  }

  /** The selection loop of the mask filter: the elements of `d` at the
      positions the mask keeps. */
  method KeepMasked<T>(d: seq<T>, mask: seq<bool>) returns (r: seq<T>)
    requires |mask| <= |d|
    ensures r == Select(d[..|mask|], mask)
  {
    r := [];
    var i := 0;
    while i < |mask|
      invariant 0 <= i <= |mask|
      invariant r == Select(d[..i], mask[..i])
    {
      assert d[..i + 1] == d[..i] + [d[i]];
      assert mask[..i + 1] == mask[..i] + [mask[i]];
      SelectAppend(d[..i], mask[..i], [d[i]], [mask[i]]);
      if mask[i] {
        r := r + [d[i]];
      }
      i := i + 1;
    }
    assert mask[..|mask|] == mask;
  }

  // ---------------------------------------------------------------------------
  // The table
  // ---------------------------------------------------------------------------

  class DataFrame {
    var colData: map<string, Column>
    var rowData: seq<seq<string>>
    var columns: seq<string>

    /** The copy constructor: columns are held by value, so the copy shares
        nothing with `other`. */
    constructor Copy(other: DataFrame)
      ensures colData == other.colData && rowData == other.rowData && columns == other.columns
    {
      colData := other.colData;
      rowData := other.rowData;
      columns := other.columns;
    }

    /** The CSV constructor on the text of the file: the first line names
        the columns, every further line is split into fields that are
        appended to the columns in order, and each column then gets the
        dtype its cells infer. */
    constructor Parse(text: string, isFloat: string -> bool)
      requires RowsFit(text)
      ensures columns == HeaderOf(text)
      ensures rowData == RowsOf(text)
      ensures colData == ColDataOf(text, isFloat)
    {
      var cols, rows, temp := ReadLines(text);
      temp := InferAll(temp, isFloat);
      forall j | 0 <= j < |temp| ensures temp[j] == ColumnsOf(text, isFloat)[j] {
        ColumnsOfAt(text, isFloat, j);
      }
      assert temp == ColumnsOf(text, isFloat);
      var m := BuildMap(temp);
      colData := m;
      columns := cols;
      rowData := rows;
    }

    /** `operator[](string)`: the column stored under `key`. */
    function Get(key: string): (r: Result<Column, Error>)
      reads this
      ensures r.Success? <==> key in colData
      ensures r.Success? ==> r.value == colData[key]
      ensures r.Failure? ==> r.error == OutOfRange
    {
      if key in colData then Success(colData[key]) else Failure(OutOfRange)
    }

    /** `rename(pairs)`. */
    method Rename(pairs: seq<(string, string)>) returns (r: Outcome<Error>)
      modifies this
      ensures Renamed(colData, columns, r) == RenameAll(old(colData), old(columns), pairs)
      ensures rowData == old(rowData)
    {
      var k := 0;
      while k < |pairs|
        invariant 0 <= k <= |pairs|
        invariant RenameAll(colData, columns, pairs[k..]) == RenameAll(old(colData), old(columns), pairs)
        invariant rowData == old(rowData)
      {
        var (o, n) := pairs[k];
        assert pairs[k..][0] == (o, n) && pairs[k..][1..] == pairs[k + 1..];
        if o !in colData {
          return Fail(OutOfRange);
        }
        colData := colData[n := colData[o].(name := n)] - {o};
        columns := ReplaceName(columns, o, n);
        k := k + 1;
      }
      r := Pass;
    }

    /** `fillna(x)` with an `int` value, on every column. */
    method FillNa(x: Int32)
      modifies this
      ensures colData == FillAll(old(colData), IntToString(x))
      ensures columns == old(columns) && rowData == old(rowData)
    {
      var todo := colData.Keys;
      while todo != {}
        invariant todo <= colData.Keys && colData.Keys == old(colData).Keys
        invariant forall k :: k in colData ==>
          colData[k] == if k in todo then old(colData)[k]
                        else old(colData)[k].(data := FillMissing(old(colData)[k].data, IntToString(x)))
        invariant columns == old(columns) && rowData == old(rowData)
        decreases todo
      {
        var k :| k in todo;
        var filled := Columns.FillNa(colData[k], x);
        colData := colData[k := filled];
        todo := todo - {k};
      }
    }

    /** `dropna(key)`: the missing positions of the key column are collected
        first, then erased from every column. */
    method DropNa(key: string)
      requires DropDefined(colData, key)
      modifies this
      ensures colData == Dropped(old(colData), key)
      ensures columns == old(columns) && rowData == old(rowData)
    {
      if key !in colData {
        colData := colData[key := DefaultColumn];
      }
      var data := colData[key].data;
      var removed := MissingPositions(data);
      colData := EraseRows(colData, data, removed);
    }

    /** `operator[](mask)`: a new table holding the rows the mask keeps. */
    method Filter(mask: seq<bool>) returns (r: Result<DataFrame, Error>)
      requires |mask| < SizeMax
      requires |mask| == DataRowCount(rowData) ==> FilterDefined(colData, columns, |mask|)
      ensures r.Failure? <==> (|mask| != DataRowCount(rowData) || exists c :: c in columns && c !in colData)
      ensures r.Failure? ==> r.error == OutOfRange
      ensures r.Success? ==> fresh(r.value)
      ensures r.Success? ==> r.value.columns == columns
      ensures r.Success? ==> (|rowData| >= 1 &&
        r.value.rowData == rowData + [rowData[0]] + Select(rowData[1..], mask))
      ensures r.Success? ==> r.value.colData == Filtered(colData, columns, mask)
    {
      var dataRows := if |rowData| == 0 then SizeMax else |rowData| - 1;
      if |mask| != dataRows {
        return Failure(OutOfRange);
      }
      var f := new DataFrame.Copy(this);
      f.rowData := f.rowData + [rowData[0]];
      var kept := KeepMasked(rowData[1..], mask);
      assert rowData[1..][..|mask|] == rowData[1..];
      f.rowData := f.rowData + kept;
      var cd := f.colData;
      var k := 0;
      while k < |columns|
        invariant 0 <= k <= |columns|
        invariant forall c :: c in columns[..k] ==> c in colData
        invariant FilterDefined(colData, columns[..k], |mask|)
        invariant cd == Filtered(colData, columns[..k], mask)
        invariant f.columns == columns
        invariant f.rowData == rowData + [rowData[0]] + Select(rowData[1..], mask)
      {
        var name := columns[k];
        if name !in colData {
          return Failure(OutOfRange);
        }
        var data := KeepMasked(colData[name].data, mask);
        cd := cd[name := Column(name, data, colData[name].dtype)];
        assert columns[..k + 1] == columns[..k] + [name];
        k := k + 1;
      }
      assert columns[..|columns|] == columns;
      f.colData := cd;
      return Success(f);
    }
  }
}
