/** A single column of a table: its type inference, its twelve relational
    mask operators and its missing-value filling. */
module Columns {
  import opened Wrappers
  import opened Text

  /** The three type names a column can carry: "int", "float", "string". */
  datatype Dtype = Int | Float | Str

  /** A named column of textual cells; the empty string is a missing cell. */
  datatype Column = Column(name: string, data: seq<string>, dtype: Dtype)

  /** A default-constructed column: no name, no cells, dtype "string". */
  const DefaultColumn: Column := Column("", [], Str)

  // ---------------------------------------------------------------------------
  // Type inference
  // ---------------------------------------------------------------------------

  /** Every non-missing cell is an integer text. */
  predicate AllInt(d: seq<string>)
  {
    forall i :: 0 <= i < |d| && d[i] != "" ==> IsInteger(d[i])
  }

  /** Every non-missing cell is accepted by `is_float`, which is given as
      `isFloat` (`strtod` reads all of it without a range error). */
  predicate AllFloat(d: seq<string>, isFloat: string -> bool)
  {
    forall i :: 0 <= i < |d| && d[i] != "" ==> isFloat(d[i])
  }

  /** The one fact about `is_float` the model relies on: `strtod` reads
      every complete integer text, and a value that fits in an `int` is in
      the range of `double`. */
  ghost predicate FloatExtendsInteger(isFloat: string -> bool)
  {
    forall s :: IsInteger(s) ==> isFloat(s)
  }

  /** The dtype the CSV constructor assigns to a column with cells `d`. */
  function DtypeOf(d: seq<string>, isFloat: string -> bool): Dtype
  {
    if AllInt(d) then Int else if AllFloat(d, isFloat) then Float else Str
  }

  /** The inference loop of the CSV constructor: it clears `allInt` and
      `allFloat` as it meets non-missing cells that fail the tests, and stops
      early once both are cleared. */
  method InferDtype(d: seq<string>, isFloat: string -> bool) returns (t: Dtype)
    ensures t == DtypeOf(d, isFloat)
  {
    var allInt, allFloat := true, true;
    var i := 0;
    while i < |d|
      invariant 0 <= i <= |d|
      invariant allInt == AllInt(d[..i])
      invariant allFloat == AllFloat(d[..i], isFloat)
    {
      PrefixStep(d, i, isFloat);
      if d[i] != "" {
        if !IsInteger(d[i]) {
          allInt := false;
        }
        if !isFloat(d[i]) {
          allFloat := false;
        }
        if !allInt && !allFloat {
          PrefixFails(d, i + 1, isFloat);
          break;
        }
      }
      i := i + 1;
    }
    assert i == |d| ==> d[..i] == d;
    if allInt {
      t := Int;
    } else if allFloat {
      t := Float;
    } else {
      t := Str;
    }
  }

  /** How the two tests on a prefix change when it grows by one cell. */
  lemma PrefixStep(d: seq<string>, i: nat, isFloat: string -> bool)
    requires i < |d|
    ensures AllInt(d[..i + 1]) == (AllInt(d[..i]) && (d[i] == "" || IsInteger(d[i])))
    ensures AllFloat(d[..i + 1], isFloat) == (AllFloat(d[..i], isFloat) && (d[i] == "" || isFloat(d[i])))
  {
    var p, q := d[..i + 1], d[..i];
    assert |p| == |q| + 1 && p[i] == d[i];
    assert forall k :: 0 <= k < i ==> p[k] == q[k];
  }

  /** A test that fails on a prefix fails on the whole column. */
  lemma PrefixFails(d: seq<string>, i: nat, isFloat: string -> bool)
    requires i <= |d|
    ensures !AllInt(d[..i]) ==> !AllInt(d)
    ensures !AllFloat(d[..i], isFloat) ==> !AllFloat(d, isFloat)
  {
    if !AllInt(d[..i]) {
      var k :| 0 <= k < i && d[..i][k] != "" && !IsInteger(d[..i][k]);
      assert d[k] == d[..i][k];
    }
    if !AllFloat(d[..i], isFloat) {
      var k :| 0 <= k < i && d[..i][k] != "" && !isFloat(d[..i][k]);
      assert d[k] == d[..i][k];
    }
  }

  /** The three outcomes of inference. Given that every integer text is a
      float text, a column is "string" exactly when some non-missing cell is
      not a float text, and "float" exactly when all are float texts and
      some is not an integer text. */
  lemma DtypeOfCases(d: seq<string>, isFloat: string -> bool)
    requires FloatExtendsInteger(isFloat)
    ensures DtypeOf(d, isFloat) == Int <==> AllInt(d)
    ensures DtypeOf(d, isFloat) == Float <==>
      AllFloat(d, isFloat) && exists i :: 0 <= i < |d| && d[i] != "" && !IsInteger(d[i])
    ensures DtypeOf(d, isFloat) == Str <==>
      exists i :: 0 <= i < |d| && d[i] != "" && !isFloat(d[i])
  {
  }

  /** A column without a single non-missing cell is inferred as "int". */
  lemma AllMissingIsInt(d: seq<string>, isFloat: string -> bool)
    requires forall i :: 0 <= i < |d| ==> d[i] == ""
    ensures DtypeOf(d, isFloat) == Int
  {
  }

  // ---------------------------------------------------------------------------
  // Relational operators
  // ---------------------------------------------------------------------------

  /** The six relational operators ==, !=, <, >, <=, >=. */
  datatype Relation = Eq | Ne | Lt | Gt | Le | Ge

  /** What the model knows of `double`: `stod` either yields a value or
      throws (None), and `==` and `<` on doubles. Both are left abstract. */
  datatype DoubleModel<!D> = DoubleModel(stod: string -> Option<D>, eq: (D, D) -> bool, lt: (D, D) -> bool)

  /** `x op key` on doubles, with `<=`, `>`, `>=` and `!=` built from `<` and
      `==` as IEEE comparisons are (false for NaN except `!=`). */
  function HoldsNumeric<D>(m: DoubleModel<D>, op: Relation, x: D, key: D): bool
  {
    match op
    case Eq => m.eq(x, key)
    case Ne => !m.eq(x, key)
    case Lt => m.lt(x, key)
    case Gt => m.lt(key, x)
    case Le => m.lt(x, key) || m.eq(x, key)
    case Ge => m.lt(key, x) || m.eq(x, key)
  }

  /** The mask entry for one cell under a numeric key: false for a missing
      cell and for one whose `stod` throws. */
  function CellNumeric<D>(m: DoubleModel<D>, op: Relation, cell: string, key: D): bool
  {
    cell != "" && m.stod(cell).Some? && HoldsNumeric(m, op, m.stod(cell).value, key)
  }

  /** `column op key` for a `double` key. */
  function NumericMask<D>(c: Column, op: Relation, key: D, m: DoubleModel<D>): (r: Result<seq<bool>, Error>)
    ensures r.Failure? <==> c.dtype == Str
    ensures r.Failure? ==> r.error == RuntimeError
    ensures r.Success? ==> |r.value| == |c.data|
    ensures r.Success? ==> forall i :: 0 <= i < |c.data| && c.data[i] == "" ==> !r.value[i]
    ensures r.Success? ==> forall i :: 0 <= i < |c.data| && m.stod(c.data[i]).None? ==> !r.value[i]
    ensures r.Success? ==> forall i :: 0 <= i < |c.data| && c.data[i] != "" && m.stod(c.data[i]).Some? ==>
      r.value[i] == HoldsNumeric(m, op, m.stod(c.data[i]).value, key)
  {
    if c.dtype == Str then Failure(RuntimeError)
    else Success(seq(|c.data|, i requires 0 <= i < |c.data| => CellNumeric(m, op, c.data[i], key)))
  }

  /** Under a numeric key a missing cell is false under `==` and under `!=`
      alike, so `!=` is the negation of `==` only on cells that parse. */
  lemma NumericNeVersusEq<D>(c: Column, key: D, m: DoubleModel<D>, i: nat)
    requires c.dtype != Str && i < |c.data|
    ensures NumericMask(c, Eq, key, m).Success? && NumericMask(c, Ne, key, m).Success?
    ensures c.data[i] == "" ==> !NumericMask(c, Eq, key, m).value[i] && !NumericMask(c, Ne, key, m).value[i]
    ensures c.data[i] != "" && m.stod(c.data[i]).Some? ==>
      NumericMask(c, Ne, key, m).value[i] == !NumericMask(c, Eq, key, m).value[i]
  {
  }

  /** `x op key` on strings, by `std::string::compare`. */
  function HoldsString(op: Relation, s: string, key: string): bool
  {
    match op
    case Eq => s == key
    case Ne => s != key
    case Lt => LexCompare(s, key) < 0
    case Gt => LexCompare(s, key) > 0
    case Le => LexCompare(s, key) <= 0
    case Ge => LexCompare(s, key) >= 0
  }

  /** `column op key` for a string key: every cell is compared, missing
      cells included, as the empty string. */
  function StringMask(c: Column, op: Relation, key: string): (r: Result<seq<bool>, Error>)
    ensures r.Failure? <==> c.dtype == Int || c.dtype == Float
    ensures r.Failure? ==> r.error == RuntimeError
    ensures r.Success? ==> |r.value| == |c.data|
    ensures r.Success? ==> forall i :: 0 <= i < |c.data| ==> r.value[i] == HoldsString(op, c.data[i], key)
  {
    if c.dtype == Float || c.dtype == Int then Failure(RuntimeError)
    else Success(seq(|c.data|, i requires 0 <= i < |c.data| => HoldsString(op, c.data[i], key)))
  }

  /** Under a string key `!=` is the negation of `==`, `>=` that of `<`,
      `<=` that of `>`, and `<=` is `<` or `==`, on every cell. */
  lemma StringMaskComplements(c: Column, key: string, i: nat)
    requires c.dtype == Str && i < |c.data|
    ensures StringMask(c, Ne, key).value[i] == !StringMask(c, Eq, key).value[i]
    ensures StringMask(c, Ge, key).value[i] == !StringMask(c, Lt, key).value[i]
    ensures StringMask(c, Le, key).value[i] == !StringMask(c, Gt, key).value[i]
    ensures StringMask(c, Le, key).value[i] == (StringMask(c, Lt, key).value[i] || StringMask(c, Eq, key).value[i])
  {
  }

  /** `cell > key` holds exactly when `key < cell`. */
  lemma StringGtIsFlippedLt(c: Column, key: string, i: nat)
    requires c.dtype == Str && i < |c.data|
    ensures StringMask(c, Gt, key).value[i] == (LexCompare(key, c.data[i]) < 0)
  {
    LexCompareFlip(c.data[i], key);
  }

  // ---------------------------------------------------------------------------
  // Filling missing cells
  // ---------------------------------------------------------------------------

  /** `d` with every missing cell replaced by `v`. */
  function FillMissing(d: seq<string>, v: string): seq<string>
  {
    seq(|d|, i requires 0 <= i < |d| => if d[i] == "" then v else d[i])
  }

  /** `Column::fillna` with an `int` value: every missing cell becomes the
      decimal text of `x`, in place. */
  method FillNa(c: Column, x: Int32) returns (r: Column)
    ensures r.name == c.name && r.dtype == c.dtype
    ensures r.data == FillMissing(c.data, IntToString(x))
  {
    var v := IntToString(x);
    var data := c.data;
    var i := 0;
    while i < |data|
      invariant 0 <= i <= |data| && |data| == |c.data|
      invariant forall k :: 0 <= k < i ==> data[k] == if c.data[k] == "" then v else c.data[k]
      invariant forall k :: i <= k < |data| ==> data[k] == c.data[k]
    {
      if data[i] == "" {
        data := data[i := v];
      }
      i := i + 1;
    }
    r := c.(data := data);
  }

  /** Filling keeps the length and the non-missing cells and leaves no
      missing cell behind when `v` is not empty. */
  lemma FillMissingCells(d: seq<string>, v: string)
    requires v != ""
    ensures |FillMissing(d, v)| == |d|
    ensures forall i :: 0 <= i < |d| && d[i] != "" ==> FillMissing(d, v)[i] == d[i]
    ensures forall i :: 0 <= i < |d| && d[i] == "" ==> FillMissing(d, v)[i] == v
    ensures forall i :: 0 <= i < |d| ==> FillMissing(d, v)[i] != ""
  {
  }

  /** Filling twice with the same non-empty text changes nothing more. */
  lemma FillMissingIdempotent(d: seq<string>, v: string)
    requires v != ""
    ensures FillMissing(FillMissing(d, v), v) == FillMissing(d, v)
  {
  }

  /** Filling with an integer keeps the dtype inference would give the
      column: integer text is both an "int" and a "float" cell. */
  lemma FillMissingKeepsDtype(d: seq<string>, x: Int32, isFloat: string -> bool)
    requires FloatExtendsInteger(isFloat)
    ensures DtypeOf(FillMissing(d, IntToString(x)), isFloat) == DtypeOf(d, isFloat)
  {
    var v := IntToString(x);
    IntToStringRoundTrip(x);
    FillKeepsAll(d, v, IsInteger);
    FillKeepsAll(d, v, isFloat);
    assert AllInt(FillMissing(d, v)) == AllInt(d);
    assert AllFloat(FillMissing(d, v), isFloat) == AllFloat(d, isFloat);
  }

  /** A property every non-missing cell has survives filling with a text
      that has it. */
  lemma FillKeepsAll(d: seq<string>, v: string, p: string -> bool)
    requires v != "" && p(v)
    ensures (forall i :: 0 <= i < |d| && d[i] != "" ==> p(d[i])) <==>
            (forall i :: 0 <= i < |FillMissing(d, v)| && FillMissing(d, v)[i] != "" ==> p(FillMissing(d, v)[i]))
  {
    var f := FillMissing(d, v);
    if exists i :: 0 <= i < |d| && d[i] != "" && !p(d[i]) {
      var i :| 0 <= i < |d| && d[i] != "" && !p(d[i]);
      assert f[i] == d[i];
    }
  }
}
