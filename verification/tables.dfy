/** `YAMLTable` (`sql_unit/model.py`): rows of loaded cell values under a
    column schema, read from a pipe table and written out as SQL `select`
    statements. */
module Tables {

  import opened Wrappers
  import opened Strings
  import opened Dicts
  import opened Values
  import opened Utils
  import opened Mocks
  import Annotations

  /** One row: column name to loaded cell value. */
  type Row = Dict<string, Value>

  /** A table: its rows and its column schema (column name to SQL type). */
  datatype Table = Table(rows: seq<Row>, columns: Dict<string, string>)

  /** The record validator: there are columns, and every row has exactly
      the columns' names as its keys. */
  predicate ValidTable(t: Table) {
    && |t.columns| > 0
    && forall i :: 0 <= i < |t.rows| ==> KeySet(t.rows[i]) == KeySet(t.columns)
  }

  /** `YAMLTable(rows=rows, columns=columns)`: the record, when it passes
      the validator. */
  function NewTable(rows: seq<Row>, columns: Dict<string, string>): (r: Result<Table>)
    ensures r.Ok? <==> ValidTable(Table(rows, columns))
    ensures r.Ok? ==> r.value == Table(rows, columns)
    ensures r.Err? ==> r.error == Invalid
  {
    if |columns| == 0 then Err(Invalid)
    else if exists i :: 0 <= i < |rows| && KeySet(rows[i]) != KeySet(columns) then Err(Invalid)
    else Ok(Table(rows, columns))
  }

  /** `empty_mock_table`: a table without rows under the mock's columns. A
      mock without columns, or with none in them, fails validation. */
  function EmptyMockTable(m: Mock): (r: Result<Table>)
    ensures r.Ok? <==> m.columns.Some? && |m.columns.value| > 0
    ensures r.Ok? ==> r.value == Table([], m.columns.value)
    ensures r.Err? ==> r.error == Invalid
  {
    match m.columns
    case None => Err(Invalid)
    case Some(c) => NewTable([], c)
  }

  /** `parts[1:-1]`: all pieces but the first and the last. */
  function Interior(parts: seq<string>): (r: seq<string>)
    ensures |r| == if |parts| >= 2 then |parts| - 2 else 0
    ensures forall i :: 0 <= i < |r| ==> r[i] == parts[i + 1]
  {
    if |parts| >= 2 then parts[1..|parts| - 1] else []
  }

  /** `map(str.strip, xs)`. */
  function StripAll(xs: seq<string>): (r: seq<string>)
    ensures |r| == |xs|
    ensures forall i :: 0 <= i < |xs| ==> r[i] == Strip(xs[i])
  {
    seq(|xs|, i requires 0 <= i < |xs| => Strip(xs[i]))
  }

  /** The stripped cells of one pipe-table line: the text between its first
      and its last `|`, cut at every `|`. */
  function Cells(line: string): seq<string> {
    StripAll(Interior(Split(line, "|")))
  }

  /** The line a table with these cells is written as. */
  function PipeLine(cells: seq<string>): string {
    Join([""] + cells + [""], "|")
  }

  /** A cell as `Cells` returns it: no `|` and nothing to strip. */
  predicate PlainCell(c: string) {
    '|' !in c && Strip(c) == c
  }

  /** Reading the cells of a written line gives them back. */
  lemma CellsPipeLine(cells: seq<string>)
    requires forall i :: 0 <= i < |cells| ==> PlainCell(cells[i])
    ensures Cells(PipeLine(cells)) == cells
  {
    var parts := [""] + cells + [""];
    assert forall i :: 0 <= i < |parts| ==> '|' !in parts[i] by {
      forall i | 0 <= i < |parts| ensures '|' !in parts[i] {
        if 0 < i < |parts| - 1 {
          assert parts[i] == cells[i - 1];
        }
      }
    }
    SplitJoin(parts, '|');
    assert Interior(parts) == cells;
  }

  const AnnotationMark: string := "::"

  /** The `::` annotation of a header cell: the stripped text after its
      first `::`, or `""` when it has none. */
  function Annotation(col: string): (r: string)
    ensures !Contains(col, AnnotationMark) ==> r == ""
    ensures r != "" ==> exists i :: 0 <= i <= |col| - 2 && OccursAt(col, AnnotationMark, i) && r == Strip(col[i + 2..])
  {
    FindFromStart(col, AnnotationMark);
    match Find(col, AnnotationMark, 0)
    case None => ""
    case Some(i) => Strip(col[i + 2..])
  }

  /** The header cells that carry a non-empty annotation, in order. */
  function Annotated(cols: seq<string>): (r: seq<string>)
    ensures forall c :: c in r <==> c in cols && Annotation(c) != ""
    decreases |cols|
  {
    if |cols| == 0 then []
    else
      assert forall i :: 1 <= i < |cols| ==> cols[i] == cols[1..][i - 1];
      (if Annotation(cols[0]) != "" then [cols[0]] else []) + Annotated(cols[1..])
  }

  /** The header annotations: each header cell, keyed by its whole text,
      mapped to its annotation, empty annotations removed. Filtering before
      building the dict gives the same dict as building it and then
      filtering, since a cell's annotation depends on the cell alone. */
  function HeaderAnnotations(cols: seq<string>): (r: Dict<string, string>)
    ensures DistinctKeys(r)
  {
    FromKeys(Annotated(cols), Annotation)
  }

  /** A header cell's annotation, when it has one, is what the header
      annotations map it to; nothing else is in them. */
  lemma HeaderAnnotationsGet(cols: seq<string>)
    ensures forall k :: Get(HeaderAnnotations(cols), k) == if k in cols && Annotation(k) != "" then Some(Annotation(k)) else None
  {
    forall k ensures Get(HeaderAnnotations(cols), k) == if k in cols && Annotation(k) != "" then Some(Annotation(k)) else None {
      HeaderAnnotationGet(cols, k);
    }
  }

  /** `HeaderAnnotationsGet` for one key. */
  lemma HeaderAnnotationGet(cols: seq<string>, k: string)
    ensures Get(HeaderAnnotations(cols), k) == if k in cols && Annotation(k) != "" then Some(Annotation(k)) else None
  {
    assert k in Annotated(cols) <==> k in cols && Annotation(k) != "";
  }

  /** `all(c in "|- " for c in line.strip())`. */
  predicate SeparatorLine(line: string) {
    var s := Strip(line);
    forall i :: 0 <= i < |s| ==> s[i] == '|' || s[i] == '-' || s[i] == ' '
  }

  /** Loading each cell, in order; a load failure aborts. */
  function LoadCells(cells: seq<string>, load: Loader): (r: Result<seq<Value>>)
    ensures r.Err? ==> r.error == Abort
    ensures r.Ok? <==> forall i :: 0 <= i < |cells| ==> load(cells[i]).Some?
    ensures r.Ok? ==> |r.value| == |cells| && forall i :: 0 <= i < |cells| ==> load(cells[i]) == Some(r.value[i])
    decreases |cells|
  {
    if |cells| == 0 then Ok([])
    else
      assert forall i :: 1 <= i < |cells| ==> cells[i] == cells[1..][i - 1];
      match load(cells[0])
      case None => Err(Abort)
      case Some(v) =>
        match LoadCells(cells[1..], load)
        case Err(e) => Err(e)
        case Ok(rest) => Ok([v] + rest)
  }

  /** `zip(xs, ys)`: pairs up to the shorter of the two. */
  function Zip<A, B>(xs: seq<A>, ys: seq<B>): (r: seq<(A, B)>)
    ensures |r| == if |xs| <= |ys| then |xs| else |ys|
    ensures forall i :: 0 <= i < |r| ==> r[i] == (xs[i], ys[i])
  {
    var n := if |xs| <= |ys| then |xs| else |ys|;
    seq(n, i requires 0 <= i < n => (xs[i], ys[i]))
  }

  /** How many cells of a body line are loaded: as many as there are
      columns, or as the line has cells if it has fewer. */
  function RowWidth(line: string, columns: seq<string>): (n: nat)
    ensures n <= |columns| && n <= |Cells(line)|
    ensures n == |columns| || n == |Cells(line)|
  {
    if |columns| <= |Cells(line)| then |columns| else |Cells(line)|
  }

  /** Column `j`, among the first `n`, is the last header cell with its name. */
  predicate LastColumnAt(columns: seq<string>, n: int, j: int) {
    0 <= j < n <= |columns| && forall j' :: j < j' < n ==> columns[j'] != columns[j]
  }

  /** `{col: val for col, val in zip(columns, values)}` for values no more
      numerous than the columns: the keys are the first `|values|` columns,
      and a repeated column holds the value below its last occurrence. */
  function RowFrom(columns: seq<string>, values: seq<Value>): (r: Row)
    requires |values| <= |columns|
    ensures DistinctKeys(r)
    ensures forall k :: k in Keys(r) <==> k in columns[..|values|]
    ensures forall j :: LastColumnAt(columns, |values|, j) ==> Get(r, columns[j]) == Some(values[j])
  {
    var n := |values|;
    var pairs := Zip(columns, values);
    assert forall k :: k in Keys(pairs) <==> k in columns[..n] by {
      forall k ensures k in Keys(pairs) <==> k in columns[..n] {
        if k in columns[..n] {
          var i :| 0 <= i < n && columns[..n][i] == k;
          assert Keys(pairs)[i] == k;
        }
      }
    }
    assert forall j :: LastColumnAt(columns, n, j) ==> Get(FromPairs(pairs), columns[j]) == Some(values[j]) by {
      forall j | LastColumnAt(columns, n, j) ensures Get(FromPairs(pairs), columns[j]) == Some(values[j]) {
        assert LastKeyAt(pairs, j);
        UpdateLast([], pairs, j);
      }
    }
    FromPairs(pairs)
  }

  /** One body line as a row: its cells are loaded and keyed by the header
      cells. Only as many cells are loaded as there are columns, since `zip`
      stops at the shorter input and the loading is lazy. What the row holds
      is `ParseRowLoads`. */
  function ParseRow(line: string, columns: seq<string>, load: Loader): (r: Result<Row>)
    ensures r.Err? ==> r.error == Abort
    ensures r.Ok? ==> forall k :: k in Keys(r.value) <==> k in columns[..RowWidth(line, columns)]
  {
    match LoadCells(Cells(line)[..RowWidth(line, columns)], load)
    case Err(e) => Err(e)
    case Ok(values) => Ok(RowFrom(columns, values))
  }

  /** A body line parses exactly when the loader accepts each of its first
      `RowWidth` cells; the value under a column name is then the loaded
      cell below the last header cell of that name. */
  lemma ParseRowLoads(line: string, columns: seq<string>, load: Loader)
    ensures ParseRow(line, columns, load).Ok? <==> forall i :: 0 <= i < RowWidth(line, columns) ==> load(Cells(line)[i]).Some?
    ensures ParseRow(line, columns, load).Ok? ==> forall j :: LastColumnAt(columns, RowWidth(line, columns), j) ==>
      Get(ParseRow(line, columns, load).value, columns[j]) == load(Cells(line)[j])
  {
    var cells := Cells(line);
    var n := RowWidth(line, columns);
    assert forall i :: 0 <= i < n ==> cells[..n][i] == cells[i];
  }

  /** Every one of `lines` parses as a row. */
  predicate EveryRowParses(lines: seq<string>, columns: seq<string>, load: Loader) {
    forall i :: 0 <= i < |lines| ==> ParseRow(lines[i], columns, load).Ok?
  }

  /** What parsing each of `lines` gives, in order. */
  function RowResults(lines: seq<string>, columns: seq<string>, load: Loader): (r: seq<Result<Row>>)
    ensures |r| == |lines|
    ensures forall i :: 0 <= i < |lines| ==> r[i] == ParseRow(lines[i], columns, load)
  {
    seq(|lines|, i requires 0 <= i < |lines| => ParseRow(lines[i], columns, load))
  }

  /** The rows of the body lines: blank lines are skipped, every other line
      gives one row, in order. Every loading error aborts, so which bad line
      is reported first makes no difference to the outcome. */
  function ParseRows(lines: seq<string>, columns: seq<string>, load: Loader): (r: Result<seq<Row>>)
    ensures r.Err? ==> r.error == Abort
    ensures r.Ok? <==> EveryRowParses(Annotations.NonBlank(lines), columns, load)
    ensures var ne := Annotations.NonBlank(lines);
      r.Ok? ==> |r.value| == |ne| && forall i :: 0 <= i < |ne| ==> ParseRow(ne[i], columns, load) == Ok(r.value[i])
  {
    Sequence(RowResults(Annotations.NonBlank(lines), columns, load))
  }

  /** The schema read off the first row: each value's Python class as a SQL
      type. A value of a class outside the type table aborts. */
  function InferSchema(row: Row): (r: Result<Dict<string, string>>)
    ensures r.Err? ==> r.error == Abort
    ensures r.Err? <==> exists i :: 0 <= i < |row| && row[i].1.Map?
    ensures r.Ok? ==> |r.value| == |row|
    ensures r.Ok? ==> forall i :: 0 <= i < |row| ==> r.value[i].0 == row[i].0 && SqlTypeClass(r.value[i].1) == Some(TypeOf(row[i].1))
    decreases |row|
  {
    if |row| == 0 then Ok([])
    else
      assert forall i :: 1 <= i < |row| ==> row[i] == row[1..][i - 1];
      match NativeToSqlTypedef(TypeOf(row[0].1))
      case Err(e) => Err(e)
      case Ok(t) =>
        match InferSchema(row[1..])
        case Err(e) => Err(e)
        case Ok(rest) => Ok([(row[0].0, t)] + rest)
  }

  /** Every header cell typed `string`. */
  function StringSchema(cols: seq<string>): (r: Dict<string, string>)
    ensures DistinctKeys(r)
    ensures forall k :: k in Keys(r) <==> k in cols
    ensures forall k :: k in cols ==> Get(r, k) == Some("string")
  {
    FromKeys(cols, _ => "string")
  }

  /** The column types before annotations: the schema passed in; failing
      that, the types of the first row; failing that, `string` for every
      header cell. */
  function BaseSchema(schema: Option<Dict<string, string>>, rows: seq<Row>, cols: seq<string>): (r: Result<Dict<string, string>>)
    ensures r.Err? ==> r.error == Abort && schema.None? && |rows| > 0
    ensures schema.Some? ==> r == Ok(schema.value)
    ensures schema.None? && |rows| > 0 ==> r == InferSchema(rows[0])
    ensures schema.None? && |rows| == 0 ==> r == Ok(StringSchema(cols))
  {
    match schema
    case Some(s) => Ok(s)
    case None => if |rows| > 0 then InferSchema(rows[0]) else Ok(StringSchema(cols))
  }

  /** The lines of a table text: the text stripped, then cut at newlines. */
  function TableLines(text: string): seq<string> {
    SplitLines(Strip(text))
  }

  /** The header cells of a table text. */
  function Header(lines: seq<string>): seq<string>
    requires |lines| > 0
  {
    Cells(Strip(lines[0]))
  }

  /** `YAMLTable.from_string`. A value that is not a string aborts (it has
      no `strip`); a blank text fails validation; a one-line text aborts
      (there is no second line to index); a second line with anything but
      `|`, `-` and spaces fails validation; a cell the loader rejects, or a
      first-row value without a SQL type, aborts. The column types are
      the base schema updated with the header annotations, and the record
      validator has the last word. */
  function FromString(v: Value, schema: Option<Dict<string, string>>, load: Loader): (r: Result<Table>)
    ensures !v.Str? ==> r == Err(Abort)
    ensures v.Str? && !HasText(v.text) ==> r == Err(Invalid)
    ensures v.Str? && |TableLines(v.text)| >= 2 && !SeparatorLine(TableLines(v.text)[1]) ==> r == Err(Invalid)
    ensures v.Str? && |TableLines(v.text)| == 1 ==> r == Err(Abort)
    ensures r.Ok? ==> ValidTable(r.value)
    ensures r.Ok? ==> (v.Str? && |TableLines(v.text)| >= 2 &&
      ParseRows(TableLines(v.text)[2..], Header(TableLines(v.text)), load) == Ok(r.value.rows))
    ensures r.Ok? ==> |r.value.rows| == |Annotations.NonBlank(TableLines(v.text)[2..])|
    ensures r.Ok? ==> (BaseSchema(schema, r.value.rows, Header(TableLines(v.text))).Ok? &&
      forall k :: k !in Header(TableLines(v.text)) || Annotation(k) == "" ==>
        Get(r.value.columns, k) == Get(BaseSchema(schema, r.value.rows, Header(TableLines(v.text))).value, k))
    ensures r.Ok? ==> forall c :: c in Header(TableLines(v.text)) && Annotation(c) != "" ==>
      Get(r.value.columns, c) == Some(Annotation(c))
    ensures r.Ok? && schema.Some? ==> forall k :: k !in Header(TableLines(v.text)) || Annotation(k) == "" ==>
      Get(r.value.columns, k) == Get(schema.value, k)
  {
    if !v.Str? then Err(Abort)
    else
      var lines := TableLines(v.text);
      StripEnds(v.text);
      if |lines| == 0 then Err(Invalid)
      else
        var cols := Header(lines);
        var annotations := HeaderAnnotations(cols);
        HeaderAnnotationsGet(cols);
        if |lines| < 2 then Err(Abort)
        else if !SeparatorLine(lines[1]) then Err(Invalid)
        else
          match ParseRows(lines[2..], cols, load)
          case Err(e) => Err(e)
          case Ok(rows) =>
            match BaseSchema(schema, rows, cols)
            case Err(e) => Err(e)
            case Ok(base) => NewTable(rows, Update(base, annotations))
  }

  /** `from_string` on a text whose body rows and base schema are known:
      those rows under the base schema updated with the header
      annotations, when the record validator accepts them. */
  lemma FromStringOf(text: string, schema: Option<Dict<string, string>>, load: Loader, rows: seq<Row>, base: Dict<string, string>)
    requires |TableLines(text)| >= 2 && SeparatorLine(TableLines(text)[1])
    requires ParseRows(TableLines(text)[2..], Header(TableLines(text)), load) == Ok(rows)
    requires BaseSchema(schema, rows, Header(TableLines(text))) == Ok(base)
    ensures FromString(Str(text), schema, load) == NewTable(rows, Update(base, HeaderAnnotations(Header(TableLines(text)))))
  {
  }

  /** With no schema passed in, a column without an annotation is typed
      from the first row when the table has rows, and as `string` when it
      has none (every header cell is then a column). */
  lemma FromStringColumnTypes(v: Value, load: Loader, k: string)
    requires FromString(v, None, load).Ok?
    requires k !in Header(TableLines(v.text)) || Annotation(k) == ""
    ensures var t := FromString(v, None, load).value;
      |t.rows| > 0 ==> InferSchema(t.rows[0]).Ok? && Get(t.columns, k) == Get(InferSchema(t.rows[0]).value, k)
    ensures var t := FromString(v, None, load).value;
      |t.rows| == 0 ==> Get(t.columns, k) == if k in Header(TableLines(v.text)) then Some("string") else None
  {
    var cols := Header(TableLines(v.text));
    if k !in cols {
      assert k !in Keys(StringSchema(cols));
    }
  }

  /** `schema |= annotations`: the columns keep the base schema's order,
      and the annotated header cells it lacks follow, in header order,
      each once. */
  lemma FromStringColumnOrder(v: Value, schema: Option<Dict<string, string>>, load: Loader)
    requires FromString(v, schema, load).Ok?
    ensures var t := FromString(v, schema, load).value;
      var cols := Header(TableLines(v.text));
      Keys(t.columns) == AppendNew(Keys(BaseSchema(schema, t.rows, cols).value), Annotated(cols))
    ensures schema.Some? ==>
      Keys(FromString(v, schema, load).value.columns) == AppendNew(Keys(schema.value), Annotated(Header(TableLines(v.text))))
  {
    var t := FromString(v, schema, load).value;
    var cols := Header(TableLines(v.text));
    var base := BaseSchema(schema, t.rows, cols).value;
    assert t.columns == Update(base, HeaderAnnotations(cols));
    UpdateKeys(base, HeaderAnnotations(cols));
    FromKeysOrder(Annotated(cols), Annotation);
    AppendNewNested(Keys(base), [], Annotated(cols));
  }

  /** The keys of a row are its first `|values|` header cells, each once,
      in the order of their first occurrence. */
  lemma RowFromOrder(columns: seq<string>, values: seq<Value>)
    requires |values| <= |columns|
    ensures Keys(RowFrom(columns, values)) == AppendNew([], columns[..|values|])
  {
    var pairs := Zip(columns, values);
    assert Keys(pairs) == columns[..|values|];
    FromPairsOrder(pairs);
  }

  /** A parsed row lists its keys in header order. */
  lemma ParseRowOrder(line: string, columns: seq<string>, load: Loader)
    requires ParseRow(line, columns, load).Ok?
    ensures Keys(ParseRow(line, columns, load).value) == AppendNew([], columns[..RowWidth(line, columns)])
  {
    var values := LoadCells(Cells(line)[..RowWidth(line, columns)], load).value;
    RowFromOrder(columns, values);
  }

  /** Two header prefixes holding the same cells list them in the same
      order. */
  lemma PrefixOrder(cols: seq<string>, n: nat, m: nat)
    requires n <= m <= |cols|
    requires forall x :: x in cols[..m] ==> x in cols[..n]
    ensures AppendNew([], cols[..m]) == AppendNew([], cols[..n])
  {
    assert cols[..m] == cols[..n] + cols[n..m];
    AppendNewAppend([], cols[..n], cols[n..m]);
    AppendNewPresent(AppendNew([], cols[..n]), cols[n..m]);
  }

  /** Read without a schema, a table lists its columns in the order each
      of its rows lists its keys, so pairing a row's values with the
      column types by position pairs each value with its own column. */
  lemma FromStringRowOrder(v: Value, load: Loader, i: nat)
    requires FromString(v, None, load).Ok?
    requires i < |FromString(v, None, load).value.rows|
    ensures Keys(FromString(v, None, load).value.columns) == Keys(FromString(v, None, load).value.rows[i])
  {
    var t := FromString(v, None, load).value;
    var cols := Header(TableLines(v.text));
    var ne := Annotations.NonBlank(TableLines(v.text)[2..]);
    var row0, rowi := t.rows[0], t.rows[i];
    var n, m := RowWidth(ne[0], cols), RowWidth(ne[i], cols);
    ParseRowOrder(ne[0], cols, load);
    ParseRowOrder(ne[i], cols, load);
    assert Keys(row0) == AppendNew([], cols[..n]);
    assert Keys(rowi) == AppendNew([], cols[..m]);
    assert KeySet(row0) == KeySet(t.columns) == KeySet(rowi);
    var base := InferSchema(row0).value;
    assert Keys(base) == Keys(row0);
    FromStringColumnOrder(v, None, load);
    AppendNewPresent(Keys(row0), Annotated(cols));
    if n <= m {
      PrefixOrder(cols, n, m);
    } else {
      PrefixOrder(cols, m, n);
    }
  }

  /** `cast(<value> as <type>) as <alias>`. */
  function Cast(value: string, typ: string, alias: string): string {
    "cast(" + value + " as " + typ + ") as " + alias
  }

  /** The SQL text of every value of a row, in order; computed for the
      whole row before any pairing, so any unrenderable value aborts. */
  function RenderRow(row: Row): (r: Result<seq<string>>)
    ensures r.Err? ==> r.error == Abort
    ensures r.Ok? <==> forall i :: 0 <= i < |row| ==> Renderable(row[i].1)
    ensures r.Ok? ==> |r.value| == |row| && forall i :: 0 <= i < |row| ==> NativeToSql(row[i].1) == Ok(r.value[i])
    decreases |row|
  {
    if |row| == 0 then Ok([])
    else
      assert forall i :: 1 <= i < |row| ==> row[i] == row[1..][i - 1];
      match NativeToSql(row[0].1)
      case Err(e) => Err(e)
      case Ok(t) =>
        match RenderRow(row[1..])
        case Err(e) => Err(e)
        case Ok(rest) => Ok([t] + rest)
  }

  /** The casts of one row: the j-th value is cast to the j-th type of the
      schema, by position, up to the shorter of the two. */
  function Casts(keys: seq<string>, sqls: seq<string>, types: seq<string>): (r: seq<string>)
    requires |keys| == |sqls|
    ensures |r| == if |keys| <= |types| then |keys| else |types|
    ensures forall j :: 0 <= j < |r| ==> r[j] == Cast(sqls[j], types[j], keys[j])
  {
    var n := if |keys| <= |types| then |keys| else |types|;
    seq(n, j requires 0 <= j < n => Cast(sqls[j], types[j], keys[j]))
  }

  /** The `select` of one row. */
  function SelectRow(row: Row, types: seq<string>): (r: Result<string>)
    ensures r.Err? ==> r.error == Abort
    ensures r.Ok? <==> forall i :: 0 <= i < |row| ==> Renderable(row[i].1)
  {
    match RenderRow(row)
    case Err(e) => Err(e)
    case Ok(sqls) => Ok("select " + Join(Casts(Keys(row), sqls, types), ", "))
  }

  /** The `select`s of all rows, in order. */
  function SelectRows(rows: seq<Row>, types: seq<string>): (r: Result<seq<string>>)
    ensures r.Err? ==> r.error == Abort
    ensures r.Ok? <==> forall i :: 0 <= i < |rows| ==> SelectRow(rows[i], types).Ok?
    ensures r.Ok? ==> |r.value| == |rows| && forall i :: 0 <= i < |rows| ==> SelectRow(rows[i], types) == Ok(r.value[i])
    decreases |rows|
  {
    if |rows| == 0 then Ok([])
    else
      assert forall i :: 1 <= i < |rows| ==> rows[i] == rows[1..][i - 1];
      match SelectRow(rows[0], types)
      case Err(e) => Err(e)
      case Ok(s) =>
        match SelectRows(rows[1..], types)
        case Err(e) => Err(e)
        case Ok(rest) => Ok([s] + rest)
  }

  const UnionAll: string := "\nunion all\n"
  const WhereFalse: string := "\nwhere false"

  /** The typed `null` casts of a table without rows, one per column in
      schema order. */
  function NullCasts(columns: Dict<string, string>): (r: seq<string>)
    ensures |r| == |columns|
    ensures forall j :: 0 <= j < |columns| ==> r[j] == Cast("null", columns[j].1, columns[j].0)
  {
    seq(|columns|, j requires 0 <= j < |columns| => Cast("null", columns[j].1, columns[j].0))
  }

  /** `selects` holds the select of every row of `t`, in order, each
      casting to the schema's types. */
  predicate RowSelects(t: Table, selects: seq<string>)
  {
    && |selects| == |t.rows|
    && forall i :: 0 <= i < |t.rows| ==> SelectRow(t.rows[i], Dicts.Values(t.columns)) == Ok(selects[i])
  }

  /** `as_unioned_selects`: one `select` per row joined by `union all`; a
      table without rows gives a single `select` of typed nulls that
      matches nothing. It aborts exactly when some cell cannot be written
      as SQL. */
  function AsUnionedSelects(t: Table): (r: Result<string>)
    ensures r.Err? ==> r.error == Abort
    ensures r.Ok? <==> forall i, j :: 0 <= i < |t.rows| && 0 <= j < |t.rows[i]| ==> Renderable(t.rows[i][j].1)
    ensures |t.rows| == 0 ==> r.Ok? && r.value == "select " + Join(NullCasts(t.columns), ", ") + WhereFalse
    ensures |t.rows| > 0 && r.Ok? ==> exists selects :: RowSelects(t, selects) && r.value == Join(selects, UnionAll)
  {
    if |t.rows| > 0 then
      match SelectRows(t.rows, Dicts.Values(t.columns))
      case Err(e) => Err(e)
      case Ok(selects) =>
        assert RowSelects(t, selects);
        Ok(Join(selects, UnionAll))
    else
      assert NativeToSql(Null) == Ok("null");
      Ok("select " + Join(NullCasts(t.columns), ", ") + WhereFalse)
  }
}

module TableExamples {

  import opened Wrappers
  import opened Strings
  import opened Values
  import opened Utils
  import opened Dicts
  import opened Tables
  import Annotations

  /** Three integer cells under columns `one`, `two`, `three`. */
  function IntRow(a: int, b: int, c: int): Row {
    [("one", Int(a)), ("two", Int(b)), ("three", Int(c))]
  }

  /** The SQL text of a one-digit integer. */
  lemma DigitSql(n: nat)
    requires n < 10
    ensures NativeToSql(Int(n)) == Ok([DigitChar(n)])
  {
  }

  /** Joining three pieces. */
  lemma JoinThree(a: string, b: string, c: string, sep: string)
    ensures Join([a, b, c], sep) == a + sep + b + sep + c
  {
    assert [a, b, c][1..] == [b, c];
    assert [b, c][1..] == [c];
    assert Join([b, c], sep) == b + sep + c;
    assert Join([a, b, c], sep) == a + sep + (b + sep + c);
    assert a + sep + (b + sep + c) == a + sep + b + sep + c;
  }

  /** A row of three one-digit integers renders to its digits. */
  lemma DigitRowRender(a: nat, b: nat, c: nat)
    requires a < 10 && b < 10 && c < 10
    ensures RenderRow(IntRow(a, b, c)) == Ok([[DigitChar(a)], [DigitChar(b)], [DigitChar(c)]])
  {
    var row := IntRow(a, b, c);
    var sqls := [[DigitChar(a)], [DigitChar(b)], [DigitChar(c)]];
    DigitSql(a);
    DigitSql(b);
    DigitSql(c);
    assert Renderable(row[0].1) && Renderable(row[1].1) && Renderable(row[2].1);
    assert forall i :: 0 <= i < |row| ==> Renderable(row[i].1);
    assert RenderRow(row).Ok?;
    var r := RenderRow(row).value;
    assert |r| == 3;
    assert r[0] == sqls[0] && r[1] == sqls[1] && r[2] == sqls[2];
    assert r == sqls;
  }

  /** The casts of three rendered cells under `one`, `two`, `three`, all
      typed `int`, joined by commas. */
  lemma ThreeCasts(x: string, y: string, z: string)
    ensures Join(Casts(["one", "two", "three"], [x, y, z], ["int", "int", "int"]), ", ")
      == Cast(x, "int", "one") + ", " + Cast(y, "int", "two") + ", " + Cast(z, "int", "three")
  {
    var casts := Casts(["one", "two", "three"], [x, y, z], ["int", "int", "int"]);
    var c0, c1, c2 := Cast(x, "int", "one"), Cast(y, "int", "two"), Cast(z, "int", "three");
    assert casts == [c0, c1, c2];
    JoinThree(c0, c1, c2, ", ");
  }

  /** The `select` of a row of three one-digit integers typed `int`. */
  lemma DigitRowSelect(a: nat, b: nat, c: nat)
    requires a < 10 && b < 10 && c < 10
    ensures SelectRow(IntRow(a, b, c), ["int", "int", "int"]) == Ok("select "
      + Cast([DigitChar(a)], "int", "one") + ", " + Cast([DigitChar(b)], "int", "two") + ", " + Cast([DigitChar(c)], "int", "three"))
  {
    var row := IntRow(a, b, c);
    var sqls := [[DigitChar(a)], [DigitChar(b)], [DigitChar(c)]];
    var types := ["int", "int", "int"];
    DigitRowRender(a, b, c);
    assert Dicts.Keys(row) == ["one", "two", "three"];
    assert SelectRow(row, types) == Ok("select " + Join(Casts(["one", "two", "three"], sqls, types), ", "));
    ThreeCasts(sqls[0], sqls[1], sqls[2]);
    var c0, c1, c2 := Cast(sqls[0], "int", "one"), Cast(sqls[1], "int", "two"), Cast(sqls[2], "int", "three");
    assert "select " + (c0 + ", " + c1 + ", " + c2) == "select " + c0 + ", " + c1 + ", " + c2;
  }

  /** The casts of the first example row, spelled out. */
  lemma FirstRowCasts()
    ensures Cast([DigitChar(1)], "int", "one") == "cast(1 as int) as one"
    ensures Cast([DigitChar(2)], "int", "two") == "cast(2 as int) as two"
    ensures Cast([DigitChar(3)], "int", "three") == "cast(3 as int) as three"
  {
    assert [DigitChar(1)] == "1" && [DigitChar(2)] == "2" && [DigitChar(3)] == "3";
  }

  /** The casts of the second example row, spelled out. */
  lemma SecondRowCasts()
    ensures Cast([DigitChar(4)], "int", "one") == "cast(4 as int) as one"
    ensures Cast([DigitChar(5)], "int", "two") == "cast(5 as int) as two"
    ensures Cast([DigitChar(6)], "int", "three") == "cast(6 as int) as three"
  {
    assert [DigitChar(4)] == "4" && [DigitChar(5)] == "5" && [DigitChar(6)] == "6";
  }

  /** The expected `select` of the first example row. */
  const FirstSelect: string := "select " + "cast(1 as int) as one" + ", " + "cast(2 as int) as two" + ", " + "cast(3 as int) as three"

  /** The expected `select` of the second example row. */
  const SecondSelect: string := "select " + "cast(4 as int) as one" + ", " + "cast(5 as int) as two" + ", " + "cast(6 as int) as three"

  /** Two rows whose `select`s are known select to exactly those. */
  lemma TwoSelects(rows: seq<Row>, types: seq<string>, s1: string, s2: string)
    requires |rows| == 2 && SelectRow(rows[0], types) == Ok(s1) && SelectRow(rows[1], types) == Ok(s2)
    ensures SelectRows(rows, types) == Ok([s1, s2])
  {
    var r := SelectRows(rows, types);
    assert r.Ok? && |r.value| == 2;
    assert r.value[0] == s1 && r.value[1] == s2;
    assert r.value == [s1, s2];
  }

  /** Two rows give two `select`s joined by `union all`, each value cast to
      its column's type. */
  lemma TwoRowSelects()
    ensures AsUnionedSelects(Table([IntRow(1, 2, 3), IntRow(4, 5, 6)], [("one", "int"), ("two", "int"), ("three", "int")]))
      == Ok(FirstSelect + "\nunion all\n" + SecondSelect)
  {
    var types := ["int", "int", "int"];
    assert Dicts.Values([("one", "int"), ("two", "int"), ("three", "int")]) == types;
    var s1, s2 := FirstSelect, SecondSelect;
    assert SelectRow(IntRow(1, 2, 3), types) == Ok(s1) by {
      DigitRowSelect(1, 2, 3);
      FirstRowCasts();
    }
    assert SelectRow(IntRow(4, 5, 6), types) == Ok(s2) by {
      DigitRowSelect(4, 5, 6);
      SecondRowCasts();
    }
    var rows := [IntRow(1, 2, 3), IntRow(4, 5, 6)];
    TwoSelects(rows, types, s1, s2);
    assert Join([s1, s2], UnionAll) == s1 + UnionAll + s2 by {
      assert [s1, s2][1..] == [s2];
    }
    var t := Table(rows, [("one", "int"), ("two", "int"), ("three", "int")]);
    assert AsUnionedSelects(t) == Ok(Join([s1, s2], UnionAll));
  }

  /** A word without spaces or pipes is a cell as `Cells` returns it. */
  lemma PlainWord(w: string)
    requires |w| > 0 && forall i :: 0 <= i < |w| ==> !IsSpace(w[i]) && w[i] != '|'
    ensures PlainCell(w)
  {
    IndentUnique(w, 0);
    assert LStrip(w) == w;
    TextEndUnique(w, |w|);
  }

  /** A text without `:` carries no annotation. */
  lemma NoAnnotation(c: string)
    requires ':' !in c
    ensures Annotation(c) == ""
  {
    assert AnnotationMark[0] == ':';
    NotContains(c, AnnotationMark);
  }

  /** A cell that can stand in a one-line header of a table: plain, on
      one line, without an annotation. */
  predicate HeaderWord(c: string) {
    PlainCell(c) && '\n' !in c && ':' !in c
  }

  /** The lines of a table with header cells `b`, `a` and one body line
      with cells `x`, `y`. */
  function SwappedLinesOf(a: string, b: string, x: string, y: string): seq<string> {
    [PipeLine([b, a]), "|-|-|", PipeLine([x, y])]
  }

  /** Those lines as one text. */
  function SwappedText(a: string, b: string, x: string, y: string): string {
    Join(SwappedLinesOf(a, b, x, y), "\n")
  }

  /** The line of two cells. */
  lemma PipeLineTwo(a: string, b: string)
    ensures PipeLine([a, b]) == "|" + a + "|" + b + "|"
  {
    assert [""] + [a, b] + [""] == ["", a, b, ""];
    JoinFour("", a, b, "", "|");
  }

  /** A text that starts and ends with `|` is its own strip. */
  lemma BetweenPipes(s: string)
    requires |s| > 0 && s[0] == '|' && s[|s| - 1] == '|'
    ensures Strip(s) == s
  {
    IndentUnique(s, 0);
    assert LStrip(s) == s;
    TextEndUnique(s, |s|);
  }

  /** A line of two cells is its own strip, on one line. */
  lemma PipeLineStripped(a: string, b: string)
    requires '\n' !in a && '\n' !in b
    ensures Strip(PipeLine([a, b])) == PipeLine([a, b])
    ensures PipeLine([a, b]) != [] && PipeLine([a, b])[0] == '|' && PipeLine([a, b])[|PipeLine([a, b])| - 1] == '|'
    ensures '\n' !in PipeLine([a, b])
  {
    PipeLineTwo(a, b);
    BetweenPipes(PipeLine([a, b]));
  }

  /** The lines of the text. */
  lemma SwappedLines(a: string, b: string, x: string, y: string)
    requires '\n' !in a && '\n' !in b && '\n' !in x && '\n' !in y
    ensures TableLines(SwappedText(a, b, x, y)) == SwappedLinesOf(a, b, x, y)
  {
    SwappedLinesPlain(a, b, x, y);
    SwappedTextStripped(a, b, x, y);
    SplitLinesJoin(SwappedLinesOf(a, b, x, y));
  }

  /** Each line of the text is non-empty and holds no newline. */
  lemma SwappedLinesPlain(a: string, b: string, x: string, y: string)
    requires '\n' !in a && '\n' !in b && '\n' !in x && '\n' !in y
    ensures forall i :: 0 <= i < |SwappedLinesOf(a, b, x, y)| ==>
      SwappedLinesOf(a, b, x, y)[i] != [] && '\n' !in SwappedLinesOf(a, b, x, y)[i]
  {
    PipeLineStripped(b, a);
    PipeLineStripped(x, y);
  }

  /** The text is its own strip. */
  lemma SwappedTextStripped(a: string, b: string, x: string, y: string)
    requires '\n' !in a && '\n' !in b && '\n' !in x && '\n' !in y
    ensures Strip(SwappedText(a, b, x, y)) == SwappedText(a, b, x, y)
  {
    var lines := SwappedLinesOf(a, b, x, y);
    PipeLineStripped(b, a);
    PipeLineStripped(x, y);
    JoinThree(lines[0], lines[1], lines[2], "\n");
    PipeTextStripped(lines[0], lines[1], lines[2]);
  }

  /** Three lines, the first starting and the last ending with `|`, joined
      by newlines: a text that is its own strip. */
  lemma PipeTextStripped(h: string, m: string, l: string)
    requires |h| > 0 && h[0] == '|' && |l| > 0 && l[|l| - 1] == '|'
    ensures Strip(h + "\n" + m + "\n" + l) == h + "\n" + m + "\n" + l
  {
    var text := h + "\n" + m + "\n" + l;
    assert text == h + ("\n" + m + "\n" + l);
    assert text[0] == '|';
    assert text[|text| - 1] == l[|l| - 1];
    BetweenPipes(text);
  }

  /** The header: two cells, neither annotated. */
  lemma SwappedHeader(a: string, b: string, x: string, y: string)
    requires HeaderWord(a) && HeaderWord(b)
    ensures Header(SwappedLinesOf(a, b, x, y)) == [b, a]
    ensures Annotated([b, a]) == [] && HeaderAnnotations([b, a]) == []
  {
    var h := PipeLine([b, a]);
    assert Cells(Strip(h)) == [b, a] by {
      PipeLineStripped(b, a);
      CellsPipeLine([b, a]);
    }
    UnannotatedPair(a, b);
  }

  /** Two header cells without `:` carry no annotations. */
  lemma UnannotatedPair(a: string, b: string)
    requires ':' !in a && ':' !in b
    ensures Annotated([b, a]) == [] && HeaderAnnotations([b, a]) == []
  {
    NoAnnotation(a);
    NoAnnotation(b);
    assert [a][1..] == [];
    assert Annotated([a]) == [];
    assert [b, a][1..] == [a];
    assert Annotated([b, a]) == [];
  }

  /** The separator line passes. */
  lemma RuleLine()
    ensures SeparatorLine("|-|-|")
  {
    var l := "|-|-|";
    IndentUnique(l, 0);
    assert LStrip(l) == l;
    TextEndUnique(l, |l|);
  }

  /** The body line gives one row, keyed by the header in header order. */
  lemma SwappedRows(a: string, b: string, x: string, y: string, vx: Value, vy: Value, load: Loader)
    requires a != b && PlainCell(x) && PlainCell(y)
    requires load(x) == Some(vx) && load(y) == Some(vy)
    ensures ParseRows([PipeLine([x, y])], [b, a], load) == Ok([[(b, vx), (a, vy)]])
  {
    var l := PipeLine([x, y]);
    PipeLineTwo(x, y);
    assert HasText(l) by {
      assert !IsSpace(l[0]);
    }
    SwappedRow(a, b, x, y, vx, vy, load);
    OneRow(l, [b, a], load, [(b, vx), (a, vy)]);
  }

  /** A single non-blank line that parses gives a single row. */
  lemma OneRow(l: string, columns: seq<string>, load: Loader, row: Row)
    requires HasText(l) && ParseRow(l, columns, load) == Ok(row)
    ensures ParseRows([l], columns, load) == Ok([row])
  {
    Annotations.NonBlankOne(l);
    assert EveryRowParses([l], columns, load);
    var r := ParseRows([l], columns, load);
    assert r.Ok? && |r.value| == 1 && r.value[0] == row;
    var rows := r.value;
    assert rows == [row];
    assert r == Ok(rows);
  }

  /** The body line as a row. */
  lemma SwappedRow(a: string, b: string, x: string, y: string, vx: Value, vy: Value, load: Loader)
    requires a != b && PlainCell(x) && PlainCell(y)
    requires load(x) == Some(vx) && load(y) == Some(vy)
    ensures ParseRow(PipeLine([x, y]), [b, a], load) == Ok([(b, vx), (a, vy)])
  {
    SwappedRowCells(b, a, x, y);
    LoadTwo(x, y, vx, vy, load);
    SwappedRowFrom(a, b, vx, vy);
  }

  /** The body line's cells, all of them paired with a column. */
  lemma SwappedRowCells(b: string, a: string, x: string, y: string)
    requires PlainCell(x) && PlainCell(y)
    ensures Cells(PipeLine([x, y]))[..RowWidth(PipeLine([x, y]), [b, a])] == [x, y]
  {
    var l := PipeLine([x, y]);
    assert Cells(l) == [x, y] by {
      CellsPair(x, y);
    }
    assert RowWidth(l, [b, a]) == 2;
  }

  /** The cells of a line of two plain cells. */
  lemma CellsPair(x: string, y: string)
    requires PlainCell(x) && PlainCell(y)
    ensures Cells(PipeLine([x, y])) == [x, y]
  {
    var cells := [x, y];
    assert forall i :: 0 <= i < |cells| ==> PlainCell(cells[i]) by {
      assert cells[0] == x && cells[1] == y;
    }
    CellsPipeLine(cells);
  }

  /** Two values keyed by two distinct columns. */
  lemma SwappedRowFrom(a: string, b: string, vx: Value, vy: Value)
    requires a != b
    ensures RowFrom([b, a], [vx, vy]) == [(b, vx), (a, vy)]
  {
    var pairs := Zip([b, a], [vx, vy]);
    assert pairs == [(b, vx), (a, vy)];
    FromPairsDistinct(pairs);
  }

  /** Loading two cells the loader accepts. */
  lemma LoadTwo(x: string, y: string, vx: Value, vy: Value, load: Loader)
    requires load(x) == Some(vx) && load(y) == Some(vy)
    ensures LoadCells([x, y], load) == Ok([vx, vy])
  {
    var r := LoadCells([x, y], load);
    assert r.Ok? && |r.value| == 2 && r.value[0] == vx && r.value[1] == vy;
    var vs := r.value;
    assert vs == [vx, vy];
  }

  /** A table whose header lists `b` before `a`, read against mock
      columns that declare `a` before `b`: the row keeps the header's
      order and the columns keep the mock's. */
  lemma SwappedRead(a: string, b: string, x: string, y: string, ta: string, tb: string, vx: Value, vy: Value, load: Loader)
    requires a != b && HeaderWord(a) && HeaderWord(b) && HeaderWord(x) && HeaderWord(y)
    requires load(x) == Some(vx) && load(y) == Some(vy)
    ensures FromString(Str(SwappedText(a, b, x, y)), Some([(a, ta), (b, tb)]), load)
         == Ok(Table([[(b, vx), (a, vy)]], [(a, ta), (b, tb)]))
  {
    var text := SwappedText(a, b, x, y);
    var columns: Dict<string, string> := [(a, ta), (b, tb)];
    SwappedLines(a, b, x, y);
    SwappedParts(a, b, x, y, vx, vy, load);
    FromStringOf(text, Some(columns), load, [[(b, vx), (a, vy)]], columns);
    assert Update(columns, []) == columns;
    SwappedValid(a, b, ta, tb, vx, vy);
  }

  /** What `from_string` finds in the lines of the text: a separator line,
      one row in header order, and no annotations. */
  lemma SwappedParts(a: string, b: string, x: string, y: string, vx: Value, vy: Value, load: Loader)
    requires a != b && HeaderWord(a) && HeaderWord(b) && HeaderWord(x) && HeaderWord(y)
    requires load(x) == Some(vx) && load(y) == Some(vy)
    ensures var lines := SwappedLinesOf(a, b, x, y);
      && |lines| >= 2 && SeparatorLine(lines[1])
      && ParseRows(lines[2..], Header(lines), load) == Ok([[(b, vx), (a, vy)]])
      && HeaderAnnotations(Header(lines)) == []
  {
    SwappedHeader(a, b, x, y);
    RuleLine();
    SwappedBody(a, b, x, y, vx, vy, load);
  }

  /** The lines below the separator give the one row. */
  lemma SwappedBody(a: string, b: string, x: string, y: string, vx: Value, vy: Value, load: Loader)
    requires a != b && PlainCell(x) && PlainCell(y)
    requires load(x) == Some(vx) && load(y) == Some(vy)
    ensures ParseRows(SwappedLinesOf(a, b, x, y)[2..], [b, a], load) == Ok([[(b, vx), (a, vy)]])
  {
    assert SwappedLinesOf(a, b, x, y)[2..] == [PipeLine([x, y])];
    SwappedRows(a, b, x, y, vx, vy, load);
  }

  /** The row and the columns hold the same two names, in either order. */
  lemma SwappedValid(a: string, b: string, ta: string, tb: string, vx: Value, vy: Value)
    ensures ValidTable(Table([[(b, vx), (a, vy)]], [(a, ta), (b, tb)]))
  {
    var row: Row := [(b, vx), (a, vy)];
    var columns: Dict<string, string> := [(a, ta), (b, tb)];
    assert Keys(row) == [b, a] && Keys(columns) == [a, b];
    SameKeySet(row, columns);
  }

  /** The `select` of that table pairs the values with the column types
      by position: the value under `b` is cast to the type of `a`, and the
      value under `a` to the type of `b`. */
  lemma SwappedSelect(a: string, b: string, ta: string, tb: string, vx: Value, vy: Value)
    requires Renderable(vx) && Renderable(vy)
    ensures AsUnionedSelects(Table([[(b, vx), (a, vy)]], [(a, ta), (b, tb)]))
         == Ok("select " + Cast(NativeToSql(vx).value, ta, b) + ", " + Cast(NativeToSql(vy).value, tb, a))
  {
    var row: Row := [(b, vx), (a, vy)];
    var types := [ta, tb];
    var sel := "select " + Cast(NativeToSql(vx).value, ta, b) + ", " + Cast(NativeToSql(vy).value, tb, a);
    assert Dicts.Values([(a, ta), (b, tb)]) == types;
    assert SelectRow(row, types) == Ok(sel) by {
      SwappedRowSelect(a, b, ta, tb, vx, vy);
    }
    var r := SelectRows([row], types);
    assert r.Ok? && |r.value| == 1 && r.value[0] == sel;
    var selects := r.value;
    assert selects == [sel];
    assert Join(selects, UnionAll) == sel;
  }

  /** The `select` of the one row. */
  lemma SwappedRowSelect(a: string, b: string, ta: string, tb: string, vx: Value, vy: Value)
    requires Renderable(vx) && Renderable(vy)
    ensures SelectRow([(b, vx), (a, vy)], [ta, tb])
         == Ok("select " + Cast(NativeToSql(vx).value, ta, b) + ", " + Cast(NativeToSql(vy).value, tb, a))
  {
    var row: Row := [(b, vx), (a, vy)];
    var sx, sy := NativeToSql(vx).value, NativeToSql(vy).value;
    var types := [ta, tb];
    var sqls := [sx, sy];
    RenderTwo(a, b, vx, vy);
    assert Keys(row) == [b, a];
    var c1, c2 := Cast(sx, ta, b), Cast(sy, tb, a);
    assert Casts([b, a], sqls, types) == [c1, c2];
    SelectTwo(c1, c2);
  }

  /** The SQL texts of a row of two renderable values. */
  lemma RenderTwo(a: string, b: string, vx: Value, vy: Value)
    requires Renderable(vx) && Renderable(vy)
    ensures RenderRow([(b, vx), (a, vy)]) == Ok([NativeToSql(vx).value, NativeToSql(vy).value])
  {
    var row: Row := [(b, vx), (a, vy)];
    var rendered := RenderRow(row);
    assert forall i :: 0 <= i < |row| ==> Renderable(row[i].1);
    assert rendered.Ok? && rendered.value[0] == NativeToSql(vx).value && rendered.value[1] == NativeToSql(vy).value;
    var sqls := rendered.value;
    assert sqls == [NativeToSql(vx).value, NativeToSql(vy).value];
  }

  /** The `select` of two casts. */
  lemma SelectTwo(c1: string, c2: string)
    ensures "select " + Join([c1, c2], ", ") == "select " + c1 + ", " + c2
  {
    assert [c1, c2][1..] == [c2];
  }

  /** Mock columns declared as `id: int`, then `name: string`. */
  const IdName: Dict<string, string> := [("id", "int"), ("name", "string")]

  /** A table given for that mock with `name` before `id` in its header,
      and the body line `|foo|1|`, as the loader reads them. */
  const NameIdText: string := "|name|id|\n|-|-|\n|foo|1|"

  /** Given as text with `name` before `id`, a table for a mock declaring
      `id: int` and then `name: string` casts the string under `name` to
      `int` and the integer under `id` to `string`, since the values of a
      row are paired with the column types by position. */
  lemma NameIdCasts(load: Loader)
    requires load("foo") == Some(Str("foo")) && load("1") == Some(Int(1))
    ensures FromString(Str(NameIdText), Some(IdName), load).Ok?
    ensures AsUnionedSelects(FromString(Str(NameIdText), Some(IdName), load).value)
         == Ok("select " + "cast('foo' as int) as name" + ", " + "cast(1 as string) as id")
  {
    var t := Table([[("name", Str("foo")), ("id", Int(1))]], IdName);
    assert FromString(Str(NameIdText), Some(IdName), load) == Ok(t) by {
      NameIdRead(load);
    }
    assert AsUnionedSelects(t) == Ok("select " + "cast('foo' as int) as name" + ", " + "cast(1 as string) as id") by {
      SwappedSelect("id", "name", "int", "string", Str("foo"), Int(1));
      NameIdSelect();
    }
  }

  /** The example text read against the mock's columns. */
  lemma NameIdRead(load: Loader)
    requires load("foo") == Some(Str("foo")) && load("1") == Some(Int(1))
    ensures FromString(Str(NameIdText), Some(IdName), load) == Ok(Table([[("name", Str("foo")), ("id", Int(1))]], IdName))
  {
    NameIdWords();
    NameIdSpelled();
    SwappedRead("id", "name", "foo", "1", "int", "string", Str("foo"), Int(1), load);
  }

  /** The example text is the swapped text of its words. */
  lemma NameIdSpelled()
    ensures SwappedText("id", "name", "foo", "1") == NameIdText
  {
    PipeLineTwo("name", "id");
    PipeLineTwo("foo", "1");
    JoinThree(PipeLine(["name", "id"]), "|-|-|", PipeLine(["foo", "1"]), "\n");
  }

  /** The example's casts, spelled out. */
  lemma NameIdSelect()
    ensures Cast(NativeToSql(Str("foo")).value, "int", "name") == "cast('foo' as int) as name"
    ensures Cast(NativeToSql(Int(1)).value, "string", "id") == "cast(1 as string) as id"
  {
    FooCast();
    OneCast();
  }

  /** The cast of the string cell. */
  lemma FooCast()
    ensures Cast(NativeToSql(Str("foo")).value, "int", "name") == "cast('foo' as int) as name"
  {
    assert NativeToSql(Str("foo")).value == "'foo'";
  }

  /** The cast of the integer cell. */
  lemma OneCast()
    ensures Cast(NativeToSql(Int(1)).value, "string", "id") == "cast(1 as string) as id"
  {
    assert NativeToSql(Int(1)).value == "1" by {
      assert DigitChar(1) == '1';
    }
  }

  /** The four words of the example are header words. */
  lemma NameIdWords()
    ensures HeaderWord("id") && HeaderWord("name") && HeaderWord("foo") && HeaderWord("1")
  {
    PlainWord("id");
    PlainWord("name");
    PlainWord("foo");
    PlainWord("1");
  }

  /** Joining four pieces. */
  lemma JoinFour(a: string, b: string, c: string, d: string, sep: string)
    ensures Join([a, b, c, d], sep) == a + sep + b + sep + c + sep + d
  {
    assert [a, b, c, d][1..] == [b, c, d];
    JoinThree(b, c, d, sep);
  }
}
