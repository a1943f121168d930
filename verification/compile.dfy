/** `SQLUnitTestCase.compile` (`sql_unit/model.py`) up to the template
    engine: the CTEs standing in for the given tables, the `with` clause
    that introduces them, the query text they are put in front of, and the
    context the text is rendered with. Rendering is a parameter. */
module Compiler {

  import opened Wrappers
  import opened Strings
  import opened Dicts
  import opened Values
  import opened MockTypes
  import opened Mocks
  import opened Tables
  import opened TestCases

  /** The CTE that stands in for the table given under `key`. */
  function Fragment(key: string, selects: string): string {
    TableAlias(key) + " as (" + selects + ")"
  }

  /** The table-valued inputs, in input order. */
  function TableInputs(given: Givens): (r: seq<(string, Table)>)
    ensures |r| <= |given|
    ensures forall p :: p in r <==> exists i :: 0 <= i < |given| && given[i] == (p.0, TableGiven(p.1))
    decreases |given|
  {
    if |given| == 0 then []
    else
      assert forall i :: 1 <= i < |given| ==> given[i] == given[1..][i - 1];
      var head := if given[0].1.TableGiven? then [(given[0].0, given[0].1.table)] else [];
      head + TableInputs(given[1..])
  }

  /** Selecting the table inputs commutes with concatenation: each input
      is kept or dropped on its own, in place. */
  lemma {:induction false} TableInputsAppend(a: Givens, b: Givens)
    ensures TableInputs(a + b) == TableInputs(a) + TableInputs(b)
    decreases |a|
  {
    if |a| > 0 {
      assert (a + b)[0] == a[0];
      assert (a + b)[1..] == a[1..] + b;
      TableInputsAppend(a[1..], b);
      var head := if a[0].1.TableGiven? then [(a[0].0, a[0].1.table)] else [];
      assert TableInputs(a + b) == head + (TableInputs(a[1..]) + TableInputs(b));
      assert TableInputs(a) == head + TableInputs(a[1..]);
      assert head + (TableInputs(a[1..]) + TableInputs(b)) == (head + TableInputs(a[1..])) + TableInputs(b);
    } else {
      assert a + b == b;
    }
  }

  /** The CTEs of the given tables, in order. Writing a table's selects
      aborts when one of its cells cannot be written as SQL. */
  function Fragments(ts: seq<(string, Table)>): (r: Result<seq<string>>)
    ensures r.Err? ==> r.error == Abort
    ensures r.Ok? <==> forall i :: 0 <= i < |ts| ==> AsUnionedSelects(ts[i].1).Ok?
    ensures r.Ok? ==> |r.value| == |ts| && forall i :: 0 <= i < |ts| ==>
      r.value[i] == Fragment(ts[i].0, AsUnionedSelects(ts[i].1).value)
  {
    var results := Apply(FragmentOf, ts);
    assert forall i :: 0 <= i < |ts| ==> (results[i].Ok? <==> AsUnionedSelects(ts[i].1).Ok?);
    Sequence(results)
  }

  /** The CTE of one table input, or the failure of writing its selects. */
  function FragmentOf(t: (string, Table)): (r: Result<string>)
    ensures r.Err? ==> r.error == Abort
    ensures r.Ok? <==> AsUnionedSelects(t.1).Ok?
    ensures r.Ok? ==> r.value == Fragment(t.0, AsUnionedSelects(t.1).value)
  {
    match AsUnionedSelects(t.1)
    case Err(e) => Err(e)
    case Ok(selects) => Ok(Fragment(t.0, selects))
  }

  /** The loop over the inputs that collects one CTE per table. */
  function CteFragments(given: Givens): Result<seq<string>> {
    Fragments(TableInputs(given))
  }

  /** The `with` clause: empty when there are no CTEs; otherwise `with `
      and the CTEs separated by commas, followed by a comma and a newline
      when the query's own leading `with` was removed. */
  function WithClause(frags: seq<string>, matched: bool): (r: string)
    ensures |frags| == 0 ==> r == ""
    ensures |frags| > 0 ==> "with " + frags[0] <= r
    ensures |frags| > 1 ==> "with " + frags[0] + ", " <= r
    ensures |frags| > 0 ==> EndsWith(r, frags[|frags| - 1] + (if matched then ",\n" else ""))
  {
    if |frags| == 0 then ""
    else
      var body := Join(frags, ", ");
      var tail := if matched then ",\n" else "";
      var r := "with " + body + tail;
      JoinStartsWithFirst(frags, ", ");
      assert "with " + body <= r;
      JoinEndsWithLast(frags, ", ");
      EndsWithAppend(body, frags[|frags| - 1], tail);
      assert r == "with " + (body + tail);
      EndsWithPrefixed("with ", body + tail, frags[|frags| - 1] + tail);
      r
  }

  /** Past the first CTE the clause is the clause of the remaining CTEs
      without its `with `: every CTE appears, in order, once, with `, `
      between neighbours. */
  lemma WithClauseCons(frags: seq<string>, matched: bool)
    requires |frags| > 1
    ensures WithClause(frags, matched)
         == "with " + frags[0] + ", " + WithClause(frags[1..], matched)[5..]
  {
    var tail := if matched then ",\n" else "";
    var rest := Join(frags[1..], ", ");
    var w1 := WithClause(frags[1..], matched);
    assert w1 == "with " + (rest + tail) by {
      WithClauseJoin(frags[1..], matched);
      Assoc("with ", rest, tail);
    }
    assert w1[5..] == rest + tail by {
      DropWith(rest + tail);
    }
    assert WithClause(frags, matched) == "with " + (frags[0] + ", " + rest) + tail by {
      WithClauseJoin(frags, matched);
    }
    Regroup(frags[0], rest, tail);
  }

  /** A non-empty clause is `with `, the joined CTEs and the tail. */
  lemma WithClauseJoin(frags: seq<string>, matched: bool)
    requires |frags| > 0
    ensures WithClause(frags, matched) == "with " + Join(frags, ", ") + (if matched then ",\n" else "")
  {
  }

  /** Dropping the five letters of `with `. */
  lemma DropWith(u: string)
    ensures ("with " + u)[5..] == u
  {
  }

  /** Regrouping the clause around the first separator. */
  lemma Regroup(f: string, rest: string, tail: string)
    ensures "with " + (f + ", " + rest) + tail == "with " + f + ", " + (rest + tail)
  {
  }

  /** Concatenation is associative. */
  lemma Assoc(a: string, b: string, c: string)
    ensures a + b + c == a + (b + c)
  {
  }

  /** A single CTE gives `with `, the CTE and the tail. */
  lemma WithClauseOne(frag: string, matched: bool)
    ensures WithClause([frag], matched) == "with " + frag + (if matched then ",\n" else "")
  {
  }

  /** A joined text starts with its first part, followed by the separator
      when there are more. */
  lemma JoinStartsWithFirst(parts: seq<string>, sep: string)
    requires |parts| > 0
    ensures parts[0] <= Join(parts, sep)
    ensures |parts| > 1 ==> parts[0] + sep <= Join(parts, sep)
  {
    if |parts| > 1 {
      assert Join(parts, sep) == parts[0] + sep + Join(parts[1..], sep);
    }
  }

  /** Appending the same text to both sides keeps a suffix a suffix. */
  lemma EndsWithAppend(s: string, t: string, u: string)
    requires EndsWith(s, t)
    ensures EndsWith(s + u, t + u)
  {
    assert (s + u)[|s + u| - |t + u|..] == s[|s| - |t|..] + u;
  }

  /** Putting text in front keeps a suffix a suffix. */
  lemma EndsWithPrefixed(s: string, t: string, u: string)
    requires EndsWith(t, u)
    ensures EndsWith(s + t, u)
  {
    assert (s + t)[|s + t| - |u|..] == t[|t| - |u|..];
  }

  /** A clause over one CTE is `with ` and that CTE. */
  lemma OneTableClause(f: string, matched: bool)
    ensures WithClause([f], matched) == "with " + f + (if matched then ",\n" else "")
  {
  }

  /** A clause over two CTEs separates them with `, `. */
  lemma TwoTablesClause(f1: string, f2: string, matched: bool)
    ensures WithClause([f1, f2], matched) == "with " + f1 + ", " + f2 + (if matched then ",\n" else "")
  {
    var frags := [f1, f2];
    assert frags[1..] == [f2];
    assert Join(frags[1..], ", ") == f2;
    var body := Join(frags, ", ");
    assert body == f1 + ", " + f2;
    var tail := if matched then ",\n" else "";
    assert WithClause(frags, matched) == "with " + body + tail;
  }

  /** Every CTE ends with its closing parenthesis, so the clause ends with a
      comma exactly when the query's leading `with` was removed, and with
      the last CTE's parenthesis otherwise. */
  lemma WithClauseEnding(ts: seq<(string, Table)>, matched: bool)
    requires Fragments(ts).Ok? && |ts| > 0
    ensures var r := WithClause(Fragments(ts).value, matched);
      && (EndsWith(r, ",\n") <==> matched)
      && (!matched ==> EndsWith(r, ")"))
  {
    var frags := Fragments(ts).value;
    var last := frags[|frags| - 1];
    assert last == Fragment(ts[|ts| - 1].0, AsUnionedSelects(ts[|ts| - 1].1).value);
    ClauseEnding(frags, matched);
  }

  /** The ending of a clause whose last CTE ends with `)`. */
  lemma ClauseEnding(frags: seq<string>, matched: bool)
    requires |frags| > 0 && EndsWith(frags[|frags| - 1], ")")
    ensures var r := WithClause(frags, matched);
      && (EndsWith(r, ",\n") <==> matched)
      && (!matched ==> EndsWith(r, ")"))
  {
    var body := Join(frags, ", ");
    var last := frags[|frags| - 1];
    JoinEndsWithLast(frags, ", ");
    assert last[|last| - 1] == ')';
    assert body[|body| - 1] == ')';
    var r := WithClause(frags, matched);
    if matched {
      assert r == ("with " + body) + ",\n";
    } else {
      assert r == "with " + body;
      assert r[|r| - 1] == ')';
      assert r[|r| - 1..] == ")";
    }
  }

  /** The query text left once the leading `with` the pattern matched (its
      length, when it matched) is removed. */
  function Remainder(code: string, withMatch: Option<nat>): (r: string)
    requires withMatch.Some? ==> withMatch.value <= |code|
    ensures EndsWith(code, r)
    ensures withMatch.None? ==> r == code
    ensures withMatch.Some? ==> |r| == |code| - withMatch.value
  {
    match withMatch
    case None => code
    case Some(n) => code[n..]
  }

  /** The text handed to the template engine: the clause, a newline, then
      what is left of the query. */
  function Composed(given: Givens, code: string, withMatch: Option<nat>): (r: Result<string>)
    requires withMatch.Some? ==> withMatch.value <= |code|
    ensures r.Ok? <==> CteFragments(given).Ok?
    ensures r.Ok? ==> WithClause(CteFragments(given).value, withMatch.Some?) <= r.value
    ensures r.Ok? ==> EndsWith(r.value, "\n" + Remainder(code, withMatch))
    ensures r.Ok? ==> |r.value| == |WithClause(CteFragments(given).value, withMatch.Some?)| + 1 + |Remainder(code, withMatch)|
  {
    var frags :- CteFragments(given);
    var clause := WithClause(frags, withMatch.Some?);
    var text := clause + ("\n" + Remainder(code, withMatch));
    EndsWithConcat(clause, "\n" + Remainder(code, withMatch));
    Ok(text)
  }

  /** Without table inputs there is no clause: the text is a newline and
      the rest of the query, whose matched leading `with` is dropped all
      the same. */
  lemma ComposedWithoutTables(given: Givens, code: string, withMatch: Option<nat>)
    requires withMatch.Some? ==> withMatch.value <= |code|
    requires forall i :: 0 <= i < |given| ==> given[i].1.RawGiven?
    ensures Composed(given, code, withMatch) == Ok("\n" + Remainder(code, withMatch))
  {
    NoTableInputs(given);
    assert Fragments([]) == Ok([]);
  }

  /** Inputs none of which is a table have no table inputs. */
  lemma {:induction false} NoTableInputs(given: Givens)
    requires forall i :: 0 <= i < |given| ==> given[i].1.RawGiven?
    ensures TableInputs(given) == []
    decreases |given|
  {
    if |given| > 0 {
      assert forall i :: 0 <= i < |given| - 1 ==> given[1..][i] == given[i + 1];
      NoTableInputs(given[1..]);
    }
  }

  /** `k` names a table mock of `ms`. */
  predicate TableMockName(ms: Schema, k: string) {
    exists i :: 0 <= i < |ms| && ms[i].1.typ == TableType && ms[i].1.name == k
  }

  /** The render context: the inputs, then every table mock's name bound to
      the alias of the CTE that stands in for it, replacing an input under
      that name in place. */
  function Context(given: Givens, ms: Schema): (r: Givens)
    ensures forall i :: 0 <= i < |ms| && ms[i].1.typ == TableType ==>
      Get(r, ms[i].1.name) == Some(RawGiven(Str(TableAlias(ms[i].1.name))))
    ensures forall k :: !TableMockName(ms, k) ==> Get(r, k) == Get(given, k)
    ensures forall k :: k in Keys(r) <==> k in Keys(given) || TableMockName(ms, k)
    ensures Keys(given) <= Keys(r)
    decreases |ms|
  {
    if |ms| == 0 then given
    else
      var m := ms[0].1;
      var next := if m.typ == TableType then Put(given, m.name, RawGiven(Str(TableAlias(m.name)))) else given;
      var r := Context(next, ms[1..]);
      ContextStep(ms, given, next, r);
      r
  }

  /** A table mock of `ms` is its first mock or one of the rest. */
  lemma TableMockNameCons(ms: Schema, k: string)
    requires |ms| > 0
    ensures TableMockName(ms, k) <==> (ms[0].1.typ == TableType && ms[0].1.name == k) || TableMockName(ms[1..], k)
  {
    if TableMockName(ms, k) {
      var j :| 0 <= j < |ms| && ms[j].1.typ == TableType && ms[j].1.name == k;
      if j > 0 {
        assert ms[1..][j - 1] == ms[j];
      }
    }
    if TableMockName(ms[1..], k) {
      var j :| 0 <= j < |ms| - 1 && ms[1..][j].1.typ == TableType && ms[1..][j].1.name == k;
      assert ms[j + 1] == ms[1..][j];
    }
  }

  /** The inductive step of `Context`. */
  lemma ContextStep(ms: Schema, given: Givens, next: Givens, r: Givens)
    requires |ms| > 0
    requires next == if ms[0].1.typ == TableType then Put(given, ms[0].1.name, RawGiven(Str(TableAlias(ms[0].1.name)))) else given
    requires forall i :: 0 <= i < |ms| - 1 && ms[1..][i].1.typ == TableType ==>
      Get(r, ms[1..][i].1.name) == Some(RawGiven(Str(TableAlias(ms[1..][i].1.name))))
    requires forall k :: !TableMockName(ms[1..], k) ==> Get(r, k) == Get(next, k)
    requires forall k :: k in Keys(r) <==> k in Keys(next) || TableMockName(ms[1..], k)
    requires Keys(next) <= Keys(r)
    ensures forall i :: 0 <= i < |ms| && ms[i].1.typ == TableType ==>
      Get(r, ms[i].1.name) == Some(RawGiven(Str(TableAlias(ms[i].1.name))))
    ensures forall k :: !TableMockName(ms, k) ==> Get(r, k) == Get(given, k)
    ensures forall k :: k in Keys(r) <==> k in Keys(given) || TableMockName(ms, k)
    ensures Keys(given) <= Keys(r)
  {
    var m := ms[0].1;
    forall i | 0 <= i < |ms| && ms[i].1.typ == TableType
      ensures Get(r, ms[i].1.name) == Some(RawGiven(Str(TableAlias(ms[i].1.name))))
    {
      if i > 0 {
        assert ms[1..][i - 1] == ms[i];
      } else if !TableMockName(ms[1..], m.name) {
        assert Get(next, m.name) == Some(RawGiven(Str(TableAlias(m.name))));
      } else {
        var j :| 0 <= j < |ms| - 1 && ms[1..][j].1.typ == TableType && ms[1..][j].1.name == m.name;
      }
    }
    forall k ensures TableMockName(ms, k) <==> (m.typ == TableType && m.name == k) || TableMockName(ms[1..], k) {
      TableMockNameCons(ms, k);
    }
    assert Keys(given) <= Keys(next);
  }

  /** The rendered text stripped of surrounding whitespace: it starts and
      ends with text, and stripping it again changes nothing. */
  function Finished(out: string): (r: string)
    ensures Strip(r) == r
    ensures r == [] <==> !HasText(out)
    ensures r != [] ==> !IsSpace(r[0]) && !IsSpace(r[|r| - 1])
  {
    StripIdempotent(out);
    StripEnds(out);
    Strip(out)
  }

  /** `compile` against the outcome `schema` of reading the source's mock
      schema, which fails only by aborting. */
  function CompileWith(tc: TestCase, withMatch: Option<nat>, schema: Result<Schema>, render: (string, Givens) -> string): (r: Result<string>)
    requires withMatch.Some? ==> withMatch.value <= |tc.code|
    requires schema.Err? ==> schema.error == Abort
    ensures r.Err? ==> r.error == Abort
    ensures r.Ok? <==> CteFragments(tc.given).Ok? && schema.Ok?
    ensures r.Ok? ==> Strip(r.value) == r.value
    ensures r.Ok? ==> r.value == Strip(render(Composed(tc.given, tc.code, withMatch).value, Context(tc.given, schema.value)))
  {
    var text :- Composed(tc.given, tc.code, withMatch);
    var s :- schema;
    Ok(Finished(render(text, Context(tc.given, s))))
  }

  /** `compile`, with the template engine as the parameter `render` and the
      leading-`with` pattern's match as the length it matched. The result
      is the rendered text stripped of surrounding whitespace. It aborts
      when a given table cannot be written as SQL or the source's mock
      schema cannot be read. */
  function Compile(tc: TestCase, withMatch: Option<nat>, load: Loader, render: (string, Givens) -> string): (r: Result<string>)
    requires withMatch.Some? ==> withMatch.value <= |tc.code|
    ensures r.Err? ==> r.error == Abort
    ensures r.Ok? <==> CteFragments(tc.given).Ok? && FromTemplate(tc.code, load).Ok?
    ensures r.Ok? ==> Strip(r.value) == r.value
    ensures r.Ok? ==> r.value == Strip(render(Composed(tc.given, tc.code, withMatch).value,
      Context(tc.given, FromTemplate(tc.code, load).value)))
  {
    CompileWith(tc, withMatch, FromTemplate(tc.code, load), render)
  }
}

/** The composition of a test without inputs of its own: the one table mock
    `mysrc` of its source, backfilled with an empty table. */
module CompileExamples {

  import opened Wrappers
  import opened Strings
  import opened Dicts
  import opened Values
  import opened Identifiers
  import opened MockTypes
  import opened Mocks
  import opened Tables
  import opened TestCases
  import opened Compiler

  /** The columns of mock `mysrc`. */
  const MysrcColumns: seq<(string, string)> := [("id", "int"), ("name", "string")]

  /** The schema of one table mock `mysrc`. */
  const MysrcSchema: Schema := [("mysrc", Mock("mysrc", TableType, None, Some(MysrcColumns)))]

  /** A test declaring only `expected`, under `sql-unit.test "test_case_1"`,
      is built with that name and the expected table, and its one input is
      `mysrc`'s empty table. */
  lemma TestCaseOne(code: string, e: Value, t: Table, load: Loader)
    requires FromString(e, None, load) == Ok(t)
    ensures WellKeyed(MysrcSchema)
    ensures TestCaseFromItem(code, Ok(MysrcSchema), FormatKey("test", "test_case_1"), Map([(Str(ExpectedKey), e)]), load)
      == Ok(TestCase(code, "test_case_1", t, [("mysrc", TableGiven(Table([], MysrcColumns)))]))
  {
    MysrcWellKeyed();
    ExampleNames();
    ParseFormatKey("test", "test_case_1");
    ExpectedOnly(e);
    assert ParseGivens(MysrcSchema, [], load) == Ok([]);
  }

  /** The `mysrc` schema is well keyed, and backfilling no inputs gives
      `mysrc` its empty table. */
  lemma MysrcWellKeyed()
    ensures WellKeyed(MysrcSchema)
    ensures Backfill(MysrcSchema, []) == Ok([("mysrc", TableGiven(Table([], MysrcColumns)))])
  {
    ExampleNames();
    assert WellKeyed(MysrcSchema);
    assert EmptyMockTable(MysrcSchema[0].1) == Ok(Table([], MysrcColumns));
    assert MysrcSchema[1..] == [];
    assert Put([], "mysrc", TableGiven(Table([], MysrcColumns))) == [("mysrc", TableGiven(Table([], MysrcColumns)))];
  }

  /** A mapping holding only `expected` has no test inputs. */
  lemma ExpectedOnly(e: Value)
    ensures GivenEntries([(Str(ExpectedKey), e)], []) == Ok([])
    ensures Lookup([(Str(ExpectedKey), e)], Str(ExpectedKey)) == Some(e)
  {
    var entries := [(Str(ExpectedKey), e)];
    assert ParseGiven(ExpectedKey).None? by {
      assert DropFinalNewline(ExpectedKey) == ExpectedKey;
      assert ExpectedKey[..|GivenPrefix|][0] == 'e' && GivenPrefix[0] == 'g';
    }
    assert entries[1..] == [];
  }

  /** The names of the example are identifiers, and `test` is a kind. */
  lemma ExampleNames()
    ensures IsIdentifier("mysrc") && IsIdentifier("test_case_1") && IsKind("test")
  {
    var a, b := "mysrc", "test_case_1";
    assert "test" == ['t', 'e', 's', 't'];
    forall i | 0 <= i < |a| ensures IsIdChar(a[i]) { }
    forall i | 0 <= i < |b| ensures IsIdChar(b[i]) { }
  }

  /** The typed null of column `id`. */
  const IdNull: string := "cast(null as int) as id"

  /** The typed null of column `name`. */
  const NameNull: string := "cast(null as " + "string) as name"

  /** The selects of `mysrc`'s empty table: typed nulls that match
      nothing. */
  const EmptyMysrcSelect: string := "select " + IdNull + ", " + NameNull + "\nwhere false"

  /** An empty table selects a typed null per column and `where false`. */
  lemma EmptyMysrcSelects()
    ensures AsUnionedSelects(Table([], MysrcColumns)) == Ok(EmptyMysrcSelect)
  {
    MysrcNullCasts();
    assert AsUnionedSelects(Table([], MysrcColumns)) == Ok("select " + (IdNull + ", " + NameNull) + WhereFalse);
    assert WhereFalse == "\nwhere false";
    assert "select " + (IdNull + ", " + NameNull) + WhereFalse == "select " + IdNull + ", " + NameNull + "\nwhere false";
  }

  /** The typed nulls of `mysrc`, joined in column order. */
  lemma MysrcNullCasts()
    ensures Join(NullCasts(MysrcColumns), ", ") == IdNull + ", " + NameNull
  {
    var casts := NullCasts(MysrcColumns);
    var c0, c1 := Cast("null", "int", "id"), Cast("null", "string", "name");
    assert casts == [c0, c1];
    assert c0 == IdNull;
    assert c1 == NameNull;
    assert casts[1..] == [c1];
  }

  /** The backfilled `mysrc` input gives one CTE named `mysrc_table`, and
      the clause that introduces it. */
  lemma BackfilledClause()
    ensures CteFragments([("mysrc", TableGiven(Table([], MysrcColumns)))]) == Ok(["mysrc_table as (" + EmptyMysrcSelect + ")"])
    ensures WithClause(["mysrc_table as (" + EmptyMysrcSelect + ")"], false) == "with " + "mysrc_table as (" + EmptyMysrcSelect + ")"
  {
    OneTableClause("mysrc_table as (" + EmptyMysrcSelect + ")", false);
    BackfilledFragments();
  }

  /** The CTEs of the backfilled `mysrc` input. */
  lemma BackfilledFragments()
    ensures CteFragments([("mysrc", TableGiven(Table([], MysrcColumns)))]) == Ok(["mysrc_table as (" + EmptyMysrcSelect + ")"])
  {
    var given := [("mysrc", TableGiven(Table([], MysrcColumns)))];
    var ts := [("mysrc", Table([], MysrcColumns))];
    assert given[1..] == [];
    assert TableInputs(given) == ts;
    EmptyMysrcSelects();
    assert "mysrc" + "_table" + " as (" == "mysrc_table as (";
    assert Fragment("mysrc", EmptyMysrcSelect) == "mysrc_table as (" + EmptyMysrcSelect + ")";
    var r := Fragments(ts);
    assert r.Ok? && |r.value| == 1;
    assert r.value[0] == "mysrc_table as (" + EmptyMysrcSelect + ")";
    assert r.value == ["mysrc_table as (" + EmptyMysrcSelect + ")"];
  }
}
