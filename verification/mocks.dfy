/** Mock declarations (`SQLUnitMock` and `SQLUnitMockSchema` in
    `sql_unit/model.py`): one validated record per `sql-unit.mock "<name>"`
    entry of the annotation document, collected into a schema keyed by
    name. */
module Mocks {

  import opened Wrappers
  import opened Strings
  import opened Dicts
  import opened Values
  import opened MockTypes
  import opened Identifiers
  import Annotations

  /** A mock record: its name, its type, an optional default and an optional
      column schema (column name to SQL type). */
  datatype Mock = Mock(name: string, typ: MockType, default: Option<Value>, columns: Option<Dict<string, string>>)

  /** The record validator: a table mock has columns. */
  predicate ValidMock(m: Mock) {
    m.typ == TableType ==> m.columns.Some?
  }

  /** Every key of the mapping is a string, as keyword expansion needs. */
  predicate StrKeys(entries: seq<(Value, Value)>) {
    forall i :: 0 <= i < |entries| ==> entries[i].0.Str?
  }

  /** Every key and every value is a string, as a `dict[str, str]` field
      accepts. */
  predicate StrPairs(entries: seq<(Value, Value)>) {
    forall i :: 0 <= i < |entries| ==> entries[i].0.Str? && entries[i].1.Str?
  }

  /** The texts of a mapping of strings to strings. */
  function Texts(entries: seq<(Value, Value)>): (r: seq<(string, string)>)
    requires StrPairs(entries)
    ensures |r| == |entries|
    ensures forall i :: 0 <= i < |entries| ==> entries[i] == (Str(r[i].0), Str(r[i].1))
    decreases |entries|
  {
    if |entries| == 0 then []
    else
      assert forall i :: 1 <= i < |entries| ==> entries[1..][i - 1] == entries[i];
      [(entries[0].0.text, entries[0].1.text)] + Texts(entries[1..])
  }

  /** The loaded mapping that denotes the column schema `c`. */
  function Entries(c: Dict<string, string>): (r: seq<(Value, Value)>)
    ensures |r| == |c|
    ensures forall i :: 0 <= i < |c| ==> r[i] == (Str(c[i].0), Str(c[i].1))
    decreases |c|
  {
    if |c| == 0 then [] else [(Str(c[0].0), Str(c[0].1))] + Entries(c[1..])
  }

  /** Reading the texts back from `Entries` gives the schema again. */
  lemma TextsEntries(c: Dict<string, string>)
    ensures StrPairs(Entries(c)) && Texts(Entries(c)) == c
  {
    var t := Texts(Entries(c));
    assert forall i :: 0 <= i < |c| ==> t[i] == c[i];
  }

  /** The `type` field: a string naming one of the seven members. */
  function TypeField(v: Option<Value>): (r: Option<MockType>)
    ensures r.Some? ==> v == Some(Str(Name(r.value)))
  {
    match v
    case Some(Str(s)) => ParseMockType(s)
    case _ => None
  }

  /** The `columns` field: absent or null gives `None`, a mapping of strings
      to strings gives the dict it denotes, anything else fails
      validation. */
  function ColumnsField(v: Option<Value>): (r: Result<Option<Dict<string, string>>>)
    ensures r.Err? ==> r.error == Invalid
    ensures r.Ok? && r.value.Some? ==> DistinctKeys(r.value.value)
  {
    match v
    case None => Ok(None)
    case Some(Null) => Ok(None)
    case Some(Map(es)) => if StrPairs(es) then Ok(Some(FromPairs(Texts(es)))) else Err(Invalid)
    case Some(_) => Err(Invalid)
  }

  /** The `default` field: absent or null gives `None`. */
  function DefaultField(v: Option<Value>): (r: Option<Value>)
    ensures r != Some(Null)
  {
    match v
    case None => None
    case Some(Null) => None
    case Some(x) => Some(x)
  }

  /** `SQLUnitMock(name=name, **value)` with its validator. The keyword
      expansion aborts unless `value` is a mapping with string keys and no
      `name` key. Validation then fails, which the schema loop skips, unless
      `type` names a member and `columns` is absent, null or a mapping of
      strings to strings; and a table mock must have columns. Keys other
      than `type`, `default` and `columns` are ignored. */
  function NewMock(name: string, value: Value): (r: Result<Mock>)
    ensures (r.Err? && r.error == Abort)
      <==> !value.Map? || !StrKeys(value.entries) || Lookup(value.entries, Str("name")).Some?
    ensures r.Ok? ==> r.value.name == name && ValidMock(r.value)
    ensures r.Ok? ==> Lookup(value.entries, Str("type")) == Some(Str(Name(r.value.typ)))
    ensures r.Ok? && r.value.columns.Some? ==> DistinctKeys(r.value.columns.value)
    ensures r.Ok? ==> r.value.default != Some(Null)
  {
    if !value.Map? || !StrKeys(value.entries) || Lookup(value.entries, Str("name")).Some? then Err(Abort)
    else Validate(name, value.entries)
  }

  /** Field validation of a mapping that passed keyword expansion. Its only
      failure is a validation error. */
  function Validate(name: string, es: seq<(Value, Value)>): (r: Result<Mock>)
    ensures r.Err? ==> r.error == Invalid
    ensures r.Ok? ==> r.value.name == name && ValidMock(r.value)
    ensures r.Ok? ==> Lookup(es, Str("type")) == Some(Str(Name(r.value.typ)))
    ensures r.Ok? && r.value.columns.Some? ==> DistinctKeys(r.value.columns.value)
    ensures r.Ok? ==> r.value.default != Some(Null)
  {
    var typ := TypeField(Lookup(es, Str("type")));
    var columns := ColumnsField(Lookup(es, Str("columns")));
    if typ.None? || columns.Err? then Err(Invalid)
    else if typ.value == TableType && columns.value.None? then Err(Invalid)
    else Ok(Mock(name, typ.value, DefaultField(Lookup(es, Str("default"))), columns.value))
  }

  /** The annotation mapping that declares `m`: its type, then its default
      and its columns when it has them. */
  function MockDocument(m: Mock): Value {
    var t := (Str("type"), Str(Name(m.typ)));
    match (m.default, m.columns)
    case (None, None) => Map([t])
    case (Some(d), None) => Map([t, (Str("default"), d)])
    case (None, Some(c)) => Map([t, (Str("columns"), Map(Entries(c)))])
    case (Some(d), Some(c)) => Map([t, (Str("default"), d), (Str("columns"), Map(Entries(c)))])
  }

  /** Declaring a valid mock and constructing it gives the mock back. */
  lemma MockRoundTrip(m: Mock)
    requires ValidMock(m) && m.default != Some(Null)
    requires m.columns.Some? ==> DistinctKeys(m.columns.value)
    ensures NewMock(m.name, MockDocument(m)) == Ok(m)
  {
    var es := MockDocument(m).entries;
    assert StrKeys(es);
    assert Lookup(es, Str("name")).None?;
    MockTypeRead(m);
    assert DefaultField(Lookup(es, Str("default"))) == m.default;
    MockColumnsRead(m);
  }

  /** The declared `type` reads back as the mock's type. */
  lemma MockTypeRead(m: Mock)
    ensures TypeField(Lookup(MockDocument(m).entries, Str("type"))) == Some(m.typ)
  {
    var es := MockDocument(m).entries;
    assert LastUnder(es, Str("type"), 0);
    LookupAt(es, Str("type"), 0);
    NameRoundTrip(m.typ);
  }

  /** The declared `columns` read back as the mock's columns. */
  lemma MockColumnsRead(m: Mock)
    requires m.columns.Some? ==> DistinctKeys(m.columns.value)
    ensures ColumnsField(Lookup(MockDocument(m).entries, Str("columns"))) == Ok(m.columns)
  {
    var es := MockDocument(m).entries;
    assert "default"[0] != "columns"[0];
    var n := |es|;
    if m.columns.Some? {
      var c := m.columns.value;
      assert es[n - 1] == (Str("columns"), Map(Entries(c)));
      assert LastUnder(es, Str("columns"), n - 1);
      LookupAt(es, Str("columns"), n - 1);
      ColumnsOf(c);
    } else {
      assert forall j :: 0 <= j < n ==> es[j].0 != Str("columns");
    }
  }

  /** Reading back the mapping that denotes a column schema. */
  lemma ColumnsOf(c: Dict<string, string>)
    requires DistinctKeys(c)
    ensures ColumnsField(Some(Map(Entries(c)))) == Ok(Some(c))
  {
    var es := Entries(c);
    assert StrPairs(es) && FromPairs(Texts(es)) == c by {
      TextsEntries(c);
      FromPairsDistinct(c);
    }
  }

  /** A table declaration without columns is rejected by the validator, and
      the rejection is one the schema loop skips. */
  lemma TableNeedsColumns(name: string, es: seq<(Value, Value)>)
    requires StrKeys(es) && Lookup(es, Str("name")).None?
    requires Lookup(es, Str("type")) == Some(Str("table"))
    requires Lookup(es, Str("columns")).None? || Lookup(es, Str("columns")) == Some(Null)
    ensures NewMock(name, Map(es)) == Err(Invalid)
  {
  }

  /** `SQLUnitMock.from_yaml_item`: a key that does not match the
      declaration pattern fails validation; a matching key of another kind
      than `mock` aborts (an assertion); otherwise the mock is built under the
      key's identifier. */
  function MockFromItem(key: string, value: Value): (r: Result<Mock>)
    ensures ParseKey(key).None? ==> r == Err(Invalid)
    ensures ParseKey(key).Some? && ParseKey(key).value.0 != "mock" ==> r == Err(Abort)
    ensures r.Ok? ==> IsIdentifier(r.value.name)
    ensures r.Ok? ==> key == FormatKey("mock", r.value.name) || key == FormatKey("mock", r.value.name) + "\n"
  {
    match ParseKey(key)
    case None => Err(Invalid)
    case Some((kind, id)) => if kind != "mock" then Err(Abort) else NewMock(id, value)
  }

  /** The substring that selects the entries the schema loop looks at. */
  const MockMarker: string := "sql-unit.mock"

  /** One turn of the schema loop: a non-string key aborts (the substring
      test raises); entries without the marker and entries that fail
      validation are skipped; aborts propagate. */
  function EntryMock(key: Value, value: Value): (r: Result<Option<Mock>>)
    ensures r.Err? ==> r.error == Abort
    ensures !key.Str? ==> r.Err?
    ensures r.Ok? && r.value.Some? ==> key.Str? && MockFromItem(key.text, value) == Ok(r.value.value)
  {
    if !key.Str? then Err(Abort)
    else if !Contains(key.text, MockMarker) then Ok(None)
    else
      match MockFromItem(key.text, value)
      case Ok(m) => Ok(Some(m))
      case Err(e) => if e == Invalid then Ok(None) else Err(Abort)
  }

  /** The outcome of one turn is a mock named `n`. */
  predicate Names(o: Result<Option<Mock>>, n: string) {
    o.Ok? && o.value.Some? && o.value.value.name == n
  }

  /** The entry declares a mock named `n`. */
  predicate Declares(entry: (Value, Value), n: string) {
    Names(EntryMock(entry.0, entry.1), n)
  }

  type Schema = Dict<string, Mock>

  /** What every schema satisfies: each mock is stored once, under its own
      name, which is an identifier, and passed validation. */
  predicate WellKeyed(s: Schema) {
    && DistinctKeys(s)
    && forall i :: 0 <= i < |s| ==> s[i].0 == s[i].1.name && IsIdentifier(s[i].0) && ValidMock(s[i].1)
  }

  /** Every mock among the outcomes has an identifier for a name and passed
      validation, as `EntryMock` guarantees. */
  predicate SoundOutcomes(results: seq<Result<Option<Mock>>>) {
    forall i :: 0 <= i < |results| && results[i].Ok? && results[i].value.Some? ==>
      IsIdentifier(results[i].value.value.name) && ValidMock(results[i].value.value)
  }

  /** What each turn of the schema loop gives, in order. */
  function MockResults(entries: seq<(Value, Value)>): (r: seq<Result<Option<Mock>>>)
    ensures |r| == |entries|
    ensures forall i :: 0 <= i < |entries| ==> r[i] == EntryMock(entries[i].0, entries[i].1)
    ensures SoundOutcomes(r)
  {
    seq(|entries|, i requires 0 <= i < |entries| => EntryMock(entries[i].0, entries[i].1))
  }

  /** The schema loop over the outcomes of its turns, from accumulated
      mocks `acc`: each mock found is stored under its name, replacing an
      earlier one of that name in place; an abort ends the loop. */
  function Gather(results: seq<Result<Option<Mock>>>, acc: Schema): (r: Result<Schema>)
    requires WellKeyed(acc) && SoundOutcomes(results)
    ensures r.Err? ==> r.error == Abort
    ensures r.Err? <==> exists i :: 0 <= i < |results| && results[i].Err?
    ensures r.Ok? ==> WellKeyed(r.value)
    ensures r.Ok? ==> forall n :: n in Keys(r.value) <==>
      n in Keys(acc) || exists i :: 0 <= i < |results| && Names(results[i], n)
    decreases |results|
  {
    if |results| == 0 then Ok(acc)
    else if results[0].Err? then Err(Abort)
    else
      var acc' := Turn(acc, results[0].value);
      PutWellKeyed(acc, results[0].value);
      assert forall i :: 0 <= i < |results| - 1 ==> results[1..][i] == results[i + 1];
      var r := Gather(results[1..], acc');
      GatherStep(results, acc, acc', r);
      r
  }

  /** One turn's update of the schema. */
  function Turn(acc: Schema, o: Option<Mock>): (r: Schema)
    ensures forall n :: n in Keys(r) <==> n in Keys(acc) || (o.Some? && o.value.name == n)
    ensures forall n :: (o.None? || o.value.name != n) ==> Get(r, n) == Get(acc, n)
    ensures o.Some? ==> Get(r, o.value.name) == o
  {
    match o
    case None => acc
    case Some(m) => Put(acc, m.name, m)
  }

  /** Storing a validated mock under its name keeps the schema well keyed. */
  lemma PutWellKeyed(acc: Schema, o: Option<Mock>)
    requires WellKeyed(acc)
    requires o.Some? ==> IsIdentifier(o.value.name) && ValidMock(o.value)
    ensures WellKeyed(Turn(acc, o))
  {
    if o.Some? {
      var m := o.value;
      var r := Put(acc, m.name, m);
      forall i | 0 <= i < |r| ensures r[i].0 == r[i].1.name && IsIdentifier(r[i].0) && ValidMock(r[i].1) {
        if i < |acc| && acc[i].0 != m.name {
          assert r[i] == acc[i];
        } else {
          assert r[i].0 == m.name by {
            if i >= |acc| {
              assert m.name !in Keys(acc);
              assert Keys(r)[i] == m.name;
            }
          }
          assert Get(r, m.name) == Some(m);
        }
      }
    }
  }

  /** The key part of one turn of `Gather`. */
  lemma GatherStep(results: seq<Result<Option<Mock>>>, acc: Schema, acc': Schema, r: Result<Schema>)
    requires |results| > 0 && results[0].Ok? && acc' == Turn(acc, results[0].value)
    requires r.Ok? ==> forall n :: n in Keys(r.value) <==>
      n in Keys(acc') || exists i :: 0 <= i < |results| - 1 && Names(results[1..][i], n)
    requires r.Err? <==> exists i :: 0 <= i < |results| - 1 && results[1..][i].Err?
    ensures r.Ok? ==> forall n :: n in Keys(r.value) <==>
      n in Keys(acc) || exists i :: 0 <= i < |results| && Names(results[i], n)
    ensures r.Err? <==> exists i :: 0 <= i < |results| && results[i].Err?
  {
    assert forall i :: 1 <= i < |results| ==> results[1..][i - 1] == results[i];
    if r.Ok? {
      forall n ensures n in Keys(r.value) <==>
        n in Keys(acc) || exists i :: 0 <= i < |results| && Names(results[i], n)
      {
        if exists i :: 0 <= i < |results| && Names(results[i], n) {
          var i :| 0 <= i < |results| && Names(results[i], n);
          if i > 0 {
            assert Names(results[1..][i - 1], n);
          }
        }
      }
    }
    if exists i :: 0 <= i < |results| - 1 && results[1..][i].Err? {
      var i :| 0 <= i < |results| - 1 && results[1..][i].Err?;
      assert results[i + 1].Err?;
    }
  }

  /** The schema loop from accumulated mocks `acc` over the remaining
      entries. It aborts exactly when some entry aborts; otherwise its keys
      are those of `acc` and the names the entries declare, and it stays
      well keyed. */
  function Collect(entries: seq<(Value, Value)>, acc: Schema): (r: Result<Schema>)
    requires WellKeyed(acc)
    ensures r.Err? ==> r.error == Abort
    ensures r.Err? <==> exists i :: 0 <= i < |entries| && EntryMock(entries[i].0, entries[i].1).Err?
    ensures r.Ok? ==> WellKeyed(r.value)
    ensures r.Ok? ==> forall n :: n in Keys(r.value) <==>
      n in Keys(acc) || exists i :: 0 <= i < |entries| && Declares(entries[i], n)
  {
    Gather(MockResults(entries), acc)
  }

  /** Entry `j` is the last outcome to be a mock named `n`. */
  predicate LastNames(results: seq<Result<Option<Mock>>>, j: int, n: string) {
    0 <= j < |results| && Names(results[j], n)
    && forall j' :: j < j' < |results| ==> !Names(results[j'], n)
  }

  /** A name no turn finds keeps what `acc` holds under it. */
  lemma {:induction false} GatherUndeclared(results: seq<Result<Option<Mock>>>, acc: Schema, n: string)
    requires WellKeyed(acc) && SoundOutcomes(results) && Gather(results, acc).Ok?
    requires forall i :: 0 <= i < |results| ==> !Names(results[i], n)
    ensures Get(Gather(results, acc).value, n) == Get(acc, n)
    decreases |results|
  {
    if |results| > 0 {
      var o := results[0].value;
      GatherFirst(results, acc, o);
      var rest := results[1..];
      assert forall i :: 0 <= i < |rest| ==> !Names(rest[i], n) by {
        forall i | 0 <= i < |rest| ensures !Names(rest[i], n) {
          assert rest[i] == results[i + 1];
        }
      }
      GatherUndeclared(rest, Turn(acc, o), n);
    }
  }

  /** The mock stored under a name is the one the last turn that finds a
      mock of that name gives. */
  lemma {:induction false} GatherLast(results: seq<Result<Option<Mock>>>, acc: Schema, j: nat, n: string)
    requires WellKeyed(acc) && SoundOutcomes(results) && Gather(results, acc).Ok?
    requires LastNames(results, j, n)
    ensures Get(Gather(results, acc).value, n) == results[j].value
    decreases |results|
  {
    var o := results[0].value;
    GatherFirst(results, acc, o);
    var rest := results[1..];
    if j == 0 {
      assert forall i :: 0 <= i < |rest| ==> !Names(rest[i], n) by {
        forall i | 0 <= i < |rest| ensures !Names(rest[i], n) {
          assert rest[i] == results[i + 1];
        }
      }
      GatherUndeclared(rest, Turn(acc, o), n);
    } else {
      assert LastNames(rest, j - 1, n) by {
        assert rest[j - 1] == results[j];
        forall j' | j - 1 < j' < |rest| ensures !Names(rest[j'], n) {
          assert rest[j'] == results[j' + 1];
        }
      }
      GatherLast(rest, Turn(acc, o), j - 1, n);
    }
  }

  /** Entry `j` is the last of `entries` to declare a mock named `n`. */
  predicate LastDeclares(entries: seq<(Value, Value)>, j: int, n: string) {
    0 <= j < |entries| && Declares(entries[j], n)
    && forall j' :: j < j' < |entries| ==> !Declares(entries[j'], n)
  }

  /** `mocks[parsed_mock.name] = parsed_mock` in a loop: the mock stored
      under a name is the one its last declaring entry gives, and a name no
      entry declares keeps what `acc` holds. */
  lemma CollectLast(entries: seq<(Value, Value)>, acc: Schema, j: nat, n: string)
    requires WellKeyed(acc) && Collect(entries, acc).Ok?
    requires LastDeclares(entries, j, n)
    ensures Get(Collect(entries, acc).value, n) == EntryMock(entries[j].0, entries[j].1).value
  {
    var results := MockResults(entries);
    assert LastNames(results, j, n);
    GatherLast(results, acc, j, n);
  }

  /** `SQLUnitMockSchema.from_template` on the loaded annotation document:
      a document that is not a mapping aborts (it has no `items`). */
  function SchemaFromDocument(doc: Value): (r: Result<Schema>)
    ensures !doc.Map? ==> r == Err(Abort)
    ensures r.Err? ==> r.error == Abort
    ensures r.Ok? ==> WellKeyed(r.value)
    ensures r.Ok? ==> forall n :: n in Keys(r.value) <==>
      exists i :: 0 <= i < |doc.entries| && Declares(doc.entries[i], n)
  {
    if !doc.Map? then Err(Abort) else Collect(doc.entries, [])
  }

  /** The mock a template's schema holds under a name is the one the last
      entry declaring that name gives; a name nothing declares is absent. */
  lemma SchemaLastDeclaration(doc: Value, j: nat, n: string)
    requires doc.Map? && SchemaFromDocument(doc).Ok?
    requires LastDeclares(doc.entries, j, n)
    ensures Get(SchemaFromDocument(doc).value, n) == EntryMock(doc.entries[j].0, doc.entries[j].1).value
  {
    CollectLast(doc.entries, [], j, n);
  }

  /** The names of the mocks the turns find, in turn order, repeats kept. */
  function FoundNames(results: seq<Result<Option<Mock>>>): (r: seq<string>)
    ensures forall n :: n in r <==> exists i :: 0 <= i < |results| && Names(results[i], n)
    decreases |results|
  {
    if |results| == 0 then []
    else
      var head := if results[0].Ok? && results[0].value.Some? then [results[0].value.value.name] else [];
      var r := head + FoundNames(results[1..]);
      assert forall i :: 0 <= i < |results| - 1 ==> results[1..][i] == results[i + 1];
      r
  }

  /** The keys of the schema the loop builds: those of `acc` in place,
      then each name found that `acc` lacks, at its first finding. */
  lemma {:induction false} GatherOrder(results: seq<Result<Option<Mock>>>, acc: Schema)
    requires WellKeyed(acc) && SoundOutcomes(results) && Gather(results, acc).Ok?
    ensures Keys(Gather(results, acc).value) == AppendNew(Keys(acc), FoundNames(results))
    decreases |results|
  {
    if |results| > 0 {
      var o := results[0].value;
      GatherFirst(results, acc, o);
      GatherOrder(results[1..], Turn(acc, o));
      match o
      case None =>
        assert FoundNames(results) == FoundNames(results[1..]);
      case Some(m) =>
        assert FoundNames(results) == [m.name] + FoundNames(results[1..]);
        AppendNewCons(Keys(acc), m.name, FoundNames(results[1..]));
    }
  }

  /** The names the entries declare, in entry order, repeats kept. */
  function DeclaredNames(entries: seq<(Value, Value)>): (r: seq<string>)
    ensures forall n :: n in r <==> exists i :: 0 <= i < |entries| && Declares(entries[i], n)
  {
    FoundNames(MockResults(entries))
  }

  /** The first entry's declaration, if any, comes before the others'. */
  lemma DeclaredNamesCons(entries: seq<(Value, Value)>)
    requires |entries| > 0
    ensures DeclaredNames(entries)
         == (match EntryMock(entries[0].0, entries[0].1)
             case Ok(Some(m)) => [m.name]
             case _ => [])
          + DeclaredNames(entries[1..])
  {
    MockResultsTail(entries);
  }

  /** The schema loop's keys: those of `acc`, then the declared names it
      lacks, each where it is first declared. */
  lemma CollectOrder(entries: seq<(Value, Value)>, acc: Schema)
    requires WellKeyed(acc) && Collect(entries, acc).Ok?
    ensures Keys(Collect(entries, acc).value) == AppendNew(Keys(acc), DeclaredNames(entries))
  {
    GatherOrder(MockResults(entries), acc);
  }

  /** A template's mock names, each once, in the order of their first
      declaration. */
  lemma SchemaOrder(doc: Value)
    requires doc.Map? && SchemaFromDocument(doc).Ok?
    ensures Keys(SchemaFromDocument(doc).value) == AppendNew([], DeclaredNames(doc.entries))
  {
    CollectOrder(doc.entries, []);
  }

  /** The schema of a template, loading its annotations with `load`. */
  function FromTemplate(code: string, load: Loader): Result<Schema> {
    SchemaFromDocument(Annotations.CommentsObj(code, load))
  }

  /** The annotation document declaring the mocks `ms`, in order. */
  function SchemaDocument(ms: seq<Mock>): Value {
    Map(DeclarationEntries(ms))
  }

  /** One `sql-unit.mock "<name>"` entry per mock. */
  function DeclarationEntries(ms: seq<Mock>): (r: seq<(Value, Value)>)
    ensures |r| == |ms|
    ensures forall i :: 0 <= i < |ms| ==> r[i] == (Str(FormatKey("mock", ms[i].name)), MockDocument(ms[i]))
    decreases |ms|
  {
    if |ms| == 0 then [] else [(Str(FormatKey("mock", ms[0].name)), MockDocument(ms[0]))] + DeclarationEntries(ms[1..])
  }

  /** The schema the mocks `ms` should give: each under its name, in order. */
  function ByName(ms: seq<Mock>): (r: Schema)
    ensures |r| == |ms|
    ensures forall i :: 0 <= i < |ms| ==> r[i] == (ms[i].name, ms[i])
    decreases |ms|
  {
    if |ms| == 0 then [] else [(ms[0].name, ms[0])] + ByName(ms[1..])
  }

  /** A mock that can be declared and read back. */
  predicate Declarable(m: Mock) {
    IsIdentifier(m.name) && ValidMock(m) && m.default != Some(Null)
    && (m.columns.Some? ==> DistinctKeys(m.columns.value))
  }

  /** Declaring mocks with distinct names and reading the document back
      gives the schema of those mocks, in declaration order. */
  lemma SchemaRoundTrip(ms: seq<Mock>)
    requires forall i :: 0 <= i < |ms| ==> Declarable(ms[i])
    requires forall i, j :: 0 <= i < j < |ms| ==> ms[i].name != ms[j].name
    ensures SchemaFromDocument(SchemaDocument(ms)) == Ok(ByName(ms))
  {
    var b := ByName(ms);
    assert [] + b == b;
    assert DistinctKeys(b) by {
      forall i, j | 0 <= i < j < |b| ensures b[i].0 != b[j].0 {
        assert b[i].0 == ms[i].name && b[j].0 == ms[j].name;
      }
    }
    CollectDeclarations(ms, []);
    assert SchemaDocument(ms).entries == DeclarationEntries(ms);
  }

  /** `SchemaRoundTrip` from an accumulated schema. */
  lemma {:induction false} CollectDeclarations(ms: seq<Mock>, acc: Schema)
    requires WellKeyed(acc)
    requires forall i :: 0 <= i < |ms| ==> Declarable(ms[i])
    requires DistinctKeys(acc + ByName(ms))
    ensures Collect(DeclarationEntries(ms), acc) == Ok(acc + ByName(ms))
    decreases |ms|
  {
    if |ms| == 0 {
      assert acc + ByName(ms) == acc;
    } else {
      var m := ms[0];
      var acc' := acc + [(m.name, m)];
      DeclarationAppend(ms, acc);
      DeclarationStep(ms, acc);
      CollectDeclarations(ms[1..], acc');
    }
  }

  /** One turn of `CollectDeclarations`: the first declaration is appended. */
  lemma {:induction false} DeclarationStep(ms: seq<Mock>, acc: Schema)
    requires |ms| > 0 && WellKeyed(acc) && Declarable(ms[0])
    requires DistinctKeys(acc + ByName(ms)) && WellKeyed(acc + [(ms[0].name, ms[0])])
    ensures Collect(DeclarationEntries(ms), acc) == Collect(DeclarationEntries(ms[1..]), acc + [(ms[0].name, ms[0])])
  {
    var m := ms[0];
    DeclarationFresh(ms, acc);
    PutFresh(acc, m.name, m);
    DeclarationTurn(m);
    var e := DeclarationEntries(ms);
    assert e[1..] == DeclarationEntries(ms[1..]);
    var results := MockResults(e);
    assert results[0] == Ok(Some(m));
    MockResultsTail(e);
    GatherFirst(results, acc, Some(m));
  }

  /** The outcomes after the first entry are those of the remaining entries. */
  lemma MockResultsTail(entries: seq<(Value, Value)>)
    requires |entries| > 0
    ensures MockResults(entries)[1..] == MockResults(entries[1..])
  {
    var r, t := MockResults(entries)[1..], MockResults(entries[1..]);
    forall i | 0 <= i < |r| ensures r[i] == t[i] {
      assert entries[1..][i] == entries[i + 1];
    }
  }

  /** The first turn of `Gather` when it finds no abort. */
  lemma GatherFirst(results: seq<Result<Option<Mock>>>, acc: Schema, o: Option<Mock>)
    requires WellKeyed(acc) && SoundOutcomes(results)
    requires |results| > 0 && results[0] == Ok(o)
    ensures WellKeyed(Turn(acc, o)) && SoundOutcomes(results[1..])
    ensures Gather(results, acc) == Gather(results[1..], Turn(acc, o))
  {
    PutWellKeyed(acc, o);
    assert forall i :: 0 <= i < |results| - 1 ==> results[1..][i] == results[i + 1];
  }

  /** After one turn the schema is still well keyed and still a prefix of
      the final one. */
  lemma {:induction false} DeclarationAppend(ms: seq<Mock>, acc: Schema)
    requires |ms| > 0 && WellKeyed(acc) && Declarable(ms[0])
    requires DistinctKeys(acc + ByName(ms))
    ensures WellKeyed(acc + [(ms[0].name, ms[0])])
    ensures acc + [(ms[0].name, ms[0])] + ByName(ms[1..]) == acc + ByName(ms)
  {
    var m := ms[0];
    DeclarationFresh(ms, acc);
    PutFresh(acc, m.name, m);
    PutWellKeyed(acc, Some(m));
    ByNameAppend(ms, acc);
  }

  /** The schema of `ms` is its first entry followed by the rest. */
  lemma {:induction false} ByNameAppend(ms: seq<Mock>, acc: Schema)
    requires |ms| > 0
    ensures acc + [(ms[0].name, ms[0])] + ByName(ms[1..]) == acc + ByName(ms)
  {
    var x, b1 := (ms[0].name, ms[0]), ByName(ms[1..]);
    assert ByName(ms) == [x] + b1;
    assert acc + [x] + b1 == acc + ([x] + b1);
  }

  /** The first declared name is not yet in the accumulated schema. */
  lemma {:induction false} DeclarationFresh(ms: seq<Mock>, acc: Schema)
    requires |ms| > 0 && DistinctKeys(acc + ByName(ms))
    ensures ms[0].name !in Keys(acc)
  {
    var b := acc + ByName(ms);
    assert b[|acc|] == (ms[0].name, ms[0]);
    forall i | 0 <= i < |acc| ensures acc[i].0 != ms[0].name {
      assert b[i] == acc[i];
    }
  }

  /** A declaration entry passes the marker test and yields its mock. */
  lemma DeclarationTurn(m: Mock)
    requires Declarable(m)
    ensures EntryMock(Str(FormatKey("mock", m.name)), MockDocument(m)) == Ok(Some(m))
  {
    var key := FormatKey("mock", m.name);
    assert key[..|MockMarker|] == MockMarker;
    assert OccursAt(key, MockMarker, 0);
    ParseFormatKey("mock", m.name);
    MockRoundTrip(m);
  }

  /** `source.mock(name)`: the schema's entry for `name`. */
  function MockOf(s: Schema, name: string): (r: Option<Mock>)
    requires WellKeyed(s)
    ensures r.Some? <==> name in Keys(s)
    ensures r.Some? ==> r.value.name == name && ValidMock(r.value)
  {
    Get(s, name)
  }
}
