/** Test cases (`SQLUnitTestCase` in `sql_unit/model.py`): building one from
    its annotation entry, collecting all of a source's test cases, and the
    part of `compile` that composes the query text and the render context. */
module TestCases {

  import opened Wrappers
  import opened Strings
  import opened Dicts
  import opened Values
  import opened Identifiers
  import opened MockTypes
  import opened Mocks
  import opened Tables
  import Annotations

  /** A test input: a parsed table for a table mock, otherwise the loaded
      value as it was written. */
  datatype Given = TableGiven(table: Table) | RawGiven(value: Value)

  /** The inputs of a test case, in insertion order. */
  type Givens = Dict<string, Given>

  /** A test case. The source file is represented by its text. */
  datatype TestCase = TestCase(code: string, name: string, expected: Table, given: Givens)

  /** Marks the annotation keys that declare test cases. */
  const TestMarker: string := "sql-unit.test"

  /** The key of a test's expected table. */
  const ExpectedKey: string := "expected"

  /** `parse_given`: a test input under `key`. The key must name a mock of
      the schema; a table mock's input is parsed as a table against the
      mock's columns, anything else is kept as loaded. */
  function ParseGivenEntry(schema: Schema, key: string, value: Value, load: Loader): (r: Result<Given>)
    requires WellKeyed(schema)
    ensures ParseGiven(key).None? ==> r == Err(Invalid)
    ensures ParseGiven(key).Some? && ParseGiven(key).value !in Keys(schema) ==> r == Err(Invalid)
    ensures r.Ok? ==> ParseGiven(key).Some? && ParseGiven(key).value in Keys(schema)
    ensures r.Ok? && r.value.RawGiven? ==> r.value == RawGiven(value) && MockOf(schema, ParseGiven(key).value).value.typ != TableType
    ensures ParseGiven(key).Some? && ParseGiven(key).value in Keys(schema) ==>
      var m := MockOf(schema, ParseGiven(key).value).value;
      m.typ != TableType ==> r == Ok(RawGiven(value))
    ensures r.Ok? && r.value.TableGiven? ==> ValidTable(r.value.table) && MockOf(schema, ParseGiven(key).value).value.typ == TableType
    ensures ParseGiven(key).Some? && ParseGiven(key).value in Keys(schema) ==>
      var m := MockOf(schema, ParseGiven(key).value).value;
      m.typ == TableType ==> (r.Ok? <==> FromString(value, m.columns, load).Ok?) && (r.Err? ==> r == FromString(value, m.columns, load).PropagateFailure())
  {
    match ParseGiven(key)
    case None => Err(Invalid)
    case Some(name) =>
      match MockOf(schema, name)
      case None => Err(Invalid)
      case Some(m) =>
        if m.typ == TableType then
          var t :- FromString(value, m.columns, load);
          Ok(TableGiven(t))
        else Ok(RawGiven(value))
  }

  /** The `given "<name>"` entries of a test's mapping, under their full
      keys, added to `acc`. This is a dict comprehension: a repeated key
      keeps its first place and takes its last value. A key that is not a
      string cannot be matched against the pattern and aborts. */
  function GivenEntries(entries: seq<(Value, Value)>, acc: Dict<string, Value>): (r: Result<Dict<string, Value>>)
    requires DistinctKeys(acc)
    ensures r.Err? ==> r.error == Abort
    ensures r.Err? <==> exists i :: 0 <= i < |entries| && !entries[i].0.Str?
    ensures r.Ok? ==> DistinctKeys(r.value)
    decreases |entries|
  {
    if |entries| == 0 then Ok(acc)
    else
      var key := entries[0].0;
      if !key.Str? then Err(Abort)
      else
        var acc' := GivenStep(acc, key.text, entries[0].1);
        assert forall i :: 1 <= i < |entries| ==> entries[i] == entries[1..][i - 1];
        GivenEntries(entries[1..], acc')
  }

  /** One step of the comprehension: a matching key is stored, any other
      is passed over. */
  function GivenStep(acc: Dict<string, Value>, key: string, value: Value): (r: Dict<string, Value>)
    requires DistinctKeys(acc)
    ensures DistinctKeys(r)
    ensures forall k :: k in Keys(r) <==> k in Keys(acc) || (k == key && ParseGiven(k).Some?)
    ensures forall k :: k in Keys(r) ==> Get(r, k) == Get(acc, k) || (k == key && Get(r, k) == Some(value))
  {
    if ParseGiven(key).Some? then Put(acc, key, value) else acc
  }

  /** Some entry is keyed by the string `k`. */
  predicate KeyedBy(entries: seq<(Value, Value)>, k: string) {
    exists i :: 0 <= i < |entries| && entries[i].0 == Str(k)
  }

  lemma KeyedByCons(entries: seq<(Value, Value)>, k: string)
    requires |entries| > 0
    ensures KeyedBy(entries, k) <==> entries[0].0 == Str(k) || KeyedBy(entries[1..], k)
  {
    if KeyedBy(entries[1..], k) {
      var i :| 0 <= i < |entries| - 1 && entries[1..][i].0 == Str(k);
      assert entries[i + 1].0 == Str(k);
    }
  }

  /** The keys the comprehension keeps are those of `acc` and the matching
      string keys of the entries. */
  lemma {:induction false} GivenEntriesKeys(entries: seq<(Value, Value)>, acc: Dict<string, Value>, r: Dict<string, Value>)
    requires DistinctKeys(acc) && GivenEntries(entries, acc) == Ok(r)
    ensures forall k :: k in Keys(r) <==> k in Keys(acc) || (ParseGiven(k).Some? && KeyedBy(entries, k))
    decreases |entries|
  {
    if |entries| > 0 {
      var key := entries[0].0.text;
      var acc' := GivenStep(acc, key, entries[0].1);
      GivenEntriesKeys(entries[1..], acc', r);
      forall k ensures KeyedBy(entries, k) <==> k == key || KeyedBy(entries[1..], k) {
        KeyedByCons(entries, k);
      }
    }
  }

  /** The string keys of the entries that name a given input, in entry
      order, repeats kept. */
  function GivenKeys(entries: seq<(Value, Value)>): (r: seq<string>)
    ensures forall k :: k in r <==> ParseGiven(k).Some? && KeyedBy(entries, k)
    decreases |entries|
  {
    if |entries| == 0 then []
    else
      var key := entries[0].0;
      var head := if key.Str? && ParseGiven(key.text).Some? then [key.text] else [];
      forall k ensures KeyedBy(entries, k) <==> key == Str(k) || KeyedBy(entries[1..], k) {
        KeyedByCons(entries, k);
      }
      head + GivenKeys(entries[1..])
  }

  /** The keys the comprehension keeps, in order: those of `acc` in
      place, then each matching key `acc` lacks, where it first occurs. */
  lemma {:induction false} GivenEntriesOrder(entries: seq<(Value, Value)>, acc: Dict<string, Value>, r: Dict<string, Value>)
    requires DistinctKeys(acc) && GivenEntries(entries, acc) == Ok(r)
    ensures Keys(r) == AppendNew(Keys(acc), GivenKeys(entries))
    decreases |entries|
  {
    if |entries| > 0 {
      var key := entries[0].0.text;
      var acc' := GivenStep(acc, key, entries[0].1);
      GivenEntriesOrder(entries[1..], acc', r);
      if ParseGiven(key).Some? {
        assert GivenKeys(entries) == [key] + GivenKeys(entries[1..]);
        AppendNewCons(Keys(acc), key, GivenKeys(entries[1..]));
      } else {
        assert GivenKeys(entries) == GivenKeys(entries[1..]);
      }
    }
  }

  /** Each value the comprehension keeps is the one in `acc` or one written
      under that key. */
  lemma {:induction false} GivenEntriesValues(entries: seq<(Value, Value)>, acc: Dict<string, Value>, r: Dict<string, Value>)
    requires DistinctKeys(acc) && GivenEntries(entries, acc) == Ok(r)
    ensures forall k :: k in Keys(r) ==> Get(r, k) == Get(acc, k) || WrittenUnder(entries, k, Get(r, k).value)
    decreases |entries|
  {
    if |entries| > 0 {
      var key := entries[0].0.text;
      var acc' := GivenStep(acc, key, entries[0].1);
      var tail := entries[1..];
      GivenEntriesValues(tail, acc', r);
      forall k | k in Keys(r) && Get(r, k) != Get(acc, k)
        ensures WrittenUnder(entries, k, Get(r, k).value)
      {
        if Get(r, k) == Get(acc', k) {
          assert entries[0] == (Str(k), Get(r, k).value);
          assert WrittenUnder(entries, k, Get(r, k).value);
        } else {
          var i :| 0 <= i < |tail| && tail[i] == (Str(k), Get(r, k).value);
          assert entries[i + 1] == tail[i];
          assert WrittenUnder(entries, k, Get(r, k).value);
        }
      }
    }
  }

  /** The comprehension is a dict: a kept key holds the value of the last
      entry written under it. */
  lemma {:induction false} GivenEntriesLast(entries: seq<(Value, Value)>, acc: Dict<string, Value>, r: Dict<string, Value>)
    requires DistinctKeys(acc) && GivenEntries(entries, acc) == Ok(r)
    ensures forall k :: ParseGiven(k).Some? && Lookup(entries, Str(k)).Some? ==> Get(r, k) == Lookup(entries, Str(k))
    decreases |entries|
  {
    if |entries| > 0 {
      var e := entries[0];
      var acc' := GivenStep(acc, e.0.text, e.1);
      var tail := entries[1..];
      assert entries == [e] + tail;
      GivenEntriesLast(tail, acc', r);
      GivenEntriesValues(tail, acc', r);
      forall k | ParseGiven(k).Some? && Lookup(entries, Str(k)).Some?
        ensures Get(r, k) == Lookup(entries, Str(k))
      {
        LookupCons(e, tail, Str(k));
        if Lookup(tail, Str(k)).None? {
          GivenEntriesKeys(tail, acc', r);
          assert Get(r, k) == Get(acc', k);
        }
      }
    }
  }

  /** Some entry writes `v` under the key `k`. */
  predicate WrittenUnder(entries: seq<(Value, Value)>, k: string, v: Value)
  {
    exists i :: 0 <= i < |entries| && entries[i] == (Str(k), v)
  }

  /** Entry `i` of `d` is the first to fail, with `e`. */
  predicate FirstFailure(schema: Schema, d: Dict<string, Value>, load: Loader, i: int, e: Error)
    requires WellKeyed(schema)
  {
    && 0 <= i < |d|
    && ParseGivenEntry(schema, d[i].0, d[i].1, load) == Err(e)
    && forall j :: 0 <= j < i ==> ParseGivenEntry(schema, d[j].0, d[j].1, load).Ok?
  }

  /** Parsing entry `i` of `d` succeeds. */
  predicate ParsesAt(schema: Schema, d: Dict<string, Value>, load: Loader, i: int)
    requires WellKeyed(schema)
  {
    0 <= i < |d| && ParseGivenEntry(schema, d[i].0, d[i].1, load).Ok?
  }

  /** Parsing entry `i` of `d` yields `g`. */
  predicate ParsesAtTo(schema: Schema, d: Dict<string, Value>, load: Loader, i: int, g: Given)
    requires WellKeyed(schema)
  {
    0 <= i < |d| && ParseGivenEntry(schema, d[i].0, d[i].1, load) == Ok(g)
  }

  /** What parsing each given entry gives, in order. */
  function EntryResults(schema: Schema, d: Dict<string, Value>, load: Loader): (r: seq<Result<Given>>)
    requires WellKeyed(schema)
    ensures |r| == |d|
    ensures forall i :: 0 <= i < |d| ==> r[i] == ParseGivenEntry(schema, d[i].0, d[i].1, load)
  {
    seq(|d|, i requires 0 <= i < |d| => ParseGivenEntry(schema, d[i].0, d[i].1, load))
  }

  /** Pairing each key of `d` with its result, in order, stopping at the
      first error. */
  function CollectGivens(d: Dict<string, Value>, results: seq<Result<Given>>, upto: nat := |d|): (r: Result<Givens>)
    requires |results| == |d| && upto <= |d|
    ensures r.Ok? <==> forall i :: 0 <= i < upto ==> results[i].Ok?
    ensures r.Ok? ==> |r.value| == upto && forall i :: 0 <= i < upto ==> r.value[i] == (d[i].0, results[i].value)
    ensures r.Err? ==> exists i :: 0 <= i < upto && results[i] == Err(r.error) && forall j :: 0 <= j < i ==> results[j].Ok?
    decreases upto
  {
    if upto == 0 then Ok([])
    else
      match CollectGivens(d, results, upto - 1)
      case Err(e) => Err(e)
      case Ok(rest) =>
        match results[upto - 1]
        case Err(e) => Err(e)
        case Ok(g) => Ok(rest + [(d[upto - 1].0, g)])
  }

  /** The comprehension that parses every given entry, in order. */
  function ParseGivens(schema: Schema, d: Dict<string, Value>, load: Loader): (r: Result<Givens>)
    requires WellKeyed(schema)
    ensures r.Ok? <==> forall i :: 0 <= i < |d| ==> ParsesAt(schema, d, load, i)
    ensures r.Ok? ==> |r.value| == |d| && forall i :: 0 <= i < |d| ==>
      r.value[i].0 == d[i].0 && ParsesAtTo(schema, d, load, i, r.value[i].1)
  {
    var results := EntryResults(schema, d, load);
    assert forall i :: 0 <= i < |d| ==> (results[i].Ok? <==> ParsesAt(schema, d, load, i));
    assert forall i :: 0 <= i < |d| && results[i].Ok? ==> ParsesAtTo(schema, d, load, i, results[i].value);
    CollectGivens(d, results)
  }

  /** A failing comprehension fails with the error of its first failing
      entry. */
  lemma ParseGivensFirstFailure(schema: Schema, d: Dict<string, Value>, load: Loader)
    requires WellKeyed(schema) && ParseGivens(schema, d, load).Err?
    ensures exists i :: FirstFailure(schema, d, load, i, ParseGivens(schema, d, load).error)
  {
    var results := EntryResults(schema, d, load);
    var e := ParseGivens(schema, d, load).error;
    var i :| 0 <= i < |d| && results[i] == Err(e) && forall j :: 0 <= j < i ==> results[j].Ok?;
    assert FirstFailure(schema, d, load, i, e);
  }

  /** The backfill loop: every mock of `ms` whose name is not yet a key of
      `given` gets an empty table under its columns, appended in schema
      order. It fails when such a mock has no columns, or none in them. */
  function Backfill(ms: Schema, given: Givens): (r: Result<Givens>)
    requires DistinctKeys(ms)
    ensures r.Err? ==> r.error == Invalid
    ensures r.Err? <==> exists i :: 0 <= i < |ms| && ms[i].0 !in Keys(given) && EmptyMockTable(ms[i].1).Err?
    ensures r.Ok? ==> given <= r.value
    ensures r.Ok? ==> forall k :: k in Keys(r.value) <==> k in Keys(given) || k in Keys(ms)
    ensures r.Ok? ==> forall k :: k in Keys(given) ==> Get(r.value, k) == Get(given, k)
    ensures r.Ok? ==> forall i :: 0 <= i < |ms| && ms[i].0 !in Keys(given) ==>
      Get(r.value, ms[i].0) == Some(TableGiven(EmptyMockTable(ms[i].1).value))
    decreases |ms|
  {
    if |ms| == 0 then Ok(given)
    else
      DistinctTail(ms);
      assert forall i :: 1 <= i < |ms| ==> ms[i] == ms[1..][i - 1];
      var (k, m) := ms[0];
      assert Keys(ms) == [k] + Keys(ms[1..]);
      if k in Keys(given) then Backfill(ms[1..], given)
      else
        match EmptyMockTable(m)
        case Err(e) => Err(e)
        case Ok(t) => Backfill(ms[1..], Put(given, k, TableGiven(t)))
  }

  /** The backfilled mocks are appended after the written inputs, in schema
      order. */
  lemma {:induction false} BackfillOrder(ms: Schema, given: Givens)
    requires DistinctKeys(ms) && Backfill(ms, given).Ok?
    ensures Keys(Backfill(ms, given).value) == Keys(given) + Unlisted(ms, Keys(given))
    decreases |ms|
  {
    if |ms| > 0 {
      var given' := BackfillNext(ms, given);
      BackfillOrder(ms[1..], given');
      UnlistedStep(ms, Keys(given), Keys(given'));
    }
  }

  /** One turn of `Backfill`: the inputs it goes on with, whose keys gain
      the first mock's name when it was not written. */
  lemma BackfillNext(ms: Schema, given: Givens) returns (given': Givens)
    requires DistinctKeys(ms) && |ms| > 0 && Backfill(ms, given).Ok?
    ensures DistinctKeys(ms[1..])
    ensures Keys(given') == Keys(given) + (if ms[0].0 in Keys(given) then [] else [ms[0].0])
    ensures Backfill(ms[1..], given') == Backfill(ms, given)
  {
    DistinctTail(ms);
    if ms[0].0 in Keys(given) {
      given' := given;
    } else {
      given' := Put(given, ms[0].0, TableGiven(EmptyMockTable(ms[0].1).value));
    }
  }

  /** The keys after one turn of `Backfill` followed by the mocks the
      remaining turns add are the keys before it followed by all the mocks
      it adds. */
  lemma UnlistedStep(ms: Schema, present: seq<string>, present': seq<string>)
    requires |ms| > 0 && ms[0].0 !in Keys(ms[1..])
    requires present' == present + (if ms[0].0 in present then [] else [ms[0].0])
    ensures present' + Unlisted(ms[1..], present') == present + Unlisted(ms, present)
  {
    var k, rest := ms[0].0, Unlisted(ms[1..], present);
    if k !in present {
      assert Unlisted(ms[1..], present') == rest by {
        UnlistedBeside(ms[1..], present, k);
      }
      assert Unlisted(ms, present) == [k] + rest;
      assert present' + rest == present + ([k] + rest);
    } else {
      assert Unlisted(ms, present) == rest;
      assert present' == present;
    }
  }

  /** The names of the mocks of `ms` that are not in `present`, in schema
      order. */
  function Unlisted(ms: Schema, present: seq<string>): (r: seq<string>)
    ensures forall k :: k in r <==> k in Keys(ms) && k !in present
    decreases |ms|
  {
    if |ms| == 0 then []
    else
      assert Keys(ms) == [ms[0].0] + Keys(ms[1..]);
      (if ms[0].0 in present then [] else [ms[0].0]) + Unlisted(ms[1..], present)
  }

  /** A name that no mock has does not change which mocks are unlisted. */
  lemma {:induction false} UnlistedBeside(ms: Schema, present: seq<string>, k: string)
    requires k !in Keys(ms)
    ensures Unlisted(ms, present + [k]) == Unlisted(ms, present)
    decreases |ms|
  {
    if |ms| > 0 {
      assert Keys(ms) == [ms[0].0] + Keys(ms[1..]);
      UnlistedBeside(ms[1..], present, k);
    }
  }

  /** What the inputs of a test built from `entries` hold: every mock of the
      schema under its bare name, with an empty table under its columns;
      besides those only keys written in the entries, each holding what
      parsing one such entry gave; and every `given "<name>"` key written
      in the entries. */
  predicate Inputs(schema: Schema, entries: seq<(Value, Value)>, load: Loader, given: Givens)
    requires WellKeyed(schema)
  {
    && DistinctKeys(given)
    && (forall i :: 0 <= i < |schema| ==>
          EmptyMockTable(schema[i].1).Ok? && Get(given, schema[i].0) == Some(TableGiven(EmptyMockTable(schema[i].1).value)))
    && (forall k :: k in Keys(given) && k !in Keys(schema) ==> ParsedFrom(schema, entries, load, k, Get(given, k).value))
    && (forall i :: 0 <= i < |entries| && entries[i].0.Str? && ParseGiven(entries[i].0.text).Some? ==> entries[i].0.text in Keys(given))
  }

  /** `g` is what parsing some entry written under `key` gives. */
  predicate ParsedFrom(schema: Schema, entries: seq<(Value, Value)>, load: Loader, key: string, g: Given)
    requires WellKeyed(schema)
  {
    exists i :: 0 <= i < |entries| && entries[i].0 == Str(key) && ParseGivenEntry(schema, key, entries[i].1, load) == Ok(g)
  }

  /** `from_yaml_item` for test cases. The key must declare a test; the
      mapping must hold `expected`, a table read without a schema; its
      `given "<name>"` entries are parsed against the mock schema; then
      every mock of the schema whose name is not yet a key gets an empty
      table. Since the parsed inputs sit under their full `given "<name>"`
      keys, that is every mock. The schema is read only after the expected
      table and the input keys, so its failure surfaces there. */
  function TestCaseFromItem(code: string, schema: Result<Schema>, key: string, value: Value, load: Loader): (r: Result<TestCase>)
    requires schema.Ok? ==> WellKeyed(schema.value)
    ensures ParseKey(key).None? ==> r == Err(Invalid)
    ensures ParseKey(key).Some? && ParseKey(key).value.0 != "test" ==> r == Err(Invalid)
    ensures ParseKey(key).Some? && ParseKey(key).value.0 == "test" && (!value.Map? || Lookup(value.entries, Str(ExpectedKey)).None?) ==>
      r == Err(Abort)
    ensures r.Ok? ==> IsIdentifier(r.value.name) && (key == FormatKey("test", r.value.name) || key == FormatKey("test", r.value.name) + "\n")
    ensures r.Ok? ==> r.value.code == code && value.Map? && Lookup(value.entries, Str(ExpectedKey)).Some?
    ensures r.Ok? ==> FromString(Lookup(value.entries, Str(ExpectedKey)).value, None, load) == Ok(r.value.expected)
    ensures r.Ok? ==> schema.Ok? && Inputs(schema.value, value.entries, load, r.value.given)
  {
    match ParseKey(key)
    case None => Err(Invalid)
    case Some((kind, name)) =>
      if kind != "test" then Err(Invalid)
      else if !value.Map? then Err(Abort)
      else
        match Lookup(value.entries, Str(ExpectedKey))
        case None => Err(Abort)
        case Some(e) =>
          var expected :- FromString(e, None, load);
          var keyed :- GivenEntries(value.entries, []);
          var s :- schema;
          var parsed :- ParseGivens(s, keyed, load);
          var given :- Backfill(s, parsed);
          InputsOfItem(s, value.entries, load);
          Ok(TestCase(code, name, expected, given))
  }

  /** The inputs the three loops build satisfy `Inputs`. */
  lemma InputsOfItem(schema: Schema, entries: seq<(Value, Value)>, load: Loader)
    requires WellKeyed(schema)
    requires GivenEntries(entries, []).Ok?
    requires ParseGivens(schema, GivenEntries(entries, []).value, load).Ok?
    requires Backfill(schema, ParseGivens(schema, GivenEntries(entries, []).value, load).value).Ok?
    ensures Inputs(schema, entries, load, Backfill(schema, ParseGivens(schema, GivenEntries(entries, []).value, load).value).value)
  {
    var keyed := GivenEntries(entries, []).value;
    var parsed := ParseGivens(schema, keyed, load).value;
    var given := Backfill(schema, parsed).value;
    ParsedInputs(schema, entries, load, keyed, parsed);
    BackfillDistinct(schema, parsed);
    assert forall k :: k in Keys(parsed) ==> Get(given, k) == Get(parsed, k);
    assert forall k :: k in Keys(parsed) ==> k in Keys(given);
  }

  /** The key declares a test and its value is a mapping with `expected`. */
  predicate TestWithExpected(key: string, value: Value) {
    && ParseKey(key).Some? && ParseKey(key).value.0 == "test"
    && value.Map? && Lookup(value.entries, Str(ExpectedKey)).Some?
  }

  /** Every key of the mapping is a string. */
  predicate StringKeys(entries: seq<(Value, Value)>) {
    forall i :: 0 <= i < |entries| ==> entries[i].0.Str?
  }

  /** Every `given "<name>"` input written in the entries parses, taking
      the value the loaded dict keeps for its key. */
  predicate WrittenInputsParse(schema: Schema, entries: seq<(Value, Value)>, load: Loader)
    requires WellKeyed(schema)
  {
    forall i :: 0 <= i < |entries| && entries[i].0.Str? && ParseGiven(entries[i].0.text).Some? ==>
      && Lookup(entries, entries[i].0).Some?
      && ParseGivenEntry(schema, entries[i].0.text, Lookup(entries, entries[i].0).value, load).Ok?
  }

  /** Every mock of the schema has an empty table to be backfilled with. */
  predicate Backfillable(schema: Schema) {
    forall j :: 0 <= j < |schema| ==> EmptyMockTable(schema[j].1).Ok?
  }

  /** The parse of the collected inputs succeeds exactly when every
      written input parses. */
  lemma KeyedInputsParse(schema: Schema, entries: seq<(Value, Value)>, load: Loader, keyed: Dict<string, Value>)
    requires WellKeyed(schema) && GivenEntries(entries, []) == Ok(keyed)
    ensures ParseGivens(schema, keyed, load).Ok? <==> WrittenInputsParse(schema, entries, load)
  {
    Collected(entries, keyed);
    if ParseGivens(schema, keyed, load).Ok? {
      KeyedToWritten(schema, entries, load, keyed);
    }
    if WrittenInputsParse(schema, entries, load) {
      WrittenToKeyed(schema, entries, load, keyed);
    }
  }

  /** A key some entry has is found. */
  lemma KeyedByLookup(entries: seq<(Value, Value)>, k: string)
    requires KeyedBy(entries, k)
    ensures Lookup(entries, Str(k)).Some?
  {
    var i :| 0 <= i < |entries| && entries[i].0 == Str(k);
  }

  /** The collected inputs are the matching written keys, each holding
      what the loaded dict holds under it. */
  ghost predicate CollectedFrom(entries: seq<(Value, Value)>, keyed: Dict<string, Value>) {
    && DistinctKeys(keyed)
    && (forall k :: k in Keys(keyed) <==> k in Keys<string, Value>([]) || (ParseGiven(k).Some? && KeyedBy(entries, k)))
    && (forall k :: ParseGiven(k).Some? && Lookup(entries, Str(k)).Some? ==> Get(keyed, k) == Lookup(entries, Str(k)))
  }

  /** When the collected inputs parse, so does every written input. */
  lemma KeyedToWritten(schema: Schema, entries: seq<(Value, Value)>, load: Loader, keyed: Dict<string, Value>)
    requires WellKeyed(schema) && CollectedFrom(entries, keyed)
    requires ParseGivens(schema, keyed, load).Ok?
    ensures WrittenInputsParse(schema, entries, load)
  {
    forall i | 0 <= i < |entries| && entries[i].0.Str? && ParseGiven(entries[i].0.text).Some?
      ensures Lookup(entries, entries[i].0).Some?
      ensures ParseGivenEntry(schema, entries[i].0.text, Lookup(entries, entries[i].0).value, load).Ok?
    {
      var j := WrittenIsKeyed(entries, keyed, i);
      assert ParsesAt(schema, keyed, load, j);
    }
  }

  /** When every written input parses, so do the collected inputs. */
  lemma WrittenToKeyed(schema: Schema, entries: seq<(Value, Value)>, load: Loader, keyed: Dict<string, Value>)
    requires WellKeyed(schema) && CollectedFrom(entries, keyed)
    requires WrittenInputsParse(schema, entries, load)
    ensures ParseGivens(schema, keyed, load).Ok?
  {
    forall j | 0 <= j < |keyed| ensures ParsesAt(schema, keyed, load, j) {
      var i := KeyedIsWritten(entries, keyed, j);
    }
  }

  /** Once the key names a test and its mapping has `expected`, a test
      case is built exactly when the expected table reads, every key is a
      string, the mock schema reads, every written input parses and every
      mock has an empty table to be backfilled with. */
  lemma TestCaseBuilt(code: string, schema: Result<Schema>, key: string, value: Value, load: Loader)
    requires schema.Ok? ==> WellKeyed(schema.value)
    requires TestWithExpected(key, value)
    ensures TestCaseFromItem(code, schema, key, value, load).Ok? <==>
      && FromString(Lookup(value.entries, Str(ExpectedKey)).value, None, load).Ok?
      && StringKeys(value.entries)
      && schema.Ok?
      && WrittenInputsParse(schema.value, value.entries, load)
      && Backfillable(schema.value)
  {
    var entries := value.entries;
    CaseSteps(code, schema, key, value, load);
    if GivenEntries(entries, []).Ok? && schema.Ok? {
      var keyed := GivenEntries(entries, []).value;
      KeyedInputsParse(schema.value, entries, load, keyed);
      if ParseGivens(schema.value, keyed, load).Ok? {
        BackfillParsed(schema.value, entries, load, keyed);
      }
    }
  }

  /** After the `expected` lookup, the test case is built exactly when each
      of the remaining steps succeeds; a failing input parse is the
      failure. */
  lemma CaseSteps(code: string, schema: Result<Schema>, key: string, value: Value, load: Loader)
    requires schema.Ok? ==> WellKeyed(schema.value)
    requires TestWithExpected(key, value)
    ensures TestCaseFromItem(code, schema, key, value, load).Ok? <==>
      && FromString(Lookup(value.entries, Str(ExpectedKey)).value, None, load).Ok?
      && GivenEntries(value.entries, []).Ok?
      && schema.Ok?
      && ParseGivens(schema.value, GivenEntries(value.entries, []).value, load).Ok?
      && Backfill(schema.value, ParseGivens(schema.value, GivenEntries(value.entries, []).value, load).value).Ok?
  {
  }

  /** A failing input parse is the test case's error, once the expected
      table, the keys and the schema have read. */
  lemma CaseStopsAtInputs(code: string, schema: Result<Schema>, key: string, value: Value, load: Loader)
    requires schema.Ok? ==> WellKeyed(schema.value)
    requires TestWithExpected(key, value)
    ensures
      && FromString(Lookup(value.entries, Str(ExpectedKey)).value, None, load).Ok?
      && GivenEntries(value.entries, []).Ok?
      && schema.Ok?
      && ParseGivens(schema.value, GivenEntries(value.entries, []).value, load).Err?
      ==> TestCaseFromItem(code, schema, key, value, load)
          == Err(ParseGivens(schema.value, GivenEntries(value.entries, []).value, load).error)
  {
  }

  /** The backfill after parsing the written inputs succeeds exactly when
      every mock has an empty table: the inputs sit under `given "<name>"`
      keys, none of them a mock's name, so every mock is backfilled. */
  lemma BackfillParsed(schema: Schema, entries: seq<(Value, Value)>, load: Loader, keyed: Dict<string, Value>)
    requires WellKeyed(schema) && GivenEntries(entries, []) == Ok(keyed)
    requires ParseGivens(schema, keyed, load).Ok?
    ensures Backfill(schema, ParseGivens(schema, keyed, load).value).Ok? <==> Backfillable(schema)
  {
    var parsed := ParseGivens(schema, keyed, load).value;
    GivenEntriesKeys(entries, [], keyed);
    forall i | 0 <= i < |schema| ensures schema[i].0 !in Keys(parsed) {
      if schema[i].0 in Keys(parsed) {
        var j :| 0 <= j < |parsed| && parsed[j].0 == schema[i].0;
        assert keyed[j].0 in Keys(keyed);
        GivenKeyIsNotName(keyed[j].0, schema[i].0);
      }
    }
  }

  /** An input for a mock the schema lacks stops the test case: once the
      expected table reads, the keys are strings and the schema reads, the
      case is not built, and it fails with a validation error (which the
      collecting loop skips) unless some written input aborts. */
  lemma UnknownMockInvalid(code: string, schema: Schema, key: string, value: Value, load: Loader, i: nat)
    requires WellKeyed(schema) && TestWithExpected(key, value)
    requires FromString(Lookup(value.entries, Str(ExpectedKey)).value, None, load).Ok?
    requires StringKeys(value.entries)
    requires i < |value.entries| && ParseGiven(value.entries[i].0.text).Some?
    requires ParseGiven(value.entries[i].0.text).value !in Keys(schema)
    ensures TestCaseFromItem(code, Ok(schema), key, value, load).Err?
    ensures NoInputAborts(schema, value.entries, load) ==> TestCaseFromItem(code, Ok(schema), key, value, load) == Err(Invalid)
  {
    UnknownInputStops(schema, value.entries, load, i);
    CaseStopsAtInputs(code, Ok(schema), key, value, load);
  }

  /** With a written input for a mock the schema lacks, parsing the
      collected inputs fails, with a validation error unless some written
      input aborts. */
  lemma UnknownInputStops(schema: Schema, entries: seq<(Value, Value)>, load: Loader, i: nat)
    requires WellKeyed(schema) && StringKeys(entries)
    requires i < |entries| && ParseGiven(entries[i].0.text).Some?
    requires ParseGiven(entries[i].0.text).value !in Keys(schema)
    ensures GivenEntries(entries, []).Ok?
    ensures var r := ParseGivens(schema, GivenEntries(entries, []).value, load);
      r.Err? && (NoInputAborts(schema, entries, load) ==> r.error == Invalid)
  {
    assert GivenEntries(entries, []).Ok?;
    var keyed := GivenEntries(entries, []).value;
    assert CollectedFrom(entries, keyed) by {
      Collected(entries, keyed);
    }
    assert ParseGivens(schema, keyed, load).Err? by {
      UnknownKeyedFails(schema, entries, load, keyed, i);
    }
    if NoInputAborts(schema, entries, load) {
      assert ParseGivens(schema, keyed, load).error == Invalid by {
        FirstFailureInvalid(schema, entries, load, keyed);
      }
    }
  }

  /** The parse of the collected inputs fails when one of them is for a
      mock the schema lacks. */
  lemma UnknownKeyedFails(schema: Schema, entries: seq<(Value, Value)>, load: Loader, keyed: Dict<string, Value>, i: nat)
    requires WellKeyed(schema) && CollectedFrom(entries, keyed)
    requires i < |entries| && entries[i].0.Str? && ParseGiven(entries[i].0.text).Some?
    requires ParseGiven(entries[i].0.text).value !in Keys(schema)
    ensures ParseGivens(schema, keyed, load).Err?
  {
    var j := WrittenIsKeyed(entries, keyed, i);
    assert !ParsesAt(schema, keyed, load, j);
  }

  /** An input for a mock the schema lacks does not parse. */
  lemma UnknownInputFails(schema: Schema, entries: seq<(Value, Value)>, load: Loader, i: nat)
    requires WellKeyed(schema)
    requires i < |entries| && entries[i].0.Str? && ParseGiven(entries[i].0.text).Some?
    requires ParseGiven(entries[i].0.text).value !in Keys(schema)
    ensures !WrittenInputsParse(schema, entries, load)
  {
    KeyedByLookup(entries, entries[i].0.text);
  }

  /** No written input aborts when parsed. */
  predicate NoInputAborts(schema: Schema, entries: seq<(Value, Value)>, load: Loader)
    requires WellKeyed(schema)
  {
    forall j :: 0 <= j < |entries| && entries[j].0.Str? && ParseGiven(entries[j].0.text).Some? && Lookup(entries, entries[j].0).Some? ==>
      ParseGivenEntry(schema, entries[j].0.text, Lookup(entries, entries[j].0).value, load) != Err(Abort)
  }

  /** The comprehension over the entries collects what `CollectedFrom`
      describes. */
  lemma Collected(entries: seq<(Value, Value)>, keyed: Dict<string, Value>)
    requires GivenEntries(entries, []) == Ok(keyed)
    ensures CollectedFrom(entries, keyed)
  {
    GivenEntriesKeys(entries, [], keyed);
    GivenEntriesLast(entries, [], keyed);
  }

  /** When no written input aborts, a failing parse of the collected
      inputs is a validation error. */
  lemma FirstFailureInvalid(schema: Schema, entries: seq<(Value, Value)>, load: Loader, keyed: Dict<string, Value>)
    requires WellKeyed(schema) && CollectedFrom(entries, keyed)
    requires NoInputAborts(schema, entries, load) && ParseGivens(schema, keyed, load).Err?
    ensures ParseGivens(schema, keyed, load).error == Invalid
  {
    ParseGivensFirstFailure(schema, keyed, load);
    var e := ParseGivens(schema, keyed, load).error;
    var j :| FirstFailure(schema, keyed, load, j, e);
    assert ParseGivenEntry(schema, keyed[j].0, keyed[j].1, load) == Err(e);
    var i := KeyedIsWritten(entries, keyed, j);
    assert ParseGivenEntry(schema, entries[i].0.text, Lookup(entries, entries[i].0).value, load) != Err(Abort);
  }

  /** Each collected input is a written one, holding the value the loaded
      dict keeps for its key. */
  lemma KeyedIsWritten(entries: seq<(Value, Value)>, keyed: Dict<string, Value>, j: nat) returns (i: nat)
    requires CollectedFrom(entries, keyed) && j < |keyed|
    ensures i < |entries| && entries[i].0 == Str(keyed[j].0) && ParseGiven(keyed[j].0).Some?
    ensures Lookup(entries, entries[i].0) == Some(keyed[j].1)
  {
    var k := keyed[j].0;
    assert k in Keys(keyed);
    assert KeyedBy(entries, k);
    KeyedByLookup(entries, k);
    i :| 0 <= i < |entries| && entries[i].0 == Str(k);
    assert Get(keyed, k) == Some(keyed[j].1);
  }

  /** Each written input is a collected one, holding the value the loaded
      dict keeps for its key. */
  lemma WrittenIsKeyed(entries: seq<(Value, Value)>, keyed: Dict<string, Value>, i: nat) returns (j: nat)
    requires CollectedFrom(entries, keyed)
    requires i < |entries| && entries[i].0.Str? && ParseGiven(entries[i].0.text).Some?
    ensures j < |keyed| && keyed[j].0 == entries[i].0.text
    ensures Lookup(entries, entries[i].0) == Some(keyed[j].1)
  {
    var k := entries[i].0.text;
    assert KeyedBy(entries, k);
    KeyedByLookup(entries, k);
    assert k in Keys(keyed);
    j :| 0 <= j < |keyed| && keyed[j].0 == k;
    assert Get(keyed, k) == Some(keyed[j].1);
  }

  /** An input written for a mock does not replace the empty table the mock
      is backfilled with: the test holds both, the written one under its
      full `given "<name>"` key. */
  lemma OverrideBesideBackfill(code: string, schema: Schema, key: string, value: Value, load: Loader, i: nat, j: nat)
    requires WellKeyed(schema) && TestCaseFromItem(code, Ok(schema), key, value, load).Ok?
    requires value.Map? && i < |value.entries| && j < |schema|
    requires value.entries[i].0 == Str(FormatGiven(schema[j].0))
    ensures var given := TestCaseFromItem(code, Ok(schema), key, value, load).value.given;
      && FormatGiven(schema[j].0) in Keys(given)
      && Get(given, schema[j].0) == Some(TableGiven(Table([], schema[j].1.columns.value)))
  {
    ParseFormatGiven(schema[j].0);
  }

  /** The parsed inputs sit under `given "<name>"` keys, none of them a
      mock's name, each holding what parsing an entry under its key gave. */
  lemma ParsedInputs(schema: Schema, entries: seq<(Value, Value)>, load: Loader, keyed: Dict<string, Value>, parsed: Givens)
    requires WellKeyed(schema)
    requires GivenEntries(entries, []) == Ok(keyed)
    requires ParseGivens(schema, keyed, load) == Ok(parsed)
    ensures DistinctKeys(parsed)
    ensures forall i :: 0 <= i < |schema| ==> schema[i].0 !in Keys(parsed)
    ensures forall k :: k in Keys(parsed) ==> ParsedFrom(schema, entries, load, k, Get(parsed, k).value)
    ensures forall i :: 0 <= i < |entries| && entries[i].0.Str? && ParseGiven(entries[i].0.text).Some? ==> entries[i].0.text in Keys(parsed)
  {
    KeyedAreGiven(entries, keyed);
    KeyedFromEntries(entries, keyed);
    WrittenGivenKeys(entries, keyed);
    assert Keys(parsed) == Keys(keyed);
    NamesNotGiven(schema, Keys(parsed));
    ParsedValues(schema, entries, load, keyed, parsed);
  }

  /** Every kept key is a `given "<name>"` key. */
  lemma KeyedAreGiven(entries: seq<(Value, Value)>, keyed: Dict<string, Value>)
    requires GivenEntries(entries, []) == Ok(keyed)
    ensures forall k :: k in Keys(keyed) ==> ParseGiven(k).Some?
  {
    GivenEntriesKeys(entries, [], keyed);
  }

  /** Every kept key holds a value written under it. */
  lemma KeyedFromEntries(entries: seq<(Value, Value)>, keyed: Dict<string, Value>)
    requires GivenEntries(entries, []) == Ok(keyed)
    ensures forall k :: k in Keys(keyed) ==> WrittenUnder(entries, k, Get(keyed, k).value)
  {
    var none: Dict<string, Value> := [];
    GivenEntriesValues(entries, none, keyed);
    forall k | k in Keys(keyed)
      ensures WrittenUnder(entries, k, Get(keyed, k).value)
    {
      assert Get(keyed, k).Some? && Get(none, k).None?;
    }
  }

  /** Every `given "<name>"` key written in the entries is kept. */
  lemma WrittenGivenKeys(entries: seq<(Value, Value)>, keyed: Dict<string, Value>)
    requires GivenEntries(entries, []) == Ok(keyed)
    ensures forall i :: 0 <= i < |entries| && entries[i].0.Str? && ParseGiven(entries[i].0.text).Some? ==> entries[i].0.text in Keys(keyed)
  {
    forall i | 0 <= i < |entries| && entries[i].0.Str? && ParseGiven(entries[i].0.text).Some?
      ensures entries[i].0.text in Keys(keyed)
    {
      var k := entries[i].0.text;
      assert entries[i].0 == Str(k);
      GivenEntriesKeys(entries, [], keyed);
    }
  }

  /** No mock name is a `given "<name>"` key. */
  lemma NamesNotGiven(schema: Schema, keys: seq<string>)
    requires WellKeyed(schema)
    requires forall k :: k in keys ==> ParseGiven(k).Some?
    ensures forall i :: 0 <= i < |schema| ==> schema[i].0 !in keys
  {
    forall i | 0 <= i < |schema|
      ensures schema[i].0 !in keys
    {
      if schema[i].0 in keys {
        GivenKeyIsNotName(schema[i].0, schema[i].0);
      }
    }
  }

  /** Each parsed input holds what parsing an entry under its key gave. */
  lemma ParsedValues(schema: Schema, entries: seq<(Value, Value)>, load: Loader, keyed: Dict<string, Value>, parsed: Givens)
    requires WellKeyed(schema) && DistinctKeys(keyed)
    requires forall k :: k in Keys(keyed) ==> WrittenUnder(entries, k, Get(keyed, k).value)
    requires |parsed| == |keyed|
    requires forall i :: 0 <= i < |keyed| ==> parsed[i].0 == keyed[i].0 && ParseGivenEntry(schema, keyed[i].0, keyed[i].1, load) == Ok(parsed[i].1)
    ensures forall k :: k in Keys(parsed) ==> ParsedFrom(schema, entries, load, k, Get(parsed, k).value)
  {
    forall k | k in Keys(parsed)
      ensures ParsedFrom(schema, entries, load, k, Get(parsed, k).value)
    {
      var j :| 0 <= j < |parsed| && parsed[j].0 == k;
      ParsedEntry(schema, entries, load, keyed, parsed, j);
    }
  }

  /** Entry `j` of the parsed inputs is what parsing an entry under its key
      gave. */
  lemma ParsedEntry(schema: Schema, entries: seq<(Value, Value)>, load: Loader, keyed: Dict<string, Value>, parsed: Givens, j: nat)
    requires WellKeyed(schema) && DistinctKeys(keyed)
    requires forall k :: k in Keys(keyed) ==> WrittenUnder(entries, k, Get(keyed, k).value)
    requires |parsed| == |keyed| && j < |parsed|
    requires forall i :: 0 <= i < |keyed| ==> parsed[i].0 == keyed[i].0 && ParseGivenEntry(schema, keyed[i].0, keyed[i].1, load) == Ok(parsed[i].1)
    ensures ParsedFrom(schema, entries, load, parsed[j].0, Get(parsed, parsed[j].0).value)
  {
    var k := parsed[j].0;
    assert Keys(parsed) == Keys(keyed);
    assert Get(parsed, k) == Some(parsed[j].1);
    assert Get(keyed, k) == Some(keyed[j].1);
    var i :| 0 <= i < |entries| && entries[i] == (Str(k), keyed[j].1);
    assert ParseGivenEntry(schema, k, entries[i].1, load) == Ok(parsed[j].1);
  }

  /** Backfilling keeps the keys distinct. */
  lemma {:induction false} BackfillDistinct(ms: Schema, given: Givens)
    requires DistinctKeys(ms) && DistinctKeys(given) && Backfill(ms, given).Ok?
    ensures DistinctKeys(Backfill(ms, given).value)
    decreases |ms|
  {
    if |ms| > 0 {
      DistinctTail(ms);
      var (k, m) := ms[0];
      if k in Keys(given) {
        BackfillDistinct(ms[1..], given);
      } else {
        BackfillDistinct(ms[1..], Put(given, k, TableGiven(EmptyMockTable(m).value)));
      }
    }
  }

  /** One pass of the `test_cases` loop: a key without the test marker is
      passed over, and so is an entry whose construction raises a
      ValueError; any other failure escapes the loop. A key that is not a
      string makes the marker test itself fail. */
  function EntryTest(code: string, schema: Result<Schema>, key: Value, value: Value, load: Loader): (r: Result<Option<TestCase>>)
    requires schema.Ok? ==> WellKeyed(schema.value)
    ensures r.Err? ==> r.error == Abort
    ensures !key.Str? ==> r == Err(Abort)
    ensures key.Str? && !Contains(key.text, TestMarker) ==> r == Ok(None)
    ensures key.Str? && Contains(key.text, TestMarker) ==>
      match TestCaseFromItem(code, schema, key.text, value, load)
      case Ok(t) => r == Ok(Some(t))
      case Err(e) => r == if e == Invalid then Ok(None) else Err(Abort)
  {
    if !key.Str? then Err(Abort)
    else if !Contains(key.text, TestMarker) then Ok(None)
    else
      match TestCaseFromItem(code, schema, key.text, value, load)
      case Ok(t) => Ok(Some(t))
      case Err(e) => if e == Invalid then Ok(None) else Err(Abort)
  }

  /** What each pass of the `test_cases` loop gives, in order. */
  function CaseResults(code: string, schema: Result<Schema>, entries: seq<(Value, Value)>, load: Loader): (r: seq<Result<Option<TestCase>>>)
    requires schema.Ok? ==> WellKeyed(schema.value)
    ensures |r| == |entries|
    ensures forall i :: 0 <= i < |entries| ==> r[i] == EntryTest(code, schema, entries[i].0, entries[i].1, load)
  {
    Apply(Pass(code, schema, load), entries)
  }

  /** One pass of the `test_cases` loop, as a function of its entry. */
  function Pass(code: string, schema: Result<Schema>, load: Loader): (f: ((Value, Value)) -> Result<Option<TestCase>>)
    requires schema.Ok? ==> WellKeyed(schema.value)
    ensures forall e :: f(e) == EntryTest(code, schema, e.0, e.1, load)
  {
    (e: (Value, Value)) => EntryTest(code, schema, e.0, e.1, load)
  }

  /** Gathering the passes in order: the first failure escapes, and
      otherwise every test case found is kept. */
  function GatherCases(results: seq<Result<Option<TestCase>>>): (r: Result<seq<TestCase>>)
    ensures r.Err? <==> exists i :: 0 <= i < |results| && results[i].Err?
    ensures r.Err? ==> exists i :: 0 <= i < |results| && results[i] == Err(r.error)
    decreases |results|
  {
    if |results| == 0 then Ok([])
    else
      assert forall i :: 1 <= i < |results| ==> results[i] == results[1..][i - 1];
      match results[0]
      case Err(e) => Err(e)
      case Ok(found) =>
        match GatherCases(results[1..])
        case Err(e) => Err(e)
        case Ok(rest) =>
          if found.Some? then Ok([found.value] + rest) else Ok(rest)
  }

  /** Gathering keeps at most one test case per pass, and keeps exactly
      those the passes found. */
  lemma {:induction false} GatherMembers(results: seq<Result<Option<TestCase>>>)
    requires GatherCases(results).Ok?
    ensures |GatherCases(results).value| <= |results|
    ensures forall t :: t in GatherCases(results).value <==> exists i :: 0 <= i < |results| && results[i] == Ok(Some(t))
    decreases |results|
  {
    if |results| > 0 {
      var tail := results[1..];
      GatherMembers(tail);
      var r := GatherCases(results).value;
      var rest := GatherCases(tail).value;
      var found := results[0].value;
      assert r == if found.Some? then [found.value] + rest else rest;
      forall t ensures t in r <==> exists i :: 0 <= i < |results| && results[i] == Ok(Some(t))
      {
        if exists i :: 0 <= i < |tail| && tail[i] == Ok(Some(t)) {
          var i :| 0 <= i < |tail| && tail[i] == Ok(Some(t));
          assert results[i + 1] == tail[i];
        }
        if exists i :: 0 <= i < |results| && results[i] == Ok(Some(t)) {
          var i :| 0 <= i < |results| && results[i] == Ok(Some(t));
          if i > 0 {
            assert tail[i - 1] == results[i];
          }
        }
      }
    }
  }

  /** Gathering is a homomorphism: the passes of `a + b` gather to the
      cases of `a` followed by those of `b`, and succeed exactly when both
      halves do. */
  lemma {:induction false} GatherAppend(a: seq<Result<Option<TestCase>>>, b: seq<Result<Option<TestCase>>>)
    ensures GatherCases(a + b).Ok? <==> GatherCases(a).Ok? && GatherCases(b).Ok?
    ensures GatherCases(a + b).Ok? ==> GatherCases(a + b).value == GatherCases(a).value + GatherCases(b).value
    decreases |a|
  {
    if |a| == 0 {
      assert a + b == b;
    } else {
      var ab := a + b;
      assert ab[0] == a[0];
      assert ab[1..] == a[1..] + b;
      GatherAppend(a[1..], b);
      if ab[0].Ok? && GatherCases(ab).Ok? {
        var found := a[0].value;
        var x := GatherCases(a[1..]).value;
        var y := GatherCases(b).value;
        if found.Some? {
          assert [found.value] + (x + y) == [found.value] + x + y;
        }
      }
    }
  }

  /** A single pass gathers to the case it found, if any. */
  lemma GatherOne(o: Result<Option<TestCase>>)
    ensures GatherCases([o]) == match o
      case Err(e) => Err(e)
      case Ok(None) => Ok([])
      case Ok(Some(t)) => Ok([t])
  {
    assert [o][1..] == [];
    assert GatherCases([o][1..]) == Ok([]);
    if o.Ok? && o.value.Some? {
      assert [o.value.value] + [] == [o.value.value];
    }
  }

  /** The `test_cases` loop over the annotation entries. It aborts exactly
      when some entry aborts; otherwise it keeps, in order, the test cases
      the entries build. */
  function CollectCases(code: string, schema: Result<Schema>, entries: seq<(Value, Value)>, load: Loader): (r: Result<seq<TestCase>>)
    requires schema.Ok? ==> WellKeyed(schema.value)
    ensures r.Err? ==> r.error == Abort
    ensures r.Err? <==> exists i :: 0 <= i < |entries| && EntryTest(code, schema, entries[i].0, entries[i].1, load).Err?
  {
    GatherCases(CaseResults(code, schema, entries, load))
  }

  /** The loop keeps at most one test case per entry, and keeps exactly
      those the entries build. */
  lemma CollectCasesMembers(code: string, schema: Result<Schema>, entries: seq<(Value, Value)>, load: Loader)
    requires schema.Ok? ==> WellKeyed(schema.value)
    requires CollectCases(code, schema, entries, load).Ok?
    ensures |CollectCases(code, schema, entries, load).value| <= |entries|
    ensures forall t :: t in CollectCases(code, schema, entries, load).value <==>
      exists i :: 0 <= i < |entries| && EntryTest(code, schema, entries[i].0, entries[i].1, load) == Ok(Some(t))
  {
    GatherMembers(CaseResults(code, schema, entries, load));
  }

  /** The loop over `e1 + e2` keeps the test cases of `e1`, in order,
      followed by those of `e2`. */
  lemma CollectCasesAppend(code: string, schema: Result<Schema>, e1: seq<(Value, Value)>, e2: seq<(Value, Value)>, load: Loader)
    requires schema.Ok? ==> WellKeyed(schema.value)
    ensures CollectCases(code, schema, e1 + e2, load).Ok? <==>
      CollectCases(code, schema, e1, load).Ok? && CollectCases(code, schema, e2, load).Ok?
    ensures CollectCases(code, schema, e1 + e2, load).Ok? ==>
      CollectCases(code, schema, e1 + e2, load).value == CollectCases(code, schema, e1, load).value + CollectCases(code, schema, e2, load).value
  {
    ApplyAppend(Pass(code, schema, load), e1, e2);
    GatherAppend(CaseResults(code, schema, e1, load), CaseResults(code, schema, e2, load));
  }

  /** The loop over one entry keeps the test case it declares, if any. */
  lemma CollectCasesOne(code: string, schema: Result<Schema>, e: (Value, Value), load: Loader)
    requires schema.Ok? ==> WellKeyed(schema.value)
    ensures CollectCases(code, schema, [e], load) == match EntryTest(code, schema, e.0, e.1, load)
      case Err(err) => Err(err)
      case Ok(None) => Ok([])
      case Ok(Some(t)) => Ok([t])
  {
    var results := CaseResults(code, schema, [e], load);
    assert results == [EntryTest(code, schema, e.0, e.1, load)];
    GatherOne(results[0]);
  }

  /** `SQLUnitSource.test_cases`: the test cases declared in the
      annotations of source text `code`. The annotation document must be a
      mapping; the mock schema is that of the same text. */
  function TestCasesOf(code: string, load: Loader): (r: Result<seq<TestCase>>)
    ensures r.Err? ==> r.error == Abort
    ensures !Annotations.CommentsObj(code, load).Map? ==> r == Err(Abort)
    ensures Annotations.GetComments(code) == "" ==> r == Ok([])
  {
    var doc := Annotations.CommentsObj(code, load);
    if !doc.Map? then Err(Abort)
    else CollectCases(code, FromTemplate(code, load), doc.entries, load)
  }

  /** Test case `t` is what the annotation entry `e` of `code` declares,
      read against `schema`. */
  predicate Declared(code: string, schema: Result<Schema>, load: Loader, e: (Value, Value), t: TestCase)
    requires schema.Ok? ==> WellKeyed(schema.value)
  {
    && e.0.Str?
    && Contains(e.0.text, TestMarker)
    && TestCaseFromItem(code, schema, e.0.text, e.1, load) == Ok(t)
  }

  /** The loop keeps exactly the test cases its entries declare and build,
      and each belongs to the source it was read from. */
  lemma CollectedDeclared(code: string, schema: Result<Schema>, entries: seq<(Value, Value)>, load: Loader)
    requires schema.Ok? ==> WellKeyed(schema.value)
    requires CollectCases(code, schema, entries, load).Ok?
    ensures forall t :: t in CollectCases(code, schema, entries, load).value <==>
      exists i :: 0 <= i < |entries| && Declared(code, schema, load, entries[i], t)
    ensures forall t :: t in CollectCases(code, schema, entries, load).value ==> t.code == code
  {
    CollectCasesMembers(code, schema, entries, load);
    forall t, i | 0 <= i < |entries|
      ensures Declared(code, schema, load, entries[i], t) <==> EntryTest(code, schema, entries[i].0, entries[i].1, load) == Ok(Some(t))
    {
    }
  }

  /** The test cases of a source are exactly those its annotation entries
      declare and build against the source's own mock schema. */
  lemma TestCasesDeclared(code: string, load: Loader)
    requires TestCasesOf(code, load).Ok?
    ensures Annotations.CommentsObj(code, load).Map?
    ensures var entries := Annotations.CommentsObj(code, load).entries;
      forall t :: t in TestCasesOf(code, load).value <==> exists i :: 0 <= i < |entries| && Declared(code, FromTemplate(code, load), load, entries[i], t)
  {
    CollectedDeclared(code, FromTemplate(code, load), Annotations.CommentsObj(code, load).entries, load);
  }
}
