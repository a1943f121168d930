# sql-unit core in Dafny

sql-unit writes unit tests for Jinja-templated SQL inside the SQL file
itself. The tests live in block comments tagged `# sql-unit`. Those
annotations form a YAML document with two kinds of entry:

- mock declarations, `sql-unit.mock "<name>"`, each with a type and, for a
  table mock, its columns;
- test cases, `sql-unit.test "<name>"`, each holding an `expected` pipe
  table and `given "<mock>"` inputs.

A test case compiles to a query. Every given table becomes a CTE (common
table expression) of unioned `select`s, and each table mock's template
variable is bound to that CTE's alias.

This project models that pipeline as pure functions and proves properties
of it. Each file holds one module:

- `annotations.dfy` extracts the tagged comment blocks, normalises them
  and loads them.
- `identifiers.dfy` models the two key patterns.
- `mock_types.dfy` models the mock type enum and its default literals.
- `utils.dfy` renders values as SQL literals and Python classes as SQL type
  names.
- `mocks.dfy` builds mock records and the mock schema of a template.
- `tables.dfy` models `YAMLTable`: pipe-table parsing, the validator, the
  empty mock table and the unioned selects. Its second module,
  `TableExamples`, replays a unit test's table.
- `test_cases.dfy` builds a test case from its entry, backfills missing
  inputs and collects all test cases of a source.
- `compile.dfy` models `compile` up to the template engine (module
  `Compiler`). Its second module, `CompileExamples`, replays part of a unit
  test's expected output.

Support modules: `wrappers.dfy` (`Option`, `Result`), `strings.dfy`
(Python `str` helpers: `strip`, `find`, `split`, `splitlines`, `join`),
`dicts.dfy` (insertion-ordered dicts as lists of pairs) and `values.dfy`
(loaded YAML values).

Python exceptions collapse into two kinds:

- `Invalid` stands for `ValueError` and pydantic's `ValidationError`. The
  per-entry loops skip an entry that fails this way.
- `Abort` stands for `AssertionError`, `TypeError`, `IndexError`,
  `AttributeError` and a YAML error while loading a table cell. These
  escape the loops.

Three external pieces become parameters:

- `load: string -> Option<Value>` stands for `yaml.safe_load`. `None` is a
  YAML error.
- `render: (string, Givens) -> string` stands for the Jinja environment's
  `from_string(...).render(...)`.
- The match of `compile`'s leading-`with` pattern is given as the length
  of the text it matched (`Option<nat>`).

## Model

| member | source | states |
|---|---|---|
| `Utils.NativeToSql` | sql_unit/utils.py:4-17 | Succeeds exactly on values with no dict anywhere inside, and otherwise fails by aborting. A string becomes its text in single quotes, unescaped. An int becomes its decimal text, a float its printed form, and `None` becomes `null`. A list becomes `[`, its elements' texts joined by `, `, then `]`. A bool prints as `True`/`False`, because the `(int, float)` test catches it before the bool branch. |
| `Utils.RenderItems` | sql_unit/utils.py:12-13 | A list renders only when every element does, giving one text per element: the i-th text is what `native_to_sql` gives for the i-th element. |
| `Utils.EmptyListLiteral` | sql_unit/utils.py:12-13 | The empty list renders as `[]`. |
| `Utils.MixedListLiteral` | sql_unit/utils.py:6-13 | The list `[7, "a", None]` renders as `[7, 'a', null]`: each element by its own branch, separated by `, `. |
| `Utils.IntLiteralRoundTrip` | sql_unit/utils.py:8-9 | The text of any int reads back as that int: digits giving its magnitude, after a `-` exactly when it is negative. |
| `Utils.StringLiteralRoundTrip` | sql_unit/utils.py:6-7 | A string with no quote character renders to a literal that a SQL reader reads back as the same string. |
| `Utils.QuoteNotEscaped` | sql_unit/utils.py:6-7 | An embedded quote is not escaped: the literal rendered for `it's` does not read back as `it's`. |
| `Utils.NativeToSqlTypedef` | sql_unit/utils.py:20-35 | Succeeds for every class except `dict`. Each type name it gives reads back as the class it came from, so distinct classes get distinct names. |
| `Utils.SqlTypeNameRoundTrip` | sql_unit/utils.py:20-35 | The converse: every SQL type name in the table is what its class renders to. |
| `MockTypes.ParseMockType` | sql_unit/types.py:5-16 | The enum accepts exactly the seven member values, and each reads back as the member it names. |
| `MockTypes.NameRoundTrip` | sql_unit/types.py:10-16 | Every member's value parses back to that member. |
| `MockTypes.DefaultFactory` | sql_unit/types.py:18-30 | A table mock defaults to its CTE alias (`<name>_table`) in double quotes, and a str mock to its name in double quotes. A mapping defaults to `{}`, a sequence to `[]`, an int to `0`, a float to `0.0` and a bool to `false`. |
| `MockTypes.FactoryIgnoresName` | sql_unit/types.py:21-29 | The five factories other than table and str give the same literal for every name. |
| `MockTypes.FactoryKeepsName` | sql_unit/types.py:22-27 | The table and str factories are injective in the name. |
| `Identifiers.ParseKey` | sql_unit/model.py:17-19 | A matched declaration key has a non-empty, newline-free kind and an identifier from `[A-Za-z0-9_.-]+`. The key is exactly `sql-unit.<kind> "<identifier>"`, possibly followed by one newline that `$` accepts. |
| `Identifiers.ParseFormatKey` | sql_unit/model.py:17-19 | Printing a declaration key and matching it gives back its kind and identifier, with or without a final newline. |
| `Identifiers.ParseGiven` | sql_unit/model.py:20 | A matched input key is exactly `given "<name>"`, possibly followed by a newline, and the name is an identifier. |
| `Identifiers.ParseFormatGiven` | sql_unit/model.py:20 | Printing an input key and matching it gives back the name. |
| `Identifiers.GivenKeyIsNotName` | sql_unit/model.py:266-270 | No input key is a bare identifier, so no input key equals a mock's name. |
| `Annotations.Gather` | sql_unit/annotations.py:10-21 | The concatenated comment document is empty exactly when no block is kept. |
| `Annotations.BlocksCons` | sql_unit/annotations.py:10-16 | Whatever text without an opening marker comes first, the first comment is one block and the scan resumes after its closing marker. |
| `Annotations.BlocksNone` | sql_unit/annotations.py:10 | Text without an opening marker holds no block. |
| `Annotations.BlocksUnterminated` | sql_unit/annotations.py:12-14 | An opening marker with no closing marker after it ends the scan, whatever text precedes it, and nothing after it is read. |
| `Annotations.DisabledBlockIgnored` | sql_unit/annotations.py:17 | A block holding `# sql-unit.disabled` adds nothing to the document, although it also holds `# sql-unit`, wherever it stands in the text. |
| `Annotations.TaggedBlockKept` | sql_unit/annotations.py:17-18 | A kept block adds its body with every tag removed, plus a newline, ahead of what the rest of the text adds, whatever SQL text precedes it. |
| `Annotations.TwoTaggedBlocks` | tests/unit/test_annotations.py:12-38 | Two tagged comments separated by SQL text contribute their tag-free bodies in order, each followed by a newline, as in the unit test's template. |
| `Annotations.NonBlank` | sql_unit/annotations.py:24 | Keeps exactly the lines that have a non-whitespace character, and nothing else. |
| `Annotations.NonBlankOne` | sql_unit/annotations.py:24 | A single line is kept exactly when it has text. |
| `Annotations.NonBlankAppend` | sql_unit/annotations.py:24 | The filter distributes over append, so the kept lines keep their order and multiplicity. |
| `Annotations.MinIndent` | sql_unit/annotations.py:27 | The indentation of some line, and at most that of every line. |
| `Annotations.Normalize` | sql_unit/annotations.py:22-30 | The output lines correspond one to one with the non-blank input lines. Each is its input line minus exactly the common indentation, with trailing whitespace trimmed. None is blank or ends in whitespace, and some line starts at column 0. |
| `Annotations.NormalizeIdempotent` | sql_unit/annotations.py:22-30 | Normalising normalised text changes nothing. |
| `Annotations.GetComments` | sql_unit/annotations.py:6-31 | Empty when no block is kept. Otherwise the output lines correspond one to one with the non-blank lines of the concatenated blocks, each dedented by their common indentation and right-stripped, joined by newlines. No output line is blank or ends in whitespace, and one line has no indentation. |
| `Annotations.CommentsObj` | sql_unit/annotations.py:34-44 | An empty mapping when there are no annotations or they fail to load. Otherwise the document loaded from the normalised annotation text. |
| `Values.Lookup` | sql_unit/model.py:264-265 | Finds the last entry under the key, as a loaded dict holds it, and finds nothing exactly when no entry has the key. |
| `Mocks.NewMock` | sql_unit/model.py:36-56 | Aborts exactly when the value cannot be expanded as keywords: it is not a mapping, it has a non-string key, or it has a `name` key. A built mock carries the key's name, passes the validator, and has the type written under `type`. |
| `Mocks.Validate` | sql_unit/model.py:26-41 | Field validation fails only with a validation error. A built mock is valid, its type is the one written, and its columns have distinct names. |
| `Mocks.MockRoundTrip` | sql_unit/model.py:23-56 | Declaring a valid mock as an annotation mapping and building it gives the same mock back. |
| `Mocks.TableNeedsColumns` | sql_unit/model.py:39-40 | A table declaration without columns, or with null columns, fails validation with the error the schema loop skips. |
| `Mocks.MockFromItem` | sql_unit/model.py:43-56 | A non-matching key fails validation, and a key of another kind than `mock` aborts. A built mock's name is the key's identifier. |
| `Mocks.EntryMock` | sql_unit/model.py:76-83 | A non-string key aborts. Unmarked entries and validation failures are skipped. Any mock found is what `from_yaml_item` builds. |
| `Mocks.Collect` | sql_unit/model.py:75-84 | The loop aborts exactly when some entry aborts. Otherwise the schema stays well keyed, and its names are exactly those some entry declares. Their order is fixed by `CollectOrder`. |
| `Mocks.CollectLast` | sql_unit/model.py:79-81 | The mock stored under a name is the one the last entry declaring that name builds. |
| `Mocks.FoundNames` | sql_unit/model.py:80-81 | The names of the mocks the turns found, in turn order: a name is listed exactly when some turn found a mock of that name. |
| `Mocks.GatherOrder` | sql_unit/model.py:79-81 | The keys after the loop are the starting keys followed by each newly found name, once, at its first finding: a dict keeps the position of a key it already holds. |
| `Mocks.DeclaredNames` | sql_unit/model.py:76-83 | The names declared by the entries, in entry order: a name is listed exactly when some entry declares it. |
| `Mocks.DeclaredNamesCons` | sql_unit/model.py:76-83 | The first entry's declared name, if it declares one, precedes those of the later entries. |
| `Mocks.CollectOrder` | sql_unit/model.py:75-84 | The schema's keys are the starting keys followed by the declared names, each at its first declaration, in entry order. |
| `Mocks.SchemaFromDocument` | sql_unit/model.py:68-84 | A document that is not a mapping aborts. A schema maps each declared name, and only those, to a valid mock of that name. Its key order is fixed by `SchemaOrder`. |
| `Mocks.SchemaLastDeclaration` | sql_unit/model.py:74-84 | A name declared more than once holds the mock of its last declaration. |
| `Mocks.SchemaOrder` | sql_unit/model.py:74-84 | The schema's keys are the declared names in the order of their first declaration, each once. |
| `Mocks.SchemaRoundTrip` | sql_unit/model.py:68-84 | Declaring mocks with distinct names and reading the document back gives exactly those mocks, in declaration order. |
| `Mocks.MockOf` | sql_unit/model.py:117-119 | Finds a mock exactly for the schema's names, and the mock found carries that name and is valid. |
| `Tables.NewTable` | sql_unit/model.py:138-148 | Succeeds exactly when there are columns and every row has exactly the column names as keys. The other outcome is a validation error. |
| `Tables.EmptyMockTable` | sql_unit/model.py:150-153 | Succeeds exactly for a mock with a non-empty column schema, giving no rows under those columns. |
| `Tables.CellsPipeLine` | sql_unit/model.py:165 | Reading the cells of a written pipe line gives them back. |
| `Tables.Annotation` | sql_unit/model.py:167 | Empty without `::`. A non-empty annotation is the stripped text after the first `::`. |
| `Tables.HeaderAnnotationsGet` | sql_unit/model.py:166-172 | The annotation dict maps each header cell with a non-empty annotation to that annotation, and holds nothing else. |
| `Tables.LoadCells` | sql_unit/model.py:181 | Succeeds exactly when every cell loads, giving each cell's loaded value in order. |
| `Tables.ParseRow` | sql_unit/model.py:181-182 | Fails only by aborting. A row's keys are the header cells up to the shorter of header and line, as `zip` pairs them. |
| `Tables.ParseRowLoads` | sql_unit/model.py:181-182 | A line parses exactly when each of its paired cells loads. The value under each header cell is its own cell, loaded; when a header cell repeats, the last pairing wins. |
| `Tables.RowFrom` | sql_unit/model.py:182 | The dict comprehension over `zip`: keys are the paired header cells in order, each holding the value of its last pairing. |
| `Tables.ParseRows` | sql_unit/model.py:177-183 | Fails only by aborting, and succeeds exactly when every non-blank body line parses. Then it gives one row per non-blank line, in order, each the row that line parses to. |
| `Tables.InferSchema` | sql_unit/model.py:185-190 | Aborts exactly when a first-row value is a dict. Otherwise every column's type names the class of its first-row value. |
| `Tables.StringSchema` | sql_unit/model.py:191-192 | Types every header cell, and only those, as `string`. |
| `Tables.BaseSchema` | sql_unit/model.py:184-192 | Uses the given schema, else the first row's types, else all `string`. Only inference aborts. |
| `Tables.FromString` | sql_unit/model.py:155-194 | A non-string value aborts. A blank text and a bad separator line fail validation, and a one-line text aborts. A built table is valid, its rows are those the body lines parse to, and each header annotation is that column's type. Every other column has the type the schema resolution gives. The column order is fixed by `FromStringColumnOrder`. |
| `Tables.FromStringColumnTypes` | sql_unit/model.py:184-193 | Read without a schema, an unannotated column has the type of its first-row value, and in a table without rows every header cell is typed `string`. |
| `Tables.FromStringColumnOrder` | sql_unit/model.py:166-193 | The columns are the resolved schema's keys followed by the annotated header cells it lacks, in header order; with a given schema, that schema's keys come first in its own order. |
| `Tables.RowFromOrder` | sql_unit/model.py:182 | A row's keys are the paired header cells in header order, a repeated cell at its first position. |
| `Tables.ParseRowOrder` | sql_unit/model.py:181-182 | A parsed row's keys are the first `RowWidth` header cells in header order, each once. |
| `Tables.FromStringRowOrder` | sql_unit/model.py:177-192 | Read without a schema, the table's columns have the same keys in the same order as each of its rows. |
| `Tables.RenderRow` | sql_unit/model.py:201-203 | Succeeds exactly when every value renders, giving each value's SQL text in order. |
| `Tables.Casts` | sql_unit/model.py:204-209 | The j-th cast pairs the j-th value with the j-th schema type, up to the shorter of row and schema. |
| `Tables.SelectRows` | sql_unit/model.py:199-211 | Succeeds exactly when every row's select does, giving one select per row in order. |
| `Tables.NullCasts` | sql_unit/model.py:213-220 | One typed `null` cast per column, in schema order. |
| `Tables.AsUnionedSelects` | sql_unit/model.py:196-220 | Aborts exactly when some cell cannot be written as SQL. A table with rows gives one casting select per row, in order, joined by `union all`. A table without rows gives a select of typed nulls ending in `where false`. |
| `TableExamples.TwoRowSelects` | tests/unit/test_model.py:29-54 | The two-row table of the unit test gives the two casting selects joined by `union all`. |
| `TableExamples.SwappedRead` | sql_unit/model.py:155-194 | A one-row table whose header lists `b` before `a`, read against columns declaring `a` before `b`, keeps the header's order in its row and the columns' order in its schema. |
| `TableExamples.SwappedSelect` | sql_unit/model.py:199-211 | The select of such a table pairs the row's first value, under `b`, with the type of `a`, and its second value, under `a`, with the type of `b`: `zip` pairs by position, not by name. |
| `TableExamples.NameIdCasts` | sql_unit/model.py:155-211 | A table whose header cells are `name` then `id`, with the one row `foo`, `1`, read against the mock columns `{id: int, name: string}`, selects `cast('foo' as int) as name, cast(1 as string) as id`: each value is cast to the type of the other column. |
| `TestCases.ParseGivenEntry` | sql_unit/model.py:239-251 | Fails validation for a non-matching key or an unknown mock. A table mock's input is valid exactly when it parses as a table against the mock's columns. Any other known mock's input always succeeds and is kept as loaded. |
| `TestCases.GivenEntries` | sql_unit/model.py:266 | The comprehension aborts exactly when some key is not a string. Otherwise its keys stay distinct. Their order is fixed by `GivenEntriesOrder`. |
| `TestCases.GivenStep` | sql_unit/model.py:266 | One step keeps every earlier key and adds the entry's key exactly when it matches the input pattern, storing the entry's value. |
| `TestCases.GivenEntriesKeys` | sql_unit/model.py:266 | The keys kept are exactly the matching string keys of the entries. |
| `TestCases.GivenEntriesValues` | sql_unit/model.py:266 | Every value kept is the one in the starting dict or one written under its key in some entry. |
| `TestCases.GivenEntriesLast` | sql_unit/model.py:266 | A key that appears more than once holds the value of its last entry, as the dict built by the comprehension does. |
| `TestCases.GivenKeys` | sql_unit/model.py:266 | The string keys matching the input pattern, in entry order: a key is listed exactly when it matches and some entry has it. |
| `TestCases.GivenEntriesOrder` | sql_unit/model.py:266 | The dict's keys are the starting keys followed by the matching keys in the order of their first entry, each once. |
| `TestCases.CollectGivens` | sql_unit/model.py:267 | Succeeds exactly when every result succeeded, pairing each key with its value in order. A failure is the error of the first failed result. |
| `TestCases.ParseGivens` | sql_unit/model.py:267 | Succeeds exactly when every input parses, keeping keys and order, with each value what its entry parses to. |
| `TestCases.ParseGivensFirstFailure` | sql_unit/model.py:267 | A failure is the error of the first input that fails. |
| `TestCases.Backfill` | sql_unit/model.py:268-270 | Fails exactly when some mock missing from the inputs has no usable columns, and then with a validation error. The result extends the inputs, keeps their values, and adds exactly the missing mock names, each with an empty table under its columns. |
| `TestCases.BackfillOrder` | sql_unit/model.py:268-270 | The keys after backfilling are the written keys followed by the missing mock names, in schema order. |
| `TestCases.BackfillDistinct` | sql_unit/model.py:268-270 | Backfilling keeps the keys distinct. |
| `TestCases.TestCaseFromItem` | sql_unit/model.py:253-276 | A key that does not match, or names another kind than `test`, fails validation. A non-mapping value, or one without `expected`, aborts. A built test case has the key's identifier as its name, keeps the source text, and has as `expected` the table read from the entry without a schema. Its inputs satisfy `Inputs`. |
| `TestCases.TestCaseBuilt` | sql_unit/model.py:253-276 | For a `test` key whose mapping has `expected`, the test case is built exactly when all of these hold. The expected table reads without a schema. Every key of the mapping is a string. The schema reads. Every written `given "<name>"` input parses, taken at its last value. Every mock has columns for its empty table. |
| `TestCases.KeyedInputsParse` | sql_unit/model.py:264-267 | Parsing the collected inputs succeeds exactly when every written `given "<name>"` input, taken at its last value, parses. |
| `TestCases.BackfillParsed` | sql_unit/model.py:267-270 | After the inputs parse, the backfill succeeds exactly when every mock of the schema has columns. No input key is a mock's name, so every mock is backfilled. |
| `TestCases.CaseStopsAtInputs` | sql_unit/model.py:264-267 | Once the expected table, the keys and the schema read, a failing input parse is the test case's error. |
| `TestCases.UnknownMockInvalid` | sql_unit/model.py:245-248 | An input naming a mock the schema lacks stops the test case once the expected table, the keys and the schema read. The error is a validation error unless some written input aborts. |
| `TestCases.UnknownInputStops` | sql_unit/model.py:245-248 | With a written input for a mock the schema lacks, parsing the collected inputs fails. The error is a validation error unless some written input aborts. |
| `CompileExamples.TestCaseOne` | tests/unit/test_model.py:106-137 | The test `test_case_1` declares only `expected`. It is built with that name and the expected table. Its one input is the empty table of mock `mysrc`, with columns `id` and `name`. |
| `TestCases.InputsOfItem` | sql_unit/model.py:264-270 | `Inputs` holds of the built inputs: every schema mock has an empty table under its bare name. Every other key holds what parsing an entry under it gives. Every written `given` key is present. |
| `TestCases.OverrideBesideBackfill` | sql_unit/model.py:266-270 | An input written for a mock does not replace its backfilled empty table. Both are present, the written one under its full `given "<name>"` key. |
| `TestCases.EntryTest` | sql_unit/model.py:106-114 | A non-string key aborts, and unmarked keys are skipped. A test-case failure is skipped when it is a validation error and aborts otherwise. |
| `TestCases.GatherCases` | sql_unit/model.py:104-115 | The loop fails exactly when some pass fails, and then with the error of a failing pass. |
| `TestCases.GatherMembers` | sql_unit/model.py:104-115 | At most one test case is kept per pass, and exactly the cases the passes found are kept. |
| `TestCases.GatherAppend` | sql_unit/model.py:104-115 | Gathering the passes of `a + b` gives the cases of `a` followed by those of `b`, and succeeds exactly when both halves do. |
| `TestCases.GatherOne` | sql_unit/model.py:106-114 | A single pass gathers to its error, to nothing, or to the one case it found. |
| `TestCases.CollectCases` | sql_unit/model.py:104-115 | The loop aborts exactly when some entry aborts. |
| `TestCases.CollectCasesMembers` | sql_unit/model.py:104-115 | The loop keeps at most one test case per entry, and exactly those the entries build. |
| `TestCases.CollectCasesAppend` | sql_unit/model.py:104-115 | The loop over `e1 + e2` keeps the cases of `e1`, in entry order, followed by those of `e2`. |
| `TestCases.CollectCasesOne` | sql_unit/model.py:106-114 | The loop over one entry keeps the test case that entry declares and builds, if any. |
| `TestCases.TestCasesOf` | sql_unit/model.py:102-115 | A non-mapping annotation document aborts, and a source without annotations has no test cases. |
| `TestCases.CollectedDeclared` | sql_unit/model.py:104-115 | The cases kept are exactly those some entry declares and builds, and each carries the source's text. |
| `TestCases.TestCasesDeclared` | sql_unit/model.py:102-115 | A source's test cases are exactly those its annotation entries declare and build against the source's own mock schema. |
| `Compiler.TableInputs` | sql_unit/model.py:289-293 | Keeps exactly the table-valued inputs. |
| `Compiler.TableInputsAppend` | sql_unit/model.py:289-293 | The filter keeps each input in place, independently of the others. |
| `Compiler.Fragments` | sql_unit/model.py:289-291 | Succeeds exactly when every table's selects can be written. Each CTE is `<key>_table as (<selects>)`, in input order. |
| `Compiler.WithClause` | sql_unit/model.py:294-298 | Empty without CTEs. Otherwise it starts with `with ` and the first CTE, a second CTE follows the first after `, `, and it ends with the last CTE, followed by `,` and a newline exactly when a leading `with` was matched. The whole text is fixed by `WithClauseOne` and `WithClauseCons`. |
| `Compiler.WithClauseOne` | sql_unit/model.py:294-298 | One CTE gives `with `, that CTE, and `,` plus a newline exactly when a leading `with` was matched. |
| `Compiler.WithClauseCons` | sql_unit/model.py:295 | With two or more CTEs the clause is `with `, the first CTE, `, ` and the clause of the remaining CTEs without its `with `: every CTE appears once, in order, separated by `, `. |
| `Compiler.TwoTablesClause` | sql_unit/model.py:294-298 | Two CTEs give `with <first>, <second>`, plus `,` and a newline when a leading `with` was matched. |
| `Compiler.WithClauseEnding` | sql_unit/model.py:294-298 | The clause ends with `,` and a newline exactly when a leading `with` was removed. Otherwise it ends with the last CTE's `)`. |
| `Compiler.Remainder` | sql_unit/model.py:284-286 | The query text without the matched leading `with` is a suffix of the query, shorter by the match. |
| `Compiler.Composed` | sql_unit/model.py:287-300 | Succeeds exactly when the CTEs can be written. The text starts with the `with` clause of those CTEs, ends with a newline followed by the rest of the query, and has nothing else in between. |
| `Compiler.ComposedWithoutTables` | sql_unit/model.py:287-300 | Without table inputs the text is a newline and the query, and a matched leading `with` is still dropped. |
| `Compiler.Context` | sql_unit/model.py:303-306 | Every table mock's name is bound to its CTE alias, every other key keeps its input, and the keys are the inputs' plus the table mocks' names. |
| `Compiler.Finished` | sql_unit/model.py:308 | The result is stripped, stripping it again changes nothing, and it is empty exactly when the rendered text has no text. |
| `Compiler.CompileWith` | sql_unit/model.py:278-308 | Fails only by aborting, and succeeds exactly when the CTEs can be written and the schema was read. The result is the stripped text `render` gives for the composed query and the context of inputs and table-mock aliases. |
| `Compiler.Compile` | sql_unit/model.py:278-308 | Fails only by aborting, and succeeds exactly when the given tables can be written and the source's mock schema can be read. The result is the stripped text `render` gives for the composed query and the context built from the source's schema. |
| `CompileExamples.EmptyMysrcSelects` | tests/unit/test_model.py:143-144 | The empty `mysrc` table selects `cast(null as int) as id, cast(null as string) as name` and `where false`. |
| `CompileExamples.BackfilledClause` | tests/unit/test_model.py:141-144 | The backfilled `mysrc` input gives the CTE `mysrc_table as (...)` and the `with` clause the unit test expects. |

## Left out

- File reading (`SQLUnitSource.path`, `code`, `mock_schema`): a source is
  represented by its text, and its schema is computed from that text with
  the same loader.
- `yaml.safe_load` is the parameter `load`. YAML syntax, scalar typing and
  the float formatting of `str()` are not modelled; a float keeps its
  printed form.
- Jinja rendering is the parameter `render`. Template syntax, undefined
  variables and template errors are not modelled, and neither is Jinja's
  handling of a final newline.
- The leading-`with` regular expression of `compile` is not modelled as a
  regular expression. Its match is given as the length of the text it
  matched.
- `get_template_variables`, `default_value` (`ast.literal_eval`),
  `SQLUnitMockSchema.default_values`, `as_python_table` (daff) and
  `SQLUnitSource.__hash__`: outside the core, or depend on foreign
  libraries.
- `splitlines` splits at `\n` only. Python also splits at `\r`, `\v`,
  `\f`, `\x1c`-`\x1e`, `\x85` and the Unicode line and paragraph
  separators.
- Exception classes and messages collapse into `Invalid` (skipped by the
  loops) and `Abort` (escapes).
- Loaded mappings are lists of entries. The loops visit every entry, so a
  key repeated in one YAML mapping is visited once per occurrence, whereas
  the loaded dict holds it once, with its last value. `Lookup` and the
  `given` comprehension follow the dict.
- `YAMLTable.from_string` updates the caller's schema dict in place
  (`schema |= annotations` aliases the mock's `columns`). The model
  computes a fresh dict and leaves the mock unchanged.
- Compiler.Compile: what `render` does with the text is not modelled, so
  the final query is stated only as the stripped output of `render` on
  the composed text and context.
