/** Rendering loaded values as SQL literals and Python classes as SQL type
    names (`sql_unit/utils.py`). */
module Utils {

  import opened Wrappers
  import opened Strings
  import opened Values

  /** `str(x)` for the values that reach the `(int, float)` branch. A bool is
      an int in Python, so it lands here and prints as `True`/`False`. */
  function NumberText(v: Value): string
    requires v.Int? || v.Float? || v.Bool?
  {
    match v
    case Int(n) => IntToString(n)
    case Float(r) => r
    case Bool(b) => if b then "True" else "False"
  }

  /** The values `native_to_sql` accepts: anything but a dict, looking
      inside lists. */
  predicate Renderable(v: Value)
    decreases v
  {
    match v
    case Map(_) => false
    case List(items) => forall i :: 0 <= i < |items| ==> Renderable(items[i])
    case _ => true
  }

  /** `native_to_sql`: the `isinstance` chain in source order. Strings are
      quoted without escaping; ints, floats and bools print with `str()`;
      `None` is `null`; lists render element-wise inside brackets; anything
      else (a dict, also inside a list) raises TypeError. The `bool` branch
      comes after the `(int, float)` one and is never taken. */
  function NativeToSql(v: Value): (r: Result<string>)
    ensures r.Ok? <==> Renderable(v)
    ensures r.Err? ==> r.error == Abort
    ensures v.Bool? ==> r == Ok(if v.flag then "True" else "False")
    ensures v.Str? ==> r == Ok("'" + v.text + "'")
    ensures v.Int? ==> r == Ok(IntToString(v.num))
    ensures v.Float? ==> r == Ok(v.repr)
    ensures v.Null? ==> r == Ok("null")
    ensures v.List? && r.Ok? ==> RenderItems(v.items).Ok? && r.value == "[" + Join(RenderItems(v.items).value, ", ") + "]"
    decreases v
  {
    if v.Str? then Ok("'" + v.text + "'")
    else if v.Int? || v.Float? || v.Bool? then Ok(NumberText(v))
    else if v.Null? then Ok("null")
    else if v.List? then
      var texts :- RenderItems(v.items);
      Ok("[" + Join(texts, ", ") + "]")
    else if v.Bool? then Ok(if v == Bool(true) then "true" else "false")
    else Err(Abort)
  }

  /** `native_to_sql` applied to each list element in order; the first
      failure is the list's failure. */
  function RenderItems(items: seq<Value>): (r: Result<seq<string>>)
    ensures r.Ok? <==> forall i :: 0 <= i < |items| ==> Renderable(items[i])
    ensures r.Ok? ==> |r.value| == |items|
    ensures r.Ok? ==> forall i :: 0 <= i < |items| ==> NativeToSql(items[i]) == Ok(r.value[i])
    ensures r.Err? ==> r.error == Abort
    decreases items
  {
    if |items| == 0 then Ok([])
    else
      var head :- NativeToSql(items[0]);
      var tail :- RenderItems(items[1..]);
      assert forall i :: 1 <= i < |items| ==> items[i] == items[1..][i - 1];
      Ok([head] + tail)
  }

  /** The empty list renders as `[]`. */
  lemma EmptyListLiteral()
    ensures NativeToSql(List([])) == Ok("[]")
  {
    assert RenderItems([]) == Ok([]);
    assert Join([], ", ") == "";
    assert "[" + "" + "]" == "[]";
  }

  /** A mixed list renders element-wise, separated by `, `. */
  lemma MixedListLiteral()
    ensures NativeToSql(List([Int(7), Str("a"), Null])) == Ok("[7, 'a', null]")
  {
    MixedListTexts();
    MixedListJoin();
    assert "[" + "7, 'a', null" + "]" == "[7, 'a', null]";
  }

  /** The element texts of the mixed list, joined. */
  lemma MixedListJoin()
    ensures Join(["7", "'a'", "null"], ", ") == "7, 'a', null"
  {
    var texts := ["7", "'a'", "null"];
    assert texts[1..] == ["'a'", "null"] && texts[1..][1..] == ["null"];
  }

  /** The element texts of the mixed list. */
  lemma MixedListTexts()
    ensures RenderItems([Int(7), Str("a"), Null]) == Ok(["7", "'a'", "null"])
  {
    var items := [Int(7), Str("a"), Null];
    assert IntToString(7) == "7" by {
      assert DigitChar(7) == '7';
    }
    assert forall i :: 0 <= i < |items| ==> Renderable(items[i]);
    assert NativeToSql(items[0]) == Ok("7");
    assert NativeToSql(items[1]) == Ok("'a'") by {
      assert "'" + "a" + "'" == "'a'";
    }
    assert NativeToSql(items[2]) == Ok("null");
    assert RenderItems(items).Ok?;
    var texts := RenderItems(items).value;
    assert |texts| == 3;
    assert texts[0] == "7" && texts[1] == "'a'" && texts[2] == "null";
    assert texts == ["7", "'a'", "null"];
  }

  /** The text of an integer reads back as the integer: its digits give
      the magnitude, after a `-` exactly when it is negative. */
  lemma IntLiteralRoundTrip(n: int)
    ensures NativeToSql(Int(n)).Ok?
    ensures var lit := NativeToSql(Int(n)).value;
      if n < 0 then
        lit[0] == '-' && (forall i :: 1 <= i < |lit| ==> IsDigit(lit[i])) && DigitsValue(lit[1..]) == -n
      else
        (forall i :: 0 <= i < |lit| ==> IsDigit(lit[i])) && DigitsValue(lit) == n
  {
    var m := if n < 0 then -n else n;
    NatToStringRoundTrip(m);
    if n < 0 {
      var lit := NativeToSql(Int(n)).value;
      assert lit[1..] == NatToString(m);
    }
  }

  /** Reads a single-quoted SQL string literal, in which `''` stands for one
      quote character: the reading a database applies to a rendered string. */
  function ReadSqlString(lit: string): Option<string> {
    if |lit| >= 2 && lit[0] == '\'' && lit[|lit| - 1] == '\'' then ReadQuoted(lit[1..|lit| - 1])
    else None
  }

  /** The body of a quoted literal, with `''` read as `'`; a lone quote ends
      the literal early, so the body is rejected. */
  function ReadQuoted(b: string): Option<string>
    decreases |b|
  {
    if |b| == 0 then Some("")
    else if b[0] == '\'' then
      if |b| >= 2 && b[1] == '\'' then
        match ReadQuoted(b[2..])
        case Some(t) => Some("'" + t)
        case None => None
      else None
    else
      match ReadQuoted(b[1..])
      case Some(t) => Some([b[0]] + t)
      case None => None
  }

  /** A body without quotes reads back as itself. */
  lemma {:induction false} ReadQuotedPlain(s: string)
    requires '\'' !in s
    ensures ReadQuoted(s) == Some(s)
    decreases |s|
  {
    if |s| > 0 {
      assert s[0] in s;
      assert forall c :: c in s[1..] ==> c in s;
      ReadQuotedPlain(s[1..]);
      assert [s[0]] + s[1..] == s;
    }
  }

  /** A rendered string without quote characters reads back as the string:
      the literal is faithful when no escaping is needed. */
  lemma StringLiteralRoundTrip(s: string)
    requires '\'' !in s
    ensures NativeToSql(Str(s)).Ok?
    ensures ReadSqlString(NativeToSql(Str(s)).value) == Some(s)
  {
    var lit := "'" + s + "'";
    assert lit[1..|lit| - 1] == s;
    ReadQuotedPlain(s);
  }

  /** Embedded quotes are not escaped: the literal rendered for `it's` does
      not read back as `it's`. */
  lemma QuoteNotEscaped()
    ensures ReadSqlString(NativeToSql(Str("it's")).value) != Some("it's")
  {
    var lit := NativeToSql(Str("it's")).value;
    assert lit == "'it's'";
    assert lit[1..|lit| - 1] == "it's";
    assert ReadQuoted("'s") == None;
    assert ReadQuoted("t's") == None;
  }

  /** `native_to_sql_typedef`: the SQL type name of a Python class; a class
      outside the table raises TypeError. Each name reads back as the class
      it came from, so distinct classes get distinct names. */
  function NativeToSqlTypedef(t: PyType): (r: Result<string>)
    ensures r.Ok? <==> t != DictType
    ensures r.Err? ==> r.error == Abort
    ensures r.Ok? ==> SqlTypeClass(r.value) == Some(t)
  {
    match t
    case StrType => Ok("string")
    case IntType => Ok("int")
    case FloatType => Ok("float")
    case ListType => Ok("array")
    case BoolType => Ok("boolean")
    case NoneType => Ok("null")
    case DictType => Err(Abort)
  }

  /** The Python class a SQL type name stands for: the inverse reading of
      `NativeToSqlTypedef`. */
  function SqlTypeClass(name: string): Option<PyType> {
    if name == "string" then Some(StrType)
    else if name == "int" then Some(IntType)
    else if name == "float" then Some(FloatType)
    else if name == "array" then Some(ListType)
    else if name == "boolean" then Some(BoolType)
    else if name == "null" then Some(NoneType)
    else None
  }

  /** Every type name read back renders to itself. */
  lemma SqlTypeNameRoundTrip(name: string)
    requires SqlTypeClass(name).Some?
    ensures NativeToSqlTypedef(SqlTypeClass(name).value) == Ok(name)
  {
  }
}
