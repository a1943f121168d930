/** `SQLUnitMockType` (`sql_unit/types.py`): the kinds of value a mock can
    stand for, and the Python literal each kind defaults to. */
module MockTypes {

  import opened Wrappers

  /** The seven members of the string enum, in declaration order. */
  datatype MockType = TableType | MappingType | SequenceType | IntType | FloatType | StrType | BoolType

  /** The enum member's string value. */
  function Name(t: MockType): string {
    match t
    case TableType => "table"
    case MappingType => "mapping"
    case SequenceType => "sequence"
    case IntType => "int"
    case FloatType => "float"
    case StrType => "str"
    case BoolType => "bool"
  }

  /** Validation of a string into the enum, as the mock record's `type`
      field does it: exactly the seven member values are accepted, and each
      is read back as the member it names. */
  function ParseMockType(s: string): (r: Option<MockType>)
    ensures r.Some? ==> Name(r.value) == s
    ensures r.Some? <==> s in {"table", "mapping", "sequence", "int", "float", "str", "bool"}
  {
    if s == "table" then Some(TableType)
    else if s == "mapping" then Some(MappingType)
    else if s == "sequence" then Some(SequenceType)
    else if s == "int" then Some(IntType)
    else if s == "float" then Some(FloatType)
    else if s == "str" then Some(StrType)
    else if s == "bool" then Some(BoolType)
    else None
  }

  /** Every member's value parses back to the member. */
  lemma NameRoundTrip(t: MockType)
    ensures ParseMockType(Name(t)) == Some(t)
  {
  }

  /** The alias the compiler gives the CTE that stands in for table mock
      `name`. */
  function TableAlias(name: string): string {
    name + "_table"
  }

  /** `default_factory`: the Python literal text a mock of this type defaults
      to. It is total over the enum. A table defaults to the quoted CTE alias
      and a str mock to its quoted name; the other five ignore the name. */
  function DefaultFactory(t: MockType, name: string): (r: string)
    ensures t == TableType ==> r == "\"" + TableAlias(name) + "\""
    ensures t == StrType ==> r == "\"" + name + "\""
    ensures t == MappingType ==> r == "{}"
    ensures t == SequenceType ==> r == "[]"
    ensures t == IntType ==> r == "0"
    ensures t == FloatType ==> r == "0.0"
    ensures t == BoolType ==> r == "false"
  {
    match t
    case TableType => "\"" + name + "_table\""
    case MappingType => "{}"
    case SequenceType => "[]"
    case IntType => "0"
    case FloatType => "0.0"
    case StrType => "\"" + name + "\""
    case BoolType => "false"
  }

  /** The factories other than table and str ignore the name. */
  lemma FactoryIgnoresName(t: MockType, n1: string, n2: string)
    requires t != TableType && t != StrType
    ensures DefaultFactory(t, n1) == DefaultFactory(t, n2)
  {
  }

  /** The table and str factories keep the name recoverable: different names
      give different literals. */
  lemma {:induction false} FactoryKeepsName(t: MockType, n1: string, n2: string)
    requires t == TableType || t == StrType
    requires DefaultFactory(t, n1) == DefaultFactory(t, n2)
    ensures n1 == n2
  {
    var a, b := DefaultFactory(t, n1), DefaultFactory(t, n2);
    var tail := if t == TableType then |"_table\""| else 1;
    assert |n1| == |a| - 1 - tail && |n2| == |b| - 1 - tail;
    assert n1 == a[1..|a| - tail];
    assert n2 == b[1..|b| - tail];
  }
}
