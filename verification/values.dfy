/** The Python values a YAML document can load into, as far as the pipeline
    looks at them. */
module Values {

  import opened Wrappers

  /** A loaded YAML value. `Float` keeps Python's own `str()` of the float,
      since float formatting is not modelled; `Map` is a dict as an ordered
      list of entries. */
  datatype Value =
    | Str(text: string)
    | Int(num: int)
    | Float(repr: string)
    | Bool(flag: bool)
    | Null
    | List(items: seq<Value>)
    | Map(entries: seq<(Value, Value)>)

  /** The Python classes of those values: `type(v)`. */
  datatype PyType = StrType | IntType | FloatType | BoolType | NoneType | ListType | DictType

  /** `type(v)`. A bool's class is `bool`, not `int`. */
  function TypeOf(v: Value): PyType {
    match v
    case Str(_) => StrType
    case Int(_) => IntType
    case Float(_) => FloatType
    case Bool(_) => BoolType
    case Null => NoneType
    case List(_) => ListType
    case Map(_) => DictType
  }

  /** `yaml.safe_load` as a parameter of the model: `None` stands for a
      YAMLError. */
  type Loader = string -> Option<Value>

  /** `value[key]` on a loaded mapping. The loader builds a dict, in which
      a repeated key takes its last value, so this is the last entry under
      `key` before position `upto`. */
  function Lookup(entries: seq<(Value, Value)>, key: Value, upto: nat := |entries|): (r: Option<Value>)
    requires upto <= |entries|
    ensures r.Some? ==> exists i :: LastUnder(entries, key, i, upto) && entries[i].1 == r.value
    ensures r.None? ==> forall i :: 0 <= i < upto ==> entries[i].0 != key
    decreases upto
  {
    if upto == 0 then None
    else if entries[upto - 1].0 == key then
      assert LastUnder(entries, key, upto - 1, upto);
      Some(entries[upto - 1].1)
    else
      var r := Lookup(entries, key, upto - 1);
      assert r.Some? ==> exists i :: LastUnder(entries, key, i, upto) && entries[i].1 == r.value by {
        if r.Some? {
          var i :| LastUnder(entries, key, i, upto - 1) && entries[i].1 == r.value;
          assert LastUnder(entries, key, i, upto);
        }
      }
      r
  }

  /** Entry `i` is the last one under `key` before position `upto`. */
  predicate LastUnder(entries: seq<(Value, Value)>, key: Value, i: int, upto: int := |entries|) {
    && 0 <= i < upto <= |entries|
    && entries[i].0 == key
    && forall j :: i < j < upto ==> entries[j].0 != key
  }

  /** The last entry under `key` is the one `Lookup` finds. */
  lemma {:induction false} LookupAt(entries: seq<(Value, Value)>, key: Value, i: nat, upto: nat := |entries|)
    requires LastUnder(entries, key, i, upto)
    ensures Lookup(entries, key, upto) == Some(entries[i].1)
    decreases upto
  {
    if i < upto - 1 {
      LookupAt(entries, key, i, upto - 1);
    }
  }

  /** Looking up in a mapping with one more entry in front: the rest's last
      entry under `key` when it has one, else the front entry when it is
      under `key`. */
  lemma {:induction false} LookupCons(e: (Value, Value), rest: seq<(Value, Value)>, key: Value, upto: nat := |rest|)
    requires upto <= |rest|
    ensures Lookup([e] + rest, key, upto + 1) ==
      if Lookup(rest, key, upto).Some? then Lookup(rest, key, upto)
      else if e.0 == key then Some(e.1)
      else None
    decreases upto
  {
    if upto > 0 {
      assert ([e] + rest)[upto] == rest[upto - 1];
      LookupCons(e, rest, key, upto - 1);
    }
  }
}
