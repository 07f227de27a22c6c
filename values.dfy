/** JSON values as trees (`JSON_Value`, `json_value_get_*`,
    `json_value_init_string_with_len`).

    An object is the pair of its item arrays as `KeyedTable` keeps them:
    member names and member values in item order. An array is the item
    sequence `DynArray` keeps. A value's `parent` back-reference is not part of the
    tree; the operations that reject an owned value take the fact that it
    has a parent as a flag. A missing value (`nullptr`) is `None`. */
module Values {
  import opened Wrappers
  import opened Bytes
  import opened Members
  import Utf8

  /** `JSON_Value_Type`; `ErrorType` is the type of a missing value. */
  datatype ValueType = ErrorType | NullType | StringType | NumberType | ObjectType | ArrayType | BooleanType

  /** Numbers are finite doubles, modelled as reals (rounding is not
      modelled). */
  datatype Value =
    | Null
    | Str(chars: Bytes)
    | Number(num: real)
    | Object(names: seq<Bytes>, values: seq<Value>)
    | Array(items: seq<Value>)
    | Boolean(b: bool)

  /** What every object parson builds satisfies: one value per name, no
      name twice and no NUL inside a name (names are C strings), at every
      depth. */
  predicate WellFormed(v: Value) {
    match v
    case Object(ks, vs) =>
      |ks| == |vs| && Distinct(ks) && (forall i :: 0 <= i < |ks| ==> CString(ks[i]))
      && forall i :: 0 <= i < |vs| ==> WellFormed(vs[i])
    case Array(items) => forall i :: 0 <= i < |items| ==> WellFormed(items[i])
    case _ => true
  }

  /** The members of a well-formed object. */
  predicate WellFormedMembers(ks: seq<Bytes>, vs: seq<Value>) {
    WellFormed(Object(ks, vs))
  }

  /** `json_value_get_type`. */
  function TypeOf(v: Option<Value>): (t: ValueType)
    ensures t == ErrorType <==> v.None?
    ensures t == ObjectType <==> v.Some? && v.value.Object?
    ensures t == ArrayType <==> v.Some? && v.value.Array?
  {
    match v
    case None => ErrorType
    case Some(Null) => NullType
    case Some(Str(_)) => StringType
    case Some(Number(_)) => NumberType
    case Some(Object(_, _)) => ObjectType
    case Some(Array(_)) => ArrayType
    case Some(Boolean(_)) => BooleanType
  }

  /** `json_value_get_string`: the characters of a string value. */
  function GetString(v: Option<Value>): (r: Option<Bytes>)
    ensures r.Some? <==> TypeOf(v) == StringType
    ensures r.Some? ==> v == Some(Str(r.value))
  {
    if v.Some? && v.value.Str? then Some(v.value.chars) else None
  }

  /** `json_value_get_string_len`: 0 for anything but a string. */
  function GetStringLen(v: Option<Value>): (n: nat)
    ensures n == if GetString(v).Some? then |GetString(v).value| else 0
  {
    if v.Some? && v.value.Str? then |v.value.chars| else 0
  }

  /** `json_value_get_number`: 0 for anything but a number. */
  function GetNumber(v: Option<Value>): (x: real)
    ensures TypeOf(v) != NumberType ==> x == 0.0
    ensures v.Some? && v.value.Number? ==> x == v.value.num
  {
    if v.Some? && v.value.Number? then v.value.num else 0.0
  }

  /** `json_value_get_boolean`: 1 for true, 0 for false and -1
      (`JSONBooleanError`) for anything that is not a boolean. */
  function GetBoolean(v: Option<Value>): (r: int)
    ensures r == -1 <==> TypeOf(v) != BooleanType
    ensures r == 1 <==> v == Some(Boolean(true))
    ensures r == 0 <==> v == Some(Boolean(false))
  {
    if v.Some? && v.value.Boolean? then (if v.value.b then 1 else 0) else -1
  }

  /** `json_value_get_object`: the members of an object value. */
  function GetObject(v: Option<Value>): (r: Option<(seq<Bytes>, seq<Value>)>)
    ensures r.Some? <==> TypeOf(v) == ObjectType
    ensures r.Some? ==> v == Some(Object(r.value.0, r.value.1))
  {
    if v.Some? && v.value.Object? then Some((v.value.names, v.value.values)) else None
  }

  /** `json_value_get_array`: the items of an array value. */
  function GetArray(v: Option<Value>): (r: Option<seq<Value>>)
    ensures r.Some? <==> TypeOf(v) == ArrayType
    ensures r.Some? ==> v == Some(Array(r.value))
  {
    if v.Some? && v.value.Array? then Some(v.value.items) else None
  }

  /** `json_value_init_string_with_len`: a string value holding the first
      `len` bytes of `buf`, refused when `buf` is null or those bytes are
      not well-formed UTF-8. */
  method InitStringWithLen(buf: Option<Bytes>, len: nat) returns (r: Option<Value>)
    requires buf.Some? ==> len <= |buf.value|
    ensures r.Some? <==> buf.Some? && Utf8.Valid(buf.value[..len])
    ensures r.Some? ==> GetString(r) == Some(buf.value[..len]) && GetStringLen(r) == len
  {
    if buf.None? {
      return None;
    }
    var ok := Utf8.IsValidUtf8(buf.value, len);
    if !ok {
      return None;
    }
    r := Some(Str(buf.value[..len]));
  }
}
