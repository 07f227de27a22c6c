/** The algorithms over whole value trees: `json_validate`,
    `json_value_equals`, `json_value_deep_copy` and the dot paths of
    `json_object_dotget_value`, `json_object_dotset_value` and
    `json_object_dotremove`.

    Object members are looked up by name as `json_object_get_value` does
    (`Lookup`, the first item with that name); in a well-formed object that
    is the member at the name's own position (`Members.LookupAt`). */
module Tree {
  import opened Wrappers
  import opened Bytes
  import opened Members
  import opened Values

  /* ---------------- json_validate ---------------- */

  /** `json_validate` on two present values. A null schema accepts any
      value; otherwise the types must agree. A non-empty array schema's
      first item must accept every item of the array (the other schema
      items are ignored). A non-empty object schema needs at least as many
      members in the object, each of its names present there, and each of
      its members accepting the object's member of that name. Empty array
      and object schemas accept any array or object; scalars of the same
      type always pass. */
  predicate Conforms(schema: Value, value: Value)
    requires WellFormed(schema) && WellFormed(value)
    decreases schema
  {
    match schema
    case Null => true
    case Array(ss) =>
      value.Array? && (|ss| == 0 || forall i :: 0 <= i < |value.items| ==> Conforms(ss[0], value.items[i]))
    case Object(sks, svs) =>
      value.Object?
      && (|sks| == 0
          || (|sks| <= |value.names|
              && forall i :: 0 <= i < |sks| ==>
                   sks[i] in value.names && Conforms(svs[i], Lookup(value.names, value.values, sks[i]).value)))
    case _ => TypeOf(Some(schema)) == TypeOf(Some(value))
  }

  /** `json_validate`: a missing schema or value fails. */
  method Validate(schema: Option<Value>, value: Option<Value>) returns (ok: bool)
    requires schema.Some? ==> WellFormed(schema.value)
    requires value.Some? ==> WellFormed(value.value)
    ensures ok <==> schema.Some? && value.Some? && Conforms(schema.value, value.value)
  {
    if schema.None? || value.None? {
      return false;
    }
    ok := ValidateValue(schema.value, value.value);
  }

  method ValidateValue(schema: Value, value: Value) returns (ok: bool)
    requires WellFormed(schema) && WellFormed(value)
    ensures ok == Conforms(schema, value)
    decreases schema
  {
    if TypeOf(Some(schema)) != TypeOf(Some(value)) && !schema.Null? {
      return false;
    }
    match schema
    case Array(ss) =>
      if |ss| == 0 {
        return true;
      }
      var first := ss[0];
      var items := value.items;
      var i := 0;
      while i < |items|
        invariant i <= |items|
        invariant forall j :: 0 <= j < i ==> Conforms(first, items[j])
      {
        var r := ValidateValue(first, items[i]);
        if !r {
          return false;
        }
        i := i + 1;
      }
      return true;
    case Object(sks, svs) =>
      if |sks| == 0 {
        return true;
      }
      if |value.names| < |sks| {
        return false;
      }
      var i := 0;
      while i < |sks|
        invariant i <= |sks|
        invariant forall j :: 0 <= j < i ==>
          sks[j] in value.names && Conforms(svs[j], Lookup(value.names, value.values, sks[j]).value)
      {
        var key := sks[i];
        LookupAt(sks, svs, i);
        var schemaMember := Lookup(sks, svs, key);
        var member := Lookup(value.names, value.values, key);
        if member.None? {
          return false;
        }
        var r := ValidateValue(schemaMember.value, member.value);
        if !r {
          return false;
        }
        i := i + 1;
      }
      return true;
    case _ =>
      return true;
  }

  /** An object keeps conforming when it gains a member: the schema only
      asks for the names it lists. */
  lemma ExtraMemberConforms(schema: Value, ks: seq<Bytes>, vs: seq<Value>, k: Bytes, v: Value)
    requires WellFormed(schema) && WellFormed(Object(ks, vs)) && WellFormed(v)
    requires CString(k) && k !in ks
    requires Conforms(schema, Object(ks, vs))
    ensures WellFormed(Object(ks + [k], vs + [v]))
    ensures Conforms(schema, Object(ks + [k], vs + [v]))
  {
    AppendMap(ks, vs, k, v);
    var ks', vs' := ks + [k], vs + [v];
    if schema.Object? && |schema.names| > 0 {
      forall i | 0 <= i < |schema.names|
        ensures schema.names[i] in ks' && Conforms(schema.values[i], Lookup(ks', vs', schema.names[i]).value)
      {
        PutLookup(ks, vs, k, v, schema.names[i]);
      }
    }
  }

  /* ---------------- json_value_equals ---------------- */

  /** `json_number_epsilon`. */
  const Epsilon: real := 0.000001

  function Abs(x: real): real {
    if x < 0.0 then -x else x
  }

  /** `json_value_equals` on two present values: the same type; arrays of
      the same length with equal items position by position; objects of
      the same size where every name of the first finds an equal member in
      the second; strings of the same length and bytes; numbers closer than
      `Epsilon`; booleans alike; null equals null. */
  predicate Same(a: Value, b: Value)
    requires WellFormed(a) && WellFormed(b)
    decreases a
  {
    match a
    case Null => b.Null?
    case Str(s) => b.Str? && s == b.chars
    case Number(x) => b.Number? && Abs(x - b.num) < Epsilon
    case Boolean(x) => b.Boolean? && x == b.b
    case Array(xs) =>
      b.Array? && |xs| == |b.items| && forall i :: 0 <= i < |xs| ==> Same(xs[i], b.items[i])
    case Object(ks, vs) =>
      b.Object? && |ks| == |b.names|
      && forall i :: 0 <= i < |ks| ==> ks[i] in b.names && Same(vs[i], Lookup(b.names, b.values, ks[i]).value)
  }

  /** `json_value_equals`: two missing values are equal (both have the
      error type), a missing and a present one are not. */
  method Equals(a: Option<Value>, b: Option<Value>) returns (eq: bool)
    requires a.Some? ==> WellFormed(a.value)
    requires b.Some? ==> WellFormed(b.value)
    ensures eq <==> (a.None? && b.None?) || (a.Some? && b.Some? && Same(a.value, b.value))
  {
    if a.None? || b.None? {
      return a.None? && b.None?;
    }
    eq := EqualValues(a.value, b.value);
  }

  method EqualValues(a: Value, b: Value) returns (eq: bool)
    requires WellFormed(a) && WellFormed(b)
    ensures eq == Same(a, b)
    decreases a
  {
    if TypeOf(Some(a)) != TypeOf(Some(b)) {
      return false;
    }
    match a
    case Array(xs) =>
      var ys := b.items;
      if |xs| != |ys| {
        return false;
      }
      var i := 0;
      while i < |xs|
        invariant i <= |xs|
        invariant forall j :: 0 <= j < i ==> Same(xs[j], ys[j])
      {
        var r := EqualValues(xs[i], ys[i]);
        if !r {
          return false;
        }
        i := i + 1;
      }
      return true;
    case Object(ks, vs) =>
      if |ks| != |b.names| {
        return false;
      }
      var i := 0;
      while i < |ks|
        invariant i <= |ks|
        invariant forall j :: 0 <= j < i ==> ks[j] in b.names && Same(vs[j], Lookup(b.names, b.values, ks[j]).value)
      {
        var key := ks[i];
        LookupAt(ks, vs, i);
        var x := Lookup(ks, vs, key);
        var y := Lookup(b.names, b.values, key);
        if y.None? {
          return false;
        }
        var r := EqualValues(x.value, y.value);
        if !r {
          return false;
        }
        i := i + 1;
      }
      return true;
    case Str(s) =>
      return |s| == |b.chars| && s == b.chars;
    case Boolean(x) =>
      return x == b.b;
    case Number(x) =>
      return Abs(x - b.num) < Epsilon;
    case Null =>
      return true;
  }

  /** Every value equals itself. */
  lemma {:induction false} SameReflexive(a: Value)
    requires WellFormed(a)
    ensures Same(a, a)
    decreases a
  {
    match a
    case Array(xs) =>
      forall i | 0 <= i < |xs|
        ensures Same(xs[i], xs[i])
      {
        SameReflexive(xs[i]);
      }
    case Object(ks, vs) =>
      forall i | 0 <= i < |ks|
        ensures Same(vs[i], Lookup(ks, vs, ks[i]).value)
      {
        LookupAt(ks, vs, i);
        SameReflexive(vs[i]);
      }
    case _ =>
  }

  /** Equality is symmetric, although it only looks the first object's
      names up in the second: equal sizes and distinct names make the two
      name sets the same. */
  lemma {:induction false} SameSymmetric(a: Value, b: Value)
    requires WellFormed(a) && WellFormed(b) && Same(a, b)
    ensures Same(b, a)
    decreases a
  {
    match a
    case Array(xs) =>
      forall i | 0 <= i < |xs|
        ensures Same(b.items[i], xs[i])
      {
        SameSymmetric(xs[i], b.items[i]);
      }
    case Object(ks, vs) =>
      var ks', vs' := b.names, b.values;
      SameNames(ks, ks');
      forall j | 0 <= j < |ks'|
        ensures ks'[j] in ks && Same(vs'[j], Lookup(ks, vs, ks'[j]).value)
      {
        var i := IndexOf(ks, ks'[j]);
        LookupAt(ks, vs, i);
        LookupAt(ks', vs', j);
        SameSymmetric(vs[i], vs'[j]);
      }
    case _ =>
  }

  /* ---------------- json_value_deep_copy ---------------- */

  /** `json_value_deep_copy`: a missing value has no copy. */
  method DeepCopy(v: Option<Value>) returns (r: Option<Value>)
    requires v.Some? ==> WellFormed(v.value)
    ensures r == v
  {
    if v.None? {
      return None;
    }
    var c := CopyValue(v.value);
    r := Some(c);
  }

  /** Copies arrays item by item and objects member by member, adding each
      copied member under its name as `json_object_add` does; since the
      names are distinct, that add never meets a duplicate and the copy is
      the value itself. */
  method CopyValue(v: Value) returns (c: Value)
    requires WellFormed(v)
    ensures c == v
    decreases v
  {
    match v
    case Array(items) =>
      var copies: seq<Value> := [];
      var i := 0;
      while i < |items|
        invariant i <= |items| && copies == items[..i]
      {
        var item := CopyValue(items[i]);
        copies := copies + [item];
        i := i + 1;
      }
      assert items[..i] == items;
      c := Array(copies);
    case Object(ks, vs) =>
      var names: seq<Bytes> := [];
      var values: seq<Value> := [];
      var i := 0;
      while i < |ks|
        invariant i <= |ks| && names == ks[..i] && values == vs[..i]
      {
        var key := ks[i];
        LookupAt(ks, vs, i);
        var member := CopyValue(Lookup(ks, vs, key).value);
        assert key !in names;
        names, values := names + [key], values + [member];
        i := i + 1;
      }
      assert ks[..i] == ks && vs[..i] == vs;
      c := Object(names, values);
    case Str(s) =>
      c := Str(s[..|s|]);
    case Number(x) =>
      c := Number(x);
    case Boolean(x) =>
      c := Boolean(x);
    case Null =>
      c := Null;
  }

  /** A copy equals its original under `json_value_equals` too. */
  lemma CopySame(v: Value, c: Value)
    requires WellFormed(v) && c == v
    ensures WellFormed(c) && Same(v, c) && Same(c, v)
  {
    SameReflexive(v);
  }

  /* ---------------- dot paths ---------------- */

  const DOT: byte := 0x2E

  /** `strchr(path, '.')`: the position of the first dot. */
  function FindDot(path: Bytes): (r: Option<nat>)
    ensures r.Some? ==> r.value < |path| && path[r.value] == DOT
    ensures r.Some? ==> forall j :: 0 <= j < r.value ==> path[j] != DOT
    ensures r.None? ==> forall j :: 0 <= j < |path| ==> path[j] != DOT
  {
    if |path| == 0 then None
    else if path[0] == DOT then Some(0)
    else match FindDot(path[1..])
      case None => None
      case Some(d) => Some(d + 1)
  }

  /** `json_object_dotget_value` on the object with members `ks`, `vs`: a
      path without a dot is a member name; otherwise the part before the
      first dot names a member that must itself be an object, in which the
      rest of the path is looked up. A missing member or a non-object on the
      way gives nothing. */
  function DotGet(ks: seq<Bytes>, vs: seq<Value>, path: Bytes): (r: Option<Value>)
    requires WellFormedMembers(ks, vs)
    ensures FindDot(path).None? ==> (r.Some? <==> path in ks)
    ensures FindDot(path).Some? && r.Some? ==> path[..FindDot(path).value] in ks
    ensures r.Some? ==> WellFormed(r.value)
    decreases |path|
  {
    match FindDot(path)
    case None => Lookup(ks, vs, path)
    case Some(d) =>
      var child := Lookup(ks, vs, path[..d]);
      if child.Some? && child.value.Object? then DotGet(child.value.names, child.value.values, path[d + 1..])
      else None
  }

  /** `json_object_dotset_value`: a path without a dot is
      `json_object_set_value` (which refuses a value that already has a
      parent); otherwise the part before the first dot names the member to
      descend into. An existing member that is not an object makes the call
      fail; a missing one is created as an empty object, filled by the rest
      of the path and then added. On failure nothing changes. The result is
      the object's new members. */
  function DotSet(ks: seq<Bytes>, vs: seq<Value>, path: Bytes, value: Option<Value>, hasParent: bool)
    : (r: Option<(seq<Bytes>, seq<Value>)>)
    requires WellFormedMembers(ks, vs) && CString(path)
    ensures value.None? ==> r.None?
    ensures r.Some? ==> !hasParent
    ensures r.Some? ==> |r.value.0| == |r.value.1| && |ks| <= |r.value.0| <= |ks| + 1 && r.value.0[..|ks|] == ks
    decreases |path|
  {
    if value.None? then None
    else match FindDot(path)
      case None =>
        if hasParent then None else Some((PutNames(ks, path), PutValues(ks, vs, path, value.value)))
      case Some(d) =>
        var head, rest := path[..d], path[d + 1..];
        match Lookup(ks, vs, head)
        case Some(child) =>
          if !child.Object? then None
          else (match DotSet(child.names, child.values, rest, value, hasParent)
            case None => None
            case Some((ks', vs')) => Some((ks, vs[IndexOf(ks, head) := Object(ks', vs')])))
        case None =>
          match DotSet([], [], rest, value, hasParent)
          case None => None
          case Some((ks', vs')) => Some((ks + [head], vs + [Object(ks', vs')]))
  }

  /** `json_object_dotremove`: a path without a dot removes that member
      (`json_object_remove_internal`, which moves the last member into its
      slot) and fails when it is absent; otherwise the member named before
      the first dot must be an object, from which the rest is removed. */
  function DotRemove(ks: seq<Bytes>, vs: seq<Value>, path: Bytes): (r: Option<(seq<Bytes>, seq<Value>)>)
    requires WellFormedMembers(ks, vs)
    ensures FindDot(path).None? ==> (r.Some? <==> path in ks)
    ensures r.Some? ==> |r.value.1| == |r.value.0| == if FindDot(path).None? then |ks| - 1 else |ks|
    decreases |path|
  {
    match FindDot(path)
    case None =>
      if path in ks then Some((MoveLast(ks, IndexOf(ks, path)), MoveLast(vs, IndexOf(ks, path)))) else None
    case Some(d) =>
      var head := path[..d];
      var child := Lookup(ks, vs, head);
      if child.Some? && child.value.Object? then
        match DotRemove(child.value.names, child.value.values, path[d + 1..])
        case None => None
        case Some((ks', vs')) => Some((ks, vs[IndexOf(ks, head) := Object(ks', vs')]))
      else None
  }

  /** Rebinding a member of a well-formed object to a well-formed value
      keeps the object well-formed. */
  lemma ReplaceWellFormed(ks: seq<Bytes>, vs: seq<Value>, i: nat, v: Value)
    requires WellFormedMembers(ks, vs) && i < |ks| && WellFormed(v)
    ensures WellFormedMembers(ks, vs[i := v])
  {
  }

  /** Setting a member of a well-formed object to a well-formed value
      keeps it well-formed. */
  lemma PutWellFormed(ks: seq<Bytes>, vs: seq<Value>, k: Bytes, v: Value)
    requires WellFormedMembers(ks, vs) && CString(k) && WellFormed(v)
    ensures WellFormedMembers(PutNames(ks, k), PutValues(ks, vs, k, v))
  {
    PutMap(ks, vs, k, v);
    if k !in ks {
      assert forall i :: 0 <= i < |ks| ==> (ks + [k])[i] == ks[i];
    }
  }

  /** Setting along a path keeps the object well-formed. */
  lemma {:induction false} DotSetWellFormed(ks: seq<Bytes>, vs: seq<Value>, path: Bytes, value: Option<Value>, hasParent: bool)
    requires WellFormedMembers(ks, vs) && CString(path)
    requires value.Some? ==> WellFormed(value.value)
    requires DotSet(ks, vs, path, value, hasParent).Some?
    ensures WellFormedMembers(DotSet(ks, vs, path, value, hasParent).value.0, DotSet(ks, vs, path, value, hasParent).value.1)
    decreases |path|
  {
    match FindDot(path)
    case None =>
      PutWellFormed(ks, vs, path, value.value);
    case Some(d) =>
      var head, rest := path[..d], path[d + 1..];
      match Lookup(ks, vs, head)
      case Some(child) =>
        DotSetWellFormed(child.names, child.values, rest, value, hasParent);
        var (ks', vs') := DotSet(child.names, child.values, rest, value, hasParent).value;
        ReplaceWellFormed(ks, vs, IndexOf(ks, head), Object(ks', vs'));
      case None =>
        DotSetWellFormed([], [], rest, value, hasParent);
        var (ks', vs') := DotSet([], [], rest, value, hasParent).value;
        PutWellFormed(ks, vs, head, Object(ks', vs'));
  }

  /** After a successful set, the path finds the value that was set. */
  lemma {:induction false} DotSetThenGet(ks: seq<Bytes>, vs: seq<Value>, path: Bytes, value: Option<Value>, hasParent: bool)
    requires WellFormedMembers(ks, vs) && CString(path)
    requires value.Some? ==> WellFormed(value.value)
    requires DotSet(ks, vs, path, value, hasParent).Some?
    ensures WellFormedMembers(DotSet(ks, vs, path, value, hasParent).value.0, DotSet(ks, vs, path, value, hasParent).value.1)
    ensures var (ks', vs') := DotSet(ks, vs, path, value, hasParent).value;
      DotGet(ks', vs', path) == value
    decreases |path|, 1
  {
    DotSetWellFormed(ks, vs, path, value, hasParent);
    match FindDot(path)
    case None =>
      PutLookup(ks, vs, path, value.value, path);
    case Some(d) =>
      DotSetThenGetNested(ks, vs, path, value, hasParent, d);
  }

  /** The step of `DotSetThenGet` through the member named before the
      first dot. */
  lemma {:induction false} DotSetThenGetNested(ks: seq<Bytes>, vs: seq<Value>, path: Bytes, value: Option<Value>, hasParent: bool, d: nat)
    requires WellFormedMembers(ks, vs) && CString(path)
    requires value.Some? ==> WellFormed(value.value)
    requires DotSet(ks, vs, path, value, hasParent).Some?
    requires FindDot(path) == Some(d)
    requires WellFormedMembers(DotSet(ks, vs, path, value, hasParent).value.0, DotSet(ks, vs, path, value, hasParent).value.1)
    ensures var (ks', vs') := DotSet(ks, vs, path, value, hasParent).value;
      DotGet(ks', vs', path) == value
    decreases |path|, 0
  {
    var head, rest := path[..d], path[d + 1..];
    var (ks2, vs2) := DotSet(ks, vs, path, value, hasParent).value;
    var (cks, cvs) := if head in ks then (Lookup(ks, vs, head).value.names, Lookup(ks, vs, head).value.values) else ([], []);
    DotSetThenGet(cks, cvs, rest, value, hasParent);
    var (ks', vs') := DotSet(cks, cvs, rest, value, hasParent).value;
    PutLookup(ks, vs, head, Object(ks', vs'), head);
    assert Lookup(ks2, vs2, head) == Some(Object(ks', vs'));
  }

  /** A value that already has a parent is refused along any path. */
  lemma {:induction false} DotSetOwnedFails(ks: seq<Bytes>, vs: seq<Value>, path: Bytes, value: Option<Value>)
    requires WellFormedMembers(ks, vs) && CString(path)
    ensures DotSet(ks, vs, path, value, true).None?
    decreases |path|
  {
    match FindDot(path)
    case None =>
    case Some(d) =>
      var head, rest := path[..d], path[d + 1..];
      var child := Lookup(ks, vs, head);
      if child.Some? && child.value.Object? {
        DotSetOwnedFails(child.value.names, child.value.values, rest, value);
      } else if child.None? {
        DotSetOwnedFails([], [], rest, value);
      }
  }

  /** Removal along a path succeeds exactly when the path finds a value. */
  lemma {:induction false} DotRemoveIffGet(ks: seq<Bytes>, vs: seq<Value>, path: Bytes)
    requires WellFormedMembers(ks, vs)
    ensures DotRemove(ks, vs, path).Some? <==> DotGet(ks, vs, path).Some?
    decreases |path|
  {
    match FindDot(path)
    case None =>
    case Some(d) =>
      var child := Lookup(ks, vs, path[..d]);
      if child.Some? && child.value.Object? {
        DotRemoveIffGet(child.value.names, child.value.values, path[d + 1..]);
      }
  }

  /** Removal along a path keeps the object well-formed. */
  lemma {:induction false} DotRemoveWellFormed(ks: seq<Bytes>, vs: seq<Value>, path: Bytes)
    requires WellFormedMembers(ks, vs) && DotRemove(ks, vs, path).Some?
    ensures WellFormedMembers(DotRemove(ks, vs, path).value.0, DotRemove(ks, vs, path).value.1)
    decreases |path|
  {
    match FindDot(path)
    case None =>
      var t := IndexOf(ks, path);
      MoveLastDistinct(ks, t);
      forall k | 0 <= k < |ks| - 1
        ensures CString(MoveLast(ks, t)[k]) && WellFormed(MoveLast(vs, t)[k])
      {
        MoveLastAt(ks, t, k);
        MoveLastAt(vs, t, k);
      }
    case Some(d) =>
      var child := Lookup(ks, vs, path[..d]);
      DotRemoveWellFormed(child.value.names, child.value.values, path[d + 1..]);
      var (ks', vs') := DotRemove(child.value.names, child.value.values, path[d + 1..]).value;
      ReplaceWellFormed(ks, vs, IndexOf(ks, path[..d]), Object(ks', vs'));
  }

  /** After a successful removal the path finds nothing. */
  lemma {:induction false} DotRemoveThenGet(ks: seq<Bytes>, vs: seq<Value>, path: Bytes)
    requires WellFormedMembers(ks, vs) && DotRemove(ks, vs, path).Some?
    ensures WellFormedMembers(DotRemove(ks, vs, path).value.0, DotRemove(ks, vs, path).value.1)
    ensures DotGet(DotRemove(ks, vs, path).value.0, DotRemove(ks, vs, path).value.1, path).None?
    decreases |path|
  {
    DotRemoveWellFormed(ks, vs, path);
    match FindDot(path)
    case None =>
      MoveLastNames(ks, IndexOf(ks, path), path);
    case Some(d) =>
      var head := path[..d];
      var child := Lookup(ks, vs, head);
      DotRemoveThenGet(child.value.names, child.value.values, path[d + 1..]);
      var (ks', vs') := DotRemove(child.value.names, child.value.values, path[d + 1..]).value;
      PutLookup(ks, vs, head, Object(ks', vs'), head);
  }
}
