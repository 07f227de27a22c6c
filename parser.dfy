/** The recursive-descent parser (`parse_value`, `parse_object_value`,
    `parse_array_value`, `parse_string_value`, `parse_boolean_value`,
    `parse_number_value`, `parse_null_value`, `is_decimal`,
    `json_parse_string`, `json_parse_string_with_comments`).

    The parser advances a cursor over a NUL-terminated text. The functions
    below say what each parse yields from a position: the value and the
    position just past it, or `None`. The methods walk the text the way
    parson does, with loops over the members and items, and are proved to
    yield what the functions say.

    `strtod` is not modelled: it is a parameter that, given the text and a
    position, reports the number it reads, where it stops and whether the
    result is finite. */
module Parser {
  import opened Wrappers
  import opened Bytes
  import opened Members
  import opened Values
  import Escapes
  import Comments

  /** `max_nesting`: the deepest `parse_value` call allowed. */
  const MaxNesting: nat := 2048

  /** A parsed value and the cursor position just past it. */
  datatype Parsed = Parsed(v: Value, next: nat)

  /** What `strtod` reports at a position: the number, the position where it
      stopped and whether the result is finite (not an overflow to
      `HUGE_VAL`, an infinity or a NaN, all of which parson refuses). */
  datatype Scan = Scan(num: real, end: nat, finite: bool)

  /** A `strtod`: it never moves backwards and stops inside the text. */
  type Strtod = f: (Bytes, nat) -> Scan | forall s: Bytes, i: nat :: i <= |s| ==> i <= f(s, i).end <= |s|
    witness (s: Bytes, i: nat) => Scan(0.0, i, true)

  /** `skip_whitespaces`: the first position from `i` that holds no
      whitespace (the terminator ends the run). */
  function SkipWs(s: Bytes, i: nat): (j: nat)
    requires i <= |s|
    ensures i <= j <= |s| && !IsSpace(At(s, j))
    ensures forall k :: i <= k < j ==> IsSpace(s[k])
    decreases |s| - i
  {
    if IsSpace(At(s, i)) then SkipWs(s, i + 1) else i
  }

  /** `skip_whitespaces` as parson writes it. */
  method SkipWhitespaces(s: Bytes, i: nat) returns (j: nat)
    requires i <= |s|
    ensures j == SkipWs(s, i)
  {
    j := i;
    while IsSpace(At(s, j))
      invariant i <= j <= |s| && SkipWs(s, i) == SkipWs(s, j)
      decreases |s| - j
    {
      j := j + 1;
    }
  }

  /** `strncmp(word, s + i, |word|) == 0` for a word without NUL: the word
      occurs at `i`. */
  predicate Matches(s: Bytes, i: nat, word: Bytes) {
    i + |word| <= |s| && s[i..i + |word|] == word
  }

  /** A decimal digit. */
  predicate IsDigit(c: byte) {
    '0' as int <= c <= '9' as int
  }

  /** Every byte of `t` is a decimal digit. */
  predicate Digits(t: Bytes) {
    forall k :: 0 <= k < |t| ==> IsDigit(t[k])
  }

  /** No `x` or `X` in `t`: no hexadecimal marker. */
  predicate NoHexMarker(t: Bytes) {
    forall k :: 0 <= k < |t| ==> t[k] != 'x' as int && t[k] != 'X' as int
  }

  /** The `int` production of section 6 of RFC 8259: a lone zero, or a
      non-zero digit followed by any digits. */
  predicate JsonInt(t: Bytes) {
    |t| > 0 && Digits(t) && (t[0] == '0' as int ==> |t| == 1)
  }

  /** `is_decimal` on the bytes `strtod` consumed: no leading zero before
      anything but a dot (also after a minus sign), and no `x`, `X` or NUL
      (`strchr` also finds the terminator), so never a hexadecimal number. */
  predicate IsDecimal(t: Bytes): (ok: bool)
    ensures ok ==> NoHexMarker(t)
  {
    !(|t| > 1 && t[0] == '0' as int && t[1] != '.' as int)
    && !(|t| > 2 && t[0] == '-' as int && t[1] == '0' as int && t[2] != '.' as int)
    && forall k :: 0 <= k < |t| ==> t[k] != 'x' as int && t[k] != 'X' as int && t[k] != NUL
  }

  /** `get_quoted_string`: the decoded contents of the string literal at
      `i` and the position past its closing quote. */
  function QuotedString(s: Bytes, i: nat): (r: Option<(Bytes, nat)>)
    ensures r.Some? ==> i + 2 <= r.value.1 <= |s|
  {
    match Escapes.SkipQuotes(s, i)
    case None => None
    case Some(j) =>
      match Escapes.Unescape(s[i + 1..j - 1])
      case None => None
      case Some(t) => Some((t, j))
  }

  /** `get_quoted_string`: finds the closing quote, then decodes. */
  method GetQuotedString(s: Bytes, i: nat) returns (r: Option<(Bytes, nat)>)
    ensures r == QuotedString(s, i)
  {
    var j := Escapes.FindClosingQuote(s, i);
    if j.None? {
      return None;
    }
    var t := Escapes.ProcessString(s[i + 1..j.value - 1]);
    if t.None? {
      return None;
    }
    r := Some((t.value, j.value));
  }

  /** `parse_string_value`. The decoded bytes are not checked for UTF-8. */
  function StringAt(s: Bytes, i: nat): (r: Option<Parsed>)
    ensures r.Some? ==> i < r.value.next <= |s| && r.value.v.Str?
  {
    match QuotedString(s, i)
    case None => None
    case Some((t, j)) => Some(Parsed(Str(t), j))
  }

  /** `parse_boolean_value`. */
  function BooleanAt(s: Bytes, i: nat): (r: Option<Parsed>)
    ensures r.Some? ==> i < r.value.next <= |s|
  {
    if Matches(s, i, Ascii("true")) then Some(Parsed(Boolean(true), i + 4))
    else if Matches(s, i, Ascii("false")) then Some(Parsed(Boolean(false), i + 5))
    else None
  }

  /** `parse_null_value`. */
  function NullAt(s: Bytes, i: nat): (r: Option<Parsed>)
    ensures r.Some? ==> i < r.value.next <= |s|
  {
    if Matches(s, i, Ascii("null")) then Some(Parsed(Null, i + 4)) else None
  }

  /** `parse_number_value` as written: refuses a result that is not finite
      and a lexeme `is_decimal` rejects, but lets through a `strtod` that
      consumed nothing. */
  function NumberAtAsWritten(s: Bytes, i: nat, strtod: Strtod): (r: Option<Parsed>)
    requires i <= |s|
    ensures r.Some? ==> i <= r.value.next <= |s| && r.value.v.Number?
  {
    var scan := strtod(s, i);
    if !scan.finite || !IsDecimal(s[i..scan.end]) then None
    else Some(Parsed(Number(scan.num), scan.end))
  }

  /** `parse_number_value` with the empty lexeme also refused, so that a
      number always consumes at least one byte. */
  function NumberAt(s: Bytes, i: nat, strtod: Strtod): (r: Option<Parsed>)
    requires i <= |s|
    ensures r.Some? ==> i < r.value.next <= |s| && r.value.v.Number?
    ensures r.Some? ==> r == NumberAtAsWritten(s, i, strtod)
  {
    var scan := strtod(s, i);
    if !scan.finite || scan.end == i || !IsDecimal(s[i..scan.end]) then None
    else Some(Parsed(Number(scan.num), scan.end))
  }

  /** Adding a member with a fresh C-string name to well-formed members
      keeps them well formed. */
  lemma AddMemberWellFormed(ks: seq<Bytes>, vs: seq<Value>, key: Bytes, v: Value)
    requires WellFormedMembers(ks, vs) && key !in ks && CString(key) && WellFormed(v)
    ensures WellFormedMembers(ks + [key], vs + [v])
  {
    AppendMap(ks, vs, key, v);
    var ks', vs' := ks + [key], vs + [v];
    assert forall i :: 0 <= i < |ks'| ==> CString(ks'[i]) by {
      forall i | 0 <= i < |ks'|
        ensures CString(ks'[i])
      {
        if i < |ks| {
          assert ks'[i] == ks[i];
        }
      }
    }
    assert forall i :: 0 <= i < |vs'| ==> WellFormed(vs'[i]) by {
      forall i | 0 <= i < |vs'|
        ensures WellFormed(vs'[i])
      {
        if i < |vs| {
          assert vs'[i] == vs[i];
        }
      }
    }
  }

  /** Adding a well-formed item to a well-formed array keeps it well
      formed. */
  lemma AddItemWellFormed(items: seq<Value>, v: Value)
    requires WellFormed(Array(items)) && WellFormed(v)
    ensures WellFormed(Array(items + [v]))
  {
    var items' := items + [v];
    forall i | 0 <= i < |items'|
      ensures WellFormed(items'[i])
    {
      if i < |items| {
        assert items'[i] == items[i];
      }
    }
  }

  /** `parse_value`: refuses a nesting deeper than `MaxNesting`, skips
      whitespace and dispatches on the next byte; an object or an array
      opens one more level. Whatever it yields is well formed and lies
      after `i`. */
  function ValueAt(s: Bytes, i: nat, nesting: nat, strtod: Strtod): (r: Option<Parsed>)
    requires i <= |s|
    ensures r.Some? ==> i < r.value.next <= |s| && WellFormed(r.value.v)
    decreases |s| - i, 1
  {
    if nesting > MaxNesting then None
    else
      var j := SkipWs(s, i);
      var c := At(s, j);
      if c == '{' as int then ObjectAt(s, j, nesting + 1, strtod)
      else if c == '[' as int then ArrayAt(s, j, nesting + 1, strtod)
      else if c == QUOTE then StringAt(s, j)
      else if c == 'f' as int || c == 't' as int then BooleanAt(s, j)
      else if c == '-' as int || '0' as int <= c <= '9' as int then NumberAt(s, j, strtod)
      else if c == 'n' as int then NullAt(s, j)
      else None
  }

  /** `parse_object_value` from the opening brace at `i`. */
  function ObjectAt(s: Bytes, i: nat, nesting: nat, strtod: Strtod): (r: Option<Parsed>)
    requires i <= |s|
    ensures r.Some? ==> i < r.value.next <= |s| && WellFormed(r.value.v) && r.value.v.Object?
    decreases |s| - i, 0
  {
    if At(s, i) != '{' as int then None
    else
      var j := SkipWs(s, i + 1);
      if At(s, j) == '}' as int then Some(Parsed(Object([], []), j + 1))
      else MembersFrom(s, j, nesting, [], [], strtod)
  }

  /** One turn of the member loop at `i`, with the members read so far:
      stop at the terminator, or read a quoted name without NUL, a colon
      and a value, and refuse a name already present (`json_object_add`). */
  function MembersFrom(s: Bytes, i: nat, nesting: nat, ks: seq<Bytes>, vs: seq<Value>, strtod: Strtod): (r: Option<Parsed>)
    requires i <= |s| && WellFormedMembers(ks, vs)
    ensures r.Some? ==> i < r.value.next <= |s| && WellFormed(r.value.v) && r.value.v.Object?
    decreases |s| - i, 2
  {
    if At(s, i) == NUL then Close(s, i, '}' as int, Object(ks, vs))
    else match QuotedString(s, i)
      case None => None
      case Some((key, j)) => if !CString(key) then None else MemberRest(s, j, nesting, ks, vs, key, strtod)
  }

  /** The rest of a member after its name `key`, which ends at `j`: the
      colon, the value, and the refusal of a name already present. */
  function MemberRest(s: Bytes, j: nat, nesting: nat, ks: seq<Bytes>, vs: seq<Value>, key: Bytes, strtod: Strtod): (r: Option<Parsed>)
    requires j <= |s| && WellFormedMembers(ks, vs) && CString(key)
    ensures r.Some? ==> j < r.value.next <= |s| && WellFormed(r.value.v) && r.value.v.Object?
    decreases |s| - j, 2
  {
    var k := SkipWs(s, j);
    if At(s, k) != ':' as int then None
    else match ValueAt(s, k + 1, nesting, strtod)
      case None => None
      case Some(Parsed(v, m)) =>
        if key in ks then None
        else
          AddMemberWellFormed(ks, vs, key, v);
          AfterMember(s, m, nesting, ks + [key], vs + [v], strtod)
  }

  /** The end of a turn of the member loop: without a comma the loop ends;
      after a comma a closing brace also ends it (a trailing comma is
      accepted), anything else starts the next turn. */
  function AfterMember(s: Bytes, i: nat, nesting: nat, ks: seq<Bytes>, vs: seq<Value>, strtod: Strtod): (r: Option<Parsed>)
    requires i <= |s| && WellFormedMembers(ks, vs)
    ensures r.Some? ==> i < r.value.next <= |s| && WellFormed(r.value.v) && r.value.v.Object?
    decreases |s| - i, 2
  {
    var p := SkipWs(s, i);
    if At(s, p) != ',' as int then Close(s, p, '}' as int, Object(ks, vs))
    else
      var q := SkipWs(s, p + 1);
      if At(s, q) == '}' as int then Close(s, q, '}' as int, Object(ks, vs))
      else MembersFrom(s, q, nesting, ks, vs, strtod)
  }

  /** After the member or item loop: whitespace, then the closing brace
      or bracket. The final `json_array_resize` of `parse_array_value` to
      the item count cannot fail here: an empty array returned earlier, and
      the loop either added an item or met the terminator, which is no
      closing bracket. */
  function Close(s: Bytes, i: nat, closer: byte, v: Value): (r: Option<Parsed>)
    requires i <= |s| && closer != NUL
    ensures r.Some? ==> i < r.value.next <= |s| && r.value.v == v
  {
    var j := SkipWs(s, i);
    if At(s, j) == closer then Some(Parsed(v, j + 1)) else None
  }

  /** `parse_array_value` from the opening bracket at `i`. */
  function ArrayAt(s: Bytes, i: nat, nesting: nat, strtod: Strtod): (r: Option<Parsed>)
    requires i <= |s|
    ensures r.Some? ==> i < r.value.next <= |s| && WellFormed(r.value.v) && r.value.v.Array?
    decreases |s| - i, 0
  {
    if At(s, i) != '[' as int then None
    else
      var j := SkipWs(s, i + 1);
      if At(s, j) == ']' as int then Some(Parsed(Array([]), j + 1))
      else ElementsFrom(s, j, nesting, [], strtod)
  }

  /** One turn of the item loop at `i`, with the items read so far. */
  function ElementsFrom(s: Bytes, i: nat, nesting: nat, items: seq<Value>, strtod: Strtod): (r: Option<Parsed>)
    requires i <= |s| && WellFormed(Array(items))
    ensures r.Some? ==> i < r.value.next <= |s| && WellFormed(r.value.v) && r.value.v.Array?
    decreases |s| - i, 2
  {
    if At(s, i) == NUL then Close(s, i, ']' as int, Array(items))
    else match ValueAt(s, i, nesting, strtod)
      case None => None
      case Some(Parsed(v, m)) =>
        AddItemWellFormed(items, v);
        AfterElement(s, m, nesting, items + [v], strtod)
  }

  /** The end of a turn of the item loop, as for members. */
  function AfterElement(s: Bytes, i: nat, nesting: nat, items: seq<Value>, strtod: Strtod): (r: Option<Parsed>)
    requires i <= |s| && WellFormed(Array(items))
    ensures r.Some? ==> i < r.value.next <= |s| && WellFormed(r.value.v) && r.value.v.Array?
    decreases |s| - i, 2
  {
    var p := SkipWs(s, i);
    if At(s, p) != ',' as int then Close(s, p, ']' as int, Array(items))
    else
      var q := SkipWs(s, p + 1);
      if At(s, q) == ']' as int then Close(s, q, ']' as int, Array(items))
      else ElementsFrom(s, q, nesting, items, strtod)
  }

  /** `parse_value`. */
  method ParseValue(s: Bytes, i: nat, nesting: nat, strtod: Strtod) returns (r: Option<Parsed>)
    requires i <= |s|
    ensures r == ValueAt(s, i, nesting, strtod)
    decreases |s| - i, 2
  {
    if nesting > MaxNesting {
      return None;
    }
    var j := SkipWhitespaces(s, i);
    var c := At(s, j);
    if c == '{' as int {
      r := ParseObjectValue(s, j, nesting + 1, strtod);
    } else if c == '[' as int {
      r := ParseArrayValue(s, j, nesting + 1, strtod);
    } else if c == QUOTE {
      r := ParseStringValue(s, j);
    } else if c == 'f' as int || c == 't' as int {
      r := BooleanAt(s, j);
    } else if c == '-' as int || '0' as int <= c <= '9' as int {
      r := NumberAt(s, j, strtod);
    } else if c == 'n' as int {
      r := NullAt(s, j);
    } else {
      r := None;
    }
  }

  /** `parse_string_value`. */
  method ParseStringValue(s: Bytes, i: nat) returns (r: Option<Parsed>)
    ensures r == StringAt(s, i)
  {
    var q := GetQuotedString(s, i);
    if q.None? {
      return None;
    }
    r := Some(Parsed(Str(q.value.0), q.value.1));
  }

  /** The first half of a turn of the member loop of `parse_object_value`:
      the name, the colon and the value, added to the members read so far
      unless the name is already present. Yields the members and the
      position after the value. */
  method ParseMember(s: Bytes, i: nat, nesting: nat, ks: seq<Bytes>, vs: seq<Value>, strtod: Strtod)
    returns (r: Option<(seq<Bytes>, seq<Value>, nat)>)
    requires i <= |s| && At(s, i) != NUL && WellFormedMembers(ks, vs)
    ensures r.None? ==> MembersFrom(s, i, nesting, ks, vs, strtod).None?
    ensures r.Some? ==> i < r.value.2 <= |s| && WellFormedMembers(r.value.0, r.value.1)
    ensures r.Some? ==> MembersFrom(s, i, nesting, ks, vs, strtod) == AfterMember(s, r.value.2, nesting, r.value.0, r.value.1, strtod)
    decreases |s| - i, 0
  {
    var key := GetQuotedString(s, i);
    if key.None? {
      return None;
    }
    var name, j := key.value.0, key.value.1;
    if !CString(name) {
      return None;
    }
    var k := SkipWhitespaces(s, j);
    if At(s, k) != ':' as int {
      return None;
    }
    var start := k + 1;
    var v := ParseValue(s, start, nesting, strtod);
    if v.None? || name in ks {
      return None;
    }
    AddMemberWellFormed(ks, vs, name, v.value.v);
    MemberStep(s, i, nesting, ks, vs, strtod, name, j, k, v.value);
    r := Some((ks + [name], vs + [v.value.v], v.value.next));
  }

  /** A member read whole: the member loop goes on after its value with
      the member added. */
  lemma {:induction false} MemberStep(s: Bytes, i: nat, nesting: nat, ks: seq<Bytes>, vs: seq<Value>, strtod: Strtod,
                   name: Bytes, j: nat, k: nat, v: Parsed)
    requires i <= |s| && At(s, i) != NUL && WellFormedMembers(ks, vs)
    requires QuotedString(s, i) == Some((name, j)) && CString(name)
    requires k == SkipWs(s, j) && At(s, k) == ':' as int
    requires ValueAt(s, k + 1, nesting, strtod) == Some(v) && name !in ks
    ensures v.next <= |s| && WellFormedMembers(ks + [name], vs + [v.v])
    ensures MembersFrom(s, i, nesting, ks, vs, strtod) == AfterMember(s, v.next, nesting, ks + [name], vs + [v.v], strtod)
  {
    AddMemberWellFormed(ks, vs, name, v.v);
    assert MembersFrom(s, i, nesting, ks, vs, strtod) == MemberRest(s, j, nesting, ks, vs, name, strtod);
    RestStep(s, j, nesting, ks, vs, strtod, name, k, v);
  }

  /** The rest of a member, read whole, leads to the end of the turn. */
  lemma {:induction false} RestStep(s: Bytes, j: nat, nesting: nat, ks: seq<Bytes>, vs: seq<Value>, strtod: Strtod,
                   name: Bytes, k: nat, v: Parsed)
    requires j <= |s| && WellFormedMembers(ks, vs) && CString(name)
    requires k == SkipWs(s, j) && At(s, k) == ':' as int
    requires ValueAt(s, k + 1, nesting, strtod) == Some(v) && name !in ks
    ensures v.next <= |s| && WellFormedMembers(ks + [name], vs + [v.v])
    ensures MemberRest(s, j, nesting, ks, vs, name, strtod) == AfterMember(s, v.next, nesting, ks + [name], vs + [v.v], strtod)
  {
    AddMemberWellFormed(ks, vs, name, v.v);
    var r := MemberRest(s, j, nesting, ks, vs, name, strtod);
    var x, m := v.v, v.next;
    assert v == Parsed(x, m);
    assert r == AfterMember(s, m, nesting, ks + [name], vs + [x], strtod);
  }

  /** How a turn of the member loop ends, given where the whitespace after
      the value ends (`p`) and, after a comma, where the whitespace after
      the comma ends (`q`). */
  lemma AfterMemberStep(s: Bytes, m: nat, nesting: nat, ks: seq<Bytes>, vs: seq<Value>, strtod: Strtod, p: nat, q: nat)
    requires m <= |s| && WellFormedMembers(ks, vs) && p == SkipWs(s, m)
    requires q == if At(s, p) == ',' as int then SkipWs(s, p + 1) else p
    ensures m <= q <= |s|
    ensures At(s, p) != ',' as int || At(s, q) == '}' as int ==> AfterMember(s, m, nesting, ks, vs, strtod) == Close(s, q, '}' as int, Object(ks, vs))
    ensures At(s, p) == ',' as int && At(s, q) != '}' as int ==> m < q && AfterMember(s, m, nesting, ks, vs, strtod) == MembersFrom(s, q, nesting, ks, vs, strtod)
  {
    var r := AfterMember(s, m, nesting, ks, vs, strtod);
    if At(s, p) != ',' as int {
      assert r == Close(s, p, '}' as int, Object(ks, vs));
    } else if At(s, q) == '}' as int {
      assert r == Close(s, q, '}' as int, Object(ks, vs));
    } else {
      assert r == MembersFrom(s, q, nesting, ks, vs, strtod);
    }
  }

  /** `parse_object_value`: reads members until the loop ends, then
      requires the closing brace. */
  method ParseObjectValue(s: Bytes, i: nat, nesting: nat, strtod: Strtod) returns (r: Option<Parsed>)
    requires i <= |s|
    ensures r == ObjectAt(s, i, nesting, strtod)
    decreases |s| - i, 1
  {
    if At(s, i) != '{' as int {
      return None;
    }
    var cur := SkipWhitespaces(s, i + 1);
    if At(s, cur) == '}' as int {
      return Some(Parsed(Object([], []), cur + 1));
    }
    ghost var target := ObjectAt(s, i, nesting, strtod);
    var ks: seq<Bytes>, vs: seq<Value> := [], [];
    while At(s, cur) != NUL
      invariant i < cur <= |s| && WellFormedMembers(ks, vs)
      invariant target == MembersFrom(s, cur, nesting, ks, vs, strtod)
      decreases |s| - cur
    {
      var member := ParseMember(s, cur, nesting, ks, vs, strtod);
      if member.None? {
        return None;
      }
      var m;
      ks, vs, m := member.value.0, member.value.1, member.value.2;
      var p := SkipWhitespaces(s, m);
      var q := p;
      if At(s, p) == ',' as int {
        q := SkipWhitespaces(s, p + 1);
      }
      AfterMemberStep(s, m, nesting, ks, vs, strtod, p, q);
      cur := q;
      if At(s, p) != ',' as int || At(s, q) == '}' as int {
        break;
      }
    }
    assert target == Close(s, cur, '}' as int, Object(ks, vs));
    r := CloseValue(s, cur, '}' as int, Object(ks, vs));
  }

  /** After either loop: whitespace, then the closing byte. */
  method CloseValue(s: Bytes, i: nat, closer: byte, v: Value) returns (r: Option<Parsed>)
    requires i <= |s| && closer != NUL
    ensures r == Close(s, i, closer, v)
  {
    var e := SkipWhitespaces(s, i);
    if At(s, e) != closer {
      return None;
    }
    r := Some(Parsed(v, e + 1));
  }

  /** A turn of the item loop that reads a value continues after it. */
  lemma ElementStep(s: Bytes, i: nat, nesting: nat, items: seq<Value>, v: Parsed, strtod: Strtod)
    requires i <= |s| && At(s, i) != NUL && WellFormed(Array(items)) && ValueAt(s, i, nesting, strtod) == Some(v)
    ensures WellFormed(Array(items + [v.v])) && i < v.next <= |s|
    ensures ElementsFrom(s, i, nesting, items, strtod) == AfterElement(s, v.next, nesting, items + [v.v], strtod)
  {
    AddItemWellFormed(items, v.v);
  }

  /** How a turn of the item loop ends, as for members. */
  lemma AfterElementStep(s: Bytes, m: nat, nesting: nat, items: seq<Value>, strtod: Strtod, p: nat, q: nat)
    requires m <= |s| && WellFormed(Array(items)) && p == SkipWs(s, m)
    requires q == if At(s, p) == ',' as int then SkipWs(s, p + 1) else p
    ensures m <= q <= |s|
    ensures At(s, p) != ',' as int || At(s, q) == ']' as int ==> AfterElement(s, m, nesting, items, strtod) == Close(s, q, ']' as int, Array(items))
    ensures At(s, p) == ',' as int && At(s, q) != ']' as int ==> m < q && AfterElement(s, m, nesting, items, strtod) == ElementsFrom(s, q, nesting, items, strtod)
  {
    var r := AfterElement(s, m, nesting, items, strtod);
    if At(s, p) != ',' as int {
      assert r == Close(s, p, ']' as int, Array(items));
    } else if At(s, q) == ']' as int {
      assert r == Close(s, q, ']' as int, Array(items));
    } else {
      assert r == ElementsFrom(s, q, nesting, items, strtod);
    }
  }

  /** `parse_array_value`: reads items until the loop ends, then requires
      the closing bracket. */
  method ParseArrayValue(s: Bytes, i: nat, nesting: nat, strtod: Strtod) returns (r: Option<Parsed>)
    requires i <= |s|
    ensures r == ArrayAt(s, i, nesting, strtod)
    decreases |s| - i, 1
  {
    if At(s, i) != '[' as int {
      return None;
    }
    var cur := SkipWhitespaces(s, i + 1);
    if At(s, cur) == ']' as int {
      return Some(Parsed(Array([]), cur + 1));
    }
    ghost var target := ArrayAt(s, i, nesting, strtod);
    var items: seq<Value> := [];
    while At(s, cur) != NUL
      invariant i < cur <= |s| && WellFormed(Array(items))
      invariant target == ElementsFrom(s, cur, nesting, items, strtod)
      decreases |s| - cur
    {
      var v := ParseValue(s, cur, nesting, strtod);
      if v.None? {
        return None;
      }
      ElementStep(s, cur, nesting, items, v.value, strtod);
      items := items + [v.value.v];
      var p := SkipWhitespaces(s, v.value.next);
      var q := p;
      if At(s, p) == ',' as int {
        q := SkipWhitespaces(s, p + 1);
      }
      AfterElementStep(s, v.value.next, nesting, items, strtod, p, q);
      cur := q;
      if At(s, p) != ',' as int || At(s, q) == ']' as int {
        break;
      }
    }
    assert target == Close(s, cur, ']' as int, Array(items));
    r := CloseValue(s, cur, ']' as int, Array(items));
  }

  /** Where `json_parse_string` starts: past a UTF-8 byte order mark. */
  function StartOf(s: Bytes): (i: nat)
    ensures i <= |s|
  {
    if At(s, 0) == 0xEF && At(s, 1) == 0xBB && At(s, 2) == 0xBF then 3 else 0
  }

  /** The value `parse_value` yields from `i` at the top level; whatever
      follows it is ignored. */
  function TopValue(s: Bytes, i: nat, strtod: Strtod): (r: Option<Value>)
    requires i <= |s|
    ensures r.Some? ==> WellFormed(r.value)
  {
    match ValueAt(s, i, 0, strtod)
    case None => None
    case Some(p) => Some(p.v)
  }

  /** `json_parse_string`: a null text gives nothing; otherwise a byte
      order mark is skipped and one value is parsed. */
  method JsonParseString(s: Option<Bytes>, strtod: Strtod) returns (r: Option<Value>)
    ensures s.None? ==> r.None?
    ensures s.Some? ==> r == TopValue(s.value, StartOf(s.value), strtod)
  {
    if s.None? {
      return None;
    }
    var text := s.value;
    var start := 0;
    if At(text, 0) == 0xEF && At(text, 1) == 0xBB && At(text, 2) == 0xBF {
      start := 3;
    }
    var p := ParseValue(text, start, 0, strtod);
    r := if p.None? then None else Some(p.value.v);
  }

  /** The text `json_parse_string_with_comments` parses: block comments,
      then line comments, blanked out. */
  function Uncommented(s: Bytes): (r: Bytes)
    ensures |r| == |s|
  {
    var slashStar, starSlash, slashSlash := Ascii("/*"), Ascii("*/"), Ascii("//");
    Comments.StripKeepsOrBlanks(s, slashStar, starSlash);
    var t := Comments.Strip(s, slashStar, starSlash);
    Comments.StripKeepsOrBlanks(t, slashSlash, [NEWLINE]);
    Comments.Strip(t, slashSlash, [NEWLINE])
  }

  /** `json_parse_string_with_comments`: strips the comments from a copy of
      the text and parses it, with no byte order mark skipped. */
  method JsonParseStringWithComments(s: Bytes, strtod: Strtod) returns (r: Option<Value>)
    ensures r == TopValue(Uncommented(s), 0, strtod)
  {
    var copy := new byte[|s|](k requires 0 <= k < |s| => s[k]);
    assert copy[..] == s;
    Comments.RemoveComments(copy, Ascii("/*"), Ascii("*/"));
    Comments.RemoveComments(copy, Ascii("//"), [NEWLINE]);
    var p := ParseValue(copy[..], 0, 0, strtod);
    r := if p.None? then None else Some(p.value.v);
  }
}
