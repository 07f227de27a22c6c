/** Serialization (`json_serialize_to_buffer_r`, `json_serialization_size`,
    `json_serialize_to_buffer`, `json_serialize_to_string` and their
    `_pretty` variants).

    `Text` is the text a value serializes to; `SerializeValue` writes it the
    way parson does, into a buffer or, with no buffer, only counting its
    length. The pretty layout puts every item and member on a line of its
    own, indented by four spaces per level, with a space after each colon.

    Printing a number (`sprintf` with the float format, or the user's
    number serialization function) is not modelled: it is a parameter
    `num` giving the text of each number. Whether slashes are escaped (the
    `parson_escape_slashes` setting) is the parameter `slash`. */
module Serializer {
  import opened Wrappers
  import opened Bytes
  import opened Values
  import Escapes
  import Output

  /** `parson_indent_str`: four spaces per level. */
  const IndentUnit: Bytes := [SPACE, SPACE, SPACE, SPACE]

  const OPEN_BRACKET: byte := 0x5B
  const CLOSE_BRACKET: byte := 0x5D
  const OPEN_BRACE: byte := 0x7B
  const CLOSE_BRACE: byte := 0x7D
  const COMMA: byte := 0x2C
  const COLON: byte := 0x3A

  /** The text a number prints as. */
  type NumberFormat = real -> Bytes

  /** What a container writes after its opening byte: a newline in pretty
      mode when it has items. */
  function Opening(count: nat, pretty: bool): Bytes {
    if count > 0 && pretty then [NEWLINE] else []
  }

  /** What a container writes before its closing byte: its own indentation
      in pretty mode when it has items. */
  function Closing(count: nat, level: nat, pretty: bool): Bytes {
    if count > 0 && pretty then Output.Indent(level, IndentUnit) else []
  }

  /** What precedes an item or member: its indentation in pretty mode. */
  function Lead(level: nat, pretty: bool): Bytes {
    if pretty then Output.Indent(level, IndentUnit) else []
  }

  /** What follows an item or member: a comma unless it is the last, then
      a newline in pretty mode. */
  function Trail(i: nat, count: nat, pretty: bool): Bytes {
    (if i + 1 < count then [COMMA] else []) + (if pretty then [NEWLINE] else [])
  }

  /** The text of `v` at nesting `level`. */
  function Text(v: Value, level: nat, pretty: bool, slash: bool, num: NumberFormat): Bytes
    requires WellFormed(v)
    decreases v, 1, 0
  {
    match v
    case Null => Ascii("null")
    case Boolean(b) => if b then Ascii("true") else Ascii("false")
    case Number(x) => num(x)
    case Str(t) => Escapes.Quoted(t, slash)
    case Array(items) =>
      [OPEN_BRACKET] + Opening(|items|, pretty) + ItemsText(v, |items|, level, pretty, slash, num)
      + Closing(|items|, level, pretty) + [CLOSE_BRACKET]
    case Object(ks, _) =>
      [OPEN_BRACE] + Opening(|ks|, pretty) + MembersText(v, |ks|, level, pretty, slash, num)
      + Closing(|ks|, level, pretty) + [CLOSE_BRACE]
  }

  /** The first `n` items of an array, each with its lead and trail. */
  function ItemsText(v: Value, n: nat, level: nat, pretty: bool, slash: bool, num: NumberFormat): Bytes
    requires WellFormed(v) && v.Array? && n <= |v.items|
    decreases v, 0, n
  {
    if n == 0 then [] else ItemsText(v, n - 1, level, pretty, slash, num) + Item(v.items[n - 1], n - 1, |v.items|, level + 1, pretty, slash, num)
  }

  /** An item at `level`: its indentation, its text, and what follows it. */
  function Item(x: Value, i: nat, count: nat, level: nat, pretty: bool, slash: bool, num: NumberFormat): Bytes
    requires WellFormed(x)
    decreases x, 2
  {
    Lead(level, pretty) + Text(x, level, pretty, slash, num) + Trail(i, count, pretty)
  }

  /** The first `n` members of an object, each with its lead and trail. */
  function MembersText(v: Value, n: nat, level: nat, pretty: bool, slash: bool, num: NumberFormat): Bytes
    requires WellFormed(v) && v.Object? && n <= |v.names|
    decreases v, 0, n
  {
    if n == 0 then [] else MembersText(v, n - 1, level, pretty, slash, num) + Entry(v.names[n - 1], v.values[n - 1], n - 1, |v.names|, level + 1, pretty, slash, num)
  }

  /** A member at `level`: its name as a string literal, a colon (and a
      space in pretty mode), its value. */
  function Entry(name: Bytes, x: Value, i: nat, count: nat, level: nat, pretty: bool, slash: bool, num: NumberFormat): Bytes
    requires WellFormed(x)
    decreases x, 2
  {
    Lead(level, pretty) + Escapes.Quoted(name, slash) + [COLON] + (if pretty then [SPACE] else [])
    + Text(x, level, pretty, slash, num) + Trail(i, count, pretty)
  }

  /** Later items only lengthen the text. */
  lemma {:induction false} ItemsTextGrows(v: Value, i: nat, n: nat, level: nat, pretty: bool, slash: bool, num: NumberFormat)
    requires WellFormed(v) && v.Array? && i <= n <= |v.items|
    ensures |ItemsText(v, i, level, pretty, slash, num)| <= |ItemsText(v, n, level, pretty, slash, num)|
    decreases n - i
  {
    if i < n {
      var m := n - 1;
      ItemsTextGrows(v, i, m, level, pretty, slash, num);
    }
  }

  lemma {:induction false} MembersTextGrows(v: Value, i: nat, n: nat, level: nat, pretty: bool, slash: bool, num: NumberFormat)
    requires WellFormed(v) && v.Object? && i <= n <= |v.names|
    ensures |MembersText(v, i, level, pretty, slash, num)| <= |MembersText(v, n, level, pretty, slash, num)|
    decreases n - i
  {
    if i < n {
      var m := n - 1;
      MembersTextGrows(v, i, m, level, pretty, slash, num);
    }
  }

  /** One more item after `head` and the first `i` items. */
  lemma ItemsTextStep(v: Value, i: nat, count: nat, level: nat, pretty: bool, slash: bool, num: NumberFormat, head: Bytes, done: Bytes)
    requires WellFormed(v) && v.Array? && i < |v.items| == count
    requires done == head + ItemsText(v, i, level, pretty, slash, num)
    ensures done + Item(v.items[i], i, count, level + 1, pretty, slash, num) == head + ItemsText(v, i + 1, level, pretty, slash, num)
  {
    Extend(head, ItemsText(v, i, level, pretty, slash, num), Item(v.items[i], i, |v.items|, level + 1, pretty, slash, num));
  }

  /** One more member after `head` and the first `i` members. */
  lemma MembersTextStep(v: Value, i: nat, count: nat, level: nat, pretty: bool, slash: bool, num: NumberFormat, head: Bytes, done: Bytes)
    requires WellFormed(v) && v.Object? && i < |v.names| == count
    requires done == head + MembersText(v, i, level, pretty, slash, num)
    ensures done + Entry(v.names[i], v.values[i], i, count, level + 1, pretty, slash, num) == head + MembersText(v, i + 1, level, pretty, slash, num)
  {
    Extend(head, MembersText(v, i, level, pretty, slash, num), Entry(v.names[i], v.values[i], i, |v.names|, level + 1, pretty, slash, num));
  }

  lemma Extend(head: Bytes, m: Bytes, piece: Bytes)
    ensures (head + m) + piece == head + (m + piece)
  {
  }

  /** `json_serialize_to_buffer_r`: writes the text of `v` at `buf[at..]`,
      terminated by a NUL, or only counts it when there is no buffer; the
      result is the text's length. */
  method SerializeValue(v: Value, buf: array?<byte>, at: nat, level: nat, pretty: bool, slash: bool, num: NumberFormat)
    returns (written: nat)
    requires WellFormed(v)
    requires buf != null ==> at + |Text(v, level, pretty, slash, num)| < buf.Length
    modifies buf
    ensures written == |Text(v, level, pretty, slash, num)|
    ensures buf != null ==> Output.Emitted(buf[..], old(buf[..]), at, Text(v, level, pretty, slash, num))
    decreases v, 3
  {
    match v
    case Null =>
      Output.AppendLiteral(buf, at, Ascii("null"));
      written := 4;
    case Boolean(b) =>
      var lit := if b then Ascii("true") else Ascii("false");
      Output.AppendLiteral(buf, at, lit);
      written := |lit|;
    case Number(x) =>
      Output.AppendLiteral(buf, at, num(x));
      written := |num(x)|;
    case Str(t) =>
      written := Escapes.SerializeString(t, slash, buf, at);
    case Array(_) =>
      written := SerializeArray(v, buf, at, level, pretty, slash, num);
    case Object(_, _) =>
      written := SerializeObject(v, buf, at, level, pretty, slash, num);
  }

  /** The array case of `json_serialize_to_buffer_r`: the opening bracket,
      the items in a loop, the closing bracket. */
  method SerializeArray(v: Value, buf: array?<byte>, at: nat, level: nat, pretty: bool, slash: bool, num: NumberFormat)
    returns (written: nat)
    requires WellFormed(v) && v.Array?
    requires buf != null ==> at + |Text(v, level, pretty, slash, num)| < buf.Length
    modifies buf
    ensures written == |Text(v, level, pretty, slash, num)|
    ensures buf != null ==> Output.Emitted(buf[..], old(buf[..]), at, Text(v, level, pretty, slash, num))
    decreases v, 2
  {
    var count := |v.items|;
    ghost var b0 := if buf != null then buf[..] else [];
    ghost var head: Bytes := [OPEN_BRACKET] + Opening(count, pretty);
    written := AppendHead(buf, at, OPEN_BRACKET, count, pretty);
    var pos := at + written;
    var n := ArrayItems(v, buf, at, pos, b0, head, level, pretty, slash, num);
    ghost var done := head + ItemsText(v, count, level, pretty, slash, num);
    var end := pos + n;
    var tail := AppendTail(buf, at, end, b0, done, CLOSE_BRACKET, count, level, pretty);
    written := written + n + tail;
  }

  /** The loop of the array case, after the opening `head`: every
      item in order, written at `pos`. */
  method ArrayItems(v: Value, buf: array?<byte>, at: nat, pos: nat, ghost b0: seq<byte>, ghost head: Bytes,
                    level: nat, pretty: bool, slash: bool, num: NumberFormat)
    returns (n: nat)
    requires WellFormed(v) && v.Array? && pos == at + |head|
    requires buf != null ==> at + |head| + |ItemsText(v, |v.items|, level, pretty, slash, num)| < buf.Length
    requires buf != null ==> Output.Wrote(buf[..], b0, at, head)
    modifies buf
    ensures pos + n == at + |head| + |ItemsText(v, |v.items|, level, pretty, slash, num)|
    ensures buf != null ==> Output.Wrote(buf[..], b0, at, head + ItemsText(v, |v.items|, level, pretty, slash, num))
    decreases v, 1
  {
    var count := |v.items|;
    var i := 0;
    n := 0;
    assert head + ItemsText(v, 0, level, pretty, slash, num) == head;
    while i < count
      invariant i <= count
      invariant pos + n == at + |head| + |ItemsText(v, i, level, pretty, slash, num)|
      invariant buf != null ==> Output.Wrote(buf[..], b0, at, head + ItemsText(v, i, level, pretty, slash, num))
    {
      var cur, next := pos + n, i + 1;
      var k := ArrayItem(v, i, next, buf, at, cur, b0, head, level, pretty, slash, num);
      n := n + k;
      i := next;
    }
  }

  /** One turn of the array loop: item `i` goes after the opening `head`
      and the items before it. */
  method ArrayItem(v: Value, i: nat, next: nat, buf: array?<byte>, at: nat, pos: nat, ghost b0: seq<byte>, ghost head: Bytes,
                   level: nat, pretty: bool, slash: bool, num: NumberFormat)
    returns (n: nat)
    requires next == i + 1 && WellFormed(v) && v.Array? && i < |v.items|
    requires pos == at + |head| + |ItemsText(v, i, level, pretty, slash, num)|
    requires buf != null ==> at + |head| + |ItemsText(v, |v.items|, level, pretty, slash, num)| < buf.Length
    requires buf != null ==> Output.Wrote(buf[..], b0, at, head + ItemsText(v, i, level, pretty, slash, num))
    modifies buf
    ensures pos + n == at + |head| + |ItemsText(v, next, level, pretty, slash, num)|
    ensures buf != null ==> Output.Wrote(buf[..], b0, at, head + ItemsText(v, next, level, pretty, slash, num))
    decreases v, 0
  {
    ghost var done := head + ItemsText(v, i, level, pretty, slash, num);
    ItemsTextGrows(v, i + 1, |v.items|, level, pretty, slash, num);
    ItemsTextStep(v, i, |v.items|, level, pretty, slash, num, head, done);
    n := SerializeItem(v.items[i], i, |v.items|, buf, at, pos, b0, done, level + 1, pretty, slash, num);
  }

  /** One turn of the object loop: member `i` goes after the opening
      `head` and the members before it. */
  method ObjectMember(v: Value, i: nat, next: nat, buf: array?<byte>, at: nat, pos: nat, ghost b0: seq<byte>, ghost head: Bytes,
                      level: nat, pretty: bool, slash: bool, num: NumberFormat)
    returns (n: nat)
    requires next == i + 1 && WellFormed(v) && v.Object? && i < |v.names|
    requires pos == at + |head| + |MembersText(v, i, level, pretty, slash, num)|
    requires buf != null ==> at + |head| + |MembersText(v, |v.names|, level, pretty, slash, num)| < buf.Length
    requires buf != null ==> Output.Wrote(buf[..], b0, at, head + MembersText(v, i, level, pretty, slash, num))
    modifies buf
    ensures pos + n == at + |head| + |MembersText(v, next, level, pretty, slash, num)|
    ensures buf != null ==> Output.Wrote(buf[..], b0, at, head + MembersText(v, next, level, pretty, slash, num))
    decreases v, 0
  {
    ghost var done := head + MembersText(v, i, level, pretty, slash, num);
    MembersTextGrows(v, i + 1, |v.names|, level, pretty, slash, num);
    MembersTextStep(v, i, |v.names|, level, pretty, slash, num, head, done);
    n := SerializeMember(v.names[i], v.values[i], i, |v.names|, buf, at, pos, b0, done, level + 1, pretty, slash, num);
  }

  /** The opening byte of a container, then a newline in pretty mode when
      it has items. */
  method AppendHead(buf: array?<byte>, at: nat, opener: byte, count: nat, pretty: bool) returns (written: nat)
    requires buf != null ==> at + 1 + |Opening(count, pretty)| < buf.Length
    modifies buf
    ensures written == 1 + |Opening(count, pretty)|
    ensures buf != null ==> Output.Wrote(buf[..], old(buf[..]), at, [opener] + Opening(count, pretty))
  {
    ghost var b0 := if buf != null then buf[..] else [];
    Output.AppendLiteral(buf, at, [opener]);
    written := 1;
    if count > 0 && pretty {
      ghost var b1 := if buf != null then buf[..] else [];
      var pos := at + 1;
      Output.AppendLiteral(buf, pos, [NEWLINE]);
      if buf != null {
        Output.WroteThen(b0, b1, buf[..], at, [opener], pos, [NEWLINE]);
      }
      written := 2;
    }
  }

  /** The indentation before the closing byte in pretty mode, then the
      closing byte, terminated; `sofar` is what has been written from `at`
      up to the cursor `pos`. */
  method AppendTail(buf: array?<byte>, at: nat, pos: nat, ghost b0: seq<byte>, ghost sofar: Bytes, closer: byte, count: nat, level: nat, pretty: bool)
    returns (n: nat)
    requires pos == at + |sofar|
    requires buf != null ==> pos + |Closing(count, level, pretty)| + 1 < buf.Length
    requires buf != null ==> Output.Wrote(buf[..], b0, at, sofar)
    modifies buf
    ensures n == |Closing(count, level, pretty)| + 1
    ensures buf != null ==> Output.Emitted(buf[..], b0, at, sofar + Closing(count, level, pretty) + [closer])
  {
    ghost var b1 := if buf != null then buf[..] else [];
    n := 0;
    if count > 0 && pretty {
      n := Output.AppendIndent(buf, pos, level, IndentUnit);
      if buf != null {
        Output.WroteThen(b0, b1, buf[..], at, sofar, pos, Output.Indent(level, IndentUnit));
      }
    } else if buf != null {
      assert sofar + Closing(count, level, pretty) == sofar;
    }
    ghost var b2 := if buf != null then buf[..] else [];
    var last := pos + n;
    Output.AppendLiteral(buf, last, [closer]);
    if buf != null {
      Output.EmittedThen(b0, b2, buf[..], at, sofar + Closing(count, level, pretty), last, [closer]);
    }
    n := n + 1;
  }

  /** One turn of the array loop: the indentation, the item `x`, then the
      comma and newline that follow it, written at the cursor `pos` after
      `sofar`. */
  method SerializeItem(x: Value, i: nat, count: nat, buf: array?<byte>, at: nat, pos: nat, ghost b0: seq<byte>, ghost sofar: Bytes,
                       level: nat, pretty: bool, slash: bool, num: NumberFormat)
    returns (written: nat)
    requires WellFormed(x) && pos == at + |sofar|
    requires buf != null ==> pos + |Item(x, i, count, level, pretty, slash, num)| < buf.Length
    requires buf != null ==> Output.Wrote(buf[..], b0, at, sofar)
    modifies buf
    ensures written == |Item(x, i, count, level, pretty, slash, num)|
    ensures buf != null ==> Output.Wrote(buf[..], b0, at, sofar + Item(x, i, count, level, pretty, slash, num))
    decreases x, 4
  {
    ghost var lead := Lead(level, pretty);
    ghost var body := Text(x, level, pretty, slash, num);
    written := AppendLead(buf, at, pos, b0, sofar, level, pretty);
    ghost var b1 := if buf != null then buf[..] else [];
    var p1 := pos + written;
    var n := SerializeValue(x, buf, p1, level, pretty, slash, num);
    if buf != null {
      Output.WroteThen(b0, b1, buf[..], at, sofar + lead, p1, body);
    }
    written := written + n;
    var p2 := pos + written;
    var t := AppendTrail(buf, at, p2, b0, sofar + lead + body, i, count, pretty);
    written := written + t;
    Assoc3(sofar, lead, body, Trail(i, count, pretty));
  }

  lemma Assoc3(s: Bytes, a: Bytes, b: Bytes, c: Bytes)
    ensures s + (a + b + c) == s + a + b + c
  {
  }

  /** The indentation of an item or member in pretty mode. */
  method AppendLead(buf: array?<byte>, at: nat, pos: nat, ghost b0: seq<byte>, ghost sofar: Bytes, level: nat, pretty: bool)
    returns (written: nat)
    requires pos == at + |sofar|
    requires buf != null ==> pos + |Lead(level, pretty)| < buf.Length
    requires buf != null ==> Output.Wrote(buf[..], b0, at, sofar)
    modifies buf
    ensures written == |Lead(level, pretty)|
    ensures buf != null ==> Output.Wrote(buf[..], b0, at, sofar + Lead(level, pretty))
  {
    if pretty {
      ghost var b1 := if buf != null then buf[..] else [];
      written := Output.AppendIndent(buf, pos, level, IndentUnit);
      if buf != null {
        Output.WroteThen(b0, b1, buf[..], at, sofar, pos, Output.Indent(level, IndentUnit));
      }
    } else {
      written := 0;
      assert sofar + Lead(level, pretty) == sofar;
    }
  }

  /** The comma after every item or member but the last, and the newline
      in pretty mode. */
  method AppendTrail(buf: array?<byte>, at: nat, pos: nat, ghost b0: seq<byte>, ghost sofar: Bytes, i: nat, count: nat, pretty: bool)
    returns (n: nat)
    requires pos == at + |sofar|
    requires buf != null ==> pos + |Trail(i, count, pretty)| < buf.Length
    requires buf != null ==> Output.Wrote(buf[..], b0, at, sofar)
    modifies buf
    ensures n == |Trail(i, count, pretty)|
    ensures buf != null ==> Output.Wrote(buf[..], b0, at, sofar + Trail(i, count, pretty))
  {
    n := 0;
    ghost var comma: Bytes := [];
    if i + 1 < count {
      ghost var b1 := if buf != null then buf[..] else [];
      Output.AppendLiteral(buf, pos, [COMMA]);
      if buf != null {
        Output.WroteThen(b0, b1, buf[..], at, sofar, pos, [COMMA]);
      }
      n := 1;
      comma := [COMMA];
    }
    if pretty {
      ghost var b2 := if buf != null then buf[..] else [];
      var p1 := pos + n;
      Output.AppendLiteral(buf, p1, [NEWLINE]);
      if buf != null {
        Output.WroteThen(b0, b2, buf[..], at, sofar + comma, p1, [NEWLINE]);
      }
      n := n + 1;
    }
    assert sofar + Trail(i, count, pretty) == sofar + comma + (if pretty then [NEWLINE] else []);
  }

  /** The object case of `json_serialize_to_buffer_r`: the opening brace,
      the members in a loop, the closing brace. */
  method SerializeObject(v: Value, buf: array?<byte>, at: nat, level: nat, pretty: bool, slash: bool, num: NumberFormat)
    returns (written: nat)
    requires WellFormed(v) && v.Object?
    requires buf != null ==> at + |Text(v, level, pretty, slash, num)| < buf.Length
    modifies buf
    ensures written == |Text(v, level, pretty, slash, num)|
    ensures buf != null ==> Output.Emitted(buf[..], old(buf[..]), at, Text(v, level, pretty, slash, num))
    decreases v, 2
  {
    var count := |v.names|;
    ghost var b0 := if buf != null then buf[..] else [];
    ghost var head: Bytes := [OPEN_BRACE] + Opening(count, pretty);
    written := AppendHead(buf, at, OPEN_BRACE, count, pretty);
    var pos := at + written;
    var n := ObjectMembers(v, buf, at, pos, b0, head, level, pretty, slash, num);
    ghost var done := head + MembersText(v, count, level, pretty, slash, num);
    var end := pos + n;
    var tail := AppendTail(buf, at, end, b0, done, CLOSE_BRACE, count, level, pretty);
    written := written + n + tail;
  }

  /** The loop of the object case, after the opening `head`: every
      member in order, written at `pos`. */
  method ObjectMembers(v: Value, buf: array?<byte>, at: nat, pos: nat, ghost b0: seq<byte>, ghost head: Bytes,
                    level: nat, pretty: bool, slash: bool, num: NumberFormat)
    returns (n: nat)
    requires WellFormed(v) && v.Object? && pos == at + |head|
    requires buf != null ==> at + |head| + |MembersText(v, |v.names|, level, pretty, slash, num)| < buf.Length
    requires buf != null ==> Output.Wrote(buf[..], b0, at, head)
    modifies buf
    ensures pos + n == at + |head| + |MembersText(v, |v.names|, level, pretty, slash, num)|
    ensures buf != null ==> Output.Wrote(buf[..], b0, at, head + MembersText(v, |v.names|, level, pretty, slash, num))
    decreases v, 1
  {
    var count := |v.names|;
    var i := 0;
    n := 0;
    assert head + MembersText(v, 0, level, pretty, slash, num) == head;
    while i < count
      invariant i <= count
      invariant pos + n == at + |head| + |MembersText(v, i, level, pretty, slash, num)|
      invariant buf != null ==> Output.Wrote(buf[..], b0, at, head + MembersText(v, i, level, pretty, slash, num))
    {
      var cur, next := pos + n, i + 1;
      var k := ObjectMember(v, i, next, buf, at, cur, b0, head, level, pretty, slash, num);
      n := n + k;
      i := next;
    }
  }

  /** One turn of the object loop: the indentation, the quoted `name`, the
      colon (and a space in pretty mode), the value `x`, then the comma and
      newline that follow it, written at the cursor `pos` after `sofar`. */
  method SerializeMember(name: Bytes, x: Value, i: nat, count: nat, buf: array?<byte>, at: nat, pos: nat, ghost b0: seq<byte>, ghost sofar: Bytes,
                         level: nat, pretty: bool, slash: bool, num: NumberFormat)
    returns (written: nat)
    requires WellFormed(x) && pos == at + |sofar|
    requires buf != null ==> pos + |Entry(name, x, i, count, level, pretty, slash, num)| < buf.Length
    requires buf != null ==> Output.Wrote(buf[..], b0, at, sofar)
    modifies buf
    ensures written == |Entry(name, x, i, count, level, pretty, slash, num)|
    ensures buf != null ==> Output.Wrote(buf[..], b0, at, sofar + Entry(name, x, i, count, level, pretty, slash, num))
    decreases x, 4
  {
    ghost var lead := Lead(level, pretty);
    ghost var quoted := Escapes.Quoted(name, slash);
    ghost var colon: Bytes := [COLON] + (if pretty then [SPACE] else []);
    ghost var body := Text(x, level, pretty, slash, num);
    EntryParts(sofar, name, x, i, count, level, pretty, slash, num);
    written := AppendLead(buf, at, pos, b0, sofar, level, pretty);
    ghost var b1 := if buf != null then buf[..] else [];
    var p1 := pos + written;
    var n := Escapes.SerializeString(name, slash, buf, p1);
    if buf != null {
      Output.WroteThen(b0, b1, buf[..], at, sofar + lead, p1, quoted);
    }
    written := written + n;
    var p2 := pos + written;
    var c := AppendColon(buf, at, p2, b0, sofar + lead + quoted, pretty);
    written := written + c;
    ghost var b3 := if buf != null then buf[..] else [];
    var p3 := pos + written;
    n := SerializeValue(x, buf, p3, level, pretty, slash, num);
    if buf != null {
      Output.WroteThen(b0, b3, buf[..], at, sofar + lead + quoted + colon, p3, body);
    }
    written := written + n;
    var p4 := pos + written;
    var t := AppendTrail(buf, at, p4, b0, sofar + lead + quoted + colon + body, i, count, pretty);
    written := written + t;
  }

  /** How a member's text lines up after what precedes it. */
  lemma EntryParts(sofar: Bytes, name: Bytes, x: Value, i: nat, count: nat, level: nat, pretty: bool, slash: bool, num: NumberFormat)
    requires WellFormed(x)
    ensures sofar + Entry(name, x, i, count, level, pretty, slash, num)
      == sofar + Lead(level, pretty) + Escapes.Quoted(name, slash) + ([COLON] + (if pretty then [SPACE] else []))
         + Text(x, level, pretty, slash, num) + Trail(i, count, pretty)
  {
    Regroup(sofar, Lead(level, pretty), Escapes.Quoted(name, slash), [COLON], if pretty then [SPACE] else [],
            Text(x, level, pretty, slash, num), Trail(i, count, pretty));
  }

  lemma Regroup(s: Bytes, a: Bytes, b: Bytes, c1: Bytes, c2: Bytes, d: Bytes, e: Bytes)
    ensures s + (a + b + c1 + c2 + d + e) == s + a + b + (c1 + c2) + d + e
  {
  }

  /** The colon after a member name, and a space in pretty mode. */
  method AppendColon(buf: array?<byte>, at: nat, pos: nat, ghost b0: seq<byte>, ghost sofar: Bytes, pretty: bool)
    returns (n: nat)
    requires pos == at + |sofar|
    requires buf != null ==> pos + |[COLON] + (if pretty then [SPACE] else [])| < buf.Length
    requires buf != null ==> Output.Wrote(buf[..], b0, at, sofar)
    modifies buf
    ensures n == |[COLON] + (if pretty then [SPACE] else [])|
    ensures buf != null ==> Output.Wrote(buf[..], b0, at, sofar + ([COLON] + (if pretty then [SPACE] else [])))
  {
    ghost var b1 := if buf != null then buf[..] else [];
    Output.AppendLiteral(buf, pos, [COLON]);
    if buf != null {
      Output.WroteThen(b0, b1, buf[..], at, sofar, pos, [COLON]);
    }
    n := 1;
    if pretty {
      ghost var b2 := if buf != null then buf[..] else [];
      var p1 := pos + 1;
      Output.AppendLiteral(buf, p1, [SPACE]);
      if buf != null {
        Output.WroteThen(b0, b2, buf[..], at, sofar + [COLON], p1, [SPACE]);
      }
      n := 2;
    } else {
      assert sofar + ([COLON] + []) == sofar + [COLON];
    }
  }

  /** `json_serialization_size` (and `_pretty`): the length of the text
      plus its terminator, or 0 for a missing value. */
  method SerializationSize(v: Option<Value>, pretty: bool, slash: bool, num: NumberFormat) returns (size: nat)
    requires v.Some? ==> WellFormed(v.value)
    ensures size == if v.None? then 0 else |Text(v.value, 0, pretty, slash, num)| + 1
  {
    if v.None? {
      return 0;
    }
    var written := SerializeValue(v.value, null, 0, 0, pretty, slash, num);
    size := written + 1;
  }

  /** `json_serialize_to_buffer` (and `_pretty`): refuses a missing value
      and a buffer too small for the text and its terminator, leaving the
      buffer alone; otherwise the buffer starts with the text and a NUL,
      and the rest is untouched. */
  method SerializeToBuffer(v: Option<Value>, buf: array<byte>, pretty: bool, slash: bool, num: NumberFormat) returns (ok: bool)
    requires v.Some? ==> WellFormed(v.value)
    modifies buf
    ensures ok <==> v.Some? && |Text(v.value, 0, pretty, slash, num)| + 1 <= buf.Length
    ensures ok ==> var t := Text(v.value, 0, pretty, slash, num);
      buf[..] == t + [NUL] + old(buf[|t| + 1..])
    ensures !ok ==> unchanged(buf)
  {
    var needed := SerializationSize(v, pretty, slash, num);
    if needed == 0 || buf.Length < needed {
      return false;
    }
    var written := SerializeValue(v.value, buf, 0, 0, pretty, slash, num);
    Output.EmittedIsExact(buf[..], old(buf[..]), 0, Text(v.value, 0, pretty, slash, num));
    ok := true;
  }

  /** `json_serialize_to_string` (and `_pretty`): the text of the value in
      a fresh buffer of exactly the right size, or nothing for a missing
      value. */
  method SerializeToString(v: Option<Value>, pretty: bool, slash: bool, num: NumberFormat) returns (r: Option<Bytes>)
    requires v.Some? ==> WellFormed(v.value)
    ensures r == if v.None? then None else Some(Text(v.value, 0, pretty, slash, num))
  {
    var size := SerializationSize(v, pretty, slash, num);
    if size == 0 {
      return None;
    }
    var buf := new byte[size];
    var ok := SerializeToBuffer(v, buf, pretty, slash, num);
    assert buf[..size - 1] == Text(v.value, 0, pretty, slash, num);
    r := Some(buf[..size - 1]);
  }
}
