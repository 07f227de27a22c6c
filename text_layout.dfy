/** Where the parts of a serialized value stand in a text that holds it:
    the brackets and braces, the layout whitespace, each item and each
    member with its name, colon, value and trailing comma. The serializer
    builds its text by concatenation; these lemmas read the pieces back off
    any text that contains it, which is what the parser sees. */
module TextLayout {
  import opened Bytes
  import opened Values
  import opened Serializer
  import Escapes
  import Output

  /** No number anywhere in the tree. */
  predicate NumberFree(v: Value) {
    match v
    case Number(_) => false
    case Array(items) => forall k :: 0 <= k < |items| ==> NumberFree(items[k])
    case Object(_, vs) => forall k :: 0 <= k < |vs| ==> NumberFree(vs[k])
    case _ => true
  }

  /** The bytes `t` stand in `s` from `i` on. */
  predicate Occurs(s: Bytes, i: nat, t: Bytes) {
    i + |t| <= |s| && forall k :: 0 <= k < |t| ==> s[i + k] == t[k]
  }

  predicate AllSpace(t: Bytes) {
    forall k :: 0 <= k < |t| ==> IsSpace(t[k])
  }

  lemma OccursSplit(s: Bytes, i: nat, a: Bytes, b: Bytes)
    requires Occurs(s, i, a + b)
    ensures Occurs(s, i, a) && Occurs(s, i + |a|, b)
  {
    forall k | 0 <= k < |a|
      ensures s[i + k] == a[k]
    {
      assert (a + b)[k] == a[k];
    }
    forall k | 0 <= k < |b|
      ensures s[i + |a| + k] == b[k]
    {
      assert (a + b)[|a| + k] == b[k];
    }
  }

  /** The byte at offset `k`. */
  lemma OccursAt(s: Bytes, i: nat, t: Bytes, k: nat)
    requires Occurs(s, i, t) && k < |t|
    ensures s[i + k] == t[k]
  {
  }

  /** The text as a slice of `s`. */
  lemma OccursSlice(s: Bytes, i: nat, t: Bytes)
    requires Occurs(s, i, t)
    ensures s[i..i + |t|] == t
  {
  }

  lemma {:induction false} IndentSpaces(level: nat)
    ensures AllSpace(Output.Indent(level, IndentUnit))
  {
    if level > 0 {
      IndentSpaces(level - 1);
    }
  }

  /** What the layout puts around items and members is whitespace. */
  lemma LayoutSpaces(count: nat, level: nat, pretty: bool)
    ensures AllSpace(Opening(count, pretty)) && AllSpace(Closing(count, level, pretty)) && AllSpace(Lead(level, pretty))
  {
    IndentSpaces(level);
  }

  /** The first byte of a value's text: it opens a container, a string or
      a literal, so it is never whitespace, a NUL, a comma or a closing
      byte. */
  lemma TextStart(v: Value, level: nat, pretty: bool, slash: bool, num: NumberFormat)
    requires WellFormed(v) && NumberFree(v)
    ensures var t := Text(v, level, pretty, slash, num);
      |t| > 0 && (t[0] == OPEN_BRACKET || t[0] == OPEN_BRACE || t[0] == QUOTE
                  || t[0] == 'n' as int || t[0] == 't' as int || t[0] == 'f' as int)
  {
  }

  /** Where the items of an array stand, the first `k` of them do. */
  lemma {:induction false} ItemsOccur(s: Bytes, base: nat, v: Value, k: nat, m: nat, level: nat, pretty: bool, slash: bool, num: NumberFormat)
    requires WellFormed(v) && v.Array? && k <= m <= |v.items|
    requires Occurs(s, base, ItemsText(v, m, level, pretty, slash, num))
    ensures Occurs(s, base, ItemsText(v, k, level, pretty, slash, num))
    decreases m - k
  {
    if k < m {
      var b := ItemsText(v, m - 1, level, pretty, slash, num);
      var e := Item(v.items[m - 1], m - 1, |v.items|, level + 1, pretty, slash, num);
      OccursSplit(s, base, b, e);
      ItemsOccur(s, base, v, k, m - 1, level, pretty, slash, num);
    }
  }

  /** The same for the members of an object. */
  lemma {:induction false} MembersOccur(s: Bytes, base: nat, v: Value, k: nat, m: nat, level: nat, pretty: bool, slash: bool, num: NumberFormat)
    requires WellFormed(v) && v.Object? && k <= m <= |v.names|
    requires Occurs(s, base, MembersText(v, m, level, pretty, slash, num))
    ensures Occurs(s, base, MembersText(v, k, level, pretty, slash, num))
    decreases m - k
  {
    if k < m {
      var b := MembersText(v, m - 1, level, pretty, slash, num);
      var e := Entry(v.names[m - 1], v.values[m - 1], m - 1, |v.names|, level + 1, pretty, slash, num);
      OccursSplit(s, base, b, e);
      MembersOccur(s, base, v, k, m - 1, level, pretty, slash, num);
    }
  }

  /** Reading the five parts of `a + b + c + d + e` off the text, which
      start at `i`, `j`, `k`, `l` and `m`. */
  lemma Split5(s: Bytes, i: nat, a: Bytes, j: nat, b: Bytes, k: nat, c: Bytes, l: nat, d: Bytes, m: nat, e: Bytes)
    requires Occurs(s, i, a + b + c + d + e)
    requires j == i + |a| && k == j + |b| && l == k + |c| && m == l + |d|
    ensures Occurs(s, i, a) && Occurs(s, j, b) && Occurs(s, k, c) && Occurs(s, l, d) && Occurs(s, m, e)
  {
    OccursSplit(s, i, a + b + c + d, e);
    OccursSplit(s, i, a + b + c, d);
    OccursSplit(s, i, a + b, c);
    OccursSplit(s, i, a, b);
  }

  /** Where the parts of an array's text lie. */
  lemma ArrayLayout(s: Bytes, i: nat, v: Value, level: nat, pretty: bool, slash: bool, num: NumberFormat)
    requires WellFormed(v) && v.Array? && Occurs(s, i, Text(v, level, pretty, slash, num))
    ensures var count := |v.items|;
      var o, body, c := Opening(count, pretty), ItemsText(v, count, level, pretty, slash, num), Closing(count, level, pretty);
      Occurs(s, i, [OPEN_BRACKET]) && Occurs(s, i + 1, o) && Occurs(s, i + 1 + |o|, body) && Occurs(s, i + 1 + |o| + |body|, c)
      && Occurs(s, i + 1 + |o| + |body| + |c|, [CLOSE_BRACKET])
      && |Text(v, level, pretty, slash, num)| == 1 + |o| + |body| + |c| + 1
  {
    var count := |v.items|;
    var o, body, c := Opening(count, pretty), ItemsText(v, count, level, pretty, slash, num), Closing(count, level, pretty);
    assert Text(v, level, pretty, slash, num) == [OPEN_BRACKET] + o + body + c + [CLOSE_BRACKET];
    Split5(s, i, [OPEN_BRACKET], i + 1, o, i + 1 + |o|, body, i + 1 + |o| + |body|, c, i + 1 + |o| + |body| + |c|, [CLOSE_BRACKET]);
  }

  /** A text enclosed in braces lies at `i` of `s`: the opening brace,
      the opening layout `o`, the members `body` from `base`, the closing
      layout `c` and the closing brace, which ends before `t`. */
  predicate BracesLaid(s: Bytes, i: nat, o: Bytes, body: Bytes, c: Bytes, base: nat, t: nat)
  {
    var laid := Occurs(s, i, [OPEN_BRACE]) && Occurs(s, i + 1, o) && base == i + 1 + |o| && Occurs(s, base, body)
      && Occurs(s, base + |body|, c) && Occurs(s, base + |body| + |c|, [CLOSE_BRACE]) && t == base + |body| + |c| + 1;
    laid
  }

  /** An object's text laid out in `s` from `i`, its members from `base`,
      its end at `t`. */
  predicate ObjectLaid(s: Bytes, i: nat, v: Value, level: nat, pretty: bool, slash: bool, num: NumberFormat, base: nat, t: nat)
    requires WellFormed(v) && v.Object?
  {
    var count := |v.names|;
    BracesLaid(s, i, Opening(count, pretty), MembersText(v, count, level, pretty, slash, num), Closing(count, level, pretty), base, t)
  }

  /** Where the parts of an object's text lie: its members from `base`,
      its end at `t`. */
  lemma ObjectLayout(s: Bytes, i: nat, v: Value, level: nat, pretty: bool, slash: bool, num: NumberFormat) returns (base: nat, t: nat)
    requires WellFormed(v) && v.Object? && Occurs(s, i, Text(v, level, pretty, slash, num))
    ensures t == i + |Text(v, level, pretty, slash, num)| && ObjectLaid(s, i, v, level, pretty, slash, num, base, t)
  {
    var o, body, c := ObjectShape(v, level, pretty, slash, num);
    base, t := BracesParts(s, i, o, body, c);
  }

  /** An object's text: the opening brace, the opening layout `o`, the
      members `body`, the closing layout `c` and the closing brace. */
  lemma ObjectShape(v: Value, level: nat, pretty: bool, slash: bool, num: NumberFormat) returns (o: Bytes, body: Bytes, c: Bytes)
    requires WellFormed(v) && v.Object?
    ensures o == Opening(|v.names|, pretty) && body == MembersText(v, |v.names|, level, pretty, slash, num) && c == Closing(|v.names|, level, pretty)
    ensures Text(v, level, pretty, slash, num) == [OPEN_BRACE] + o + body + c + [CLOSE_BRACE]
  {
    var count := |v.names|;
    o, body, c := Opening(count, pretty), MembersText(v, count, level, pretty, slash, num), Closing(count, level, pretty);
  }

  /** The five parts of a braced text, found in `s`, make its layout. */
  lemma BracesParts(s: Bytes, i: nat, o: Bytes, body: Bytes, c: Bytes) returns (base: nat, t: nat)
    requires Occurs(s, i, [OPEN_BRACE] + o + body + c + [CLOSE_BRACE])
    ensures t == i + |[OPEN_BRACE] + o + body + c + [CLOSE_BRACE]| && BracesLaid(s, i, o, body, c, base, t)
  {
    Split5(s, i, [OPEN_BRACE], i + 1, o, i + 1 + |o|, body, i + 1 + |o| + |body|, c, i + 1 + |o| + |body| + |c|, [CLOSE_BRACE]);
    base, t := i + 1 + |o|, i + 1 + |o| + |body| + |c| + 1;
  }

  /** The parts of an object's laid-out text, named. */
  lemma ObjectLaidParts(s: Bytes, i: nat, v: Value, level: nat, pretty: bool, slash: bool, num: NumberFormat, base: nat, t: nat)
    returns (o: Bytes, body: Bytes, c: Bytes)
    requires WellFormed(v) && v.Object? && ObjectLaid(s, i, v, level, pretty, slash, num, base, t)
    ensures o == Opening(|v.names|, pretty) && body == MembersText(v, |v.names|, level, pretty, slash, num) && c == Closing(|v.names|, level, pretty)
    ensures BracesLaid(s, i, o, body, c, base, t)
  {
    o, body, c := Opening(|v.names|, pretty), MembersText(v, |v.names|, level, pretty, slash, num), Closing(|v.names|, level, pretty);
  }

  /** A braced text opens with a brace at `i` and closes with one just
      before `t`. */
  lemma BracesEnds(s: Bytes, i: nat, o: Bytes, body: Bytes, c: Bytes, base: nat, t: nat)
    requires BracesLaid(s, i, o, body, c, base, t)
    ensures i < |s| && s[i] == OPEN_BRACE && 0 < t <= |s| && s[t - 1] == CLOSE_BRACE && t - 1 == base + |body| + |c|
  {
    OccursAt(s, i, [OPEN_BRACE], 0);
    OccursAt(s, base + |body| + |c|, [CLOSE_BRACE], 0);
  }

  /** Where each member of a non-empty object stands between its braces:
      the first right after the opening layout `o`, each next right after
      the one before, and the closing layout `c` and brace right after the
      last. */
  predicate MembersStanding(s: Bytes, i: nat, v: Value, ps: seq<nat>, e: nat, o: Bytes, c: Bytes, level: nat, pretty: bool, slash: bool, num: NumberFormat)
    requires WellFormed(v) && v.Object? && |ps| == |v.names| + 1
  {
    var standing := i < |s| && s[i] == OPEN_BRACE && Occurs(s, i + 1, o) && ps[0] == i + 1 + |o|
      && EntriesStand(s, v, ps, level, pretty, slash, num)
      && Occurs(s, ps[|v.names|], c) && e == ps[|v.names|] + |c| && e < |s| && s[e] == CLOSE_BRACE;
    standing
  }

  /** Where each member of a non-empty object stands, read off where the
      parts of its text stand. */
  lemma ObjectStanding(s: Bytes, i: nat, v: Value, level: nat, pretty: bool, slash: bool, num: NumberFormat, base: nat, t: nat)
    returns (ps: seq<nat>, o: Bytes, c: Bytes)
    requires WellFormed(v) && v.Object? && |v.names| > 0 && ObjectLaid(s, i, v, level, pretty, slash, num, base, t)
    ensures o == Opening(|v.names|, pretty) && c == Closing(|v.names|, level, pretty)
    ensures |ps| == |v.names| + 1 && t > 0 && MembersStanding(s, i, v, ps, t - 1, o, c, level, pretty, slash, num)
  {
    var body;
    o, body, c := ObjectLaidParts(s, i, v, level, pretty, slash, num, base, t);
    BracesEnds(s, i, o, body, c, base, t);
    ps := EntriesStanding(s, base, v, level, pretty, slash, num);
  }

  /** Reading the three parts of `a + b + c` off the text. */
  lemma Split3(s: Bytes, i: nat, a: Bytes, j: nat, b: Bytes, k: nat, c: Bytes)
    requires Occurs(s, i, a + b + c) && j == i + |a| && k == j + |b|
    ensures Occurs(s, i, a) && Occurs(s, j, b) && Occurs(s, k, c)
  {
    OccursSplit(s, i, a + b, c);
    OccursSplit(s, i, a, b);
  }

  /** Item `k` stands right after the items before it. */
  lemma ItemAt(s: Bytes, base: nat, v: Value, k: nat, level: nat, pretty: bool, slash: bool, num: NumberFormat)
    requires WellFormed(v) && v.Array? && k < |v.items|
    requires Occurs(s, base, ItemsText(v, |v.items|, level, pretty, slash, num))
    ensures Occurs(s, base + |ItemsText(v, k, level, pretty, slash, num)|, Item(v.items[k], k, |v.items|, level + 1, pretty, slash, num))
    ensures |ItemsText(v, k + 1, level, pretty, slash, num)| == |ItemsText(v, k, level, pretty, slash, num)| + |Item(v.items[k], k, |v.items|, level + 1, pretty, slash, num)|
  {
    ItemsOccur(s, base, v, k + 1, |v.items|, level, pretty, slash, num);
    OccursSplit(s, base, ItemsText(v, k, level, pretty, slash, num), Item(v.items[k], k, |v.items|, level + 1, pretty, slash, num));
  }

  /** Where the lead `lead`, the text `t` and the trail `tr` of an item lie. */
  lemma ItemParts(s: Bytes, p: nat, x: Value, k: nat, count: nat, level: nat, pretty: bool, slash: bool, num: NumberFormat,
                  lead: Bytes, t: Bytes, tr: Bytes)
    requires WellFormed(x) && Occurs(s, p, Item(x, k, count, level, pretty, slash, num))
    requires lead == Lead(level, pretty) && t == Text(x, level, pretty, slash, num) && tr == Trail(k, count, pretty)
    ensures Occurs(s, p, lead) && Occurs(s, p + |lead|, t) && Occurs(s, p + |lead| + |t|, tr)
  {
    Split3(s, p, lead, p + |lead|, t, p + |lead| + |t|, tr);
  }

  /** Member `k` stands right after the members before it. */
  lemma EntryAt(s: Bytes, base: nat, v: Value, k: nat, level: nat, pretty: bool, slash: bool, num: NumberFormat)
    requires WellFormed(v) && v.Object? && k < |v.names|
    requires Occurs(s, base, MembersText(v, |v.names|, level, pretty, slash, num))
    ensures Occurs(s, base + |MembersText(v, k, level, pretty, slash, num)|, Entry(v.names[k], v.values[k], k, |v.names|, level + 1, pretty, slash, num))
    ensures |MembersText(v, k + 1, level, pretty, slash, num)|
      == |MembersText(v, k, level, pretty, slash, num)| + |Entry(v.names[k], v.values[k], k, |v.names|, level + 1, pretty, slash, num)|
  {
    MembersOccur(s, base, v, k + 1, |v.names|, level, pretty, slash, num);
    OccursSplit(s, base, MembersText(v, k, level, pretty, slash, num), Entry(v.names[k], v.values[k], k, |v.names|, level + 1, pretty, slash, num));
  }

  /** What a member writes before its value: its lead, its quoted name,
      the colon and, in pretty mode, a space. */
  function Head(name: Bytes, level: nat, pretty: bool, slash: bool): Bytes {
    Lead(level, pretty) + Escapes.Quoted(name, slash) + [COLON] + Gap(pretty)
  }

  /** The space after a member's colon in pretty mode. */
  function Gap(pretty: bool): Bytes {
    if pretty then [SPACE] else []
  }

  /** Where the parts of a member's head lie. */
  lemma HeadParts(s: Bytes, p: nat, name: Bytes, level: nat, pretty: bool, slash: bool, lead: Bytes, q: Bytes)
    requires Occurs(s, p, Head(name, level, pretty, slash)) && lead == Lead(level, pretty) && q == Escapes.Quoted(name, slash)
    ensures Occurs(s, p, lead) && Occurs(s, p + |lead|, q) && p + |lead| + |q| < |s| && s[p + |lead| + |q|] == COLON
    ensures Occurs(s, p + |lead| + |q| + 1, Gap(pretty))
  {
    OccursSplit(s, p, lead + q + [COLON], Gap(pretty));
    OccursSplit(s, p, lead + q, [COLON]);
    OccursSplit(s, p, lead, q);
    OccursAt(s, p + |lead| + |q|, [COLON], 0);
  }

  /** The first byte of a value's text where the text stands: no
      whitespace, no NUL, no comma and no closing byte, so the parser's
      loops never stop in front of a value. */
  lemma TextFirst(s: Bytes, q: nat, x: Value, level: nat, pretty: bool, slash: bool, num: NumberFormat)
    requires WellFormed(x) && NumberFree(x) && Occurs(s, q, Text(x, level, pretty, slash, num))
    ensures q < |s| && s[q] == Text(x, level, pretty, slash, num)[0]
    ensures !IsSpace(s[q]) && s[q] != NUL && s[q] != ',' as int && s[q] != ']' as int && s[q] != '}' as int
  {
    TextStart(x, level, pretty, slash, num);
    assert s[q + 0] == Text(x, level, pretty, slash, num)[0];
  }

  /** Only whitespace from `a` up to `b`. */
  predicate SpacesBetween(s: Bytes, a: nat, b: nat) {
    a <= b <= |s| && forall j :: a <= j < b ==> IsSpace(s[j])
  }

  lemma OccursSpaces(s: Bytes, i: nat, t: Bytes)
    requires Occurs(s, i, t) && AllSpace(t)
    ensures SpacesBetween(s, i, i + |t|)
  {
    forall j | i <= j < i + |t|
      ensures IsSpace(s[j])
    {
      OccursAt(s, i, t, j - i);
    }
  }

  lemma SpacesJoin(s: Bytes, a: nat, b: nat, c: nat)
    requires SpacesBetween(s, a, b) && SpacesBetween(s, b, c)
    ensures SpacesBetween(s, a, c)
  {
  }

  /** An item standing at `p`: only whitespace up to its text at `q`,
      whose first byte is no whitespace, NUL or closing bracket. */
  lemma ItemLead(s: Bytes, p: nat, q: nat, x: Value, k: nat, count: nat, level: nat, pretty: bool, slash: bool, num: NumberFormat)
    requires WellFormed(x) && NumberFree(x) && Occurs(s, p, Item(x, k, count, level, pretty, slash, num))
    requires q == p + |Lead(level, pretty)|
    ensures SpacesBetween(s, p, q) && q < |s| && !IsSpace(s[q]) && s[q] != NUL && s[q] != CLOSE_BRACKET
  {
    var lead, t, tr := Lead(level, pretty), Text(x, level, pretty, slash, num), Trail(k, count, pretty);
    ItemParts(s, p, x, k, count, level, pretty, slash, num, lead, t, tr);
    TextFirst(s, q, x, level, pretty, slash, num);
    IndentSpaces(level);
    OccursSpaces(s, p, lead);
  }

  /** An item standing at `p`: its text at `q`, after the lead. */
  lemma ItemValue(s: Bytes, p: nat, q: nat, x: Value, k: nat, count: nat, level: nat, pretty: bool, slash: bool, num: NumberFormat)
    requires WellFormed(x) && Occurs(s, p, Item(x, k, count, level, pretty, slash, num))
    requires q == p + |Lead(level, pretty)|
    ensures Occurs(s, q, Text(x, level, pretty, slash, num))
  {
    var lead, t, tr := Lead(level, pretty), Text(x, level, pretty, slash, num), Trail(k, count, pretty);
    ItemParts(s, p, x, k, count, level, pretty, slash, num, lead, t, tr);
  }

  /** An item standing at `p` whose text ends at `m` and which ends at
      `e`: a comma at `m` unless it is the last, then only whitespace up
      to `e`. */
  lemma ItemTrail(s: Bytes, p: nat, m: nat, e: nat, x: Value, k: nat, count: nat, level: nat, pretty: bool, slash: bool, num: NumberFormat)
    requires WellFormed(x) && Occurs(s, p, Item(x, k, count, level, pretty, slash, num))
    requires m == p + |Lead(level, pretty)| + |Text(x, level, pretty, slash, num)|
    requires e == p + |Item(x, k, count, level, pretty, slash, num)|
    ensures var comma := if k + 1 < count then 1 else 0;
      m + comma <= |s| && (k + 1 < count ==> s[m] == COMMA) && SpacesBetween(s, m + comma, e)
  {
    var lead, t, tr := Lead(level, pretty), Text(x, level, pretty, slash, num), Trail(k, count, pretty);
    ItemParts(s, p, x, k, count, level, pretty, slash, num, lead, t, tr);
    TrailBytes(s, m, k, count, pretty);
  }

  /** A trail standing at `m`: a comma unless it ends the last item, then
      only whitespace. */
  lemma TrailBytes(s: Bytes, m: nat, k: nat, count: nat, pretty: bool)
    requires Occurs(s, m, Trail(k, count, pretty))
    ensures var comma := if k + 1 < count then 1 else 0;
      m + comma <= |s| && (k + 1 < count ==> s[m] == COMMA)
      && SpacesBetween(s, m + comma, m + |Trail(k, count, pretty)|)
  {
    var nl: Bytes := if pretty then [NEWLINE] else [];
    var comma: Bytes := if k + 1 < count then [COMMA] else [];
    assert Trail(k, count, pretty) == comma + nl;
    OccursSplit(s, m, comma, nl);
    if k + 1 < count {
      OccursAt(s, m, comma, 0);
    }
    OccursSpaces(s, m + |comma|, nl);
  }

  /** Where each item stands: item `j` from `r[j]` up to `r[j + 1]`. */
  function ItemBases(v: Value, base: nat, level: nat, pretty: bool, slash: bool, num: NumberFormat): (r: seq<nat>)
    requires WellFormed(v) && v.Array?
    ensures |r| == |v.items| + 1
    ensures forall j :: 0 <= j < |r| ==> r[j] == base + |ItemsText(v, j, level, pretty, slash, num)|
  {
    seq(|v.items| + 1, j requires 0 <= j <= |v.items| => base + |ItemsText(v, j, level, pretty, slash, num)|)
  }

  /** Every item stands where `ItemBases` says, each right after the one
      before. */
  lemma ItemsStand(s: Bytes, base: nat, v: Value, level: nat, pretty: bool, slash: bool, num: NumberFormat)
    requires WellFormed(v) && v.Array? && Occurs(s, base, ItemsText(v, |v.items|, level, pretty, slash, num))
    ensures var ps := ItemBases(v, base, level, pretty, slash, num);
      forall j :: 0 <= j < |v.items| ==> Occurs(s, ps[j], Item(v.items[j], j, |v.items|, level + 1, pretty, slash, num))
    ensures var ps := ItemBases(v, base, level, pretty, slash, num);
      forall j {:trigger ps[j]} :: 0 < j <= |v.items| ==> ps[j] == ps[j - 1] + |Item(v.items[j - 1], j - 1, |v.items|, level + 1, pretty, slash, num)|
  {
    var ps := ItemBases(v, base, level, pretty, slash, num);
    forall j | 0 <= j < |v.items|
      ensures Occurs(s, ps[j], Item(v.items[j], j, |v.items|, level + 1, pretty, slash, num))
    {
      ItemAt(s, base, v, j, level, pretty, slash, num);
    }
    forall j | 0 < j <= |v.items|
      ensures ps[j] == ps[j - 1] + |Item(v.items[j - 1], j - 1, |v.items|, level + 1, pretty, slash, num)|
    {
      ItemAt(s, base, v, j - 1, level, pretty, slash, num);
    }
  }

  /** Member `k`'s text is its head, its value and its trail. */
  lemma EntryShape(name: Bytes, x: Value, k: nat, count: nat, level: nat, pretty: bool, slash: bool, num: NumberFormat)
    requires WellFormed(x)
    ensures Entry(name, x, k, count, level, pretty, slash, num) == Head(name, level, pretty, slash) + Text(x, level, pretty, slash, num) + Trail(k, count, pretty)
  {
  }

  /** A member standing at `p`: only whitespace up to its quoted name at
      `q`. */
  lemma EntryLead(s: Bytes, p: nat, q: nat, name: Bytes, x: Value, k: nat, count: nat, level: nat, pretty: bool, slash: bool, num: NumberFormat)
    requires WellFormed(x) && Occurs(s, p, Entry(name, x, k, count, level, pretty, slash, num))
    requires q == p + |Lead(level, pretty)|
    ensures SpacesBetween(s, p, q) && q < |s| && s[q] == QUOTE
  {
    var h, t, tr := Head(name, level, pretty, slash), Text(x, level, pretty, slash, num), Trail(k, count, pretty);
    var lead, quoted := Lead(level, pretty), Escapes.Quoted(name, slash);
    EntryShape(name, x, k, count, level, pretty, slash, num);
    Split3(s, p, h, p + |h|, t, p + |h| + |t|, tr);
    HeadParts(s, p, name, level, pretty, slash, lead, quoted);
    OccursAt(s, q, quoted, 0);
    IndentSpaces(level);
    OccursSpaces(s, p, lead);
  }

  /** A member standing at `p`: its quoted name at `q`, the colon at `c`,
      only whitespace up to its value at `r`, and the value's text. */
  lemma EntryName(s: Bytes, p: nat, q: nat, c: nat, r: nat, name: Bytes, x: Value, k: nat, count: nat, level: nat, pretty: bool, slash: bool, num: NumberFormat)
    requires WellFormed(x) && Occurs(s, p, Entry(name, x, k, count, level, pretty, slash, num))
    requires q == p + |Lead(level, pretty)| && c == q + |Escapes.Quoted(name, slash)| && r == p + |Head(name, level, pretty, slash)|
    ensures q < |s| && s[q] == QUOTE && Occurs(s, q, Escapes.Quoted(name, slash))
    ensures c < |s| && s[c] == COLON && SpacesBetween(s, c + 1, r)
    ensures Occurs(s, r, Text(x, level, pretty, slash, num))
  {
    var h, t, tr := Head(name, level, pretty, slash), Text(x, level, pretty, slash, num), Trail(k, count, pretty);
    var lead, quoted := Lead(level, pretty), Escapes.Quoted(name, slash);
    EntryShape(name, x, k, count, level, pretty, slash, num);
    Split3(s, p, h, p + |h|, t, p + |h| + |t|, tr);
    HeadParts(s, p, name, level, pretty, slash, lead, quoted);
    OccursAt(s, q, quoted, 0);
    OccursSpaces(s, c + 1, Gap(pretty));
  }

  /** A member standing at `p` whose value ends at `m` and which ends at
      `e`: a comma at `m` unless it is the last, then only whitespace up
      to `e`. */
  lemma EntryTrail(s: Bytes, p: nat, m: nat, e: nat, name: Bytes, x: Value, k: nat, count: nat, level: nat, pretty: bool, slash: bool, num: NumberFormat)
    requires WellFormed(x) && Occurs(s, p, Entry(name, x, k, count, level, pretty, slash, num))
    requires m == p + |Head(name, level, pretty, slash)| + |Text(x, level, pretty, slash, num)|
    requires e == p + |Entry(name, x, k, count, level, pretty, slash, num)|
    ensures var comma := if k + 1 < count then 1 else 0;
      m + comma <= |s| && (k + 1 < count ==> s[m] == COMMA) && SpacesBetween(s, m + comma, e)
  {
    var h, t, tr := Head(name, level, pretty, slash), Text(x, level, pretty, slash, num), Trail(k, count, pretty);
    EntryShape(name, x, k, count, level, pretty, slash, num);
    Split3(s, p, h, p + |h|, t, m, tr);
    TrailBytes(s, m, k, count, pretty);
  }

  /** Where each member stands: member `j` from `r[j]` up to `r[j + 1]`. */
  function MemberBases(v: Value, base: nat, level: nat, pretty: bool, slash: bool, num: NumberFormat): (r: seq<nat>)
    requires WellFormed(v) && v.Object?
    ensures |r| == |v.names| + 1
    ensures forall j :: 0 <= j < |r| ==> r[j] == base + |MembersText(v, j, level, pretty, slash, num)|
  {
    seq(|v.names| + 1, j requires 0 <= j <= |v.names| => base + |MembersText(v, j, level, pretty, slash, num)|)
  }

  /** Member `j` of `v` stands in `s` from `ps[j]`, and each next member
      right after the one before. */
  predicate EntriesStand(s: Bytes, v: Value, ps: seq<nat>, level: nat, pretty: bool, slash: bool, num: NumberFormat)
    requires WellFormed(v) && v.Object? && |ps| == |v.names| + 1
  {
    var count := |v.names|;
    var standing := (forall j :: 0 <= j < count ==> Occurs(s, ps[j], Entry(v.names[j], v.values[j], j, count, level + 1, pretty, slash, num)))
      && (forall j {:trigger ps[j]} :: 0 < j <= count ==> ps[j] == ps[j - 1] + |Entry(v.names[j - 1], v.values[j - 1], j - 1, count, level + 1, pretty, slash, num)|);
    standing
  }

  /** Every member stands where `MemberBases` says, each right after the
      one before, from `base` up to the end of the members' text. */
  lemma EntriesStanding(s: Bytes, base: nat, v: Value, level: nat, pretty: bool, slash: bool, num: NumberFormat) returns (ps: seq<nat>)
    requires WellFormed(v) && v.Object? && Occurs(s, base, MembersText(v, |v.names|, level, pretty, slash, num))
    ensures |ps| == |v.names| + 1 && ps[0] == base && ps[|v.names|] == base + |MembersText(v, |v.names|, level, pretty, slash, num)|
    ensures EntriesStand(s, v, ps, level, pretty, slash, num)
  {
    ps := MemberBases(v, base, level, pretty, slash, num);
    MembersStand(s, base, v, level, pretty, slash, num);
  }

  /** Every member stands where `MemberBases` says, each right after the
      one before. */
  lemma MembersStand(s: Bytes, base: nat, v: Value, level: nat, pretty: bool, slash: bool, num: NumberFormat)
    requires WellFormed(v) && v.Object? && Occurs(s, base, MembersText(v, |v.names|, level, pretty, slash, num))
    ensures var ps := MemberBases(v, base, level, pretty, slash, num);
      forall j :: 0 <= j < |v.names| ==> Occurs(s, ps[j], Entry(v.names[j], v.values[j], j, |v.names|, level + 1, pretty, slash, num))
    ensures var ps := MemberBases(v, base, level, pretty, slash, num);
      forall j {:trigger ps[j]} :: 0 < j <= |v.names| ==> ps[j] == ps[j - 1] + |Entry(v.names[j - 1], v.values[j - 1], j - 1, |v.names|, level + 1, pretty, slash, num)|
  {
    var ps := MemberBases(v, base, level, pretty, slash, num);
    forall j | 0 <= j < |v.names|
      ensures Occurs(s, ps[j], Entry(v.names[j], v.values[j], j, |v.names|, level + 1, pretty, slash, num))
    {
      EntryAt(s, base, v, j, level, pretty, slash, num);
    }
    forall j | 0 < j <= |v.names|
      ensures ps[j] == ps[j - 1] + |Entry(v.names[j - 1], v.values[j - 1], j - 1, |v.names|, level + 1, pretty, slash, num)|
    {
      EntryAt(s, base, v, j - 1, level, pretty, slash, num);
    }
  }
}
