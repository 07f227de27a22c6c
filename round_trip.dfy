/** Serializing, then parsing: the text `json_serialize_to_string` (or its
    `_pretty` variant) writes for a value is read back by `json_parse_string`
    as the same value, whatever follows it. This holds for every well-formed
    value without numbers whose nesting `parse_value` accepts. Numbers are
    not covered: their text comes from the number format and their reading
    from `strtod`, both parameters of the model. */
module RoundTrip {
  import opened Wrappers
  import opened Bytes
  import opened Values
  import opened Parser
  import opened Serializer
  import Escapes
  import Members
  import Output
  import ParserProperties
  import opened TextLayout


  /** `parse_value`'s depth check passes for `v` read at nesting `n` and
      for everything inside it, one level deeper per container. */
  predicate Fits(v: Value, n: nat) {
    n <= MaxNesting &&
    match v
    case Array(items) => forall k :: 0 <= k < |items| ==> Fits(items[k], n + 1)
    case Object(_, vs) => forall k :: 0 <= k < |vs| ==> Fits(vs[k], n + 1)
    case _ => true
  }

  /** `v` is well-formed, holds no number and fits within the nesting
      limit from `n`: what reading its text back asks of it. The conjunction
      is bound to a name so that a lemma requiring it is handed one goal to
      establish, not three recursive predicates unfolded side by side; only
      the two lemmas about a whole member list take it this way, the others
      state the three conjuncts they use one by one. */
  predicate Rereadable(v: Value, n: nat) {
    var ok := WellFormed(v) && NumberFree(v) && Fits(v, n);
    ok
  }

  /** A serialized string read where it stands: `get_quoted_string` returns
      the original bytes and the position after the closing quote. */
  lemma {:induction false} QuotedAt(s: Bytes, i: nat, t: Bytes, slash: bool)
    requires Occurs(s, i, Escapes.Quoted(t, slash))
    ensures QuotedString(s, i) == Some((t, i + |Escapes.Quoted(t, slash)|))
  {
    var q := Escapes.Quoted(t, slash);
    var rest := s[i + |q|..];
    TailFrom(s, i, q);
    Escapes.StringRoundTrip(t, slash, rest);
    SkipQuotesFrom(s, i);
    assert s[i + 1..i + |q| - 1] == s[i..][1..|q| - 1];
  }

  /** The text from `i` on is `t` and then whatever follows it. */
  lemma TailFrom(s: Bytes, i: nat, t: Bytes)
    requires Occurs(s, i, t)
    ensures s[i..] == t + s[i + |t|..]
  {
    OccursSlice(s, i, t);
    assert s[i..] == s[i..i + |t|] + s[i + |t|..];
  }

  /** `skip_quotes` from `i` sees only the text from `i` on. */
  lemma SkipQuotesFrom(s: Bytes, i: nat)
    requires i <= |s|
    ensures Escapes.SkipQuotes(s, i) == match Escapes.SkipQuotes(s[i..], 0) case None => None case Some(e) => Some(e + i)
  {
    if i < |s| {
      assert s[i..][0] == s[i];
      Escapes.ScanShiftAt(s, i, i + 1);
    }
  }

  /** `null` reads back. */
  lemma {:induction false} NullParses(s: Bytes, i: nat, level: nat, pretty: bool, slash: bool, num: NumberFormat, n: nat, strtod: Strtod)
    requires n <= MaxNesting && Occurs(s, i, Text(Null, level, pretty, slash, num))
    ensures ValueAt(s, i, n, strtod) == Some(Parsed(Null, i + 4))
  {
    OccursSlice(s, i, Ascii("null"));
    assert s[i] == s[i..i + 4][0];
    assert SkipWs(s, i) == i;
    assert Matches(s, i, Ascii("null"));
  }

  /** The literal `true` or `false`. */
  function BooleanLiteral(b: bool): Bytes {
    if b then Ascii("true") else Ascii("false")
  }

  /** A boolean's text is its literal. */
  lemma BooleanText(b: bool, level: nat, pretty: bool, slash: bool, num: NumberFormat)
    ensures Text(Boolean(b), level, pretty, slash, num) == BooleanLiteral(b)
  {
  }

  /** `true` and `false` read back. */
  lemma {:induction false} BooleanParses(s: Bytes, i: nat, b: bool, level: nat, pretty: bool, slash: bool, num: NumberFormat, n: nat, strtod: Strtod)
    requires n <= MaxNesting && Occurs(s, i, Text(Boolean(b), level, pretty, slash, num))
    ensures ValueAt(s, i, n, strtod) == Some(Parsed(Boolean(b), i + |Text(Boolean(b), level, pretty, slash, num)|))
  {
    BooleanText(b, level, pretty, slash, num);
    OccursSlice(s, i, BooleanLiteral(b));
    BooleanReads(s, i, b, n, strtod);
  }

  /** The literal of `b` where it stands reads as `b`. */
  lemma {:induction false} BooleanReads(s: Bytes, i: nat, b: bool, n: nat, strtod: Strtod)
    requires n <= MaxNesting && i + |BooleanLiteral(b)| <= |s| && s[i..i + |BooleanLiteral(b)|] == BooleanLiteral(b)
    ensures ValueAt(s, i, n, strtod) == Some(Parsed(Boolean(b), i + |BooleanLiteral(b)|))
  {
    assert s[i] == s[i..i + |BooleanLiteral(b)|][0];
    assert SkipWs(s, i) == i;
    if b {
      assert Matches(s, i, Ascii("true"));
    } else {
      assert !Matches(s, i, Ascii("true")) by {
        assert Ascii("true")[0] == 't' as int;
      }
      assert Matches(s, i, Ascii("false"));
    }
  }

  /** A string reads back. */
  lemma {:induction false} StringParses(s: Bytes, i: nat, chars: Bytes, level: nat, pretty: bool, slash: bool, num: NumberFormat, n: nat, strtod: Strtod)
    requires n <= MaxNesting && Occurs(s, i, Text(Str(chars), level, pretty, slash, num))
    ensures ValueAt(s, i, n, strtod) == Some(Parsed(Str(chars), i + |Text(Str(chars), level, pretty, slash, num)|))
  {
    OccursAt(s, i, Escapes.Quoted(chars, slash), 0);
    assert SkipWs(s, i) == i;
    QuotedAt(s, i, chars, slash);
  }

  /** The text of every well-formed value without numbers, read where it
      stands at a nesting it fits, is that value, and the parser stops
      right after it. */
  lemma {:induction false} TextParses(s: Bytes, i: nat, v: Value, level: nat, pretty: bool, slash: bool, num: NumberFormat, n: nat, strtod: Strtod)
    requires WellFormed(v) && NumberFree(v) && Fits(v, n) && Occurs(s, i, Text(v, level, pretty, slash, num))
    ensures ValueAt(s, i, n, strtod) == Some(Parsed(v, i + |Text(v, level, pretty, slash, num)|))
    decreases v, 6
  {
    match v
    case Null => NullParses(s, i, level, pretty, slash, num, n, strtod);
    case Boolean(b) => BooleanParses(s, i, b, level, pretty, slash, num, n, strtod);
    case Str(chars) => StringParses(s, i, chars, level, pretty, slash, num, n, strtod);
    case Array(_) => ArrayParses(s, i, v, level, pretty, slash, num, n, strtod);
    case Object(_, _) => ObjectParses(s, i, v, level, pretty, slash, num, n, strtod);
  }

  /** After the value that ends at `m`: whitespace, a comma, whitespace,
      and at `q` something other than the closing byte. */
  predicate CommaBetween(s: Bytes, m: nat, q: nat, closer: byte) {
    m <= |s| && var p := SkipWs(s, m); p < |s| && s[p] == ',' as int && SkipWs(s, p + 1) == q && At(s, q) != closer
  }

  /** After the value that ends at `m`: whitespace, then the closing byte
      at `e`. */
  predicate ClosedAt(s: Bytes, m: nat, e: nat, closer: byte) {
    m <= |s| && SkipWs(s, m) == e && At(s, e) == closer
  }

  lemma {:induction false} ItemsPrefixWellFormed(items: seq<Value>, k: nat)
    requires WellFormed(Array(items)) && k <= |items|
    ensures WellFormed(Array(items[..k]))
  {
    assert forall j :: 0 <= j < k ==> items[..k][j] == items[j];
  }

  lemma {:induction false} PrefixStep<T>(xs: seq<T>, k: nat)
    requires k < |xs|
    ensures xs[..k] + [xs[k]] == xs[..k + 1]
  {
  }

  /** After a comma, whitespace up to `q` and no closing byte there. */
  lemma {:induction false} CommaGap(s: Bytes, m: nat, q: nat, closer: byte)
    requires m < q < |s| && s[m] == ',' as int && SpacesBetween(s, m + 1, q) && !IsSpace(s[q]) && s[q] != closer
    ensures CommaBetween(s, m, q, closer)
  {
    assert SkipWs(s, m) == m;
    ParserProperties.SkipWsInside(s, m + 1, q);
    assert SkipWs(s, q) == q;
  }

  /** Whitespace up to the closing byte at `e`. */
  lemma {:induction false} ClosedGap(s: Bytes, m: nat, e: nat, closer: byte)
    requires SpacesBetween(s, m, e) && e < |s| && s[e] == closer && !IsSpace(closer)
    ensures ClosedAt(s, m, e, closer)
  {
    ParserProperties.SkipWsInside(s, m, e);
    assert SkipWs(s, e) == e;
  }

  /** The item at `q` read whole: what follows it is a comma and the next
      item at `q2`, and the item loop goes on there with it added. */
  lemma {:induction false} ItemTurn(s: Bytes, q: nat, n: nat, done: seq<Value>, x: Value, m: nat, q2: nat, strtod: Strtod)
    requires q <= |s| && At(s, q) != NUL && WellFormed(Array(done)) && ValueAt(s, q, n, strtod) == Some(Parsed(x, m))
    requires CommaBetween(s, m, q2, ']' as int)
    ensures WellFormed(Array(done + [x])) && q2 <= |s|
    ensures ElementsFrom(s, q, n, done, strtod) == ElementsFrom(s, q2, n, done + [x], strtod)
  {
    ElementStep(s, q, n, done, Parsed(x, m), strtod);
    AfterElementStep(s, m, n, done + [x], strtod, SkipWs(s, m), q2);
  }

  /** The last item at `q` read whole: the closing bracket at `e` follows
      and the item loop ends there. */
  lemma {:induction false} ItemLastTurn(s: Bytes, q: nat, n: nat, done: seq<Value>, x: Value, m: nat, e: nat, strtod: Strtod)
    requires q <= |s| && At(s, q) != NUL && WellFormed(Array(done)) && ValueAt(s, q, n, strtod) == Some(Parsed(x, m))
    requires ClosedAt(s, m, e, ']' as int)
    ensures ElementsFrom(s, q, n, done, strtod) == Some(Parsed(Array(done + [x]), e + 1))
  {
    ElementStep(s, q, n, done, Parsed(x, m), strtod);
    AfterElementStep(s, m, n, done + [x], strtod, e, e);
    assert SkipWs(s, e) == e;
  }

  /** The value at `q` reads as `x` and ends at `m`. */
  predicate Reads(s: Bytes, q: nat, x: Value, m: nat, n: nat, strtod: Strtod) {
    q <= |s| && At(s, q) != NUL && ValueAt(s, q, n, strtod) == Some(Parsed(x, m))
  }

  /** The item loop of `parse_array_value` from item `k` on: when item `j`
      reads from `starts[j]` to `ends[j]`, a comma separates each item from
      the next and the closing bracket at `e` follows the last, the loop
      yields the whole array and stops after the bracket. */
  lemma {:induction false} ItemsLoop(s: Bytes, items: seq<Value>, k: nat, starts: seq<nat>, ends: seq<nat>, e: nat, n: nat, strtod: Strtod)
    requires WellFormed(Array(items)) && k < |items| && |starts| == |items| && |ends| == |items| && starts[k] <= |s|
    requires forall j :: k <= j < |items| ==> Reads(s, starts[j], items[j], ends[j], n, strtod)
    requires forall j :: k <= j < |items| - 1 ==> CommaBetween(s, ends[j], starts[j + 1], ']' as int)
    requires ClosedAt(s, ends[|items| - 1], e, ']' as int)
    ensures ElementsFrom(s, starts[k], n, items[..k], strtod) == Some(Parsed(Array(items), e + 1))
    decreases |items| - k
  {
    ItemsPrefixWellFormed(items, k);
    assert Reads(s, starts[k], items[k], ends[k], n, strtod);
    PrefixStep(items, k);
    if k + 1 < |items| {
      ItemTurn(s, starts[k], n, items[..k], items[k], ends[k], starts[k + 1], strtod);
      ItemsLoop(s, items, k + 1, starts, ends, e, n, strtod);
    } else {
      ItemLastTurn(s, starts[k], n, items[..k], items[k], ends[k], e, strtod);
      assert items[..k + 1] == items;
    }
  }

  /** Where each item's text starts, the items standing at `ps`. */
  function ItemStarts(v: Value, ps: seq<nat>, level: nat, pretty: bool): (r: seq<nat>)
    requires v.Array? && |ps| == |v.items| + 1
    ensures |r| == |v.items| && forall j :: 0 <= j < |r| ==> r[j] == ps[j] + |Lead(level + 1, pretty)|
  {
    seq(|v.items|, j requires 0 <= j < |v.items| => ps[j] + |Lead(level + 1, pretty)|)
  }

  /** Where each item's text ends, the items standing at `ps`. */
  function ItemEnds(v: Value, ps: seq<nat>, level: nat, pretty: bool, slash: bool, num: NumberFormat): (r: seq<nat>)
    requires WellFormed(v) && v.Array? && |ps| == |v.items| + 1
    ensures |r| == |v.items|
    ensures forall j :: 0 <= j < |r| ==> r[j] == ps[j] + |Lead(level + 1, pretty)| + |Text(v.items[j], level + 1, pretty, slash, num)|
  {
    seq(|v.items|, j requires 0 <= j < |v.items| => ps[j] + |Lead(level + 1, pretty)| + |Text(v.items[j], level + 1, pretty, slash, num)|)
  }

  /** Between an item standing at `p` whose text ends at `m` and the next
      one standing at `p2` whose text starts at `q`: a comma, then only
      layout. */
  lemma {:induction false} NextItem(s: Bytes, p: nat, m: nat, p2: nat, q: nat, x: Value, y: Value, k: nat, count: nat, level: nat, pretty: bool, slash: bool, num: NumberFormat)
    requires WellFormed(x) && WellFormed(y) && NumberFree(y) && k + 1 < count
    requires Occurs(s, p, Item(x, k, count, level, pretty, slash, num)) && Occurs(s, p2, Item(y, k + 1, count, level, pretty, slash, num))
    requires m == p + |Lead(level, pretty)| + |Text(x, level, pretty, slash, num)|
    requires p2 == p + |Item(x, k, count, level, pretty, slash, num)| && q == p2 + |Lead(level, pretty)|
    ensures CommaBetween(s, m, q, ']' as int)
  {
    ItemTrail(s, p, m, p2, x, k, count, level, pretty, slash, num);
    ItemLead(s, p2, q, y, k + 1, count, level, pretty, slash, num);
    SpacesJoin(s, m + 1, p2, q);
    CommaGap(s, m, q, ']' as int);
  }

  /** An item standing at `p` reads back from its text's start `q` to its
      end `m`. */
  lemma {:induction false} ItemReads(s: Bytes, p: nat, q: nat, m: nat, x: Value, k: nat, count: nat, level: nat, pretty: bool, slash: bool, num: NumberFormat, n: nat, strtod: Strtod)
    requires WellFormed(x) && NumberFree(x) && Fits(x, n)
    requires Occurs(s, p, Item(x, k, count, level, pretty, slash, num))
    requires q == p + |Lead(level, pretty)| && m == q + |Text(x, level, pretty, slash, num)|
    ensures Reads(s, q, x, m, n, strtod)
    decreases x, 7
  {
    ItemValue(s, p, q, x, k, count, level, pretty, slash, num);
    TextFirst(s, q, x, level, pretty, slash, num);
    TextParses(s, q, x, level, pretty, slash, num, n, strtod);
  }

  /** Every item reads back where it stands. */
  lemma {:induction false} ItemsRead(s: Bytes, v: Value, ps: seq<nat>, starts: seq<nat>, ends: seq<nat>, level: nat, pretty: bool, slash: bool, num: NumberFormat, n: nat, strtod: Strtod)
    requires WellFormed(v) && v.Array? && NumberFree(v) && Fits(v, n) && |ps| == |v.items| + 1
    requires forall j :: 0 <= j < |v.items| ==> Occurs(s, ps[j], Item(v.items[j], j, |v.items|, level + 1, pretty, slash, num))
    requires starts == ItemStarts(v, ps, level, pretty) && ends == ItemEnds(v, ps, level, pretty, slash, num)
    ensures forall j :: 0 <= j < |v.items| ==> Reads(s, starts[j], v.items[j], ends[j], n + 1, strtod)
    decreases v, 1
  {
    forall j | 0 <= j < |v.items|
      ensures Reads(s, starts[j], v.items[j], ends[j], n + 1, strtod)
    {
      ItemReads(s, ps[j], starts[j], ends[j], v.items[j], j, |v.items|, level + 1, pretty, slash, num, n + 1, strtod);
    }
  }

  /** A comma separates every item from the next. */
  lemma {:induction false} ItemsApart(s: Bytes, v: Value, ps: seq<nat>, starts: seq<nat>, ends: seq<nat>, level: nat, pretty: bool, slash: bool, num: NumberFormat)
    requires WellFormed(v) && v.Array? && NumberFree(v) && |ps| == |v.items| + 1
    requires forall j :: 0 <= j < |v.items| ==> Occurs(s, ps[j], Item(v.items[j], j, |v.items|, level + 1, pretty, slash, num))
    requires forall j {:trigger ps[j]} :: 0 < j <= |v.items| ==> ps[j] == ps[j - 1] + |Item(v.items[j - 1], j - 1, |v.items|, level + 1, pretty, slash, num)|
    requires starts == ItemStarts(v, ps, level, pretty) && ends == ItemEnds(v, ps, level, pretty, slash, num)
    ensures forall j :: 0 <= j < |v.items| - 1 ==> CommaBetween(s, ends[j], starts[j + 1], ']' as int)
  {
    forall j | 0 <= j < |v.items| - 1
      ensures CommaBetween(s, ends[j], starts[j + 1], ']' as int)
    {
      NextItem(s, ps[j], ends[j], ps[j + 1], starts[j + 1], v.items[j], v.items[j + 1], j, |v.items|, level + 1, pretty, slash, num);
    }
  }

  /** An array's text read back. */
  lemma {:induction false} ArrayParses(s: Bytes, i: nat, v: Value, level: nat, pretty: bool, slash: bool, num: NumberFormat, n: nat, strtod: Strtod)
    requires WellFormed(v) && v.Array? && NumberFree(v) && Fits(v, n) && Occurs(s, i, Text(v, level, pretty, slash, num))
    ensures ValueAt(s, i, n, strtod) == Some(Parsed(v, i + |Text(v, level, pretty, slash, num)|))
    decreases v, 5
  {
    ArrayLayout(s, i, v, level, pretty, slash, num);
    var count := |v.items|;
    var o, body, c := Opening(count, pretty), ItemsText(v, count, level, pretty, slash, num), Closing(count, level, pretty);
    var base := i + 1 + |o|;
    var e := base + |body| + |c|;
    OccursAt(s, i, [OPEN_BRACKET], 0);
    OccursAt(s, e, [CLOSE_BRACKET], 0);
    assert SkipWs(s, i) == i;
    if count == 0 {
      assert SkipWs(s, i + 1) == i + 1;
      assert v == Array([]);
    } else {
      ItemsParse(s, i, v, level, pretty, slash, num, n, strtod, base, e);
    }
  }

  /** The items of a non-empty array and its closing bracket read back,
      given where the parts of its text stand. */
  lemma {:induction false} ItemsParse(s: Bytes, i: nat, v: Value, level: nat, pretty: bool, slash: bool, num: NumberFormat, n: nat, strtod: Strtod,
                   base: nat, e: nat)
    requires WellFormed(v) && v.Array? && NumberFree(v) && Fits(v, n) && |v.items| > 0
    requires i < |s| && s[i] == OPEN_BRACKET
    requires Occurs(s, i + 1, Opening(|v.items|, pretty)) && base == i + 1 + |Opening(|v.items|, pretty)|
    requires Occurs(s, base, ItemsText(v, |v.items|, level, pretty, slash, num))
    requires Occurs(s, base + |ItemsText(v, |v.items|, level, pretty, slash, num)|, Closing(|v.items|, level, pretty))
    requires e == base + |ItemsText(v, |v.items|, level, pretty, slash, num)| + |Closing(|v.items|, level, pretty)|
    requires e < |s| && s[e] == CLOSE_BRACKET
    ensures ArrayAt(s, i, n + 1, strtod) == Some(Parsed(v, e + 1))
    decreases v, 3
  {
    var count := |v.items|;
    var ps := ItemBases(v, base, level, pretty, slash, num);
    ItemsStand(s, base, v, level, pretty, slash, num);
    assert ps[0] == base && ps[count] == base + |ItemsText(v, count, level, pretty, slash, num)|;
    ItemsStandingParse(s, i, v, ps, e, level, pretty, slash, num, n, strtod);
  }

  /** The same, given where each item stands: the first right after the
      opening layout, each next right after the one before, and the
      closing layout right after the last. */
  lemma {:induction false} ItemsStandingParse(s: Bytes, i: nat, v: Value, ps: seq<nat>, e: nat, level: nat, pretty: bool, slash: bool, num: NumberFormat, n: nat, strtod: Strtod)
    requires WellFormed(v) && v.Array? && NumberFree(v) && Fits(v, n) && |v.items| > 0 && |ps| == |v.items| + 1
    requires i < |s| && s[i] == OPEN_BRACKET
    requires Occurs(s, i + 1, Opening(|v.items|, pretty)) && ps[0] == i + 1 + |Opening(|v.items|, pretty)|
    requires forall j :: 0 <= j < |v.items| ==> Occurs(s, ps[j], Item(v.items[j], j, |v.items|, level + 1, pretty, slash, num))
    requires forall j {:trigger ps[j]} :: 0 < j <= |v.items| ==> ps[j] == ps[j - 1] + |Item(v.items[j - 1], j - 1, |v.items|, level + 1, pretty, slash, num)|
    requires Occurs(s, ps[|v.items|], Closing(|v.items|, level, pretty)) && e == ps[|v.items|] + |Closing(|v.items|, level, pretty)|
    requires e < |s| && s[e] == CLOSE_BRACKET
    ensures ArrayAt(s, i, n + 1, strtod) == Some(Parsed(v, e + 1))
    decreases v, 2
  {
    var starts, ends := ItemStarts(v, ps, level, pretty), ItemEnds(v, ps, level, pretty, slash, num);
    ItemsRead(s, v, ps, starts, ends, level, pretty, slash, num, n, strtod);
    ItemsLaidOut(s, i, v, ps, starts, ends, e, level, pretty, slash, num);
    ArrayLoop(s, i, v.items, starts, ends, e, n + 1, strtod);
  }

  /** The layout around the items: only whitespace before the first, a
      comma between each two, only whitespace up to the closing bracket
      after the last. */
  lemma {:induction false} ItemsLaidOut(s: Bytes, i: nat, v: Value, ps: seq<nat>, starts: seq<nat>, ends: seq<nat>, e: nat, level: nat, pretty: bool, slash: bool, num: NumberFormat)
    requires WellFormed(v) && v.Array? && NumberFree(v) && |v.items| > 0 && |ps| == |v.items| + 1
    requires Occurs(s, i + 1, Opening(|v.items|, pretty)) && ps[0] == i + 1 + |Opening(|v.items|, pretty)|
    requires forall j :: 0 <= j < |v.items| ==> Occurs(s, ps[j], Item(v.items[j], j, |v.items|, level + 1, pretty, slash, num))
    requires forall j {:trigger ps[j]} :: 0 < j <= |v.items| ==> ps[j] == ps[j - 1] + |Item(v.items[j - 1], j - 1, |v.items|, level + 1, pretty, slash, num)|
    requires Occurs(s, ps[|v.items|], Closing(|v.items|, level, pretty)) && e == ps[|v.items|] + |Closing(|v.items|, level, pretty)|
    requires e < |s| && s[e] == CLOSE_BRACKET
    requires starts == ItemStarts(v, ps, level, pretty) && ends == ItemEnds(v, ps, level, pretty, slash, num)
    ensures SkipWs(s, i + 1) == starts[0] && At(s, starts[0]) != ']' as int
    ensures forall j :: 0 <= j < |v.items| - 1 ==> CommaBetween(s, ends[j], starts[j + 1], ']' as int)
    ensures ClosedAt(s, ends[|v.items| - 1], e, ']' as int)
  {
    var count := |v.items|;
    ItemsApart(s, v, ps, starts, ends, level, pretty, slash, num);
    ItemsEdges(s, v, ps, starts, ends, level, pretty, slash, num);
    LayoutSpaces(count, level, pretty);
    Bracketed(s, i, Opening(count, pretty), ps[0], starts[0], ends[count - 1], ps[count], Closing(count, level, pretty), e, ']' as int);
  }

  /** Only whitespace before the first item's text, which starts with
      neither whitespace nor a closing bracket, and only whitespace after
      the last item's text. */
  lemma {:induction false} ItemsEdges(s: Bytes, v: Value, ps: seq<nat>, starts: seq<nat>, ends: seq<nat>, level: nat, pretty: bool, slash: bool, num: NumberFormat)
    requires WellFormed(v) && v.Array? && NumberFree(v) && |v.items| > 0 && |ps| == |v.items| + 1
    requires forall j :: 0 <= j < |v.items| ==> Occurs(s, ps[j], Item(v.items[j], j, |v.items|, level + 1, pretty, slash, num))
    requires forall j {:trigger ps[j]} :: 0 < j <= |v.items| ==> ps[j] == ps[j - 1] + |Item(v.items[j - 1], j - 1, |v.items|, level + 1, pretty, slash, num)|
    requires starts == ItemStarts(v, ps, level, pretty) && ends == ItemEnds(v, ps, level, pretty, slash, num)
    ensures SpacesBetween(s, ps[0], starts[0]) && starts[0] < |s| && !IsSpace(s[starts[0]]) && s[starts[0]] != CLOSE_BRACKET
    ensures SpacesBetween(s, ends[|v.items| - 1], ps[|v.items|])
  {
    var count := |v.items|;
    ItemLead(s, ps[0], starts[0], v.items[0], 0, count, level + 1, pretty, slash, num);
    ItemTrail(s, ps[count - 1], ends[count - 1], ps[count], v.items[count - 1], count - 1, count, level + 1, pretty, slash, num);
  }

  /** Brackets around items: the opening layout `o` after the bracket at
      `i` and the layout up to the first text at `q` are skipped; the
      layout after the last text at `m`, then the closing layout `c`, lead
      to the closer at `e`. */
  lemma {:induction false} Bracketed(s: Bytes, i: nat, o: Bytes, p: nat, q: nat, m: nat, b: nat, c: Bytes, e: nat, closer: byte)
    requires Occurs(s, i + 1, o) && AllSpace(o) && p == i + 1 + |o|
    requires SpacesBetween(s, p, q) && q < |s| && !IsSpace(s[q]) && s[q] != closer
    requires SpacesBetween(s, m, b) && Occurs(s, b, c) && AllSpace(c) && e == b + |c|
    requires e < |s| && s[e] == closer && !IsSpace(closer)
    ensures SkipWs(s, i + 1) == q && At(s, q) != closer
    ensures ClosedAt(s, m, e, closer)
  {
    OccursSpaces(s, i + 1, o);
    SpacesJoin(s, i + 1, p, q);
    ParserProperties.SkipWsInside(s, i + 1, q);
    assert SkipWs(s, q) == q;
    OccursSpaces(s, b, c);
    SpacesJoin(s, m, b, e);
    ClosedGap(s, m, e, closer);
  }

  /** `parse_array_value` from the opening bracket at `i`, when the first
      item follows the bracket, each item reads whole, commas separate
      them and the closing bracket at `e` follows the last. */
  lemma {:induction false} ArrayLoop(s: Bytes, i: nat, items: seq<Value>, starts: seq<nat>, ends: seq<nat>, e: nat, n: nat, strtod: Strtod)
    requires WellFormed(Array(items)) && 0 < |items| && |starts| == |items| && |ends| == |items|
    requires i < |s| && s[i] == OPEN_BRACKET && SkipWs(s, i + 1) == starts[0] && At(s, starts[0]) != ']' as int
    requires forall j :: 0 <= j < |items| ==> Reads(s, starts[j], items[j], ends[j], n, strtod)
    requires forall j :: 0 <= j < |items| - 1 ==> CommaBetween(s, ends[j], starts[j + 1], ']' as int)
    requires ClosedAt(s, ends[|items| - 1], e, ']' as int)
    ensures ArrayAt(s, i, n, strtod) == Some(Parsed(Array(items), e + 1))
  {
    ItemsLoop(s, items, 0, starts, ends, e, n, strtod);
    assert items[..0] == [];
  }

  /** The member at `q` reads whole: its name is the string ending at `c`,
      a colon follows at once, and the value after it reads as `x` and
      ends at `m`. */
  predicate MemberReads(s: Bytes, q: nat, c: nat, name: Bytes, x: Value, m: nat, n: nat, strtod: Strtod) {
    q <= |s| && At(s, q) != NUL && QuotedString(s, q) == Some((name, c))
    && SkipWs(s, c) == c && At(s, c) == ':' as int && ValueAt(s, c + 1, n, strtod) == Some(Parsed(x, m))
  }

  /** The member at `q` read whole: what follows it is a comma and the next
      member at `q2`, and the member loop goes on there with it added. */
  lemma {:induction false} MemberTurn(s: Bytes, q: nat, c: nat, n: nat, ks: seq<Bytes>, vs: seq<Value>, name: Bytes, x: Value, m: nat, q2: nat, strtod: Strtod)
    requires WellFormedMembers(ks, vs) && CString(name) && name !in ks
    requires MemberReads(s, q, c, name, x, m, n, strtod) && CommaBetween(s, m, q2, '}' as int)
    ensures WellFormedMembers(ks + [name], vs + [x]) && q2 <= |s|
    ensures MembersFrom(s, q, n, ks, vs, strtod) == MembersFrom(s, q2, n, ks + [name], vs + [x], strtod)
  {
    MemberStep(s, q, n, ks, vs, strtod, name, c, c, Parsed(x, m));
    AfterMemberStep(s, m, n, ks + [name], vs + [x], strtod, SkipWs(s, m), q2);
  }

  /** The last member at `q` read whole: the closing brace at `e` follows
      and the member loop ends there. */
  lemma {:induction false} MemberLastTurn(s: Bytes, q: nat, c: nat, n: nat, ks: seq<Bytes>, vs: seq<Value>, name: Bytes, x: Value, m: nat, e: nat, strtod: Strtod)
    requires WellFormedMembers(ks, vs) && CString(name) && name !in ks
    requires MemberReads(s, q, c, name, x, m, n, strtod) && ClosedAt(s, m, e, '}' as int)
    ensures MembersFrom(s, q, n, ks, vs, strtod) == Some(Parsed(Object(ks + [name], vs + [x]), e + 1))
  {
    MemberStep(s, q, n, ks, vs, strtod, name, c, c, Parsed(x, m));
    AfterMemberStep(s, m, n, ks + [name], vs + [x], strtod, e, e);
    assert SkipWs(s, e) == e;
  }

  /** The first `k` members of a well-formed object are well-formed, and
      member `k` has a C-string name not among them. */
  lemma {:induction false} MembersPrefix(names: seq<Bytes>, values: seq<Value>, k: nat)
    requires WellFormed(Object(names, values)) && k < |names|
    ensures WellFormedMembers(names[..k], values[..k])
    ensures CString(names[k]) && names[k] !in names[..k]
  {
    var ks, vs := names[..k], values[..k];
    assert forall j :: 0 <= j < k ==> ks[j] == names[j] && vs[j] == values[j];
    assert Members.Distinct(ks) by {
      forall a, b | 0 <= a < b < |ks|
        ensures ks[a] != ks[b]
      {
        assert ks[a] == names[a] && ks[b] == names[b];
      }
    }
    forall a | 0 <= a < k
      ensures ks[a] != names[k]
    {
      assert ks[a] == names[a];
    }
  }

  /** The member loop of `parse_object_value` from member `k` on, as for
      items; the names read so far are the first `k`. */
  lemma {:induction false} MembersLoop(s: Bytes, names: seq<Bytes>, values: seq<Value>, k: nat, starts: seq<nat>, colons: seq<nat>, ends: seq<nat>, e: nat, n: nat, strtod: Strtod)
    requires WellFormed(Object(names, values)) && k < |names| && |starts| == |names| && |colons| == |names| && |ends| == |names|
    requires starts[k] <= |s| && WellFormedMembers(names[..k], values[..k])
    requires forall j :: k <= j < |names| ==> MemberReads(s, starts[j], colons[j], names[j], values[j], ends[j], n, strtod)
    requires forall j :: k <= j < |names| - 1 ==> CommaBetween(s, ends[j], starts[j + 1], '}' as int)
    requires ClosedAt(s, ends[|names| - 1], e, '}' as int)
    ensures MembersFrom(s, starts[k], n, names[..k], values[..k], strtod) == Some(Parsed(Object(names, values), e + 1))
    decreases |names| - k
  {
    MembersPrefix(names, values, k);
    assert MemberReads(s, starts[k], colons[k], names[k], values[k], ends[k], n, strtod);
    PrefixStep(names, k);
    PrefixStep(values, k);
    if k + 1 < |names| {
      MemberTurn(s, starts[k], colons[k], n, names[..k], values[..k], names[k], values[k], ends[k], starts[k + 1], strtod);
      MembersLoop(s, names, values, k + 1, starts, colons, ends, e, n, strtod);
    } else {
      MemberLastTurn(s, starts[k], colons[k], n, names[..k], values[..k], names[k], values[k], ends[k], e, strtod);
      assert names[..k + 1] == names && values[..k + 1] == values;
    }
  }

  /** `parse_object_value` from the opening brace at `i`, when the first
      member follows the brace, each member reads whole, commas separate
      them and the closing brace at `e` follows the last. */
  lemma {:induction false} ObjectLoop(s: Bytes, i: nat, names: seq<Bytes>, values: seq<Value>, starts: seq<nat>, colons: seq<nat>, ends: seq<nat>, e: nat, n: nat, strtod: Strtod)
    requires WellFormed(Object(names, values)) && 0 < |names| && |starts| == |names| && |colons| == |names| && |ends| == |names|
    requires i < |s| && s[i] == OPEN_BRACE && SkipWs(s, i + 1) == starts[0] && At(s, starts[0]) != '}' as int
    requires forall j :: 0 <= j < |names| ==> MemberReads(s, starts[j], colons[j], names[j], values[j], ends[j], n, strtod)
    requires forall j :: 0 <= j < |names| - 1 ==> CommaBetween(s, ends[j], starts[j + 1], '}' as int)
    requires ClosedAt(s, ends[|names| - 1], e, '}' as int)
    ensures ObjectAt(s, i, n, strtod) == Some(Parsed(Object(names, values), e + 1))
  {
    assert names[..0] == [] && values[..0] == [];
    MembersLoop(s, names, values, 0, starts, colons, ends, e, n, strtod);
  }

  /** Where each member's quoted name starts, the members standing at
      `ps`. */
  function MemberStarts(v: Value, ps: seq<nat>, level: nat, pretty: bool): (r: seq<nat>)
    requires v.Object? && |ps| == |v.names| + 1
    ensures |r| == |v.names| && forall j :: 0 <= j < |r| ==> r[j] == ps[j] + |Lead(level + 1, pretty)|
  {
    seq(|v.names|, j requires 0 <= j < |v.names| => ps[j] + |Lead(level + 1, pretty)|)
  }

  /** Where each member's colon stands. */
  function MemberColons(v: Value, ps: seq<nat>, level: nat, pretty: bool, slash: bool): (r: seq<nat>)
    requires v.Object? && |ps| == |v.names| + 1
    ensures |r| == |v.names|
    ensures forall j :: 0 <= j < |r| ==> r[j] == ps[j] + |Lead(level + 1, pretty)| + |Escapes.Quoted(v.names[j], slash)|
  {
    seq(|v.names|, j requires 0 <= j < |v.names| => ps[j] + |Lead(level + 1, pretty)| + |Escapes.Quoted(v.names[j], slash)|)
  }

  /** Where each member's value text ends. */
  function MemberEnds(v: Value, ps: seq<nat>, level: nat, pretty: bool, slash: bool, num: NumberFormat): (r: seq<nat>)
    requires WellFormed(v) && v.Object? && |ps| == |v.names| + 1
    ensures |r| == |v.names|
    ensures forall j :: 0 <= j < |r| ==> r[j] == ps[j] + |Head(v.names[j], level + 1, pretty, slash)| + |Text(v.values[j], level + 1, pretty, slash, num)|
  {
    seq(|v.names|, j requires 0 <= j < |v.names| => ps[j] + |Head(v.names[j], level + 1, pretty, slash)| + |Text(v.values[j], level + 1, pretty, slash, num)|)
  }

  /** A member standing at `p` reads back: its name from `q`, the colon at
      `c`, its value up to `m`. */
  lemma {:induction false} MemberReadsAt(s: Bytes, p: nat, q: nat, c: nat, m: nat, name: Bytes, x: Value, k: nat, count: nat, level: nat, pretty: bool, slash: bool, num: NumberFormat, n: nat, strtod: Strtod)
    requires WellFormed(x) && NumberFree(x) && Fits(x, n)
    requires Occurs(s, p, Entry(name, x, k, count, level, pretty, slash, num))
    requires q == p + |Lead(level, pretty)| && c == q + |Escapes.Quoted(name, slash)|
    requires m == p + |Head(name, level, pretty, slash)| + |Text(x, level, pretty, slash, num)|
    ensures MemberReads(s, q, c, name, x, m, n, strtod)
    decreases x, 9
  {
    var r := p + |Head(name, level, pretty, slash)|;
    EntryName(s, p, q, c, r, name, x, k, count, level, pretty, slash, num);
    MemberParts(s, q, c, r, m, name, x, level, pretty, slash, num, n, strtod);
  }

  /** A quoted name at `q`, the colon at `c`, whitespace up to `r` and a
      value's text there make a member that reads back. */
  lemma {:induction false} MemberParts(s: Bytes, q: nat, c: nat, r: nat, m: nat, name: Bytes, x: Value, level: nat, pretty: bool, slash: bool, num: NumberFormat, n: nat, strtod: Strtod)
    requires WellFormed(x) && NumberFree(x) && Fits(x, n)
    requires q < |s| && s[q] == QUOTE && Occurs(s, q, Escapes.Quoted(name, slash)) && c == q + |Escapes.Quoted(name, slash)|
    requires c < |s| && s[c] == COLON && SpacesBetween(s, c + 1, r)
    requires Occurs(s, r, Text(x, level, pretty, slash, num)) && m == r + |Text(x, level, pretty, slash, num)|
    ensures MemberReads(s, q, c, name, x, m, n, strtod)
    decreases x, 8
  {
    SpacedValue(s, c + 1, r, x, level, pretty, slash, num, n, strtod);
    NameAndColon(s, q, c, name, x, m, slash, n, strtod);
  }

  /** A value's text after whitespace reads back. */
  lemma {:induction false} SpacedValue(s: Bytes, a: nat, r: nat, x: Value, level: nat, pretty: bool, slash: bool, num: NumberFormat, n: nat, strtod: Strtod)
    requires WellFormed(x) && NumberFree(x) && Fits(x, n)
    requires SpacesBetween(s, a, r) && Occurs(s, r, Text(x, level, pretty, slash, num))
    ensures ValueAt(s, a, n, strtod) == Some(Parsed(x, r + |Text(x, level, pretty, slash, num)|))
    decreases x, 7
  {
    TextParses(s, r, x, level, pretty, slash, num, n, strtod);
    ParserProperties.LeadingWhitespaceIgnored(s, a, r, n, strtod);
  }

  /** A quoted name, a colon right after it and a value after the colon
      make a member that reads back. */
  lemma NameAndColon(s: Bytes, q: nat, c: nat, name: Bytes, x: Value, m: nat, slash: bool, n: nat, strtod: Strtod)
    requires q < |s| && s[q] == QUOTE && Occurs(s, q, Escapes.Quoted(name, slash)) && c == q + |Escapes.Quoted(name, slash)|
    requires c < |s| && s[c] == COLON && ValueAt(s, c + 1, n, strtod) == Some(Parsed(x, m))
    ensures MemberReads(s, q, c, name, x, m, n, strtod)
  {
    NameThenColon(s, q, c, name, slash);
  }

  /** The name part of `NameAndColon`: the quoted name reads back and the
      colon follows it with no whitespace between. */
  lemma NameThenColon(s: Bytes, q: nat, c: nat, name: Bytes, slash: bool)
    requires q < |s| && s[q] == QUOTE && Occurs(s, q, Escapes.Quoted(name, slash)) && c == q + |Escapes.Quoted(name, slash)|
    requires c < |s| && s[c] == COLON
    ensures At(s, q) != NUL && QuotedString(s, q) == Some((name, c))
    ensures SkipWs(s, c) == c && At(s, c) == ':' as int
  {
    QuotedAt(s, q, name, slash);
    assert At(s, q) == QUOTE && At(s, c) == COLON;
  }

  /** Every member reads back where it stands. */
  lemma {:induction false} MembersRead(s: Bytes, v: Value, ps: seq<nat>, starts: seq<nat>, colons: seq<nat>, ends: seq<nat>, level: nat, pretty: bool, slash: bool, num: NumberFormat, n: nat, strtod: Strtod)
    requires WellFormed(v) && v.Object? && NumberFree(v) && Fits(v, n) && |ps| == |v.names| + 1
    requires forall j :: 0 <= j < |v.names| ==> Occurs(s, ps[j], Entry(v.names[j], v.values[j], j, |v.names|, level + 1, pretty, slash, num))
    requires starts == MemberStarts(v, ps, level, pretty) && colons == MemberColons(v, ps, level, pretty, slash)
    requires ends == MemberEnds(v, ps, level, pretty, slash, num)
    ensures forall j :: 0 <= j < |v.names| ==> MemberReads(s, starts[j], colons[j], v.names[j], v.values[j], ends[j], n + 1, strtod)
    decreases v, 1
  {
    forall j | 0 <= j < |v.names|
      ensures MemberReads(s, starts[j], colons[j], v.names[j], v.values[j], ends[j], n + 1, strtod)
    {
      MemberReadsAt(s, ps[j], starts[j], colons[j], ends[j], v.names[j], v.values[j], j, |v.names|, level + 1, pretty, slash, num, n + 1, strtod);
    }
  }

  /** Between a member standing at `p` whose value ends at `m` and the
      next one standing at `p2` whose name starts at `q`: a comma, then
      only layout. */
  lemma {:induction false} NextMember(s: Bytes, p: nat, m: nat, p2: nat, q: nat, name: Bytes, x: Value, name2: Bytes, y: Value, k: nat, count: nat, level: nat, pretty: bool, slash: bool, num: NumberFormat)
    requires WellFormed(x) && WellFormed(y) && k + 1 < count
    requires Occurs(s, p, Entry(name, x, k, count, level, pretty, slash, num)) && Occurs(s, p2, Entry(name2, y, k + 1, count, level, pretty, slash, num))
    requires m == p + |Head(name, level, pretty, slash)| + |Text(x, level, pretty, slash, num)|
    requires p2 == p + |Entry(name, x, k, count, level, pretty, slash, num)| && q == p2 + |Lead(level, pretty)|
    ensures CommaBetween(s, m, q, '}' as int)
  {
    EntryTrail(s, p, m, p2, name, x, k, count, level, pretty, slash, num);
    EntryLead(s, p2, q, name2, y, k + 1, count, level, pretty, slash, num);
    SpacesJoin(s, m + 1, p2, q);
    CommaGap(s, m, q, '}' as int);
  }

  /** A comma separates every member from the next. */
  lemma {:induction false} MembersApart(s: Bytes, v: Value, ps: seq<nat>, starts: seq<nat>, ends: seq<nat>, level: nat, pretty: bool, slash: bool, num: NumberFormat)
    requires WellFormed(v) && v.Object? && |ps| == |v.names| + 1
    requires forall j :: 0 <= j < |v.names| ==> Occurs(s, ps[j], Entry(v.names[j], v.values[j], j, |v.names|, level + 1, pretty, slash, num))
    requires forall j {:trigger ps[j]} :: 0 < j <= |v.names| ==> ps[j] == ps[j - 1] + |Entry(v.names[j - 1], v.values[j - 1], j - 1, |v.names|, level + 1, pretty, slash, num)|
    requires starts == MemberStarts(v, ps, level, pretty) && ends == MemberEnds(v, ps, level, pretty, slash, num)
    ensures forall j :: 0 <= j < |v.names| - 1 ==> CommaBetween(s, ends[j], starts[j + 1], '}' as int)
  {
    forall j | 0 <= j < |v.names| - 1
      ensures CommaBetween(s, ends[j], starts[j + 1], '}' as int)
    {
      NextMember(s, ps[j], ends[j], ps[j + 1], starts[j + 1], v.names[j], v.values[j], v.names[j + 1], v.values[j + 1], j, |v.names|, level + 1, pretty, slash, num);
    }
  }

  /** Only whitespace before the first member's name and after the last
      member's value. */
  lemma {:induction false} MembersEdges(s: Bytes, v: Value, ps: seq<nat>, starts: seq<nat>, ends: seq<nat>, level: nat, pretty: bool, slash: bool, num: NumberFormat)
    requires WellFormed(v) && v.Object? && |v.names| > 0 && |ps| == |v.names| + 1
    requires forall j :: 0 <= j < |v.names| ==> Occurs(s, ps[j], Entry(v.names[j], v.values[j], j, |v.names|, level + 1, pretty, slash, num))
    requires forall j {:trigger ps[j]} :: 0 < j <= |v.names| ==> ps[j] == ps[j - 1] + |Entry(v.names[j - 1], v.values[j - 1], j - 1, |v.names|, level + 1, pretty, slash, num)|
    requires starts == MemberStarts(v, ps, level, pretty) && ends == MemberEnds(v, ps, level, pretty, slash, num)
    ensures SpacesBetween(s, ps[0], starts[0]) && starts[0] < |s| && s[starts[0]] == QUOTE
    ensures SpacesBetween(s, ends[|v.names| - 1], ps[|v.names|])
  {
    var count := |v.names|;
    EntryLead(s, ps[0], starts[0], v.names[0], v.values[0], 0, count, level + 1, pretty, slash, num);
    EntryTrail(s, ps[count - 1], ends[count - 1], ps[count], v.names[count - 1], v.values[count - 1], count - 1, count, level + 1, pretty, slash, num);
  }

  /** The layout around the members, as for items. */
  lemma {:induction false} MembersLaidOut(s: Bytes, i: nat, v: Value, ps: seq<nat>, starts: seq<nat>, ends: seq<nat>, e: nat, level: nat, pretty: bool, slash: bool, num: NumberFormat)
    requires WellFormed(v) && v.Object? && |v.names| > 0 && |ps| == |v.names| + 1
    requires Occurs(s, i + 1, Opening(|v.names|, pretty)) && ps[0] == i + 1 + |Opening(|v.names|, pretty)|
    requires forall j :: 0 <= j < |v.names| ==> Occurs(s, ps[j], Entry(v.names[j], v.values[j], j, |v.names|, level + 1, pretty, slash, num))
    requires forall j {:trigger ps[j]} :: 0 < j <= |v.names| ==> ps[j] == ps[j - 1] + |Entry(v.names[j - 1], v.values[j - 1], j - 1, |v.names|, level + 1, pretty, slash, num)|
    requires Occurs(s, ps[|v.names|], Closing(|v.names|, level, pretty)) && e == ps[|v.names|] + |Closing(|v.names|, level, pretty)|
    requires e < |s| && s[e] == CLOSE_BRACE
    requires starts == MemberStarts(v, ps, level, pretty) && ends == MemberEnds(v, ps, level, pretty, slash, num)
    ensures SkipWs(s, i + 1) == starts[0] && At(s, starts[0]) != '}' as int
    ensures forall j :: 0 <= j < |v.names| - 1 ==> CommaBetween(s, ends[j], starts[j + 1], '}' as int)
    ensures ClosedAt(s, ends[|v.names| - 1], e, '}' as int)
  {
    var count := |v.names|;
    MembersApart(s, v, ps, starts, ends, level, pretty, slash, num);
    MembersEdges(s, v, ps, starts, ends, level, pretty, slash, num);
    LayoutSpaces(count, level, pretty);
    Bracketed(s, i, Opening(count, pretty), ps[0], starts[0], ends[count - 1], ps[count], Closing(count, level, pretty), e, '}' as int);
  }

  /** The members of a non-empty object and its closing brace read back,
      given where each member stands. */
  lemma {:induction false} MembersStandingParse(s: Bytes, i: nat, v: Value, ps: seq<nat>, e: nat, o: Bytes, c: Bytes, level: nat, pretty: bool, slash: bool, num: NumberFormat, n: nat, strtod: Strtod)
    requires Rereadable(v, n) && v.Object? && |v.names| > 0 && |ps| == |v.names| + 1
    requires o == Opening(|v.names|, pretty) && c == Closing(|v.names|, level, pretty)
    requires MembersStanding(s, i, v, ps, e, o, c, level, pretty, slash, num)
    ensures ObjectAt(s, i, n + 1, strtod) == Some(Parsed(v, e + 1))
    decreases v, 2
  {
    var starts, colons, ends := MemberStarts(v, ps, level, pretty), MemberColons(v, ps, level, pretty, slash), MemberEnds(v, ps, level, pretty, slash, num);
    MembersRead(s, v, ps, starts, colons, ends, level, pretty, slash, num, n, strtod);
    MembersLaidOut(s, i, v, ps, starts, ends, e, level, pretty, slash, num);
    ObjectLoop(s, i, v.names, v.values, starts, colons, ends, e, n + 1, strtod);
  }

  /** The members of a non-empty object and its closing brace read back,
      given where the parts of its text stand. */
  lemma {:induction false} MembersParse(s: Bytes, i: nat, v: Value, level: nat, pretty: bool, slash: bool, num: NumberFormat, n: nat, strtod: Strtod,
                   base: nat, t: nat)
    requires Rereadable(v, n) && v.Object? && |v.names| > 0
    requires ObjectLaid(s, i, v, level, pretty, slash, num, base, t)
    ensures ObjectAt(s, i, n + 1, strtod) == Some(Parsed(v, t))
    decreases v, 3
  {
    var ps, o, c := ObjectStanding(s, i, v, level, pretty, slash, num, base, t);
    MembersStandingParse(s, i, v, ps, t - 1, o, c, level, pretty, slash, num, n, strtod);
  }

  /** An object's text read back. */
  lemma {:induction false} ObjectParses(s: Bytes, i: nat, v: Value, level: nat, pretty: bool, slash: bool, num: NumberFormat, n: nat, strtod: Strtod)
    requires WellFormed(v) && v.Object? && NumberFree(v) && Fits(v, n) && Occurs(s, i, Text(v, level, pretty, slash, num))
    ensures ValueAt(s, i, n, strtod) == Some(Parsed(v, i + |Text(v, level, pretty, slash, num)|))
    decreases v, 5
  {
    var base, t := ObjectLayout(s, i, v, level, pretty, slash, num);
    ObjectFrom(s, i, v, level, pretty, slash, num, n, strtod, base, t);
  }

  /** An object read back, given where the parts of its text stand. */
  lemma {:induction false} ObjectFrom(s: Bytes, i: nat, v: Value, level: nat, pretty: bool, slash: bool, num: NumberFormat, n: nat, strtod: Strtod,
                   base: nat, t: nat)
    requires WellFormed(v) && v.Object? && NumberFree(v) && Fits(v, n)
    requires ObjectLaid(s, i, v, level, pretty, slash, num, base, t)
    ensures ValueAt(s, i, n, strtod) == Some(Parsed(v, t))
    decreases v, 4
  {
    OccursAt(s, i, [OPEN_BRACE], 0);
    if |v.names| == 0 {
      OccursAt(s, i + 1, [CLOSE_BRACE], 0);
      assert v == Object([], []);
      EmptyObject(s, i, i + 1, n + 1, strtod);
    } else {
      MembersParse(s, i, v, level, pretty, slash, num, n, strtod, base, t);
    }
    ValueAtBrace(s, i, n, strtod);
  }

  /** Braces with only whitespace between them read back as the empty
      object. */
  lemma EmptyObject(s: Bytes, i: nat, e: nat, n: nat, strtod: Strtod)
    requires i < |s| && s[i] == OPEN_BRACE && SkipWs(s, i + 1) == e && e < |s| && s[e] == CLOSE_BRACE
    ensures ObjectAt(s, i, n, strtod) == Some(Parsed(Object([], []), e + 1))
  {
  }

  /** A value starting with a brace is the object read from there. */
  lemma ValueAtBrace(s: Bytes, i: nat, n: nat, strtod: Strtod)
    requires i < |s| && s[i] == OPEN_BRACE && n <= MaxNesting
    ensures ValueAt(s, i, n, strtod) == ObjectAt(s, i, n + 1, strtod)
  {
    assert SkipWs(s, i) == i;
  }

  /** Serializing, then parsing: the text `json_serialize_to_string` writes
      for a well-formed value without numbers whose nesting `parse_value`
      accepts, followed by anything at all, is read back by
      `json_parse_string` as that value, in both the compact and the pretty
      form and with or without escaped slashes. */
  lemma SerializedParses(v: Value, pretty: bool, slash: bool, num: NumberFormat, rest: Bytes, strtod: Strtod)
    requires WellFormed(v) && NumberFree(v) && Fits(v, 0)
    ensures var s := Text(v, 0, pretty, slash, num) + rest; TopValue(s, StartOf(s), strtod) == Some(v)
  {
    var t := Text(v, 0, pretty, slash, num);
    var s := t + rest;
    TextStart(v, 0, pretty, slash, num);
    assert s[0] == t[0];
    assert StartOf(s) == 0;
    assert Occurs(s, 0, t) by {
      forall k | 0 <= k < |t|
        ensures s[0 + k] == t[k]
      {
      }
    }
    TextParses(s, 0, v, 0, pretty, slash, num, 0, strtod);
  }
}
