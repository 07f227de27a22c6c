/** What the parser promises beyond single calls: the nesting ceiling,
    trailing commas, whitespace before a value, comment stripping, the
    examples parson's own test suite checks, and the lone minus sign. */
module ParserProperties {
  import opened Wrappers
  import opened Bytes
  import opened Values
  import opened Parser
  import Comments

  /** `d` arrays nested around `null`: `[[...[null]...]]`. */
  function Nest(d: nat): (r: Bytes)
    ensures |r| == 4 + 2 * d && (r[0] == '[' as int || r[0] == 'n' as int)
  {
    if d == 0 then Ascii("null") else ['[' as int] + Nest(d - 1) + [']' as int]
  }

  /** The value `Nest(d)` stands for. */
  function NestValue(d: nat): Value {
    if d == 0 then Null else Array([NestValue(d - 1)])
  }

  /** Where the parts of `Nest(d)` lie in a text holding it at `i`. */
  lemma NestParts(s: Bytes, i: nat, d: nat)
    requires d > 0 && i + |Nest(d)| <= |s| && s[i..i + |Nest(d)|] == Nest(d)
    ensures s[i] == '[' as int && s[i + 1..i + 1 + |Nest(d - 1)|] == Nest(d - 1)
    ensures s[i + 1 + |Nest(d - 1)|] == ']' as int
  {
    var w, inner := Nest(d), Nest(d - 1);
    assert w == ['[' as int] + inner + [']' as int];
    forall k | 0 <= k < |w|
      ensures s[i + k] == w[k]
    {
      assert s[i..i + |w|][k] == s[i + k];
    }
    assert s[i + 1..i + 1 + |inner|] == inner by {
      forall k | 0 <= k < |inner|
        ensures s[i + 1..i + 1 + |inner|][k] == inner[k]
      {
        assert w[1 + k] == inner[k];
      }
    }
    assert s[i + 1 + |inner|] == w[|w| - 1];
  }

  /** An array of one item whose brackets hug it parses to that item, and
      fails when the item fails. */
  lemma SingleItemArray(s: Bytes, i: nat, n: nat, e: nat, strtod: Strtod)
    requires i < |s| && s[i] == '[' as int && n <= MaxNesting
    requires i + 1 < |s| && !IsSpace(s[i + 1]) && s[i + 1] != ']' as int && s[i + 1] != NUL
    requires ValueAt(s, i + 1, n + 1, strtod).Some? ==> ValueAt(s, i + 1, n + 1, strtod).value.next == e && e < |s| && s[e] == ']' as int
    ensures ValueAt(s, i, n, strtod) == match ValueAt(s, i + 1, n + 1, strtod)
      case None => None
      case Some(p) => Some(Parsed(Array([p.v]), e + 1))
  {
    var j, m := i + 1, n + 1;
    assert SkipWs(s, i) == i && SkipWs(s, j) == j;
    var r := ElementsFrom(s, j, m, [], strtod);
    assert ValueAt(s, i, n, strtod) == r;
    var item := ValueAt(s, j, m, strtod);
    if item.Some? {
      var x := item.value.v;
      ElementStep(s, j, m, [], item.value, strtod);
      assert [] + [x] == [x];
      assert SkipWs(s, e) == e;
      AfterElementStep(s, e, m, [x], strtod, e, e);
      assert r == Close(s, e, ']' as int, Array([x]));
    } else {
      assert r == None;
    }
  }

  /** `null` parses wherever the nesting allows a value. */
  lemma NullValue(s: Bytes, i: nat, n: nat, strtod: Strtod)
    requires n <= MaxNesting && i + 4 <= |s| && s[i..i + 4] == Ascii("null")
    ensures ValueAt(s, i, n, strtod) == Some(Parsed(Null, i + 4))
  {
    assert s[i] == s[i..i + 4][0];
    assert SkipWs(s, i) == i;
    assert Matches(s, i, Ascii("null"));
  }

  /** `d` nested arrays parse at nesting `n` exactly when `n + d` stays
      within `MaxNesting`, and then the whole text is consumed. */
  lemma {:induction false} NestedDepth(s: Bytes, i: nat, d: nat, n: nat, strtod: Strtod)
    requires i + |Nest(d)| <= |s| && s[i..i + |Nest(d)|] == Nest(d)
    ensures ValueAt(s, i, n, strtod) == if n + d <= MaxNesting then Some(Parsed(NestValue(d), i + |Nest(d)|)) else None
    decreases d
  {
    if n > MaxNesting {
    } else if d == 0 {
      NullValue(s, i, n, strtod);
    } else {
      NestParts(s, i, d);
      var inner := Nest(d - 1);
      assert s[i + 1] == inner[0];
      NestedDepth(s, i + 1, d - 1, n + 1, strtod);
      SingleItemArray(s, i, n, i + 1 + |inner|, strtod);
      assert NestValue(d) == Array([NestValue(d - 1)]);
      assert i + 1 + |inner| + 1 == i + |Nest(d)|;
    }
  }

  /** `json_parse_string` on `d` nested arrays around `null` succeeds
      exactly up to a depth of 2048. */
  lemma NestingLimit(d: nat, strtod: Strtod)
    ensures TopValue(Nest(d), StartOf(Nest(d)), strtod).Some? <==> d <= MaxNesting
  {
    var s := Nest(d);
    assert StartOf(s) == 0;
    assert s[0..|s|] == s;
    NestedDepth(s, 0, d, 0, strtod);
  }

  /** A comma followed by the closing bracket ends an array: after an item
      at `i` come whitespace up to `p`, a comma, whitespace up to `q` and
      the closing bracket, and the array closes with that item last. */
  lemma TrailingCommaInArray(s: Bytes, i: nat, nesting: nat, items: seq<Value>, v: Parsed, p: nat, q: nat, strtod: Strtod)
    requires i <= |s| && At(s, i) != NUL && WellFormed(Array(items))
    requires ValueAt(s, i, nesting, strtod) == Some(v)
    requires p == SkipWs(s, v.next) && At(s, p) == ',' as int && q == SkipWs(s, p + 1) && At(s, q) == ']' as int
    ensures ElementsFrom(s, i, nesting, items, strtod) == Some(Parsed(Array(items + [v.v]), q + 1))
  {
    ElementStep(s, i, nesting, items, v, strtod);
    AfterElementStep(s, v.next, nesting, items + [v.v], strtod, p, q);
    assert SkipWs(s, q) == q;
  }

  /** The same for objects: after a member, `, }` closes the object. */
  lemma TrailingCommaInObject(s: Bytes, m: nat, nesting: nat, ks: seq<Bytes>, vs: seq<Value>, p: nat, q: nat, strtod: Strtod)
    requires m <= |s| && WellFormedMembers(ks, vs)
    requires p == SkipWs(s, m) && At(s, p) == ',' as int && q == SkipWs(s, p + 1) && At(s, q) == '}' as int
    ensures AfterMember(s, m, nesting, ks, vs, strtod) == Some(Parsed(Object(ks, vs), q + 1))
  {
    AfterMemberStep(s, m, nesting, ks, vs, strtod, p, q);
    assert SkipWs(s, q) == q;
  }

  /** Skipping whitespace from inside a run of whitespace ends where
      skipping from its start does. */
  lemma {:induction false} SkipWsInside(s: Bytes, i: nat, k: nat)
    requires i <= k <= |s| && forall j :: i <= j < k ==> IsSpace(s[j])
    ensures SkipWs(s, k) == SkipWs(s, i)
    decreases k - i
  {
    if i < k {
      assert IsSpace(At(s, i));
      SkipWsInside(s, i + 1, k);
    }
  }

  /** Whitespace before a value changes nothing. */
  lemma LeadingWhitespaceIgnored(s: Bytes, i: nat, k: nat, nesting: nat, strtod: Strtod)
    requires i <= k <= |s| && forall j :: i <= j < k ==> IsSpace(s[j])
    ensures ValueAt(s, i, nesting, strtod) == ValueAt(s, k, nesting, strtod)
  {
    SkipWsInside(s, i, k);
  }

  /** A text without a slash has no comment to strip: parsing it with
      comments allowed is parsing it as it is (without the byte order mark
      test). */
  lemma NoSlashNoComments(s: Bytes)
    requires forall k :: 0 <= k < |s| ==> s[k] != SLASH
    ensures Uncommented(s) == s
  {
    var slashStar, starSlash, slashSlash := Ascii("/*"), Ascii("*/"), Ascii("//");
    forall p | 0 <= p < |s|
      ensures !Comments.MatchesAt(s, p, slashStar) && !Comments.MatchesAt(s, p, slashSlash)
    {
      assert At(s, p + 0) == s[p];
    }
    Comments.NoCommentNoChange(s, 0, false, false, slashStar, starSlash);
    assert s[0..] == s;
    Comments.NoCommentNoChange(s, 0, false, false, slashSlash, [NEWLINE]);
  }

  /** Texts parson's test suite refuses: an empty text, a lone closing
      bracket and a comma with no item before it. */
  lemma RejectedExamples(strtod: Strtod)
    ensures TopValue([], 0, strtod) == None
    ensures TopValue(Ascii("]"), 0, strtod) == None
    ensures TopValue(Ascii("[,]"), 0, strtod) == None
  {
  }

  /** The octal and hexadecimal lexemes parson's test suite refuses. */
  lemma IsDecimalRejects()
    ensures !IsDecimal(Ascii("0x2")) && !IsDecimal(Ascii("0X2"))
    ensures !IsDecimal(Ascii("07")) && !IsDecimal(Ascii("0070")) && !IsDecimal(Ascii("07.0"))
    ensures !IsDecimal(Ascii("-07")) && !IsDecimal(Ascii("-007")) && !IsDecimal(Ascii("-07.0"))
  {
  }

  /** Ordinary lexemes `is_decimal` keeps, a zero before a dot among them. */
  lemma IsDecimalKeeps()
    ensures IsDecimal(Ascii("123")) && IsDecimal(Ascii("0")) && IsDecimal(Ascii("0.5")) && IsDecimal(Ascii("-0.5"))
  {
  }

  /** On a run of digits, with or without a minus sign, `is_decimal`
      accepts exactly the integers of section 6 of RFC 8259. */
  lemma IsDecimalIntegers(t: Bytes)
    ensures |t| > 0 && Digits(t) ==> (IsDecimal(t) <==> JsonInt(t))
    ensures |t| > 1 && t[0] == '-' as int && Digits(t[1..]) ==> (IsDecimal(t) <==> JsonInt(t[1..]))
  {
  }

  /** Every number the parser reads comes from a non-empty lexeme with no
      hexadecimal marker and no leading zero before anything but a dot, with
      or without a minus sign; a lexeme of digits is a JSON integer. */
  lemma NumberLexemeDecimal(s: Bytes, i: nat, strtod: Strtod)
    requires i <= |s|
    ensures NumberAt(s, i, strtod).Some? ==>
      var t := s[i..NumberAt(s, i, strtod).value.next];
      && |t| > 0
      && NoHexMarker(t)
      && !(|t| > 1 && t[0] == '0' as int && t[1] != '.' as int)
      && !(|t| > 2 && t[0] == '-' as int && t[1] == '0' as int && t[2] != '.' as int)
      && (Digits(t) ==> JsonInt(t))
  {
    if NumberAt(s, i, strtod).Some? {
      IsDecimalIntegers(s[i..NumberAt(s, i, strtod).value.next]);
    }
  }

  /** The lone minus sign: `strtod` converts nothing from `-` and reports
      0 and the start position, the empty lexeme passes `is_decimal`, and
      `parse_number_value` as written yields the number 0 without consuming
      anything, so `json_parse_string("-")` succeeds. With the empty lexeme
      refused the text is rejected. */
  lemma LoneMinus(strtod: Strtod)
    requires strtod(Ascii("-"), 0) == Scan(0.0, 0, true)
    ensures NumberAtAsWritten(Ascii("-"), 0, strtod) == Some(Parsed(Number(0.0), 0))
    ensures TopValue(Ascii("-"), 0, strtod) == None
  {
    assert Ascii("-")[0..0] == [];
    assert SkipWs(Ascii("-"), 0) == 0;
  }
}
