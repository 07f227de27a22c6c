/** String literals: finding the closing quote (`skip_quotes`), decoding
    the escapes between the quotes (`process_string`) and writing a string
    back as a quoted literal (`json_serialize_string`).

    `process_string` receives the bytes between the quotes; the byte after
    them in the C buffer is the closing quote. Here the content is a
    sequence of its own and reads past its end see NUL (`At`). The two
    differ only for content ending in an unpaired backslash, which
    `skip_quotes` never delimits. */
module Escapes {
  import opened Wrappers
  import opened Bytes
  import Utf8
  import Utf16
  import Output

  /** `skip_quotes` on the text from `i`: the position just past the closing
      quote, or `None` when `i` holds no opening quote or the text ends (or
      meets a NUL) first. A backslash always hides the byte after it. */
  function SkipQuotes(s: Bytes, i: nat): (r: Option<nat>)
    ensures r.Some? ==> i + 2 <= r.value <= |s| && s[i] == QUOTE && s[r.value - 1] == QUOTE
  {
    if At(s, i) != QUOTE then None else ScanToQuote(s, i + 1)
  }

  function ScanToQuote(s: Bytes, j: nat): (r: Option<nat>)
    ensures r.Some? ==> j + 1 <= r.value <= |s| && s[r.value - 1] == QUOTE
    decreases |s| - j
  {
    if j >= |s| || s[j] == NUL then None
    else if s[j] == QUOTE then Some(j + 1)
    else if s[j] == BACKSLASH then
      if At(s, j + 1) == NUL then None else ScanToQuote(s, j + 2)
    else ScanToQuote(s, j + 1)
  }

  /** `skip_quotes` as parson writes it: steps over the opening quote,
      then byte by byte, two at a time over a backslash, up to the closing
      quote. */
  method FindClosingQuote(s: Bytes, i: nat) returns (r: Option<nat>)
    ensures r == SkipQuotes(s, i)
  {
    if At(s, i) != QUOTE {
      return None;
    }
    var j := i + 1;
    while At(s, j) != QUOTE
      invariant i < j <= |s| && SkipQuotes(s, i) == ScanToQuote(s, j)
      decreases |s| - j
    {
      if At(s, j) == NUL {
        return None;
      }
      if At(s, j) == BACKSLASH {
        j := j + 1;
        if At(s, j) == NUL {
          return None;
        }
      }
      j := j + 1;
    }
    r := Some(j + 1);
  }

  /** The byte a one-character escape stands for. */
  function SimpleEscape(c: byte): (r: Option<byte>)
    ensures r.Some? ==> c != NUL && c != 'u' as int
  {
    if c == QUOTE then Some(QUOTE)
    else if c == BACKSLASH then Some(BACKSLASH)
    else if c == SLASH then Some(SLASH)
    else if c == 'b' as int then Some(0x08)
    else if c == 'f' as int then Some(0x0C)
    else if c == 'n' as int then Some(0x0A)
    else if c == 'r' as int then Some(0x0D)
    else if c == 't' as int then Some(0x09)
    else None
  }

  function Prepend(p: Bytes, r: Option<Bytes>): Option<Bytes> {
    match r
    case None => None
    case Some(t) => Some(p + t)
  }

  /** One step of `process_string` at the head of `t`: the bytes it
      yields and how many input bytes it consumes, or `None` on an unknown
      escape, a bad `\u` escape or a raw control byte. */
  function DecodeStep(t: Bytes): (r: Option<(Bytes, nat)>)
    requires |t| > 0
    ensures r.Some? ==> 1 <= r.value.1 <= |t| && |r.value.0| <= r.value.1
  {
    if t[0] == BACKSLASH then
      if At(t, 1) == 'u' as int then
        match Utf16.DecodeUtf16(t[1..])
        case None => None
        case Some(d) =>
          Utf16.DecodeUtf16Accepted(t[1..]);
          Some((d.out, 1 + d.consumed))
      else
        match SimpleEscape(At(t, 1))
        case None => None
        case Some(b) => Some(([b], 2))
    else if t[0] < 0x20 then None
    else Some(([t[0]], 1))
  }

  /** `process_string`: the decoded bytes, or `None` if a step fails.
      Decoding stops at the end of the input or at a NUL. */
  function Unescape(s: Bytes): (r: Option<Bytes>)
    decreases |s|
  {
    if |s| == 0 || s[0] == NUL then Some([])
    else match DecodeStep(s)
      case None => None
      case Some((p, k)) => Prepend(p, Unescape(s[k..]))
  }

  /** Decoding never lengthens a string, so the output fits in a buffer of
      the input's size. */
  lemma {:induction false} UnescapeShrinks(s: Bytes)
    ensures Unescape(s).Some? ==> |Unescape(s).value| <= |s|
    decreases |s|
  {
    if |s| > 0 && s[0] != NUL && DecodeStep(s).Some? {
      UnescapeShrinks(s[DecodeStep(s).value.1..]);
    }
  }

  /** The bytes `json_serialize_string` writes as a backslash and a
      letter. */
  predicate HasNamedEscape(c: byte) {
    c == QUOTE || c == BACKSLASH || c == 0x08 || c == 0x0C || c == 0x0A || c == 0x0D || c == 0x09
  }

  function NamedEscape(c: byte): (e: byte)
    requires HasNamedEscape(c)
    ensures SimpleEscape(e) == Some(c)
  {
    if c == QUOTE then QUOTE
    else if c == BACKSLASH then BACKSLASH
    else if c == 0x08 then 'b' as int
    else if c == 0x0C then 'f' as int
    else if c == 0x0A then 'n' as int
    else if c == 0x0D then 'r' as int
    else 't' as int
  }

  /** The escape `json_serialize_string` writes for one byte: a backslash
      and a letter for quote, backslash and five control characters,
      `\u00XX` with lower-case digits for the other control characters,
      `\/` for a slash when slashes are escaped, the byte itself
      otherwise. */
  function EscapeByte(c: byte, escapeSlashes: bool): (r: Bytes)
    ensures 1 <= |r| <= 6
  {
    if HasNamedEscape(c) then [BACKSLASH, NamedEscape(c)]
    else if c < 0x20 then [BACKSLASH, 'u' as int, '0' as int, '0' as int, Utf16.HexDigit(c / 16), Utf16.HexDigit(c % 16)]
    else if c == SLASH && escapeSlashes then [BACKSLASH, SLASH]
    else [c]
  }

  function EscapeBody(s: Bytes, escapeSlashes: bool): (r: Bytes)
    ensures |s| <= |r| <= 6 * |s|
  {
    if s == [] then [] else EscapeByte(s[0], escapeSlashes) + EscapeBody(s[1..], escapeSlashes)
  }

  /** The whole literal `json_serialize_string` produces. */
  function Quoted(s: Bytes, escapeSlashes: bool): (r: Bytes)
    ensures |r| == |EscapeBody(s, escapeSlashes)| + 2 && r[0] == QUOTE && r[|r| - 1] == QUOTE
  {
    [QUOTE] + EscapeBody(s, escapeSlashes) + [QUOTE]
  }

  lemma {:induction false} EscapeBodyAppend(a: Bytes, b: Bytes, slash: bool)
    ensures EscapeBody(a + b, slash) == EscapeBody(a, slash) + EscapeBody(b, slash)
  {
    if a != [] {
      assert (a + b)[1..] == a[1..] + b;
      EscapeBodyAppend(a[1..], b, slash);
    } else {
      assert a + b == b;
    }
  }

  /** A raw byte is escaped exactly when it is a quote, a backslash, a
      control character, or a slash in slash-escaping mode. */
  lemma EscapedBytes(c: byte, slash: bool)
    ensures EscapeByte(c, slash) == [c] <==> !(c == QUOTE || c == BACKSLASH || c < 0x20 || (slash && c == SLASH))
  {
  }

  /** No escaped body contains a NUL or a raw control character. */
  lemma {:induction false} EscapeBodyPrintable(s: Bytes, slash: bool)
    ensures forall k :: 0 <= k < |EscapeBody(s, slash)| ==> EscapeBody(s, slash)[k] >= 0x20
  {
    if s != [] {
      EscapeBodyPrintable(s[1..], slash);
      var e, rest := EscapeByte(s[0], slash), EscapeBody(s[1..], slash);
      ScanEscape(s[0], slash, rest);
      assert EscapeBody(s, slash) == e + rest;
      forall k | |e| <= k < |e| + |rest|
        ensures (e + rest)[k] >= 0x20
      {
        assert (e + rest)[k] == rest[k - |e|];
      }
    }
  }

  /** An escaped body holds no unescaped quote: the scan for the closing
      quote runs over all of it. */
  lemma {:induction false} EscapeBodyScan(s: Bytes, slash: bool)
    ensures ScanToQuote(EscapeBody(s, slash) + [QUOTE], 0) == Some(|EscapeBody(s, slash)| + 1)
  {
    if s != [] {
      var rest := EscapeBody(s[1..], slash);
      EscapeBodyScan(s[1..], slash);
      ScanOverEscape(s[0], slash, rest + [QUOTE], |rest| + 1);
      assert EscapeBody(s, slash) + [QUOTE] == EscapeByte(s[0], slash) + (rest + [QUOTE]);
    } else {
      assert EscapeBody(s, slash) + [QUOTE] == [QUOTE];
    }
  }

  /** The scan passes over one escape and goes on in what follows. */
  lemma ScanOverEscape(c: byte, slash: bool, t: Bytes, m: nat)
    requires ScanToQuote(t, 0) == Some(m)
    ensures ScanToQuote(EscapeByte(c, slash) + t, 0) == Some(|EscapeByte(c, slash)| + m)
  {
    var e := EscapeByte(c, slash);
    var u := e + t;
    ScanEscape(c, slash, t);
    assert u[|e|..] == t;
    ScanShiftAt(u, |e|, |e|);
  }

  lemma ScanEscape(c: byte, slash: bool, t: Bytes)
    ensures forall k :: 0 <= k < |EscapeByte(c, slash)| ==> EscapeByte(c, slash)[k] >= 0x20
    ensures ScanToQuote(EscapeByte(c, slash) + t, 0) == ScanToQuote(EscapeByte(c, slash) + t, |EscapeByte(c, slash)|)
  {
    var e := EscapeByte(c, slash);
    var u := e + t;
    if |e| == 6 {
      assert ScanToQuote(u, 0) == ScanToQuote(u, 2);
      assert u[2] == '0' as int && u[3] == '0' as int;
      assert Utf16.IsHexDigit(u[4]) && Utf16.IsHexDigit(u[5]);
      assert ScanToQuote(u, 2) == ScanToQuote(u, 3) == ScanToQuote(u, 4);
      assert ScanToQuote(u, 4) == ScanToQuote(u, 5) == ScanToQuote(u, 6);
    }
  }

  /** The scan from position `j` depends only on the text from `n <= j`. */
  lemma {:induction false} ScanShiftAt(s: Bytes, n: nat, j: nat)
    requires n <= j <= |s|
    ensures ScanToQuote(s, j) == (match ScanToQuote(s[n..], j - n) case None => None case Some(e) => Some(e + n))
    decreases |s| - j
  {
    var t := s[n..];
    if j < |s| {
      assert s[j] == t[j - n];
      assert At(s, j + 1) == At(t, j + 1 - n);
      if s[j] != NUL && s[j] != QUOTE {
        if s[j] == BACKSLASH {
          if At(s, j + 1) != NUL {
            ScanShiftAt(s, n, j + 2);
          }
        } else {
          ScanShiftAt(s, n, j + 1);
        }
      }
    }
  }

  /** A serialized string is delimited by `skip_quotes` exactly, whatever
      follows it. */
  lemma SkipQuotesOfQuoted(s: Bytes, slash: bool, rest: Bytes)
    ensures SkipQuotes(Quoted(s, slash) + rest, 0) == Some(|Quoted(s, slash)|)
  {
    var e := EscapeBody(s, slash);
    EscapeBodyScan(s, slash);
    ScanPrefix(e + [QUOTE], rest);
    var t := Quoted(s, slash) + rest;
    assert t[1..] == e + [QUOTE] + rest;
    ScanShiftAt(t, 1, 1);
  }

  /** A scan that succeeds inside a prefix is not affected by what follows. */
  lemma {:induction false} ScanPrefix(p: Bytes, rest: Bytes)
    requires ScanToQuote(p, 0).Some?
    ensures ScanToQuote(p + rest, 0) == ScanToQuote(p, 0)
  {
    ScanPrefixAt(p, rest, 0);
  }

  lemma {:induction false} ScanPrefixAt(p: Bytes, rest: Bytes, j: nat)
    requires ScanToQuote(p, j).Some?
    ensures ScanToQuote(p + rest, j) == ScanToQuote(p, j)
    decreases |p| - j
  {
    var t := p + rest;
    assert t[j] == p[j];
    if p[j] != QUOTE {
      if p[j] == BACKSLASH {
        assert At(t, j + 1) == At(p, j + 1);
        ScanPrefixAt(p, rest, j + 2);
      } else {
        ScanPrefixAt(p, rest, j + 1);
      }
    }
  }

  /** Decoding undoes one escape. */
  lemma UnescapeEscapeByte(c: byte, slash: bool, rest: Bytes)
    ensures Unescape(EscapeByte(c, slash) + rest) == Prepend([c], Unescape(rest))
  {
    var e := EscapeByte(c, slash);
    var t := e + rest;
    if !HasNamedEscape(c) && c < 0x20 {
      assert e == [BACKSLASH] + Utf16.EscapeOf(c);
      assert t[1..] == Utf16.EscapeOf(c) + rest;
      Utf16.DecodeEscapeOf(c, rest);
      assert t[1 + 5..] == rest;
    } else if |e| == 2 {
      assert t[2..] == rest;
    } else {
      assert t[1..] == rest;
    }
  }

  /** Serializing a string and decoding its body gives the string back,
      embedded NULs and control characters included. */
  lemma {:induction false} UnescapeEscapeBody(s: Bytes, slash: bool)
    ensures Unescape(EscapeBody(s, slash)) == Some(s)
  {
    if s != [] {
      UnescapeEscapeBody(s[1..], slash);
      UnescapeEscapeByte(s[0], slash, EscapeBody(s[1..], slash));
      assert [s[0]] + s[1..] == s;
    }
  }

  /** The full literal round trip: `skip_quotes` finds the end of a
      serialized string and `process_string` on its body restores it. */
  lemma StringRoundTrip(s: Bytes, slash: bool, rest: Bytes)
    ensures var t := Quoted(s, slash) + rest;
      SkipQuotes(t, 0) == Some(|Quoted(s, slash)|)
      && Unescape(t[1..|Quoted(s, slash)| - 1]) == Some(s)
  {
    SkipQuotesOfQuoted(s, slash, rest);
    var t := Quoted(s, slash) + rest;
    assert t[1..|Quoted(s, slash)| - 1] == EscapeBody(s, slash);
    UnescapeEscapeBody(s, slash);
  }

  lemma PrependPrepend(p: Bytes, q: Bytes, r: Option<Bytes>)
    ensures Prepend(p, Prepend(q, r)) == Prepend(p + q, r)
  {
    if r.Some? {
      assert p + (q + r.value) == (p + q) + r.value;
    }
  }

  /** One step of `process_string` keeps the decoded prefix in step with
      `Unescape`. */
  lemma Advance(s: Bytes, i0: nat, out0: seq<byte>, o0: nat, p: Bytes, k: nat, out1: seq<byte>, i1: nat, o1: nat)
    requires i0 < |s| && s[i0] != NUL && DecodeStep(s[i0..]) == Some((p, k))
    requires i1 == i0 + k && o1 == o0 + |p|
    requires o0 <= |out0| && o1 <= |out1| && out1[..o1] == out0[..o0] + p
    requires Unescape(s) == Prepend(out0[..o0], Unescape(s[i0..]))
    ensures i1 <= |s| && Unescape(s) == Prepend(out1[..o1], Unescape(s[i1..]))
  {
    assert s[i0..][k..] == s[i1..];
    PrependPrepend(out0[..o0], p, Unescape(s[i1..]));
  }

  /** A failing step makes the whole decoding fail. */
  lemma Stuck(s: Bytes, i: nat, out0: seq<byte>, o: nat)
    requires i < |s| && s[i] != NUL && DecodeStep(s[i..]).None?
    requires o <= |out0| && Unescape(s) == Prepend(out0[..o], Unescape(s[i..]))
    ensures Unescape(s).None?
  {
  }

  /** `process_string`: decodes `s` through an output buffer one byte larger
      than the input, then keeps the decoded prefix. */
  method ProcessString(s: Bytes) returns (r: Option<Bytes>)
    ensures r == Unescape(s)
  {
    var output := new byte[|s| + 1];
    var i: nat, o: nat := 0, 0;
    assert s[0..] == s;
    assert output[..0] == [];
    assert Unescape(s).Some? ==> [] + Unescape(s).value == Unescape(s).value;
    while i < |s| && s[i] != NUL
      invariant output.Length == |s| + 1
      invariant i <= |s| && o <= i
      invariant Unescape(s) == Prepend(output[..o], Unescape(s[i..]))
      decreases |s| - i
    {
      ghost var t := s[i..];
      ghost var step := DecodeStep(t);
      ghost var i0, o0, before := i, o, output[..];
      if s[i] == BACKSLASH {
        i := i + 1;
        assert At(s, i) == At(t, 1);
        var c := At(s, i);
        if c == 'u' as int {
          assert t[1..] == s[i..];
          var ok, last, lastOut := Utf16.ParseUtf16(s, i, output, o);
          if !ok {
            Stuck(s, i0, before, o0);
            return None;
          }
          assert step.Some? && last + 1 == i0 + step.value.1 && lastOut + 1 == o0 + |step.value.0|
                 && output[..lastOut + 1] == before[..o0] + step.value.0 by {
            assert step == Some((Utf16.DecodeUtf16(s[i..]).value.out, last + 1 - i0));
          }
          i, o := last, lastOut;
        } else {
          var e := SimpleEscape(c);
          if e.None? {
            Stuck(s, i0, before, o0);
            return None;
          }
          output[o] := e.value;
        }
      } else if s[i] < 0x20 {
        Stuck(s, i0, before, o0);
        return None;
      } else {
        output[o] := s[i];
      }
      o := o + 1;
      i := i + 1;
      Advance(s, i0, before, o0, step.value.0, step.value.1, output[..], i, o);
    }
    assert Unescape(s[i..]) == Some([]);
    assert output[..o] + [] == output[..o];
    ghost var decoded := output[..o];
    output[o] := NUL;
    assert output[..o] == decoded;
    r := Some(output[..o]);
  }

  lemma EscapeBodyStep(s: Bytes, i: nat, slash: bool)
    requires i < |s|
    ensures EscapeBody(s[..i + 1], slash) == EscapeBody(s[..i], slash) + EscapeByte(s[i], slash)
    ensures |EscapeBody(s[..i + 1], slash)| <= |EscapeBody(s, slash)|
  {
    assert s[..i + 1] == s[..i] + [s[i]];
    EscapeBodyAppend(s[..i], [s[i]], slash);
    assert EscapeBody([s[i]], slash) == EscapeByte(s[i], slash);
    EscapeBodyAppend(s[..i + 1], s[i + 1..], slash);
    assert s[..i + 1] + s[i + 1..] == s;
  }

  /** The escaped text written so far grows by one escaped byte. */
  lemma TextStep(s: Bytes, i: nat, slash: bool, text: Bytes)
    requires i < |s| && text == EscapeBody(s[..i], slash)
    ensures text + EscapeByte(s[i], slash) == EscapeBody(s[..i + 1], slash)
    ensures |text + EscapeByte(s[i], slash)| <= |EscapeBody(s, slash)|
  {
    EscapeBodyStep(s, i, slash);
  }

  /** The `switch` of `json_serialize_string` on one byte: a literal for
      the bytes that need escaping, the byte itself (unterminated)
      otherwise. */
  method AppendEscaped(buf: array?<byte>, at: nat, c: byte, escapeSlashes: bool) returns (n: nat)
    requires buf != null ==> at + |EscapeByte(c, escapeSlashes)| < buf.Length
    modifies buf
    ensures n == |EscapeByte(c, escapeSlashes)|
    ensures buf != null ==> Output.Wrote(buf[..], old(buf[..]), at, EscapeByte(c, escapeSlashes))
  {
    var e := EscapeByte(c, escapeSlashes);
    if e != [c] {
      Output.AppendLiteral(buf, at, e);
    } else {
      Output.PutByte(buf, at, c);
    }
    n := |e|;
  }

  /** One turn of the loop of `json_serialize_string`: byte `i` of `s`,
      escaped, goes right after the escaped bytes before it. */
  method EscapeNext(buf: array?<byte>, at: nat, s: Bytes, i: nat, escapeSlashes: bool, written: nat, ghost b0: seq<byte>)
      returns (n: nat)
    requires i < |s| && written == |EscapeBody(s[..i], escapeSlashes)|
    requires buf != null ==> at + |EscapeBody(s, escapeSlashes)| < buf.Length
    requires buf != null ==> Output.Wrote(buf[..], b0, at, EscapeBody(s[..i], escapeSlashes))
    modifies buf
    ensures written + n == |EscapeBody(s[..i + 1], escapeSlashes)|
    ensures buf != null ==> Output.Wrote(buf[..], b0, at, EscapeBody(s[..i + 1], escapeSlashes))
  {
    ghost var text := EscapeBody(s[..i], escapeSlashes);
    TextStep(s, i, escapeSlashes, text);
    ghost var before := if buf != null then buf[..] else [];
    var pos, c := at + written, s[i];
    n := AppendEscaped(buf, pos, c, escapeSlashes);
    if buf != null {
      Output.WroteThen(b0, before, buf[..], at, text, pos, EscapeByte(c, escapeSlashes));
    }
  }

  /** The loop of `json_serialize_string`: every byte of `s`, escaped,
      stored from `at` on. */
  method AppendEscapedBody(buf: array?<byte>, at: nat, s: Bytes, escapeSlashes: bool) returns (written: nat)
    requires buf != null ==> at + |EscapeBody(s, escapeSlashes)| < buf.Length
    modifies buf
    ensures written == |EscapeBody(s, escapeSlashes)|
    ensures buf != null ==> Output.Wrote(buf[..], old(buf[..]), at, EscapeBody(s, escapeSlashes))
  {
    ghost var b0 := if buf != null then buf[..] else [];
    if buf != null {
      Output.WroteNothing(b0, at);
    }
    written := 0;
    var i := 0;
    while i < |s|
      invariant i <= |s|
      invariant written == |EscapeBody(s[..i], escapeSlashes)|
      invariant buf != null ==> Output.Wrote(buf[..], b0, at, EscapeBody(s[..i], escapeSlashes))
    {
      var n := EscapeNext(buf, at, s, i, escapeSlashes, written, b0);
      written := written + n;
      i := i + 1;
    }
    assert s[..i] == s;
  }

  /** `json_serialize_string`: writes the quoted literal at `buf[at..]`
      (counting mode when `buf` is null) and returns its length. */
  method SerializeString(s: Bytes, escapeSlashes: bool, buf: array?<byte>, at: nat) returns (written: nat)
    requires buf != null ==> at + |Quoted(s, escapeSlashes)| < buf.Length
    modifies buf
    ensures written == |Quoted(s, escapeSlashes)|
    ensures buf != null ==> Output.Emitted(buf[..], old(buf[..]), at, Quoted(s, escapeSlashes))
  {
    ghost var body := EscapeBody(s, escapeSlashes);
    ghost var b0 := if buf != null then buf[..] else [];
    Output.AppendLiteral(buf, at, [QUOTE]);
    ghost var b1 := if buf != null then buf[..] else [];
    var start := at + 1;
    var n := AppendEscapedBody(buf, start, s, escapeSlashes);
    if buf != null {
      Output.WroteThen(b0, b1, buf[..], at, [QUOTE], start, body);
    }
    ghost var b2 := if buf != null then buf[..] else [];
    var end := start + n;
    Output.AppendLiteral(buf, end, [QUOTE]);
    if buf != null {
      Output.EmittedThen(b0, b2, buf[..], at, [QUOTE] + body, end, [QUOTE]);
    }
    written := n + 2;
  }
}
