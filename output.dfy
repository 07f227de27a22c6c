/** The serialization cursor (`serialization_buffer`, `append_literal`,
    `append_indent`). A serializer runs either in counting mode, with no
    buffer, where only the running total grows, or in writing mode, where
    bytes are also stored at the cursor. `append_literal` stores a NUL after
    every literal, so the byte just past the text written so far is either
    that NUL or is overwritten by the next write. */
module Output {
  import opened Bytes

  /** `after` holds `text` at `at`, with everything before `at` and beyond
      the byte following `text` as in `before`. */
  predicate Wrote(after: seq<byte>, before: seq<byte>, at: nat, text: Bytes) {
    |after| == |before| && at + |text| < |before|
    && (forall k :: 0 <= k < |after| && (k < at || at + |text| < k) ==> after[k] == before[k])
    && (forall k :: at <= k < at + |text| ==> after[k] == text[k - at])
  }

  /** As `Wrote`, with the NUL terminator in place after `text`. */
  predicate Emitted(after: seq<byte>, before: seq<byte>, at: nat, text: Bytes) {
    Wrote(after, before, at, text) && after[at + |text|] == NUL
  }

  lemma EmittedIsExact(after: seq<byte>, before: seq<byte>, at: nat, text: Bytes)
    requires Emitted(after, before, at, text)
    ensures after == before[..at] + text + [NUL] + before[at + |text| + 1..]
  {
  }

  /** Nothing has been written yet. */
  lemma WroteNothing(b: seq<byte>, at: nat)
    requires at < |b|
    ensures Wrote(b, b, at, [])
  {
  }

  /** Two consecutive writes make one. */
  lemma WroteThen(b0: seq<byte>, b1: seq<byte>, b2: seq<byte>, at: nat, t1: Bytes, mid: nat, t2: Bytes)
    requires mid == at + |t1|
    requires Wrote(b1, b0, at, t1) && Wrote(b2, b1, mid, t2)
    ensures Wrote(b2, b0, at, t1 + t2)
  {
  }

  /** Two consecutive writes, the second terminated. */
  lemma EmittedThen(b0: seq<byte>, b1: seq<byte>, b2: seq<byte>, at: nat, t1: Bytes, mid: nat, t2: Bytes)
    requires mid == at + |t1|
    requires Wrote(b1, b0, at, t1) && Emitted(b2, b1, mid, t2)
    ensures Emitted(b2, b0, at, t1 + t2)
  {
    WroteThen(b0, b1, b2, at, t1, mid, t2);
  }

  /** `append_literal`: stores `lit` and a NUL at `at` in writing mode; in
      counting mode (no buffer) nothing is stored and the caller only adds
      `|lit|` to its total. */
  method AppendLiteral(buf: array?<byte>, at: nat, lit: Bytes)
    requires buf != null ==> at + |lit| < buf.Length
    modifies buf
    ensures buf != null ==> Emitted(buf[..], old(buf[..]), at, lit)
  {
    if buf != null {
      var k := 0;
      while k < |lit|
        invariant k <= |lit|
        invariant forall j :: 0 <= j < buf.Length && (j < at || at + k <= j) ==> buf[j] == old(buf[j])
        invariant forall j :: at <= j < at + k ==> buf[j] == lit[j - at]
      {
        buf[at + k] := lit[k];
        k := k + 1;
      }
      buf[at + |lit|] := NUL;
    }
  }

  /** A single byte stored at the cursor without a terminator, as the
      serializers do for bytes that need no escaping. */
  method PutByte(buf: array?<byte>, at: nat, c: byte)
    requires buf != null ==> at + 1 < buf.Length
    modifies buf
    ensures buf != null ==> Wrote(buf[..], old(buf[..]), at, [c])
  {
    if buf != null {
      buf[at] := c;
    }
  }

  /** `append_indent`: `level` copies of the indentation unit. */
  function Indent(level: nat, unit: Bytes): (r: Bytes)
    ensures |r| == level * |unit|
  {
    if level == 0 then [] else Indent(level - 1, unit) + unit
  }

  method AppendIndent(buf: array?<byte>, at: nat, level: nat, unit: Bytes) returns (written: nat)
    requires buf != null ==> at + level * |unit| < buf.Length
    modifies buf
    ensures written == |Indent(level, unit)|
    ensures buf != null ==> Wrote(buf[..], old(buf[..]), at, Indent(level, unit))
  {
    written := 0;
    var i := 0;
    if buf != null {
      WroteNothing(buf[..], at);
    }
    while i < level
      invariant i <= level && written == |Indent(i, unit)| == i * |unit|
      invariant buf != null ==> Wrote(buf[..], old(buf[..]), at, Indent(i, unit))
    {
      ghost var before := if buf != null then buf[..] else [];
      assert (i + 1) * |unit| <= level * |unit| by {
        MulMono(i + 1, level, |unit|);
      }
      AppendLiteral(buf, at + written, unit);
      if buf != null {
        WroteThen(old(buf[..]), before, buf[..], at, Indent(i, unit), at + written, unit);
      }
      written := written + |unit|;
      i := i + 1;
    }
  }

  lemma MulMono(a: nat, b: nat, c: nat)
    requires a <= b
    ensures a * c <= b * c
  {
  }
}
