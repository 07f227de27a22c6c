/** UTF-8 well-formedness as parson checks it before storing a string
    (`num_bytes_in_utf8_sequence`, `verify_utf8_sequence`, `is_valid_utf8`),
    set against the encoding of section 3 of RFC 3629.

    The C code tests bit masks; on a byte `c` in 0..255 they are written here
    as the equivalent ranges and remainders: `(c & 0xC0) == 0x80` is
    `0x80 <= c < 0xC0`, `c & 0x3F` is `c % 64`, `(cp << 6) | x` with `x < 64`
    is `cp * 64 + x`. */
module Utf8 {
  import opened Wrappers
  import opened Bytes

  /** `is_continuation_byte`: 10xxxxxx. */
  predicate IsContinuation(c: byte) {
    0x80 <= c < 0xC0
  }

  /** A Unicode scalar value: at most U+10FFFF and not a surrogate half. */
  predicate IsScalar(cp: nat) {
    cp <= 0x10FFFF && !(0xD800 <= cp <= 0xDFFF)
  }

  /** The UTF-8 encoding of one scalar value (section 3 of RFC 3629): the
      reference the checker below is measured against. */
  function Encode(cp: nat): (r: Bytes)
    requires cp <= 0x10FFFF
    ensures 1 <= |r| <= 4
  {
    if cp < 0x80 then [cp]
    else if cp < 0x800 then [0xC0 + cp / 64, 0x80 + cp % 64]
    else if cp < 0x10000 then [0xE0 + cp / 4096, 0x80 + (cp / 64) % 64, 0x80 + cp % 64]
    else [0xF0 + cp / 262144, 0x80 + (cp / 4096) % 64, 0x80 + (cp / 64) % 64, 0x80 + cp % 64]
  }

  /** `num_bytes_in_utf8_sequence`: the length announced by a lead byte, or
      0 when the byte cannot start a sequence (0xC0, 0xC1, above 0xF4, or a
      continuation byte). */
  function NumBytesInSequence(c: byte): (n: nat)
    ensures n <= 4
    ensures n == 0 <==> c == 0xC0 || c == 0xC1 || c > 0xF4 || IsContinuation(c)
    ensures n == 1 <==> c < 0x80
  {
    if c == 0xC0 || c == 0xC1 || c > 0xF4 || IsContinuation(c) then 0
    else if c < 0x80 then 1       // 0xxxxxxx
    else if c < 0xE0 then 2       // 110xxxxx
    else if c < 0xF0 then 3       // 1110xxxx
    else 4                        // 11110xxx; the C fall-through `return 0` is unreachable
  }

  /** The code point `verify_utf8_sequence` assembles from an `n`-byte
      sequence at `i` (only meaningful once the continuation bytes are
      checked). */
  function Assemble(s: Bytes, i: nat, n: nat): nat {
    if n == 1 then At(s, i)
    else if n == 2 then (At(s, i) % 32) * 64 + At(s, i + 1) % 64
    else if n == 3 then ((At(s, i) % 16) * 64 + At(s, i + 1) % 64) * 64 + At(s, i + 2) % 64
    else (((At(s, i) % 8) * 64 + At(s, i + 1) % 64) * 64 + At(s, i + 2) % 64) * 64 + At(s, i + 3) % 64
  }

  /** `verify_utf8_sequence` on the sequence starting at `s[i]`: its length
      on success. Reads past the end of `s` see NUL, as in a C string. */
  function VerifySequence(s: Bytes, i: nat): (r: Option<nat>)
    ensures r.Some? ==> 1 <= r.value <= 4 && r.value == NumBytesInSequence(At(s, i))
  {
    var n := NumBytesInSequence(At(s, i));
    if !(n == 1
         || (n == 2 && IsContinuation(At(s, i + 1)))
         || (n == 3 && IsContinuation(At(s, i + 1)) && IsContinuation(At(s, i + 2)))
         || (n == 4 && IsContinuation(At(s, i + 1)) && IsContinuation(At(s, i + 2))
             && IsContinuation(At(s, i + 3))))
    then None
    else
      var cp := Assemble(s, i, n);
      if (cp < 0x80 && n > 1) || (cp < 0x800 && n > 2) || (cp < 0x10000 && n > 3) then None // overlong
      else if cp > 0x10FFFF then None                                                      // beyond Unicode
      else if 0xD800 <= cp <= 0xDFFF then None                                              // surrogate half
      else Some(n)
  }

  /** The bytes `s[i..]` are made of whole, valid sequences. */
  predicate ValidFrom(s: Bytes, i: nat)
    decreases |s| - i
  {
    i >= |s| ||
    match VerifySequence(s, i)
    case None => false
    case Some(n) => i + n <= |s| && ValidFrom(s, i + n)
  }

  /** Well-formed UTF-8. */
  predicate Valid(s: Bytes) {
    ValidFrom(s, 0)
  }

  /** Concatenated encodings of a sequence of code points. */
  predicate AllScalar(cps: seq<nat>) {
    forall k :: 0 <= k < |cps| ==> IsScalar(cps[k])
  }

  function EncodeAll(cps: seq<nat>): Bytes
    requires AllScalar(cps)
  {
    if cps == [] then [] else Encode(cps[0]) + EncodeAll(cps[1..])
  }

  lemma DivMod64(q: nat, r: nat)
    requires r < 64
    ensures (q * 64 + r) / 64 == q && (q * 64 + r) % 64 == r
  {
  }

  /** The two-byte case of `Encode` read back by `Assemble`. */
  lemma Pair(b0: byte, b1: byte)
    requires 0xC0 <= b0 < 0xE0 && IsContinuation(b1)
    ensures var cp := (b0 % 32) * 64 + b1 % 64;
      cp < 0x800 && (cp >= 0x80 ==> Encode(cp) == [b0, b1])
  {
    var hi, lo := b0 - 0xC0, b1 - 0x80;
    assert b0 % 32 == hi && b1 % 64 == lo;
    DivMod64(hi, lo);
  }

  /** Three base-64 digits read back from the number they make. */
  lemma Digits3(x0: nat, x1: nat, x2: nat)
    requires x1 < 64 && x2 < 64
    ensures var cp := (x0 * 64 + x1) * 64 + x2;
      cp / 4096 == x0 && (cp / 64) % 64 == x1 && cp % 64 == x2
  {
    var mid := x0 * 64 + x1;
    var cp := mid * 64 + x2;
    DivMod64(mid, x2);
    DivMod64(x0, x1);
    assert cp / 4096 == (cp / 64) / 64;
  }

  /** Four base-64 digits read back from the number they make. */
  lemma Digits4(x0: nat, x1: nat, x2: nat, x3: nat)
    requires x1 < 64 && x2 < 64 && x3 < 64
    ensures var cp := ((x0 * 64 + x1) * 64 + x2) * 64 + x3;
      cp / 262144 == x0 && (cp / 4096) % 64 == x1 && (cp / 64) % 64 == x2 && cp % 64 == x3
  {
    var m2 := (x0 * 64 + x1) * 64 + x2;
    var cp := m2 * 64 + x3;
    DivMod64(m2, x3);
    Digits3(x0, x1, x2);
    assert cp / 4096 == m2 / 64;
    assert cp / 262144 == m2 / 4096;
  }

  /** `Encode` in the three- and four-byte ranges, given the digits. */
  lemma EncodeThree(cp: nat, x0: nat, x1: nat, x2: nat)
    requires 0x800 <= cp < 0x10000 && cp / 4096 == x0 && (cp / 64) % 64 == x1 && cp % 64 == x2
    ensures Encode(cp) == [0xE0 + x0, 0x80 + x1, 0x80 + x2]
  {
  }

  lemma EncodeFour(cp: nat, x0: nat, x1: nat, x2: nat, x3: nat)
    requires 0x10000 <= cp <= 0x10FFFF
    requires cp / 262144 == x0 && (cp / 4096) % 64 == x1 && (cp / 64) % 64 == x2 && cp % 64 == x3
    ensures Encode(cp) == [0xF0 + x0, 0x80 + x1, 0x80 + x2, 0x80 + x3]
  {
  }

  lemma Triple(b0: byte, b1: byte, b2: byte)
    requires 0xE0 <= b0 < 0xF0 && IsContinuation(b1) && IsContinuation(b2)
    ensures var cp := ((b0 % 16) * 64 + b1 % 64) * 64 + b2 % 64;
      cp < 0x10000 && (cp >= 0x800 ==> Encode(cp) == [b0, b1, b2])
  {
    var x0, x1, x2 := b0 - 0xE0, b1 - 0x80, b2 - 0x80;
    var cp := (x0 * 64 + x1) * 64 + x2;
    assert ((b0 % 16) * 64 + b1 % 64) * 64 + b2 % 64 == cp by {
      assert b0 % 16 == x0 && b1 % 64 == x1 && b2 % 64 == x2;
    }
    if cp >= 0x800 {
      Digits3(x0, x1, x2);
      EncodeThree(cp, x0, x1, x2);
    }
  }

  lemma Quad(b0: byte, b1: byte, b2: byte, b3: byte)
    requires 0xF0 <= b0 < 0xF8 && IsContinuation(b1) && IsContinuation(b2) && IsContinuation(b3)
    ensures var cp := (((b0 % 8) * 64 + b1 % 64) * 64 + b2 % 64) * 64 + b3 % 64;
      cp < 0x200000 && (0x10000 <= cp <= 0x10FFFF ==> Encode(cp) == [b0, b1, b2, b3])
  {
    var x0, x1, x2, x3 := b0 - 0xF0, b1 - 0x80, b2 - 0x80, b3 - 0x80;
    var cp := ((x0 * 64 + x1) * 64 + x2) * 64 + x3;
    assert (((b0 % 8) * 64 + b1 % 64) * 64 + b2 % 64) * 64 + b3 % 64 == cp by {
      assert b0 % 8 == x0 && b1 % 64 == x1 && b2 % 64 == x2 && b3 % 64 == x3;
    }
    if 0x10000 <= cp <= 0x10FFFF {
      Digits4(x0, x1, x2, x3);
      EncodeFour(cp, x0, x1, x2, x3);
    }
  }

  /** Every accepted sequence is the encoding of a scalar value, read off by
      `Assemble`: the checker rejects stray continuation bytes, 0xC0, 0xC1
      and lead bytes above 0xF4, overlong forms, values above U+10FFFF and
      surrogate halves. */
  lemma VerifySequenceSound(s: Bytes, i: nat)
    requires i < |s| && VerifySequence(s, i).Some?
    ensures var n := VerifySequence(s, i).value;
      i + n <= |s| && IsScalar(Assemble(s, i, n)) && s[i..i + n] == Encode(Assemble(s, i, n))
  {
    var n := VerifySequence(s, i).value;
    var cp := Assemble(s, i, n);
    if n == 1 {
      assert s[i..i + 1] == [s[i]];
    } else if n == 2 {
      assert i + 1 < |s|;
      Pair(s[i], s[i + 1]);
      assert s[i..i + 2] == [s[i], s[i + 1]];
    } else if n == 3 {
      assert i + 2 < |s|;
      Triple(s[i], s[i + 1], s[i + 2]);
      assert s[i..i + 3] == [s[i], s[i + 1], s[i + 2]];
    } else {
      assert i + 3 < |s|;
      Quad(s[i], s[i + 1], s[i + 2], s[i + 3]);
      assert s[i..i + 4] == [s[i], s[i + 1], s[i + 2], s[i + 3]];
    }
  }

  lemma Split64(x: nat)
    ensures x == (x / 64) * 64 + x % 64 && x % 64 < 64
  {
  }

  /** A number below 2^24 split into four base-64 digits. */
  lemma Split4(cp: nat, x0: nat, x1: nat, x2: nat, x3: nat)
    requires x0 == cp / 262144 && x1 == (cp / 4096) % 64 && x2 == (cp / 64) % 64 && x3 == cp % 64
    ensures x1 < 64 && x2 < 64 && x3 < 64 && cp == ((x0 * 64 + x1) * 64 + x2) * 64 + x3
  {
    var q := cp / 64;
    var q2 := q / 64;
    Split64(cp);
    Split64(q);
    Split64(q2);
    assert cp / 4096 == q2;
    assert cp / 262144 == q2 / 64;
  }

  /** `Assemble` reads the digits back from the encoded bytes. */
  lemma AssembleThree(s: Bytes, x0: nat, x1: nat, x2: nat)
    requires x0 < 16 && x1 < 64 && x2 < 64
    requires At(s, 0) == 0xE0 + x0 && At(s, 1) == 0x80 + x1 && At(s, 2) == 0x80 + x2
    ensures Assemble(s, 0, 3) == (x0 * 64 + x1) * 64 + x2
  {
    assert (0xE0 + x0) % 16 == x0 && (0x80 + x1) % 64 == x1 && (0x80 + x2) % 64 == x2;
  }

  lemma AssembleFour(s: Bytes, x0: nat, x1: nat, x2: nat, x3: nat)
    requires x0 < 8 && x1 < 64 && x2 < 64 && x3 < 64
    requires At(s, 0) == 0xF0 + x0 && At(s, 1) == 0x80 + x1 && At(s, 2) == 0x80 + x2 && At(s, 3) == 0x80 + x3
    ensures Assemble(s, 0, 4) == ((x0 * 64 + x1) * 64 + x2) * 64 + x3
  {
    assert (0xF0 + x0) % 8 == x0 && (0x80 + x1) % 64 == x1 && (0x80 + x2) % 64 == x2 && (0x80 + x3) % 64 == x3;
  }

  lemma EncodeAssembles(cp: nat, s: Bytes)
    requires cp <= 0x10FFFF && |Encode(cp)| <= |s| && s[..|Encode(cp)|] == Encode(cp)
    ensures Assemble(s, 0, |Encode(cp)|) == cp
  {
    var e := Encode(cp);
    assert forall k :: 0 <= k < |e| ==> At(s, k) == e[k];
    if cp < 0x80 {
    } else if cp < 0x800 {
      var hi, lo := cp / 64, cp % 64;
      Split64(cp);
      assert e == [0xC0 + hi, 0x80 + lo];
      assert (0xC0 + hi) % 32 == hi && (0x80 + lo) % 64 == lo;
    } else {
      var x0, x1, x2, x3 := cp / 262144, (cp / 4096) % 64, (cp / 64) % 64, cp % 64;
      Split4(cp, x0, x1, x2, x3);
      if cp < 0x10000 {
        var hi := x0 * 64 + x1;
        assert hi < 16 && cp == (hi * 64 + x2) * 64 + x3;
        Digits3(hi, x2, x3);
        EncodeThree(cp, hi, x2, x3);
        AssembleThree(s, hi, x2, x3);
      } else {
        EncodeFour(cp, x0, x1, x2, x3);
        AssembleFour(s, x0, x1, x2, x3);
      }
    }
  }

  /** Every scalar value's encoding is accepted, whatever follows it. */
  lemma VerifySequenceComplete(cp: nat, rest: Bytes)
    requires IsScalar(cp)
    ensures VerifySequence(Encode(cp) + rest, 0) == Some(|Encode(cp)|)
    ensures Assemble(Encode(cp) + rest, 0, |Encode(cp)|) == cp
  {
    var e := Encode(cp);
    var s := e + rest;
    assert s[..|e|] == e;
    EncodeAssembles(cp, s);
    assert forall k :: 0 <= k < |e| ==> At(s, k) == e[k];
  }

  /** Validity of `t` from offset `n` is validity of the suffix `t[n..]`. */
  lemma {:induction false} ValidShift(t: Bytes, n: nat)
    requires n <= |t|
    ensures ValidFrom(t, n) == Valid(t[n..])
    decreases |t| - n
  {
    var u := t[n..];
    if n < |t| {
      assert forall k: nat :: At(u, k) == At(t, n + k);
      assert VerifySequence(u, 0) == VerifySequence(t, n) by {
        assert Assemble(u, 0, NumBytesInSequence(At(t, n))) == Assemble(t, n, NumBytesInSequence(At(t, n)));
      }
      match VerifySequence(t, n)
      case None =>
      case Some(m) =>
        if n + m <= |t| {
          ValidShift(t, n + m);
          ValidShift(u, m);
          assert u[m..] == t[n + m..];
        }
    }
  }

  /** `is_valid_utf8` accepts exactly the encodings of sequences of scalar
      values: every accepted string decodes to scalars whose encoding it is ... */
  lemma {:induction false} ValidIsEncoding(s: Bytes)
    requires Valid(s)
    ensures exists cps: seq<nat> :: AllScalar(cps) && s == EncodeAll(cps)
    decreases |s|
  {
    if s == [] {
      assert s == EncodeAll([]);
    } else {
      var n := VerifySequence(s, 0).value;
      VerifySequenceSound(s, 0);
      var cp := Assemble(s, 0, n);
      ValidShift(s, n);
      ValidIsEncoding(s[n..]);
      var cps :| AllScalar(cps) && s[n..] == EncodeAll(cps);
      var all := [cp] + cps;
      assert all[1..] == cps;
      assert s == s[..n] + s[n..];
      assert s == EncodeAll(all);
    }
  }

  /** ... and every such encoding is accepted. */
  lemma {:induction false} EncodingIsValid(cps: seq<nat>)
    requires AllScalar(cps)
    ensures Valid(EncodeAll(cps))
  {
    if cps != [] {
      var e := Encode(cps[0]);
      var rest := EncodeAll(cps[1..]);
      EncodingIsValid(cps[1..]);
      VerifySequenceComplete(cps[0], rest);
      ValidShift(e + rest, |e|);
      assert (e + rest)[|e|..] == rest;
    }
  }

  /** Cutting the buffer at `len` changes nothing about a sequence that
      ends within `len`, and makes one that runs past `len` fail: beyond the
      cut lies the NUL, which is no continuation byte. */
  lemma VerifyWithinLength(buf: Bytes, len: nat, i: nat)
    requires i < len
    ensures len <= |buf| ==>
      (VerifySequence(buf[..len], i) ==
         if VerifySequence(buf, i).Some? && i + VerifySequence(buf, i).value <= len then VerifySequence(buf, i) else None)
  {
    if len <= |buf| {
      var t := buf[..len];
      var n := NumBytesInSequence(At(buf, i));
      assert At(t, i) == At(buf, i);
      if n == 0 {
      } else if i + n <= len {
        assert forall k :: i <= k < i + n ==> At(t, k) == At(buf, k);
        assert Assemble(t, i, n) == Assemble(buf, i, n);
      } else {
        assert At(t, len) == 0;
      }
    }
  }

  /** `is_valid_utf8(string, string_len)`: walks the caller's buffer one
      sequence at a time, as the C code does. The test that each sequence
      ends within `string_len` is the corrected form: the code as written
      lacks it (see `ValidPrefixAsWritten`) and reads the continuation bytes
      of a last sequence beyond the length. */
  method IsValidUtf8(buf: Bytes, len: nat) returns (ok: bool)
    requires len <= |buf|
    ensures ok == Valid(buf[..len])
  {
    ghost var s := buf[..len];
    var i := 0;
    while i < len
      invariant i <= len
      invariant Valid(s) == ValidFrom(s, i)
      decreases len - i
    {
      var r := VerifySequence(buf, i);
      VerifyWithinLength(buf, len, i);
      if r.None? || i + r.value > len {
        return false;
      }
      i := i + r.value;
    }
    return true;
  }

  /** `is_valid_utf8` exactly as written: it never checks that the last
      sequence ends within `string_len`, so it reads continuation bytes that
      lie beyond the length in the caller's buffer. It is only too lenient:
      whatever is valid UTF-8 within the length it accepts. */
  predicate ValidPrefixAsWritten(buf: Bytes, len: nat, i: nat): (ok: bool)
    ensures len <= |buf| && ValidFrom(buf[..len], i) ==> ok
    decreases len - i
  {
    i >= len ||
    (VerifyWithinLength(buf, len, i);
     match VerifySequence(buf, i)
     case None => false
     case Some(n) => ValidPrefixAsWritten(buf, len, i + n))
  }

  /** The discrepancy: `json_value_init_string_with_len("\xC3\xA9", 1)`
      accepts the lone lead byte 0xC3, which is not UTF-8. */
  lemma TruncatedSequenceAccepted()
    ensures ValidPrefixAsWritten([0xC3, 0xA9], 1, 0)
    ensures !Valid([0xC3])
  {
    assert VerifySequence([0xC3, 0xA9], 0) == Some(2);
    assert VerifySequence([0xC3], 0) == None;
  }

  /** When the buffer ends at the length (a NUL-terminated string measured
      by `strlen`), the written loop and the corrected one agree. */
  lemma {:induction false} AsWrittenAgreesOnCStrings(s: Bytes, i: nat)
    requires i <= |s|
    ensures ValidPrefixAsWritten(s, |s|, i) == ValidFrom(s, i)
    decreases |s| - i
  {
    if i < |s| {
      match VerifySequence(s, i)
      case None =>
      case Some(n) =>
        VerifySequenceSound(s, i);
        AsWrittenAgreesOnCStrings(s, i + n);
    }
  }
}
