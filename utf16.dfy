/** Decoding of `\uXXXX` escapes in string literals (`hex_char_to_int`,
    `parse_utf16_hex`, `parse_utf16`), including surrogate pairs as in
    section 2.5 of RFC 2781, into UTF-8 bytes.

    As in `utf8.dfy`, shifts and masks are written arithmetically:
    `(cp >> 6) & 0x3F` is `(cp / 64) % 64`, `x | 0x80` with `x < 64` is
    `0x80 + x`, `(x << 10) | y` with `y < 1024` is `x * 1024 + y`. */
module Utf16 {
  import opened Wrappers
  import opened Bytes
  import Utf8

  const LeadMin: nat := 0xD800
  const LeadMax: nat := 0xDBFF
  const TrailMin: nat := 0xDC00
  const TrailMax: nat := 0xDFFF

  predicate IsHexDigit(c: byte) {
    '0' as int <= c <= '9' as int || 'a' as int <= c <= 'f' as int || 'A' as int <= c <= 'F' as int
  }

  /** `hex_char_to_int`: the digit's value, or -1. */
  function HexCharToInt(c: byte): (r: int)
    ensures r == -1 <==> !IsHexDigit(c)
    ensures -1 <= r < 16
  {
    if '0' as int <= c <= '9' as int then c - '0' as int
    else if 'a' as int <= c <= 'f' as int then c - 'a' as int + 10
    else if 'A' as int <= c <= 'F' as int then c - 'A' as int + 10
    else -1
  }

  /** The lower-case digit the serializer writes for a value below 16. */
  function HexDigit(d: nat): (c: byte)
    requires d < 16
    ensures IsHexDigit(c) && HexCharToInt(c) == d
  {
    if d < 10 then '0' as int + d else 'a' as int + d - 10
  }

  /** Four hex digits for a 16-bit value, most significant first. */
  function Hex4(v: nat): (r: Bytes)
    requires v < 0x10000
    ensures |r| == 4
  {
    [HexDigit(v / 4096), HexDigit((v / 256) % 16), HexDigit((v / 16) % 16), HexDigit(v % 16)]
  }

  /** `parse_utf16_hex` on the four bytes at `t[i..]`: fails on a NUL among
      them or on a non-hex digit. */
  function ParseUtf16Hex(t: Bytes, i: nat): (r: Option<nat>)
    ensures r.Some? ==> r.value < 0x10000 && i + 4 <= |t|
    ensures r.Some? <==> forall k :: i <= k < i + 4 ==> IsHexDigit(At(t, k))
  {
    if At(t, i) == 0 || At(t, i + 1) == 0 || At(t, i + 2) == 0 || At(t, i + 3) == 0 then None
    else
      var x1, x2, x3, x4 := HexCharToInt(At(t, i)), HexCharToInt(At(t, i + 1)),
                            HexCharToInt(At(t, i + 2)), HexCharToInt(At(t, i + 3));
      if x1 == -1 || x2 == -1 || x3 == -1 || x4 == -1 then None
      else
        assert forall k :: i <= k < i + 4 ==> IsHexDigit(At(t, k)) by {
          assert IsHexDigit(At(t, i)) && IsHexDigit(At(t, i + 1));
          assert IsHexDigit(At(t, i + 2)) && IsHexDigit(At(t, i + 3));
        }
        Some(x1 * 4096 + x2 * 256 + x3 * 16 + x4)
  }

  /** The code point a surrogate pair stands for:
      `((lead - 0xD800) << 10 | (trail - 0xDC00)) + 0x10000`. */
  function CombineSurrogates(lead: nat, trail: nat): (cp: nat)
    requires LeadMin <= lead <= LeadMax && TrailMin <= trail <= TrailMax
  {
    (lead - LeadMin) * 1024 + (trail - TrailMin) + 0x10000
  }

  /** The UTF-8 bytes `parse_utf16` writes for a code point, in the C
      expressions' arithmetic form. */
  function Utf8Bytes(cp: nat): (r: Bytes)
    requires cp <= 0x10FFFF
  {
    if cp < 0x80 then [cp]
    else if cp < 0x800 then [0xC0 + (cp / 64) % 32, 0x80 + cp % 64]
    else if cp < 0x10000 then [0xE0 + (cp / 4096) % 16, 0x80 + (cp / 64) % 64, 0x80 + cp % 64]
    else [0xF0 + (cp / 262144) % 8, 0x80 + (cp / 4096) % 64, 0x80 + (cp / 64) % 64, 0x80 + cp % 64]
  }

  /** The outcome of one `\u` escape: the bytes written and how many input
      bytes, counted from the `u`, were consumed. */
  datatype Decoded = Decoded(out: Bytes, consumed: nat)

  /** `parse_utf16` with `t` starting at the `u` of an escape. */
  function DecodeUtf16(t: Bytes): (r: Option<Decoded>)
    ensures r.Some? ==> r.value.consumed <= |t|
  {
    match ParseUtf16Hex(t, 1)
    case None => None
    case Some(cp) =>
      if cp < LeadMin || cp > TrailMax then Some(Decoded(Utf8Bytes(cp), 5))
      else if cp <= LeadMax then
        if At(t, 5) != BACKSLASH || At(t, 6) != 'u' as int then None
        else match ParseUtf16Hex(t, 7)
          case None => None
          case Some(trail) =>
            if trail < TrailMin || trail > TrailMax then None
            else Some(Decoded(Utf8Bytes(CombineSurrogates(cp, trail)), 11))
      else None // a trail surrogate with no lead before it
  }

  /** The value of four hex digits read by `ParseUtf16Hex`. */
  function HexValue(t: Bytes, i: nat): nat
    requires i + 4 <= |t| && forall k :: i <= k < i + 4 ==> IsHexDigit(t[k])
  {
    HexCharToInt(t[i]) * 4096 + HexCharToInt(t[i + 1]) * 256 + HexCharToInt(t[i + 2]) * 16 + HexCharToInt(t[i + 3])
  }

  /** The bytes `parse_utf16` emits are the RFC 3629 encoding. */
  lemma Utf8BytesIsEncode(cp: nat)
    requires cp <= 0x10FFFF
    ensures Utf8Bytes(cp) == Utf8.Encode(cp)
  {
    if 0x800 <= cp < 0x10000 {
      assert (cp / 4096) % 16 == cp / 4096;
    } else if cp >= 0x10000 {
      assert (cp / 262144) % 8 == cp / 262144;
    }
  }

  /** A pair decodes to a supplementary-plane scalar value. */
  lemma CombineInRange(lead: nat, trail: nat)
    requires LeadMin <= lead <= LeadMax && TrailMin <= trail <= TrailMax
    ensures 0x10000 <= CombineSurrogates(lead, trail) <= 0x10FFFF
    ensures Utf8.IsScalar(CombineSurrogates(lead, trail))
  {
  }

  /** Four hex digits stand at `t[i..i + 4]`. */
  predicate HexAt(t: Bytes, i: nat) {
    i + 4 <= |t| && forall k :: i <= k < i + 4 ==> IsHexDigit(t[k])
  }

  /** `ParseUtf16Hex` reads the value of four hex digits, and fails
      exactly when they are not there. */
  lemma ParseHexValue(t: Bytes, i: nat)
    ensures ParseUtf16Hex(t, i) == if HexAt(t, i) then Some(HexValue(t, i)) else None
  {
    if ParseUtf16Hex(t, i).Some? {
      assert forall k :: i <= k < i + 4 ==> At(t, k) == t[k];
    }
  }

  /** What an accepted escape yields: a scalar value other than a surrogate
      half becomes its 1-, 2- or 3-byte encoding after 5 input bytes; a lead
      followed by `\u` and a trail becomes the 4-byte encoding of the
      combined code point after 11 input bytes. */
  lemma DecodeUtf16Accepted(t: Bytes)
    requires |t| >= 1 && t[0] == 'u' as int && DecodeUtf16(t).Some?
    ensures HexAt(t, 1)
    ensures var d, cp := DecodeUtf16(t).value, HexValue(t, 1);
      ((cp < LeadMin || cp > TrailMax) && d.consumed == 5 && d.out == Utf8.Encode(cp) && 1 <= |d.out| <= 3)
      || (LeadMin <= cp <= LeadMax && d.consumed == 11 && t[5] == BACKSLASH && t[6] == 'u' as int
          && HexAt(t, 7) && TrailMin <= HexValue(t, 7) <= TrailMax
          && d.out == Utf8.Encode(CombineSurrogates(cp, HexValue(t, 7))) && |d.out| == 4)
  {
    ParseHexValue(t, 1);
    var cp := HexValue(t, 1);
    if cp < LeadMin || cp > TrailMax {
      Utf8BytesIsEncode(cp);
    } else {
      ParseHexValue(t, 7);
      var trail := HexValue(t, 7);
      CombineInRange(cp, trail);
      Utf8BytesIsEncode(CombineSurrogates(cp, trail));
    }
  }

  /** What a rejected escape is: a missing hex digit, a lone trail
      surrogate, or a lead surrogate not followed by `\u` and a trail. */
  lemma DecodeUtf16Rejected(t: Bytes)
    requires |t| >= 1 && t[0] == 'u' as int && DecodeUtf16(t).None?
    ensures !HexAt(t, 1)
      || TrailMin <= HexValue(t, 1) <= TrailMax
      || (LeadMin <= HexValue(t, 1) <= LeadMax &&
          (At(t, 5) != BACKSLASH || At(t, 6) != 'u' as int || !HexAt(t, 7)
           || !(TrailMin <= HexValue(t, 7) <= TrailMax)))
  {
    ParseHexValue(t, 1);
    ParseHexValue(t, 7);
  }

  /** Whatever an escape decodes to is a well-formed UTF-8 sequence. */
  lemma DecodeUtf16Valid(t: Bytes)
    requires |t| >= 1 && t[0] == 'u' as int && DecodeUtf16(t).Some?
    ensures Utf8.Valid(DecodeUtf16(t).value.out)
  {
    DecodeUtf16Accepted(t);
    var cp := HexValue(t, 1);
    if cp < LeadMin || cp > TrailMax {
      EncodeValid(cp);
    } else {
      CombineInRange(cp, HexValue(t, 7));
      EncodeValid(CombineSurrogates(cp, HexValue(t, 7)));
    }
  }

  /** The encoding of one scalar value is well-formed UTF-8. */
  lemma EncodeValid(cp: nat)
    requires Utf8.IsScalar(cp)
    ensures Utf8.Valid(Utf8.Encode(cp))
  {
    Utf8.EncodingIsValid([cp]);
    assert Utf8.EncodeAll([cp]) == Utf8.Encode(cp) + Utf8.EncodeAll([]);
  }

  lemma HexDigits4(v: nat, rest: Bytes)
    requires v < 0x10000
    ensures ParseUtf16Hex(Hex4(v) + rest, 0) == Some(v)
  {
    var t := Hex4(v) + rest;
    assert At(t, 0) == Hex4(v)[0] && At(t, 1) == Hex4(v)[1];
    assert At(t, 2) == Hex4(v)[2] && At(t, 3) == Hex4(v)[3];
    HexPlaces(v);
  }

  lemma HexPlaces(v: nat)
    requires v < 0x10000
    ensures v == (v / 4096) * 4096 + ((v / 256) % 16) * 256 + ((v / 16) % 16) * 16 + v % 16
  {
    var q1 := v / 16;
    var q2 := q1 / 16;
    var q3 := q2 / 16;
    assert v == q1 * 16 + v % 16;
    assert q1 == q2 * 16 + q1 % 16;
    assert q2 == q3 * 16 + q2 % 16;
    assert q2 == v / 256;
    assert q3 == v / 4096;
  }

  /** The `\u` escape (after the backslash) that stands for a scalar value:
      one code unit in the Basic Multilingual Plane, a surrogate pair above
      it. */
  function EscapeOf(cp: nat): (r: Bytes)
    requires Utf8.IsScalar(cp)
  {
    if cp < 0x10000 then ['u' as int] + Hex4(cp)
    else
      var v := cp - 0x10000;
      ['u' as int] + Hex4(LeadMin + v / 1024) + [BACKSLASH, 'u' as int] + Hex4(TrailMin + v % 1024)
  }

  /** Every scalar value written as `\u` escapes decodes back to its UTF-8
      encoding, consuming exactly the escape. */
  lemma DecodeEscapeOf(cp: nat, rest: Bytes)
    requires Utf8.IsScalar(cp)
    ensures DecodeUtf16(EscapeOf(cp) + rest) == Some(Decoded(Utf8.Encode(cp), |EscapeOf(cp)|))
  {
    if cp < 0x10000 {
      DecodeBmpEscape(cp, rest);
    } else {
      DecodePairEscape(cp, rest);
    }
  }

  lemma DecodeBmpEscape(cp: nat, rest: Bytes)
    requires Utf8.IsScalar(cp) && cp < 0x10000
    ensures DecodeUtf16(EscapeOf(cp) + rest) == Some(Decoded(Utf8.Encode(cp), 5))
  {
    var t := EscapeOf(cp) + rest;
    assert t[1..] == Hex4(cp) + rest;
    HexDigits4(cp, rest);
    ShiftHex(t, 1);
    assert ParseUtf16Hex(t, 1) == Some(cp);
    Utf8BytesIsEncode(cp);
  }

  lemma SplitSupplementary(cp: nat)
    requires 0x10000 <= cp <= 0x10FFFF
    ensures LeadMin <= LeadMin + (cp - 0x10000) / 1024 <= LeadMax
    ensures TrailMin <= TrailMin + (cp - 0x10000) % 1024 <= TrailMax
    ensures CombineSurrogates(LeadMin + (cp - 0x10000) / 1024, TrailMin + (cp - 0x10000) % 1024) == cp
  {
  }

  lemma DecodePairEscape(cp: nat, rest: Bytes)
    requires Utf8.IsScalar(cp) && cp >= 0x10000
    ensures DecodeUtf16(EscapeOf(cp) + rest) == Some(Decoded(Utf8.Encode(cp), 11))
  {
    var v := cp - 0x10000;
    var lead, trail := LeadMin + v / 1024, TrailMin + v % 1024;
    SplitSupplementary(cp);
    var t := EscapeOf(cp) + rest;
    assert t == ['u' as int] + Hex4(lead) + [BACKSLASH, 'u' as int] + Hex4(trail) + rest;
    PairEscapeHex(lead, trail, rest);
    PairDecodes(t, lead, trail);
    Utf8BytesIsEncode(cp);
  }

  /** Where the parts of a surrogate-pair escape are read from. */
  lemma PairEscapeHex(lead: nat, trail: nat, rest: Bytes)
    requires lead < 0x10000 && trail < 0x10000
    ensures var t := ['u' as int] + Hex4(lead) + [BACKSLASH, 'u' as int] + Hex4(trail) + rest;
      ParseUtf16Hex(t, 1) == Some(lead) && ParseUtf16Hex(t, 7) == Some(trail)
      && At(t, 5) == BACKSLASH && At(t, 6) == 'u' as int
  {
    var tail := [BACKSLASH, 'u' as int] + Hex4(trail) + rest;
    var t := ['u' as int] + Hex4(lead) + tail;
    assert t == ['u' as int] + Hex4(lead) + [BACKSLASH, 'u' as int] + Hex4(trail) + rest;
    assert t[1..] == Hex4(lead) + tail;
    HexDigits4(lead, tail);
    ShiftHex(t, 1);
    assert t[7..] == Hex4(trail) + rest;
    HexDigits4(trail, rest);
    ShiftHex(t, 7);
  }

  lemma PairDecodes(t: Bytes, lead: nat, trail: nat)
    requires LeadMin <= lead <= LeadMax && TrailMin <= trail <= TrailMax
    requires ParseUtf16Hex(t, 1) == Some(lead) && ParseUtf16Hex(t, 7) == Some(trail)
    requires At(t, 5) == BACKSLASH && At(t, 6) == 'u' as int
    ensures DecodeUtf16(t) == Some(Decoded(Utf8Bytes(CombineSurrogates(lead, trail)), 11))
  {
  }

  lemma ShiftHex(t: Bytes, i: nat)
    requires i <= |t|
    ensures ParseUtf16Hex(t, i) == ParseUtf16Hex(t[i..], 0)
  {
    assert forall k: nat :: At(t, i + k) == At(t[i..], k);
  }

  lemma HexAtOffset(s: Bytes, i: nat, k: nat)
    requires i <= |s|
    ensures ParseUtf16Hex(s, i + k) == ParseUtf16Hex(s[i..], k)
  {
    assert forall j: nat :: At(s, i + j) == At(s[i..], j);
  }

  /** The UTF-8 bytes of one code point written at `out[o..]`, with the
      shifts and masks of `parse_utf16`'s branches; returns the position of
      the last byte written, as `parse_utf16` leaves its output cursor. */
  method PutUtf8(out: array<byte>, o: nat, cp: nat) returns (lastOut: nat)
    requires cp <= 0x10FFFF && o + |Utf8Bytes(cp)| <= out.Length
    modifies out
    ensures lastOut + 1 == o + |Utf8Bytes(cp)| && out[..lastOut + 1] == old(out[..o]) + Utf8Bytes(cp)
    ensures out[lastOut + 1..] == old(out[lastOut + 1..])
  {
    if cp < 0x80 {
      out[o] := cp;
      lastOut := o;
    } else if cp < 0x800 {
      out[o] := 0xC0 + (cp / 64) % 32;
      out[o + 1] := 0x80 + cp % 64;
      lastOut := o + 1;
    } else if cp < 0x10000 {
      out[o] := 0xE0 + (cp / 4096) % 16;
      out[o + 1] := 0x80 + (cp / 64) % 64;
      out[o + 2] := 0x80 + cp % 64;
      lastOut := o + 2;
    } else {
      out[o] := 0xF0 + (cp / 262144) % 8;
      out[o + 1] := 0x80 + (cp / 4096) % 64;
      out[o + 2] := 0x80 + (cp / 64) % 64;
      out[o + 3] := 0x80 + cp % 64;
      lastOut := o + 3;
    }
  }

  /** `parse_utf16` on the escape whose `u` is at `s[i]`, writing at
      `out[o..]`. Like the C function it returns the positions of the last
      input byte consumed and of the last output byte written; the output
      room it needs is there whenever the output cursor trails the input. */
  method ParseUtf16(s: Bytes, i: nat, out: array<byte>, o: nat) returns (ok: bool, last: nat, lastOut: nat)
    requires i < |s| && s[i] == 'u' as int
    requires o + (|s| - i) + 2 <= out.Length
    modifies out
    ensures ok == DecodeUtf16(s[i..]).Some?
    ensures ok ==> var d := DecodeUtf16(s[i..]).value;
      last == i + d.consumed - 1 && lastOut + 1 == o + |d.out|
      && out[..lastOut + 1] == old(out[..o]) + d.out && out[lastOut + 1..] == old(out[lastOut + 1..])
  {
    ghost var t := s[i..];
    HexAtOffset(s, i, 1);
    var h := ParseUtf16Hex(s, i + 1);
    if h.None? {
      return false, i, o;
    }
    var cp := h.value;
    if cp < LeadMin || cp > TrailMax {
      assert DecodeUtf16(t) == Some(Decoded(Utf8Bytes(cp), 5));
      lastOut := PutUtf8(out, o, cp);
      return true, i + 4, lastOut;
    } else if cp <= LeadMax {
      var lead := cp;
      assert At(t, 5) == At(s, i + 5) && At(t, 6) == At(s, i + 6);
      if At(s, i + 5) != BACKSLASH || At(s, i + 6) != 'u' as int {
        return false, i, o;
      }
      HexAtOffset(s, i, 7);
      var tr := ParseUtf16Hex(s, i + 7);
      if tr.None? || tr.value < TrailMin || tr.value > TrailMax {
        return false, i, o;
      }
      var c := CombineSurrogates(lead, tr.value);
      CombineInRange(lead, tr.value);
      assert DecodeUtf16(t) == Some(Decoded(Utf8Bytes(c), 11));
      lastOut := PutUtf8(out, o, c);
      return true, i + 10, lastOut;
    } else {
      return false, i, o;
    }
  }
}
