/** `remove_comments`: blanks comment spans of a NUL-terminated text in
    place with spaces. A backslash outside a preceding escape hides the next
    byte from the quote test, a quote outside such an escape toggles the
    in-string state, and outside strings an occurrence of the start token
    opens a comment that runs to the first following occurrence of the end
    token. A comment with no end token loses only its start token. The
    parser runs it twice, for `/` `*` ... `*` `/` and for `/` `/` ... newline. */
module Comments {
  import opened Wrappers
  import opened Bytes

  /** The tokens the loop of `remove_comments` runs with: both non-empty. */
  predicate Tokens(start: Bytes, end: Bytes) {
    |start| > 0 && |end| > 0 && CString(start) && CString(end)
  }

  /** `strncmp(s + i, token, strlen(token)) == 0`. */
  predicate MatchesAt(s: Bytes, i: nat, token: Bytes) {
    forall q :: i <= q < i + |token| ==> At(s, q) == token[q - i]
  }

  /** A token with no NUL can only match inside the text. */
  lemma MatchInside(s: Bytes, i: nat, token: Bytes)
    requires |token| > 0 && CString(token) && MatchesAt(s, i, token)
    ensures i + |token| <= |s|
  {
    assert At(s, i + |token| - 1) == token[|token| - 1] != NUL;
  }

  /** `strstr(s + j, token)`: the first position from `j`, before the
      terminating NUL, where `token` occurs. */
  function FindFrom(s: Bytes, j: nat, token: Bytes): (r: Option<nat>)
    requires |token| > 0 && CString(token)
    ensures r.Some? ==> j <= r.value && r.value + |token| <= |s| && MatchesAt(s, r.value, token)
    decreases |s| - j
  {
    if j >= |s| || s[j] == NUL then None
    else if MatchesAt(s, j, token) then MatchInside(s, j, token); Some(j)
    else FindFrom(s, j + 1, token)
  }

  /** `strstr` finds the first occurrence, and in a text with no NUL from `j`
      on it misses only when there is none. */
  lemma {:induction false} FindFromFirst(s: Bytes, j: nat, token: Bytes)
    requires |token| > 0 && CString(token)
    ensures FindFrom(s, j, token).Some? ==> forall p :: j <= p < FindFrom(s, j, token).value ==> !MatchesAt(s, p, token)
    ensures FindFrom(s, j, token).None? && (forall q :: j <= q < |s| ==> s[q] != NUL) ==>
              forall p :: j <= p ==> !MatchesAt(s, p, token)
    decreases |s| - j
  {
    if j >= |s| {
      forall p | j <= p
        ensures !MatchesAt(s, p, token)
      {
        assert At(s, p) == NUL != token[p - p];
      }
    } else if s[j] != NUL && !MatchesAt(s, j, token) {
      FindFromFirst(s, j + 1, token);
    }
  }

  function Spaces(n: nat): (r: Bytes)
    ensures |r| == n && forall k :: 0 <= k < n ==> r[k] == SPACE
  {
    seq(n, _ => SPACE)
  }

  /** The text from `i` after `remove_comments` has gone over it, entered
      with the given string and escape state. */
  function StripFrom(s: Bytes, i: nat, inString: bool, escaped: bool, start: Bytes, end: Bytes): (r: Bytes)
    requires i <= |s| && Tokens(start, end)
    ensures |r| == |s| - i
    decreases |s| - i
  {
    if i == |s| || s[i] == NUL then s[i..]
    else if s[i] == BACKSLASH && !escaped then [s[i]] + StripFrom(s, i + 1, inString, true, start, end)
    else if s[i] == QUOTE && !escaped then [s[i]] + StripFrom(s, i + 1, !inString, false, start, end)
    else if !inString && MatchesAt(s, i, start) then
      MatchInside(s, i, start);
      match FindFrom(s, i + |start|, end)
      case None => Spaces(|start|) + s[i + |start|..]
      case Some(p) => Spaces(p + |end| - i) + StripFrom(s, p + |end|, inString, false, start, end)
    else [s[i]] + StripFrom(s, i + 1, inString, false, start, end)
  }

  /** `remove_comments` on a whole text; an empty token leaves it alone. */
  function Strip(s: Bytes, start: Bytes, end: Bytes): (r: Bytes)
    requires CString(start) && CString(end)
  {
    if |start| == 0 || |end| == 0 then s else StripFrom(s, 0, false, false, start, end)
  }

  /** `r`, read against `s` from `i`, keeps each byte or blanks it. */
  predicate KeepsOrBlanks(r: Bytes, s: Bytes, i: nat) {
    i + |r| <= |s| && forall k :: 0 <= k < |r| ==> r[k] == s[i + k] || r[k] == SPACE
  }

  lemma KeepsConcat(a: Bytes, r: Bytes, s: Bytes, i: nat)
    requires KeepsOrBlanks(a, s, i) && KeepsOrBlanks(r, s, i + |a|)
    ensures KeepsOrBlanks(a + r, s, i)
  {
  }

  /** Stripping from `i` changes bytes only into spaces. */
  lemma {:induction false} StripFromKeepsOrBlanks(s: Bytes, i: nat, inString: bool, escaped: bool, start: Bytes, end: Bytes)
    requires i <= |s| && Tokens(start, end)
    ensures KeepsOrBlanks(StripFrom(s, i, inString, escaped, start, end), s, i)
    decreases |s| - i, 1
  {
    if i == |s| || s[i] == NUL {
    } else if s[i] == BACKSLASH && !escaped {
      StripFromKeepsOrBlanks(s, i + 1, inString, true, start, end);
      KeepsConcat([s[i]], StripFrom(s, i + 1, inString, true, start, end), s, i);
    } else if s[i] == QUOTE && !escaped {
      StripFromKeepsOrBlanks(s, i + 1, !inString, false, start, end);
      KeepsConcat([s[i]], StripFrom(s, i + 1, !inString, false, start, end), s, i);
    } else if !inString && MatchesAt(s, i, start) {
      CommentKeepsOrBlanks(s, i, inString, escaped, start, end);
    } else {
      StripFromKeepsOrBlanks(s, i + 1, inString, false, start, end);
      KeepsConcat([s[i]], StripFrom(s, i + 1, inString, false, start, end), s, i);
    }
  }

  /** The comment case of `StripFromKeepsOrBlanks`. */
  lemma {:induction false} CommentKeepsOrBlanks(s: Bytes, i: nat, inString: bool, escaped: bool, start: Bytes, end: Bytes)
    requires i < |s| && s[i] != NUL && Tokens(start, end)
    requires !(s[i] == BACKSLASH && !escaped) && !(s[i] == QUOTE && !escaped) && !inString && MatchesAt(s, i, start)
    ensures KeepsOrBlanks(StripFrom(s, i, inString, escaped, start, end), s, i)
    decreases |s| - i, 0
  {
    MatchInside(s, i, start);
    match FindFrom(s, i + |start|, end)
    case None =>
      KeepsConcat(Spaces(|start|), s[i + |start|..], s, i);
    case Some(p) =>
      StripFromKeepsOrBlanks(s, p + |end|, inString, false, start, end);
      KeepsConcat(Spaces(p + |end| - i), StripFrom(s, p + |end|, inString, false, start, end), s, i);
  }

  /** Stripping keeps the length and changes bytes only into spaces. */
  lemma StripKeepsOrBlanks(s: Bytes, start: Bytes, end: Bytes)
    requires CString(start) && CString(end)
    ensures |Strip(s, start, end)| == |s|
    ensures forall k :: 0 <= k < |s| ==> Strip(s, start, end)[k] in {s[k], SPACE}
  {
    if |start| > 0 && |end| > 0 {
      StripFromKeepsOrBlanks(s, 0, false, false, start, end);
    }
  }

  /** A text in which the start token never occurs comes back unchanged. */
  lemma {:induction false} NoCommentNoChange(s: Bytes, i: nat, inString: bool, escaped: bool, start: Bytes, end: Bytes)
    requires i <= |s| && Tokens(start, end)
    requires forall p :: i <= p < |s| ==> !MatchesAt(s, p, start)
    ensures StripFrom(s, i, inString, escaped, start, end) == s[i..]
    decreases |s| - i
  {
    if i == |s| || s[i] == NUL {
    } else if s[i] == BACKSLASH && !escaped {
      NoCommentNoChange(s, i + 1, inString, true, start, end);
      assert s[i..] == [s[i]] + s[i + 1..];
    } else if s[i] == QUOTE && !escaped {
      NoCommentNoChange(s, i + 1, !inString, false, start, end);
      assert s[i..] == [s[i]] + s[i + 1..];
    } else {
      NoCommentNoChange(s, i + 1, inString, false, start, end);
      assert s[i..] == [s[i]] + s[i + 1..];
    }
  }

  /** A comment that opens at the front of the text and is closed at `p`
      turns into spaces up to and including its end token. */
  lemma LeadingCommentBlanked(s: Bytes, start: Bytes, end: Bytes, p: nat)
    requires Tokens(start, end) && MatchesAt(s, 0, start) && 0 < |s| && s[0] != BACKSLASH && s[0] != QUOTE
    requires |start| <= |s| && FindFrom(s, |start|, end) == Some(p)
    ensures forall k :: 0 <= k < p + |end| ==> Strip(s, start, end)[k] == SPACE
  {
    MatchInside(s, 0, start);
    assert s[0] != NUL by {
      assert At(s, 0) == start[0 - 0];
    }
  }

  /** Two texts that agree from `j` on have the same `strstr` result. */
  lemma {:induction false} FindSame(a: Bytes, b: Bytes, j: nat, token: Bytes)
    requires |token| > 0 && CString(token)
    requires |a| == |b| && j <= |a| && forall k :: j <= k < |a| ==> a[k] == b[k]
    ensures FindFrom(a, j, token) == FindFrom(b, j, token)
    decreases |a| - j
  {
    if j < |a| {
      MatchSame(a, b, j, j, token);
      FindSame(a, b, j + 1, token);
    }
  }

  lemma MatchSame(a: Bytes, b: Bytes, j: nat, p: nat, token: Bytes)
    requires |a| == |b| && j <= p && forall k :: j <= k < |a| ==> a[k] == b[k]
    ensures MatchesAt(a, p, token) == MatchesAt(b, p, token)
  {
    forall q | p <= q
      ensures At(a, q) == At(b, q)
    {
    }
  }

  /** Reading `A + R` off the text from `i`. */
  lemma TailSplit(t: Bytes, i: nat, a: Bytes, r: Bytes)
    requires i <= |t| && t[i..] == a + r
    ensures forall k :: i <= k < i + |a| ==> t[k] == a[k - i]
    ensures t[i + |a|..] == r
  {
    forall k | i <= k < i + |a|
      ensures t[k] == a[k - i]
    {
      assert t[k] == t[i..][k - i];
    }
    assert t[i + |a|..] == t[i..][|a|..];
  }

  /** A suffix that equals the text itself agrees with it byte by byte. */
  lemma TailSame(t: Bytes, s: Bytes, i: nat)
    requires i <= |t| == |s| && t[i..] == s[i..]
    ensures forall k :: i <= k < |t| ==> t[k] == s[k]
  {
    forall k | i <= k < |t|
      ensures t[k] == s[k]
    {
      assert t[k] == t[i..][k - i];
    }
  }

  /** The stripped text `t` of `s`, read from `i`, is what `StripFrom` gives
      in the given state. */
  predicate Ahead(t: Bytes, s: Bytes, i: nat, inString: bool, escaped: bool, start: Bytes, end: Bytes) {
    Tokens(start, end) && i <= |s| && |s| == |t| && t[i..] == StripFrom(s, i, inString, escaped, start, end)
  }

  /** The buffer holds the stripped text before `i` and the original after. */
  predicate Cut(buf: array<byte>, t: Bytes, s: Bytes, i: nat)
    reads buf
  {
    i <= |s| == |t| == buf.Length && (forall k :: 0 <= k < i ==> buf[k] == t[k]) && (forall k :: i <= k < |s| ==> buf[k] == s[k])
  }

  /** The target read at a byte that is copied through, with the string and
      escape state that follow it. */
  lemma ByteStep(t: Bytes, s: Bytes, i: nat, inString: bool, escaped: bool, inString': bool, escaped': bool, start: Bytes, end: Bytes)
    requires Ahead(t, s, i, inString, escaped, start, end) && i < |s| && s[i] != NUL
    requires || (s[i] == BACKSLASH && !escaped && inString' == inString && escaped')
             || (s[i] == QUOTE && !escaped && inString' == !inString && !escaped')
             || (!(s[i] == BACKSLASH && !escaped) && !(s[i] == QUOTE && !escaped)
                 && (inString || !MatchesAt(s, i, start)) && inString' == inString && !escaped')
    ensures t[i] == s[i] && Ahead(t, s, i + 1, inString', escaped', start, end)
  {
    TailSplit(t, i, [s[i]], StripFrom(s, i + 1, inString', escaped', start, end));
  }

  /** `StripFrom` over a comment closed at `p`. */
  lemma StripComment(s: Bytes, i: nat, p: nat, inString: bool, escaped: bool, start: Bytes, end: Bytes)
    requires i < |s| && s[i] != NUL && Tokens(start, end)
    requires !(s[i] == BACKSLASH && !escaped) && !(s[i] == QUOTE && !escaped)
    requires !inString && MatchesAt(s, i, start) && i + |start| <= |s| && FindFrom(s, i + |start|, end) == Some(p)
    ensures p + |end| <= |s|
    ensures StripFrom(s, i, inString, escaped, start, end) == Spaces(p + |end| - i) + StripFrom(s, p + |end|, inString, false, start, end)
  {
  }

  /** The target read at a comment closed at `p`. */
  lemma CommentStep(t: Bytes, s: Bytes, i: nat, p: nat, inString: bool, escaped: bool, start: Bytes, end: Bytes)
    requires Ahead(t, s, i, inString, escaped, start, end) && i < |s| && s[i] != NUL
    requires !(s[i] == BACKSLASH && !escaped) && !(s[i] == QUOTE && !escaped)
    requires !inString && MatchesAt(s, i, start) && i + |start| <= |s| && FindFrom(s, i + |start|, end) == Some(p)
    ensures i < p + |end| <= |t|
    ensures forall k :: i <= k < p + |end| ==> t[k] == SPACE
    ensures Ahead(t, s, p + |end|, inString, false, start, end)
  {
    StripComment(s, i, p, inString, escaped, start, end);
    TailSplit(t, i, Spaces(p + |end| - i), StripFrom(s, p + |end|, inString, false, start, end));
  }

  /** The target read at a comment that is never closed. */
  lemma OpenStep(t: Bytes, s: Bytes, i: nat, inString: bool, escaped: bool, start: Bytes, end: Bytes)
    requires Ahead(t, s, i, inString, escaped, start, end) && i < |s| && s[i] != NUL
    requires !(s[i] == BACKSLASH && !escaped) && !(s[i] == QUOTE && !escaped)
    requires !inString && MatchesAt(s, i, start) && i + |start| <= |s| && FindFrom(s, i + |start|, end).None?
    ensures forall k :: i <= k < i + |start| ==> t[k] == SPACE
    ensures forall k :: i + |start| <= k < |t| ==> t[k] == s[k]
  {
    TailSplit(t, i, Spaces(|start|), s[i + |start|..]);
    TailSame(t, s, i + |start|);
  }

  /** The `for` loops of `remove_comments`: spaces over `buf[from..from + n]`. */
  method Blank(buf: array<byte>, from: nat, n: nat)
    requires from + n <= buf.Length
    modifies buf
    ensures forall j :: 0 <= j < buf.Length ==> buf[j] == (if from <= j < from + n then SPACE else old(buf[j]))
  {
    var k := 0;
    while k < n
      invariant k <= n
      invariant forall j :: 0 <= j < buf.Length ==> buf[j] == (if from <= j < from + k then SPACE else old(buf[j]))
    {
      buf[from + k] := SPACE;
      k := k + 1;
    }
  }

  /** `strncmp(string, token, strlen(token)) == 0` on the buffer at `i`. */
  method StartsWith(buf: array<byte>, i: nat, token: Bytes, ghost s: Bytes) returns (b: bool)
    requires i <= buf.Length == |s| && forall k :: i <= k < |s| ==> buf[k] == s[k]
    ensures b == MatchesAt(s, i, token)
  {
    var k := 0;
    while k < |token|
      invariant k <= |token|
      invariant forall q :: i <= q < i + k ==> At(s, q) == token[q - i]
    {
      var c := if i + k < buf.Length then buf[i + k] else NUL;
      if c != token[k] {
        assert At(s, i + k) != token[i + k - i];
        return false;
      }
      k := k + 1;
    }
    return true;
  }

  /** The comment branch of `remove_comments` at `i`, where the start token
      matches: blanks the start token, looks for the end token after it and,
      when there is one, blanks up to and including it. Returns that search
      result. */
  method BlankComment(buf: array<byte>, i: nat, start: Bytes, end: Bytes, ghost s: Bytes) returns (p: Option<nat>)
    requires Tokens(start, end)
    requires i + |start| <= |s| == buf.Length && forall k :: i <= k < |s| ==> buf[k] == s[k]
    modifies buf
    ensures p == FindFrom(s, i + |start|, end)
    ensures p.None? ==> forall k :: 0 <= k < buf.Length ==> buf[k] == (if i <= k < i + |start| then SPACE else old(buf[k]))
    ensures p.Some? ==> forall k :: 0 <= k < buf.Length ==> buf[k] == (if i <= k < p.value + |end| then SPACE else old(buf[k]))
  {
    Blank(buf, i, |start|);
    FindSame(buf[..], s, i + |start|, end);
    p := FindFrom(buf[..], i + |start|, end);
    if p.Some? {
      Blank(buf, i + |start|, p.value + |end| - (i + |start|));
    }
  }

  /** The comment branch of the `remove_comments` loop at `i`: blanks the
      comment and gives the index of its last byte, from which the loop
      moves on, or nothing when the comment is never closed and the loop
      ends there. */
  method SkipComment(buf: array<byte>, i: nat, inString: bool, escaped: bool, start: Bytes, end: Bytes,
                     ghost s: Bytes, ghost t: Bytes) returns (last: Option<nat>)
    requires Ahead(t, s, i, inString, escaped, start, end) && Cut(buf, t, s, i) && i < |s| && s[i] != NUL
    requires !(s[i] == BACKSLASH && !escaped) && !(s[i] == QUOTE && !escaped) && !inString && MatchesAt(s, i, start)
    modifies buf
    ensures last.None? ==> buf[..] == t
    ensures last.Some? ==> i <= last.value < |s| && Cut(buf, t, s, last.value + 1)
    ensures last.Some? ==> Ahead(t, s, last.value + 1, inString, false, start, end)
  {
    MatchInside(s, i, start);
    var p := BlankComment(buf, i, start, end, s);
    if p.None? {
      OpenStep(t, s, i, inString, escaped, start, end);
      assert buf[..] == t;
      return None;
    }
    CommentStep(t, s, i, p.value, inString, escaped, start, end);
    last := Some(p.value + |end| - 1);
  }

  /** One pass of the loop of `remove_comments` over the byte at `i`: the
      index and the string and escape state it moves on with, or `stop` when
      an unclosed comment ends the scan. */
  method Step(buf: array<byte>, i: nat, inString: bool, escaped: bool, start: Bytes, end: Bytes,
              ghost s: Bytes, ghost t: Bytes) returns (next: nat, inString': bool, escaped': bool, stop: bool)
    requires Ahead(t, s, i, inString, escaped, start, end) && Cut(buf, t, s, i) && i < |s| && s[i] != NUL
    modifies buf
    ensures stop ==> buf[..] == t
    ensures !stop ==> i < next <= |s| && Cut(buf, t, s, next) && Ahead(t, s, next, inString', escaped', start, end)
  {
    var c := buf[i];
    next, inString', escaped', stop := i, inString, false, false;
    if c == BACKSLASH && !escaped {
      ByteStep(t, s, i, inString, escaped, inString, true, start, end);
      return i + 1, inString, true, false;
    }
    var opens := false;
    if !(c == QUOTE && !escaped) && !inString {
      opens := StartsWith(buf, i, start, s);
    }
    if c == QUOTE && !escaped {
      ByteStep(t, s, i, inString, escaped, !inString, false, start, end);
      inString' := !inString;
    } else if opens {
      var last := SkipComment(buf, i, inString, escaped, start, end, s, t);
      if last.None? {
        stop := true;
        return;
      }
      next := last.value;
    } else {
      ByteStep(t, s, i, inString, escaped, inString, false, start, end);
    }
    next := next + 1;
  }

  /** `remove_comments(string, start_token, end_token)` on a buffer holding a
      NUL-terminated text; the end of the array acts as the terminator. */
  method RemoveComments(buf: array<byte>, start: Bytes, end: Bytes)
    requires CString(start) && CString(end)
    modifies buf
    ensures buf[..] == Strip(old(buf[..]), start, end)
  {
    if |start| == 0 || |end| == 0 {
      return;
    }
    ghost var s := buf[..];
    ghost var t := Strip(s, start, end);
    var i: nat := 0;
    var inString, escaped := false, false;
    while i < buf.Length && buf[i] != NUL
      invariant i <= buf.Length
      invariant Cut(buf, t, s, i)
      invariant Ahead(t, s, i, inString, escaped, start, end)
      decreases buf.Length - i
    {
      var stop;
      i, inString, escaped, stop := Step(buf, i, inString, escaped, start, end, s, t);
      if stop {
        return;
      }
    }
    assert forall k :: 0 <= k < buf.Length ==> buf[k] == t[k] by {
      TailSame(t, s, i);
    }
    assert buf[..] == t;
  }
}
