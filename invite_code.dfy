/** Invite-code comparison of the join endpoint: both the stored and the
    supplied code go through `trim()` then `toLowerCase()` before they are
    compared for equality. */
module InviteCode {

  /** The characters JavaScript's `String.prototype.trim` removes: the
      WhiteSpace and LineTerminator code points of ECMAScript. */
  predicate IsWhitespace(c: char) {
    c == '\t' || c == '\n' || c == '\U{000B}' || c == '\U{000C}' || c == '\r' || c == ' '
    || c == '\U{00A0}' || c == '\U{1680}' || ('\U{2000}' <= c <= '\U{200A}')
    || c == '\U{2028}' || c == '\U{2029}' || c == '\U{202F}' || c == '\U{205F}'
    || c == '\U{3000}' || c == '\U{FEFF}'
  }

  predicate AllWhitespace(s: string) {
    forall i :: 0 <= i < |s| ==> IsWhitespace(s[i])
  }

  predicate IsUpper(c: char) { 'A' <= c <= 'Z' }

  function LowerChar(c: char): char {
    if IsUpper(c) then (c as int + 32) as char else c
  }

  /** `toLowerCase()` on the ASCII letters: an upper-case letter becomes its
      lower-case letter, every other character is kept. */
  function ToLowerCase(s: string): (r: string)
    ensures |r| == |s|
    ensures forall i :: 0 <= i < |r| ==> !IsUpper(r[i])
    ensures forall i :: 0 <= i < |s| && !IsUpper(s[i]) ==> r[i] == s[i]
    ensures forall i :: 0 <= i < |s| && IsUpper(s[i]) ==> r[i] as int == s[i] as int + 32
  {
    seq(|s|, i requires 0 <= i < |s| => LowerChar(s[i]))
  }

  /** `trimStart()`: drops the leading whitespace. */
  function TrimStart(s: string): (r: string)
    ensures |r| <= |s| && r == s[|s| - |r|..]
    ensures AllWhitespace(s[..|s| - |r|])
    ensures r != [] ==> !IsWhitespace(r[0])
  {
    if s != [] && IsWhitespace(s[0]) then
      var r := TrimStart(s[1..]);
      assert s[..|s| - |r|] == [s[0]] + s[1..][..|s[1..]| - |r|];
      r
    else
      s
  }

  /** `trimEnd()`: drops the trailing whitespace. */
  function TrimEnd(s: string): (r: string)
    ensures |r| <= |s| && r == s[..|r|]
    ensures AllWhitespace(s[|r|..])
    ensures r != [] ==> !IsWhitespace(r[|r| - 1])
  {
    if s != [] && IsWhitespace(s[|s| - 1]) then
      var r := TrimEnd(s[..|s| - 1]);
      assert s[|r|..] == s[..|s| - 1][|r|..] + [s[|s| - 1]];
      r
    else
      s
  }

  /** `trim()`: drops whitespace at both ends; what is left neither starts
      nor ends with whitespace (TrimCutsOnlyWhitespace says what is cut). */
  function Trim(s: string): (r: string)
    ensures |r| <= |s|
    ensures r != [] ==> !IsWhitespace(r[0]) && !IsWhitespace(r[|r| - 1])
  {
    var t := TrimStart(s);
    var r := TrimEnd(t);
    assert r != [] ==> r[0] == t[0];
    r
  }

  /** The trimmed code is a contiguous part of the code, and everything cut
      off before and after it is whitespace. */
  lemma TrimCutsOnlyWhitespace(s: string)
    ensures exists i :: 0 <= i <= |s| - |Trim(s)| && Trim(s) == s[i..i + |Trim(s)|]
                        && AllWhitespace(s[..i]) && AllWhitespace(s[i + |Trim(s)|..])
  {
    var t := TrimStart(s);
    var r := TrimEnd(t);
    var i := |s| - |t|;
    assert t == s[i..];
    assert r == s[i..][..|r|] == s[i..i + |r|];
    assert s[i + |r|..] == t[|r|..];
    assert AllWhitespace(s[..i]) && AllWhitespace(s[i + |r|..]);
  }

  /** `code.trim().toLowerCase()`. */
  function Normalize(code: string): (r: string)
    ensures |r| <= |code|
    ensures forall i :: 0 <= i < |r| ==> !IsUpper(r[i])
    ensures r != [] ==> !IsWhitespace(r[0]) && !IsWhitespace(r[|r| - 1])
  {
    var t := Trim(code);
    LowerKeepsEnds(t);
    ToLowerCase(t)
  }

  /** The join endpoint's test: the stored code and the supplied code are
      equal once both are trimmed and lower-cased. */
  predicate CodesMatch(stored: string, supplied: string): (r: bool)
    ensures Trim(stored) == Trim(supplied) ==> r
    ensures ToLowerCase(stored) == ToLowerCase(supplied) ==> r
  {
    LowerTrimCommute(stored);
    LowerTrimCommute(supplied);
    Normalize(stored) == Normalize(supplied)
  }

  lemma LowerKeepsWhitespace(c: char)
    ensures IsWhitespace(LowerChar(c)) == IsWhitespace(c)
  {
  }

  /** Lower-casing a code that neither starts nor ends with whitespace gives
      one that neither starts nor ends with whitespace. */
  lemma LowerKeepsEnds(t: string)
    requires t != [] ==> !IsWhitespace(t[0]) && !IsWhitespace(t[|t| - 1])
    ensures var r := ToLowerCase(t); r != [] ==> !IsWhitespace(r[0]) && !IsWhitespace(r[|r| - 1])
  {
    if t != [] {
      LowerKeepsWhitespace(t[0]);
      LowerKeepsWhitespace(t[|t| - 1]);
      assert ToLowerCase(t)[0] == LowerChar(t[0]);
      assert ToLowerCase(t)[|t| - 1] == LowerChar(t[|t| - 1]);
    }
  }

  lemma {:induction false} LowerTrimStartCommute(s: string)
    ensures ToLowerCase(TrimStart(s)) == TrimStart(ToLowerCase(s))
  {
    if s != [] {
      LowerKeepsWhitespace(s[0]);
      assert ToLowerCase(s)[1..] == ToLowerCase(s[1..]);
      if IsWhitespace(s[0]) {
        LowerTrimStartCommute(s[1..]);
      }
    }
  }

  lemma {:induction false} LowerTrimEndCommute(s: string)
    ensures ToLowerCase(TrimEnd(s)) == TrimEnd(ToLowerCase(s))
  {
    if s != [] {
      LowerKeepsWhitespace(s[|s| - 1]);
      assert ToLowerCase(s)[..|s| - 1] == ToLowerCase(s[..|s| - 1]);
      if IsWhitespace(s[|s| - 1]) {
        LowerTrimEndCommute(s[..|s| - 1]);
      }
    }
  }

  /** Lower-casing and trimming commute, so "trim then lower" and "lower
      then trim" are the same normalisation. */
  lemma LowerTrimCommute(s: string)
    ensures Normalize(s) == Trim(ToLowerCase(s))
  {
    LowerTrimStartCommute(s);
    LowerTrimEndCommute(TrimStart(s));
  }

  lemma {:induction false} TrimStartSkips(pre: string, s: string)
    requires AllWhitespace(pre)
    ensures TrimStart(pre + s) == TrimStart(s)
  {
    if pre != [] {
      assert (pre + s)[0] == pre[0] && IsWhitespace(pre[0]);
      assert (pre + s)[1..] == pre[1..] + s;
      TrimStartSkips(pre[1..], s);
    } else {
      assert pre + s == s;
    }
  }

  lemma {:induction false} TrimEndSkips(s: string, post: string)
    requires AllWhitespace(post)
    ensures TrimEnd(s + post) == TrimEnd(s)
  {
    if post != [] {
      var post' := post[..|post| - 1];
      assert (s + post)[|s + post| - 1] == post[|post| - 1] && IsWhitespace(post[|post| - 1]);
      assert (s + post)[..|s + post| - 1] == s + post';
      TrimEndSkips(s, post');
    } else {
      assert s + post == s;
    }
  }

  /** Trailing whitespace survives trimStart when something else is left. */
  lemma {:induction false} TrimStartKeepsTail(s: string, post: string)
    ensures TrimStart(s + post) == if TrimStart(s) == [] then TrimStart(post) else TrimStart(s) + post
  {
    if s != [] {
      assert (s + post)[0] == s[0];
      assert (s + post)[1..] == s[1..] + post;
      if IsWhitespace(s[0]) {
        TrimStartKeepsTail(s[1..], post);
      }
    } else {
      assert s + post == post;
    }
  }

  /** Whitespace around a code never changes its normal form. */
  lemma SurroundingWhitespaceIgnored(pre: string, s: string, post: string)
    requires AllWhitespace(pre) && AllWhitespace(post)
    ensures Normalize(pre + s + post) == Normalize(s)
  {
    assert pre + s + post == pre + (s + post);
    TrimStartSkips(pre, s + post);
    TrimStartKeepsTail(s, post);
    if TrimStart(s) == [] {
      TrimStartSkips(post, []);
      assert post + [] == post;
    } else {
      TrimEndSkips(TrimStart(s), post);
    }
  }

  /** Codes that differ only in the case of their letters match. */
  lemma CaseIgnored(s: string, t: string)
    requires |s| == |t|
    requires forall i :: 0 <= i < |s| ==> LowerChar(s[i]) == LowerChar(t[i])
    ensures CodesMatch(s, t)
  {
    LowerTrimCommute(s);
    LowerTrimCommute(t);
    assert ToLowerCase(s) == ToLowerCase(t);
  }

  lemma {:induction false} TrimStartIdempotent(s: string)
    ensures TrimStart(TrimStart(s)) == TrimStart(s)
  {
    if s != [] && IsWhitespace(s[0]) {
      TrimStartIdempotent(s[1..]);
    }
  }

  lemma {:induction false} TrimEndIdempotent(s: string)
    ensures TrimEnd(TrimEnd(s)) == TrimEnd(s)
  {
    if s != [] && IsWhitespace(s[|s| - 1]) {
      TrimEndIdempotent(s[..|s| - 1]);
    }
  }

  lemma TrimIdempotent(s: string)
    ensures Trim(Trim(s)) == Trim(s)
  {
    var u := TrimStart(s);
    var e := TrimEnd(u);
    TrimStartIdempotent(s);
    TrimEndIdempotent(u);
    assert e != [] ==> e[0] == u[0];
    assert TrimStart(e) == e;
  }

  lemma LowerIdempotent(s: string)
    ensures ToLowerCase(ToLowerCase(s)) == ToLowerCase(s)
  {
  }

  /** Normalising twice is normalising once: a stored code that is already
      trimmed and lower-case is compared as it is. */
  lemma NormalizeIdempotent(s: string)
    ensures Normalize(Normalize(s)) == Normalize(s)
  {
    var t := Trim(s);
    calc {
      Normalize(Normalize(s));
      ToLowerCase(Trim(ToLowerCase(t)));
      { LowerTrimCommute(t); }
      ToLowerCase(ToLowerCase(Trim(t)));
      { TrimIdempotent(s); }
      ToLowerCase(ToLowerCase(t));
      { LowerIdempotent(t); }
      ToLowerCase(t);
    }
  }

  /** A stored "abc123" is matched by "ABC123". */
  lemma UpperCaseCodeMatches()
    ensures CodesMatch("abc123", "ABC123")
  {
    CaseIgnored("abc123", "ABC123");
  }

  /** A supplied code matches when it equals the stored one up to the case
      of its letters and whitespace around it. */
  lemma CaseAndPaddingIgnored(stored: string, pre: string, code: string, post: string)
    requires |stored| == |code|
    requires forall i :: 0 <= i < |code| ==> LowerChar(stored[i]) == LowerChar(code[i])
    requires AllWhitespace(pre) && AllWhitespace(post)
    ensures CodesMatch(stored, pre + code + post)
  {
    CaseIgnored(stored, code);
    SurroundingWhitespaceIgnored(pre, code, post);
  }
}
