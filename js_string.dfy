/** The JavaScript string built-ins the signup path relies on:
    `String.prototype.split` with a one-character separator,
    `String.prototype.includes` and `String.prototype.trim`.
    Strings are sequences of characters; every character that matters to the
    validator is ASCII, so UTF-16 code units and code points agree there. */
module JsString {

  /** `parts.join(sep)`: the parts with one separator between neighbours. */
  function JoinWith(parts: seq<string>, sep: char): string
    requires |parts| >= 1
    decreases |parts|
  {
    if |parts| == 1 then parts[0] else parts[0] + [sep] + JoinWith(parts[1..], sep)
  }

  /** `s.split(sep)`: the maximal separator-free pieces of `s`, in order.
      There is always at least one piece, and joining them gives `s` back. */
  function Split(s: string, sep: char): (parts: seq<string>)
    ensures |parts| >= 1
    ensures forall p | p in parts :: sep !in p
    ensures JoinWith(parts, sep) == s
    decreases |s|
  {
    if |s| == 0 then [""]
    else
      var rest := Split(s[1..], sep);
      if s[0] == sep then
        assert s == [sep] + s[1..];
        [""] + rest
      else
        var parts := [[s[0]] + rest[0]] + rest[1..];
        assert parts[1..] == rest[1..];
        assert s == [s[0]] + s[1..];
        parts
  }

  /** Splitting `a + t`, where `a` holds no separator, glues `a` onto the first piece of `t`. */
  lemma {:induction false} SplitPrepend(a: string, t: string, sep: char)
    requires sep !in a
    ensures Split(a + t, sep) == [a + Split(t, sep)[0]] + Split(t, sep)[1..]
    decreases |a|
  {
    var p := Split(t, sep);
    if |a| > 0 {
      assert (a + t)[1..] == a[1..] + t;
      assert (a + t)[0] == a[0];
      SplitPrepend(a[1..], t, sep);
      assert [a[0]] + (a[1..] + p[0]) == a + p[0];
    } else {
      assert a + t == t;
      assert a + p[0] == p[0];
      assert [p[0]] + p[1..] == p;
    }
  }

  /** A string that starts with another character keeps it at the head of
      its first piece. */
  lemma FirstPieceStart(t: string, sep: char)
    requires |t| > 0 && t[0] != sep
    ensures |Split(t, sep)[0]| > 0 && Split(t, sep)[0][0] == t[0]
  {
  }

  /** A leading separator splits off an empty first piece. */
  lemma SplitAtSeparator(t: string, sep: char)
    ensures Split([sep] + t, sep) == [""] + Split(t, sep)
  {
    assert ([sep] + t)[1..] == t;
  }

  /** One step of the round trip: a separator-free piece in front of a
      separator is split off intact. */
  lemma SplitJoinStep(a: string, rest: string, sep: char)
    requires sep !in a
    ensures Split(a + [sep] + rest, sep) == [a] + Split(rest, sep)
  {
    var u := [sep] + rest;
    calc {
      Split(a + [sep] + rest, sep);
      { assert a + [sep] + rest == a + u; }
      Split(a + u, sep);
      { SplitPrepend(a, u, sep); }
      [a + Split(u, sep)[0]] + Split(u, sep)[1..];
      { SplitAtSeparator(rest, sep); assert a + "" == a; }
      [a] + Split(rest, sep);
    }
  }

  /** Round trip: splitting a join of separator-free parts gives the parts back. */
  lemma {:induction false} SplitJoin(parts: seq<string>, sep: char)
    requires |parts| >= 1
    requires forall p | p in parts :: sep !in p
    ensures Split(JoinWith(parts, sep), sep) == parts
    decreases |parts|
  {
    if |parts| == 1 {
      SplitPrepend(parts[0], "", sep);
      assert parts[0] + "" == parts[0];
    } else {
      var tail := parts[1..];
      assert forall p | p in tail :: p in parts;
      SplitJoin(tail, sep);
      SplitJoinStep(parts[0], JoinWith(tail, sep), sep);
      assert parts == [parts[0]] + tail;
    }
  }

  /** A string without the separator splits into itself alone. */
  lemma SplitWithoutSeparator(s: string, sep: char)
    requires sep !in s
    ensures Split(s, sep) == [s]
  {
    SplitJoin([s], sep);
  }

  /** `s` holds `t` starting at index `i`. */
  predicate OccursAt(s: string, t: string, i: int)
  {
    0 <= i && i + |t| <= |s| && s[i..i + |t|] == t
  }
  /** Occurrences in `s[1..]` are the occurrences in `s` past index 0, shifted by one. */
  lemma OccursShift(s: string, t: string, i: int)
    requires |s| > 0 && i >= 0
    ensures OccursAt(s, t, i + 1) <==> OccursAt(s[1..], t, i)
  {
    if 0 <= i && i + 1 + |t| <= |s| {
      assert s[i + 1 .. i + 1 + |t|] == s[1..][i .. i + |t|];
    }
  }
  /** `s.includes(t)`: `t` occurs somewhere in `s`. */
  function Includes(s: string, t: string): (b: bool)
    ensures b <==> exists i :: OccursAt(s, t, i)
    decreases |s|
  {
    if |t| > |s| then false
    else if s[..|t|] == t then
      assert OccursAt(s, t, 0);
      true
    else
      var b := Includes(s[1..], t);
      if b then
        var i :| OccursAt(s[1..], t, i);
        OccursShift(s, t, i);
        b
      else
        assert forall i :: !OccursAt(s, t, i) by {
          forall i ensures !OccursAt(s, t, i) {
            if i >= 1 { OccursShift(s, t, i - 1); }
          }
        }
        b
  }
  /** The code points `trim` removes: ECMAScript's WhiteSpace (tab, vertical
      tab, form feed, the byte order mark and every space separator of the
      Unicode category Zs) and LineTerminator (LF, CR, U+2028, U+2029). */
  predicate IsWhitespace(c: char)
  {
    c == '\t' || c == '\n' || c == '\U{B}' || c == '\U{C}' || c == '\r'
    || c == ' ' || c == '\U{A0}' || c == '\U{1680}'
    || ('\U{2000}' <= c <= '\U{200A}')
    || c == '\U{2028}' || c == '\U{2029}' || c == '\U{202F}' || c == '\U{205F}'
    || c == '\U{3000}' || c == '\U{FEFF}'
  }

  /** Every code point of `w` is whitespace. */
  predicate AllWhitespace(w: string)
  {
    forall k :: 0 <= k < |w| ==> IsWhitespace(w[k])
  }

  /** A join of two whitespace strings is whitespace. */
  lemma AllWhitespaceConcat(a: string, b: string)
    requires AllWhitespace(a) && AllWhitespace(b)
    ensures AllWhitespace(a + b)
  {
    forall k | 0 <= k < |a + b| ensures IsWhitespace((a + b)[k]) {
      if k < |a| { assert (a + b)[k] == a[k]; } else { assert (a + b)[k] == b[k - |a|]; }
    }
  }

  /** `s.trimStart()`: drops the longest whitespace prefix. */
  function TrimStart(s: string): (r: string)
    ensures |r| <= |s| && r == s[|s| - |r|..]
    ensures AllWhitespace(s[..|s| - |r|])
    ensures r == [] || !IsWhitespace(r[0])
    decreases |s|
  {
    if |s| > 0 && IsWhitespace(s[0]) then
      var r := TrimStart(s[1..]);
      assert s[..|s| - |r|] == [s[0]] + s[1..][..|s| - 1 - |r|];
      AllWhitespaceConcat([s[0]], s[1..][..|s| - 1 - |r|]);
      r
    else
      assert s[..0] == [];
      s
  }

  /** `s.trimEnd()`: drops the longest whitespace suffix. */
  function TrimEnd(s: string): (r: string)
    ensures |r| <= |s| && r == s[..|r|]
    ensures AllWhitespace(s[|r|..])
    ensures r == [] || !IsWhitespace(r[|r| - 1])
    decreases |s|
  {
    if |s| > 0 && IsWhitespace(s[|s| - 1]) then
      var r := TrimEnd(s[..|s| - 1]);
      assert s[|r|..] == s[..|s| - 1][|r|..] + [s[|s| - 1]];
      AllWhitespaceConcat(s[..|s| - 1][|r|..], [s[|s| - 1]]);
      r
    else
      assert s[|s|..] == [];
      s
  }

  /** `s.trim()`: `s` with its whitespace prefix and suffix removed. The
      result starts at the first non-whitespace code point and stops after
      the last one. */
  function Trim(s: string): (r: string)
    ensures r == [] || (!IsWhitespace(r[0]) && !IsWhitespace(r[|r| - 1]))
    ensures var i := |s| - |TrimStart(s)|;
      i + |r| <= |s| && r == s[i..i + |r|]
      && AllWhitespace(s[..i]) && AllWhitespace(s[i + |r|..])
  {
    TrimEndOfSuffix(s, TrimStart(s));
    TrimEnd(TrimStart(s))
  }

  /** Trimming the end of a suffix `t` of `s` that does not start with
      whitespace, behind a whitespace prefix, trims both ends of `s`: what is
      cut from `t` is a whitespace tail of `s`, and the result still starts
      where `t` does. */
  lemma TrimEndOfSuffix(s: string, t: string)
    requires |t| <= |s| && t == s[|s| - |t|..]
    requires AllWhitespace(s[..|s| - |t|])
    requires t == [] || !IsWhitespace(t[0])
    ensures var r := TrimEnd(t);
      r == [] || (!IsWhitespace(r[0]) && !IsWhitespace(r[|r| - 1]))
    ensures var i, r := |s| - |t|, TrimEnd(t);
      i + |r| <= |s| && r == s[i..i + |r|]
      && AllWhitespace(s[..i]) && AllWhitespace(s[i + |r|..])
  {
    var i, r := |s| - |t|, TrimEnd(t);
    assert r == s[i..i + |r|] by {
      assert r == t[..|r|];
    }
    assert r == [] || r[0] == t[0];
    assert s[i + |r|..] == t[|r|..];
  }

  /** `trimStart` removes exactly a whitespace prefix in front of a string
      that does not start with whitespace. */
  lemma {:induction false} TrimStartPadding(pre: string, u: string)
    requires forall k :: 0 <= k < |pre| ==> IsWhitespace(pre[k])
    requires u == [] || !IsWhitespace(u[0])
    ensures TrimStart(pre + u) == u
    decreases |pre|
  {
    if |pre| == 0 {
      assert pre + u == u;
    } else {
      assert (pre + u)[0] == pre[0];
      assert (pre + u)[1..] == pre[1..] + u;
      TrimStartPadding(pre[1..], u);
    }
  }

  /** `trimEnd` removes exactly a whitespace suffix behind a string that does
      not end with whitespace. */
  lemma {:induction false} TrimEndPadding(u: string, post: string)
    requires forall k :: 0 <= k < |post| ==> IsWhitespace(post[k])
    requires u == [] || !IsWhitespace(u[|u| - 1])
    ensures TrimEnd(u + post) == u
    decreases |post|
  {
    if |post| == 0 {
      assert u + post == u;
    } else {
      var w := u + post;
      assert w[|w| - 1] == post[|post| - 1];
      assert w[..|w| - 1] == u + post[..|post| - 1];
      TrimEndPadding(u, post[..|post| - 1]);
    }
  }

  /** Trimming is exact: whitespace padding around a string that neither
      starts nor ends with whitespace is removed, and nothing else. */
  lemma TrimPadding(pre: string, s: string, post: string)
    requires forall k :: 0 <= k < |pre| ==> IsWhitespace(pre[k])
    requires forall k :: 0 <= k < |post| ==> IsWhitespace(post[k])
    requires s == [] || (!IsWhitespace(s[0]) && !IsWhitespace(s[|s| - 1]))
    ensures Trim(pre + s + post) == s
  {
    if s == [] {
      var w := pre + post;
      assert pre + s + post == w;
      assert forall k :: 0 <= k < |w| ==> IsWhitespace(w[k]) by {
        forall k | 0 <= k < |w| ensures IsWhitespace(w[k]) {
          if k < |pre| { assert w[k] == pre[k]; } else { assert w[k] == post[k - |pre|]; }
        }
      }
      assert w + "" == w;
      TrimStartPadding(w, "");
    } else {
      assert pre + s + post == pre + (s + post);
      assert (s + post)[0] == s[0];
      TrimStartPadding(pre, s + post);
      TrimEndPadding(s, post);
    }
  }
}
