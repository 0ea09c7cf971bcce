/**
 * The JavaScript string operations the command-line class relies on:
 * `String.prototype.indexOf` (the duplicate-alias test before a Host block is
 * appended), `String.prototype.trim` (applied to the output of both git
 * commands) and the line structure of the SSH config text.
 */
module Text {

  /** ECMAScript WhiteSpace: tab, vertical tab, form feed, space, no-break
      space, byte order mark and the Unicode space separators (category Zs). */
  predicate IsWhiteSpace(c: char)
  {
    c == '\t' || c == '\U{B}' || c == '\U{C}' || c == ' ' || c == '\U{A0}' || c == '\U{FEFF}'
    || c == '\U{1680}' || ('\U{2000}' <= c <= '\U{200A}') || c == '\U{202F}' || c == '\U{205F}'
    || c == '\U{3000}'
  }

  /** ECMAScript LineTerminator: line feed, carriage return, line and
      paragraph separators. A regular expression's `.` matches none of them. */
  predicate IsLineTerminator(c: char)
  {
    c == '\n' || c == '\r' || c == '\U{2028}' || c == '\U{2029}'
  }

  /** The characters `String.prototype.trim` removes from both ends. */
  predicate IsTrimmable(c: char)
  {
    IsWhiteSpace(c) || IsLineTerminator(c)
  }

  ghost predicate AllTrimmable(s: string)
  {
    forall x :: 0 <= x < |s| ==> IsTrimmable(s[x])
  }

  /** `t` occurs in `s` starting at position `at`. */
  ghost predicate OccursAt(s: string, t: string, at: int)
  {
    0 <= at && at + |t| <= |s| && s[at..at + |t|] == t
  }

  /** `t` is a substring of `s`; the empty string is a substring of every string. */
  ghost predicate Contains(s: string, t: string)
  {
    exists at :: OccursAt(s, t, at)
  }

  /** `s.indexOf(t, from)`: the first position at or after `from` where `t`
      occurs, or -1 when there is none. */
  function IndexOfFrom(s: string, t: string, from: nat): (r: int)
    ensures r == -1 || (from <= r && OccursAt(s, t, r))
    ensures r != -1 ==> forall at :: from <= at < r ==> !OccursAt(s, t, at)
    ensures r == -1 ==> forall at :: from <= at ==> !OccursAt(s, t, at)
    decreases |s| - from
  {
    if from + |t| > |s| then -1
    else if s[from..from + |t|] == t then from
    else IndexOfFrom(s, t, from + 1)
  }

  /** `s.indexOf(t)`. */
  function IndexOf(s: string, t: string): (r: int)
    ensures r == -1 || (r >= 0 && OccursAt(s, t, r))
    ensures r > -1 <==> Contains(s, t)
    ensures r > -1 ==> forall at :: 0 <= at < r ==> !OccursAt(s, t, at)
  {
    IndexOfFrom(s, t, 0)
  }

  /** A string contains every string that it ends with. */
  lemma ContainsSuffixPart(s: string, u: string, t: string)
    requires Contains(u, t)
    ensures Contains(s + u, t)
  {
    var at :| OccursAt(u, t, at);
    assert (s + u)[|s| + at..|s| + at + |t|] == u[at..at + |t|];
    assert OccursAt(s + u, t, |s| + at);
  }

  /** Drops leading whitespace and line terminators. */
  function TrimStart(s: string): (r: string)
    ensures |r| <= |s| && r == s[|s| - |r|..]
    ensures r == [] || !IsTrimmable(r[0])
    ensures AllTrimmable(s[..|s| - |r|])
  {
    if s != [] && IsTrimmable(s[0]) then TrimStart(s[1..]) else s
  }

  /** Drops trailing whitespace and line terminators. */
  function TrimEnd(s: string): (r: string)
    ensures |r| <= |s| && r == s[..|r|]
    ensures r == [] || !IsTrimmable(r[|r| - 1])
    ensures AllTrimmable(s[|r|..])
  {
    if s != [] && IsTrimmable(s[|s| - 1]) then TrimEnd(s[..|s| - 1]) else s
  }

  /** `s.trim()`: the longest infix of `s` that neither starts nor ends with
      whitespace, everything cut off on either side being whitespace. */
  function Trim(s: string): (r: string)
    ensures r == [] || (!IsTrimmable(r[0]) && !IsTrimmable(r[|r| - 1]))
    ensures exists cut :: 0 <= cut && cut + |r| <= |s| && r == s[cut..cut + |r|]
                          && AllTrimmable(s[..cut]) && AllTrimmable(s[cut + |r|..])
  {
    var u := TrimStart(s);
    var r := TrimEnd(u);
    var cut := |s| - |u|;
    assert r == s[cut..cut + |r|];
    assert s[cut + |r|..] == u[|r|..];
    r
  }

  lemma {:induction false} TrimStartSkips(w: string, m: string)
    requires AllTrimmable(w)
    ensures TrimStart(w + m) == TrimStart(m)
    decreases |w|
  {
    if w != [] {
      assert IsTrimmable(w[0]) && (w + m)[0] == w[0];
      assert (w + m)[1..] == w[1..] + m;
      assert AllTrimmable(w[1..]) by {
        forall x | 0 <= x < |w| - 1 ensures IsTrimmable(w[1..][x]) { assert w[1..][x] == w[x + 1]; }
      }
      TrimStartSkips(w[1..], m);
    } else {
      assert w + m == m;
    }
  }

  lemma {:induction false} TrimEndSkips(m: string, w: string)
    requires AllTrimmable(w)
    ensures TrimEnd(m + w) == TrimEnd(m)
    decreases |w|
  {
    if w != [] {
      assert IsTrimmable(w[|w| - 1]) && (m + w)[|m + w| - 1] == w[|w| - 1];
      assert (m + w)[..|m + w| - 1] == m + w[..|w| - 1];
      assert AllTrimmable(w[..|w| - 1]) by {
        forall x | 0 <= x < |w| - 1 ensures IsTrimmable(w[x]) { }
      }
      TrimEndSkips(m, w[..|w| - 1]);
    } else {
      assert m + w == m;
    }
  }

  /** Trimming discards any whitespace around a string that is already
      trimmed and returns that string. */
  lemma TrimAround(w1: string, m: string, w2: string)
    requires AllTrimmable(w1) && AllTrimmable(w2)
    requires m == [] || (!IsTrimmable(m[0]) && !IsTrimmable(m[|m| - 1]))
    ensures Trim(w1 + m + w2) == m
  {
    assert w1 + m + w2 == w1 + (m + w2);
    TrimStartSkips(w1, m + w2);
    if m == [] {
      assert m + w2 == w2;
      assert TrimStart(w2) == [];
    } else {
      assert TrimStart(m + w2) == m + w2;
      TrimEndSkips(m, w2);
      assert TrimEnd(m) == m;
    }
  }

  /** Index of the first line feed in `s`, or `|s|` when there is none. */
  function FirstNewline(s: string): (i: nat)
    ensures i <= |s| && (i < |s| ==> s[i] == '\n')
    ensures forall x :: 0 <= x < i ==> s[x] != '\n'
  {
    if s == [] || s[0] == '\n' then 0 else 1 + FirstNewline(s[1..])
  }

  /** The lines of `s` as an editor shows them: split at each line feed,
      where a final line feed does not start another (empty) line. */
  function Lines(s: string): seq<string>
    decreases |s|
  {
    if s == [] then []
    else
      var i := FirstNewline(s);
      if i == |s| then [s] else [s[..i]] + Lines(s[i + 1..])
  }

  /** No character of `s` is `c`. */
  predicate Free(s: string, c: char)
  {
    forall x :: 0 <= x < |s| ==> s[x] != c
  }

  /** A line without a line feed, then a line feed, is one line. */
  lemma LinesCons(x: string, y: string)
    requires Free(x, '\n')
    ensures Lines(x + "\n" + y) == [x] + Lines(y)
  {
    var s := x + "\n" + y;
    assert s[|x|] == '\n';
    assert FirstNewline(s) == |x|;
    assert s[..|x|] == x && s[|x| + 1..] == y;
  }

  /** Text that ends with a line feed (or is empty) keeps its lines when more
      text is appended; the appended text contributes its own lines. */
  lemma {:induction false} LinesAppend(a: string, b: string)
    requires a == [] || a[|a| - 1] == '\n'
    ensures Lines(a + b) == Lines(a) + Lines(b)
    decreases |a|
  {
    if a == [] {
      assert a + b == b;
    } else {
      var i := FirstNewline(a);
      var x, rest := a[..i], a[i + 1..];
      assert Free(x, '\n') by { forall k | 0 <= k < i ensures x[k] != '\n' { assert x[k] == a[k]; } }
      assert a == x + "\n" + rest;
      assert a + b == x + "\n" + (rest + b);
      assert rest == [] || rest[|rest| - 1] == '\n';
      calc {
        Lines(a + b);
        { LinesCons(x, rest + b); }
        [x] + Lines(rest + b);
        { LinesAppend(rest, b); }
        [x] + (Lines(rest) + Lines(b));
        { LinesCons(x, rest); }
        Lines(a) + Lines(b);
      }
    }
  }
}
