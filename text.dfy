/**
 * String operations of the JavaScript runtime that the barrel builder and the
 * command builder rely on: `startsWith`, `endsWith`, `includes`, the first
 * `indexOf`, `replace` with a string pattern, `join`, `split` on one
 * character and `trim`. Strings are `seq<char>`, one `char` per Unicode
 * scalar value; JavaScript counts UTF-16 code units instead, which differ
 * only for characters outside the Basic Multilingual Plane.
 */
module Text {

  /** `s.startsWith(p)`. */
  predicate IsPrefix(p: string, s: string) {
    |p| <= |s| && s[..|p|] == p
  }

  /** `s.endsWith(suffix)`. */
  predicate EndsWith(s: string, suffix: string) {
    |suffix| <= |s| && s[|s| - |suffix|..] == suffix
  }

  /** `s.includes(sub)`: some position of `s` starts a copy of `sub`. */
  predicate Contains(s: string, sub: string) {
    IndexOf(s, sub) >= 0
  }

  /** A copy of `sub` starts at position `j` of `s`. */
  predicate OccursAt(s: string, sub: string, j: int) {
    0 <= j <= |s| && IsPrefix(sub, s[j..])
  }

  lemma OccursAtTail(s: string, sub: string)
    requires |s| > 0
    ensures forall j :: 1 <= j ==> (OccursAt(s, sub, j) <==> OccursAt(s[1..], sub, j - 1))
  {
    forall j | 1 <= j <= |s|
      ensures OccursAt(s, sub, j) <==> OccursAt(s[1..], sub, j - 1)
    {
      assert s[1..][j - 1..] == s[j..];
    }
  }

  /** The position where `sub` first occurs in `s`, or -1: `s.indexOf(sub)`. */
  function IndexOf(s: string, sub: string): (r: int)
    ensures r == -1 || OccursAt(s, sub, r)
    ensures forall j :: 0 <= j && (j < r || r == -1) ==> !OccursAt(s, sub, j)
  {
    if |s| < |sub| then -1
    else if IsPrefix(sub, s) then 0
    else
      var k := IndexOf(s[1..], sub);
      OccursAtTail(s, sub);
      if k < 0 then -1 else k + 1
  }

  /** A position where `sub` occurs and before which it does not is what `IndexOf` finds. */
  lemma IndexOfIs(s: string, sub: string, r: int)
    requires OccursAt(s, sub, r) && forall j :: 0 <= j < r ==> !OccursAt(s, sub, j)
    ensures IndexOf(s, sub) == r
  {
  }

  /** Text appended after the first occurrence does not move it. */
  lemma IndexOfExtend(s: string, t: string, sub: string)
    requires IndexOf(s, sub) >= 0
    ensures IndexOf(s + t, sub) == IndexOf(s, sub)
  {
    var r := IndexOf(s, sub);
    assert (s + t)[r..][..|sub|] == s[r..][..|sub|];
    forall j | 0 <= j < r
      ensures !OccursAt(s + t, sub, j)
    {
      assert !OccursAt(s, sub, j);
      assert (s + t)[j..][..|sub|] == s[j..][..|sub|];
    }
    IndexOfIs(s + t, sub, r);
  }

  /** `s.replace(pattern, replacement)` with a string pattern: only the first occurrence changes. */
  function ReplaceFirst(s: string, pattern: string, replacement: string): (r: string)
    ensures IndexOf(s, pattern) < 0 ==> r == s
    ensures IndexOf(s, pattern) >= 0 ==>
      var k := IndexOf(s, pattern);
      r == s[..k] + replacement + s[k + |pattern|..]
  {
    var k := IndexOf(s, pattern);
    if k < 0 then s else s[..k] + replacement + s[k + |pattern|..]
  }

  /** `parts.join(sep)`. */
  function Join(parts: seq<string>, sep: string): string {
    if |parts| == 0 then ""
    else if |parts| == 1 then parts[0]
    else Join(parts[..|parts| - 1], sep) + sep + parts[|parts| - 1]
  }

  /** `s.split(c)` for a one-character separator: never empty. */
  function Split(s: string, c: char): (parts: seq<string>)
    ensures |parts| >= 1
  {
    if |s| == 0 then [""]
    else
      var init := Split(s[..|s| - 1], c);
      if s[|s| - 1] == c then init + [""]
      else init[..|init| - 1] + [init[|init| - 1] + [s[|s| - 1]]]
  }

  lemma {:induction false} JoinAppend(parts: seq<string>, sep: string, x: string)
    requires |parts| >= 1
    ensures Join(parts + [x], sep) == Join(parts, sep) + sep + x
  {
    assert (parts + [x])[..|parts|] == parts;
  }

  /** Extending the last part extends the joined string by the same characters. */
  lemma JoinExtendLast(parts: seq<string>, sep: string, tail: string)
    requires |parts| >= 1
    ensures Join(parts[..|parts| - 1] + [parts[|parts| - 1] + tail], sep) == Join(parts, sep) + tail
  {
    var front, last := parts[..|parts| - 1], parts[|parts| - 1];
    if |front| > 0 {
      assert parts == front + [last];
      JoinAppend(front, sep, last);
      JoinAppend(front, sep, last + tail);
    }
  }

  /** Splitting and joining back on the same character gives the string back. */
  lemma {:induction false} JoinSplit(s: string, c: char)
    ensures Join(Split(s, c), [c]) == s
  {
    if |s| > 0 {
      var s', ch := s[..|s| - 1], s[|s| - 1];
      var init := Split(s', c);
      JoinSplit(s', c);
      assert s == s' + [ch];
      if ch == c {
        JoinAppend(init, [c], "");
      } else {
        JoinExtendLast(init, [c], [ch]);
      }
    }
  }

  /** No part produced by `Split(s, c)` holds `c`. */
  lemma {:induction false} SplitPartsFree(s: string, c: char)
    ensures forall i :: 0 <= i < |Split(s, c)| ==> c !in Split(s, c)[i]
  {
    if |s| > 0 {
      SplitPartsFree(s[..|s| - 1], c);
    }
  }

  /** Joining parts that hold no separator and splitting again gives the parts back. */
  lemma {:induction false} SplitJoin(parts: seq<string>, c: char)
    requires |parts| >= 1
    requires forall i :: 0 <= i < |parts| ==> c !in parts[i]
    ensures Split(Join(parts, [c]), c) == parts
  {
    if |parts| == 1 {
      SplitNoSeparator(parts[0], c);
    } else {
      var front := parts[..|parts| - 1];
      var last := parts[|parts| - 1];
      SplitJoin(front, c);
      assert Join(parts, [c]) == Join(front, [c]) + [c] + last;
      SplitAfterSeparator(Join(front, [c]), last, c);
      assert parts == front + [last];
    }
  }

  lemma {:induction false} SplitNoSeparator(s: string, c: char)
    requires c !in s
    ensures Split(s, c) == [s]
  {
    if |s| > 0 {
      SplitNoSeparator(s[..|s| - 1], c);
      assert s[..|s| - 1] + [s[|s| - 1]] == s;
    }
  }

  lemma {:induction false} SplitAfterSeparator(a: string, b: string, c: char)
    requires c !in b
    ensures Split(a + [c] + b, c) == Split(a, c) + [b]
    decreases |b|
  {
    if |b| == 0 {
      assert a + [c] + b == a + [c];
      assert (a + [c])[..|a|] == a;
    } else {
      var b' := b[..|b| - 1];
      SplitAfterSeparator(a, b', c);
      assert (a + [c] + b)[..|a + [c] + b| - 1] == a + [c] + b';
      assert b' + [b[|b| - 1]] == b;
    }
  }

  /** The characters that ECMAScript counts as white space or line terminators (`\s`, `trim`). */
  predicate IsJsSpace(c: char) {
    c == ' ' || ('\t' <= c <= '\r')
    || ('\U{00A0}' <= c &&
        (c == '\U{00A0}' || c == '\U{1680}' || ('\U{2000}' <= c <= '\U{200A}')
         || c == '\U{2028}' || c == '\U{2029}' || c == '\U{202F}' || c == '\U{205F}'
         || c == '\U{3000}' || c == '\U{FEFF}'))
  }

  /** `[A-Za-z0-9_]`, the class `\w` of a regular expression without the `u` flag. */
  predicate IsWordChar(c: char) {
    ('a' <= c <= 'z') || ('A' <= c <= 'Z') || ('0' <= c <= '9') || c == '_'
  }

  /** `s.trim()`: drops white space at both ends and nothing else. */
  function Trim(s: string): (r: string)
    ensures r == [] || (!IsJsSpace(r[0]) && !IsJsSpace(r[|r| - 1]))
  {
    TrimEnd(TrimStart(s))
  }

  function TrimStart(s: string): (r: string)
    ensures r == [] || !IsJsSpace(r[0])
    ensures EndsWith(s, r) && forall k :: 0 <= k < |s| - |r| ==> IsJsSpace(s[k])
  {
    if |s| > 0 && IsJsSpace(s[0]) then TrimStart(s[1..]) else s
  }

  function TrimEnd(s: string): (r: string)
    ensures r == [] || !IsJsSpace(r[|r| - 1])
    ensures IsPrefix(r, s) && forall k :: |r| <= k < |s| ==> IsJsSpace(s[k])
  {
    if |s| > 0 && IsJsSpace(s[|s| - 1]) then TrimEnd(s[..|s| - 1]) else s
  }

  /** A string with no white space at either end is its own trim, even after one leading blank. */
  lemma TrimBlankThen(s: string)
    requires s == [] || (!IsJsSpace(s[0]) && !IsJsSpace(s[|s| - 1]))
    ensures Trim(s) == s
    ensures Trim(" " + s) == s
  {
    assert (" " + s)[1..] == s;
  }
}
