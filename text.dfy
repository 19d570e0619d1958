/** The Python `str` operations the source relies on, written out on `seq<char>`.
    Case mapping is ASCII only; everything else follows CPython's definitions. */
module Text {

  /** `str.isspace()` for one character. */
  predicate IsSpace(c: char) {
    c == ' ' || ('\t' <= c <= '\r') || ('\U{1C}' <= c <= '\U{1F}') || c == '\U{85}' || c == '\U{A0}'
    || c == '\U{1680}' || ('\U{2000}' <= c <= '\U{200A}') || c == '\U{2028}' || c == '\U{2029}'
    || c == '\U{202F}' || c == '\U{205F}' || c == '\U{3000}'
  }

  /** The characters at which `str.splitlines()` ends a line. */
  predicate IsLineBreak(c: char) {
    ('\n' <= c <= '\r') || ('\U{1C}' <= c <= '\U{1E}') || c == '\U{85}' || c == '\U{2028}' || c == '\U{2029}'
  }

  predicate NoLineBreak(s: string) {
    forall i :: 0 <= i < |s| ==> !IsLineBreak(s[i])
  }

  lemma NoLineBreakAppend(a: string, b: string)
    requires NoLineBreak(a) && NoLineBreak(b)
    ensures NoLineBreak(a + b)
  {
  }

  predicate IsAsciiLetter(c: char) {
    ('a' <= c <= 'z') || ('A' <= c <= 'Z')
  }

  /** `str.lstrip()`: drops leading whitespace. */
  function LStrip(s: string): (r: string)
    ensures |r| <= |s|
    ensures r == [] || !IsSpace(r[0])
  {
    if |s| > 0 && IsSpace(s[0]) then LStrip(s[1..]) else s
  }

  /** `str.rstrip()`: drops trailing whitespace. */
  function RStrip(s: string): (r: string)
    ensures |r| <= |s|
    ensures r == [] || !IsSpace(r[|r| - 1])
  {
    if |s| > 0 && IsSpace(s[|s| - 1]) then RStrip(s[..|s| - 1]) else s
  }

  /** `str.strip()`. */
  function Strip(s: string): string {
    RStrip(LStrip(s))
  }

  lemma StripUnchanged(s: string)
    requires s == [] || (!IsSpace(s[0]) && !IsSpace(s[|s| - 1]))
    ensures Strip(s) == s
  {
  }

  /** Stripping keeps a first character that is not whitespace. */
  lemma StripKeepsFirst(s: string)
    requires s != [] && !IsSpace(s[0])
    ensures Strip(s) != [] && Strip(s)[0] == s[0]
  {
    RStripKeepsFirst(s);
  }

  lemma RStripKeepsFirst(s: string)
    requires s != [] && !IsSpace(s[0])
    ensures RStrip(s) != [] && RStrip(s)[0] == s[0]
    decreases |s|
  {
    if |s| > 1 && IsSpace(s[|s| - 1]) {
      RStripKeepsFirst(s[..|s| - 1]);
    }
  }

  /** `str.lstrip(c)` for a single character `c`. */
  function LStripChar(s: string, c: char): (r: string)
    ensures |r| <= |s|
  {
    if |s| > 0 && s[0] == c then LStripChar(s[1..], c) else s
  }

  /** `str.rstrip(c)` for a single character `c`. */
  function RStripChar(s: string, c: char): (r: string)
    ensures |r| <= |s|
  {
    if |s| > 0 && s[|s| - 1] == c then RStripChar(s[..|s| - 1], c) else s
  }

  /** Right-stripping `c` from `a + b` when `a` ends in another character only touches `b`. */
  lemma RStripCharAppend(a: string, b: string, c: char)
    requires a != [] && a[|a| - 1] != c
    ensures RStripChar(a + b, c) == a + RStripChar(b, c)
    decreases |b|
  {
    if |b| > 0 && b[|b| - 1] == c {
      assert (a + b)[..|a + b| - 1] == a + b[..|b| - 1];
      RStripCharAppend(a, b[..|b| - 1], c);
    } else if |b| == 0 {
      assert a + b == a;
    }
  }

  /** Only a string made of `c` alone right-strips to nothing. */
  lemma RStripCharEmpty(s: string, c: char)
    requires RStripChar(s, c) == []
    ensures forall i :: 0 <= i < |s| ==> s[i] == c
    decreases |s|
  {
    if |s| > 0 {
      RStripCharEmpty(s[..|s| - 1], c);
      assert forall i :: 0 <= i < |s| - 1 ==> s[i] == s[..|s| - 1][i];
    }
  }

  /** `str.strip(c)` for a single character `c`. */
  function StripChar(s: string, c: char): string {
    RStripChar(LStripChar(s, c), c)
  }

  function LowerChar(c: char): char {
    if 'A' <= c <= 'Z' then (c as int + 32) as char else c
  }

  /** `str.lower()` on ASCII letters. */
  function Lower(s: string): (r: string)
    ensures |r| == |s|
  {
    if s == [] then [] else [LowerChar(s[0])] + Lower(s[1..])
  }

  /** Lowering maps each character on its own. */
  lemma {:induction false} LowerAt(s: string, k: nat)
    requires k < |s|
    ensures Lower(s)[k] == LowerChar(s[k])
    decreases k
  {
    if k > 0 {
      LowerAt(s[1..], k - 1);
    }
  }

  /** `LowerAt` at every index. */
  lemma LowerEach(s: string)
    ensures forall k :: 0 <= k < |s| ==> Lower(s)[k] == LowerChar(s[k])
  {
    forall k | 0 <= k < |s|
      ensures Lower(s)[k] == LowerChar(s[k])
    {
      LowerAt(s, k);
    }
  }

  /** `str.startswith(p)`. */
  predicate StartsWith(s: string, p: string) {
    |p| <= |s| && s[..|p|] == p
  }

  /** `str.endswith(p)`. */
  predicate EndsWith(s: string, p: string) {
    |p| <= |s| && s[|s| - |p|..] == p
  }

  /** `t in s` for strings. */
  predicate Contains(s: string, t: string)
    decreases |s|
  {
    StartsWith(s, t) || (|s| > 0 && Contains(s[1..], t))
  }

  lemma ContainsAppend(s: string, u: string, t: string)
    requires Contains(s, t)
    ensures Contains(s + u, t)
    decreases |s|
  {
    if StartsWith(s, t) {
      assert (s + u)[..|t|] == s[..|t|];
    } else {
      ContainsAppend(s[1..], u, t);
      assert (s + u)[1..] == s[1..] + u;
    }
  }

  lemma ContainsPrepend(p: string, s: string, t: string)
    requires Contains(s, t)
    ensures Contains(p + s, t)
    decreases |p|
  {
    if p != [] {
      ContainsPrepend(p[1..], s, t);
      assert (p + s)[1..] == p[1..] + s;
      assert Contains((p + s)[1..], t);
    } else {
      assert p + s == s;
    }
  }

  /** The index of the first occurrence of `t` in `s`, or `|s|` when there is none. */
  function Find(s: string, t: string): (i: nat)
    ensures i <= |s|
    ensures i < |s| ==> StartsWith(s[i..], t)
    decreases |s|
  {
    if StartsWith(s, t) then 0
    else if |s| == 0 then 0
    else 1 + Find(s[1..], t)
  }

  /** The index of the first `c` in `s`, or `|s|` when `c` does not occur. */
  function IndexOf(s: string, c: char): (i: nat)
    ensures i <= |s|
    ensures i < |s| ==> s[i] == c
    ensures forall k :: 0 <= k < i ==> s[k] != c
  {
    if |s| == 0 then 0 else if s[0] == c then 0 else 1 + IndexOf(s[1..], c)
  }

  /** The index of the last `c` in `s`, or `|s|` when `c` does not occur. */
  function LastIndexOf(s: string, c: char): (i: nat)
    ensures i <= |s|
    ensures i < |s| ==> s[i] == c && forall k :: i < k < |s| ==> s[k] != c
    ensures i == |s| ==> forall k :: 0 <= k < |s| ==> s[k] != c
  {
    if |s| == 0 then 0
    else if s[|s| - 1] == c then |s| - 1
    else var j := LastIndexOf(s[..|s| - 1], c); if j == |s| - 1 then |s| else j
  }

  /** `s.replace(pat, rep)`: every non-overlapping occurrence, scanning left to right. */
  function Replace(s: string, pat: string, rep: string): string
    requires pat != []
    decreases |s|
  {
    if |s| < |pat| then s
    else if s[..|pat|] == pat then rep + Replace(s[|pat|..], pat, rep)
    else [s[0]] + Replace(s[1..], pat, rep)
  }

  lemma ReplaceAbsent(s: string, pat: string, rep: string)
    requires pat != [] && !Contains(s, pat)
    ensures Replace(s, pat, rep) == s
    decreases |s|
  {
    if |s| >= |pat| {
      assert !StartsWith(s, pat);
      ReplaceAbsent(s[1..], pat, rep);
      assert s == [s[0]] + s[1..];
    }
  }

  /** `c` does not occur in `s`. */
  predicate Lacks(s: string, c: char) {
    forall k :: 0 <= k < |s| ==> s[k] != c
  }

  lemma LacksAppend(a: string, b: string, c: char)
    requires Lacks(a, c) && Lacks(b, c)
    ensures Lacks(a + b, c)
  {
  }

  /** A character other than an upper-case letter is lacked by a string whenever its lower
      case lacks it. */
  lemma LowerLacks(s: string, c: char)
    requires !('A' <= c <= 'Z') && Lacks(Lower(s), c)
    ensures Lacks(s, c)
  {
    forall k | 0 <= k < |s|
      ensures s[k] != c
    {
      LowerAt(s, k);
    }
  }

  /** A character the pattern lacks splits `Replace`: no match can straddle it. */
  lemma {:induction false} ReplaceAround(a: string, c: char, b: string, pat: string, rep: string)
    requires pat != [] && Lacks(pat, c)
    ensures Replace(a + [c] + b, pat, rep) == Replace(a, pat, rep) + [c] + Replace(b, pat, rep)
    decreases |a|
  {
    var s := a + [c] + b;
    if |s| < |pat| {
      assert Replace(b, pat, rep) == b;
    } else if s[..|pat|] == pat {
      assert s[|a|] == c;
      PrefixBeforeLacked(s, pat, c, |a|);
      assert a[..|pat|] == pat;
      assert s[|pat|..] == a[|pat|..] + [c] + b;
      ReplaceAround(a[|pat|..], c, b, pat, rep);
    } else if a == [] {
      assert s[1..] == b;
    } else {
      ReplaceStep(a, c, b, pat, rep);
    }
  }

  /** `ReplaceAround` when no match starts at the front of `a`. */
  lemma {:induction false} ReplaceStep(a: string, c: char, b: string, pat: string, rep: string)
    requires pat != [] && Lacks(pat, c) && a != []
    requires |a + [c] + b| >= |pat| && (a + [c] + b)[..|pat|] != pat
    ensures Replace(a + [c] + b, pat, rep) == Replace(a, pat, rep) + [c] + Replace(b, pat, rep)
    decreases |a|, 0
  {
    var s := a + [c] + b;
    assert s[1..] == a[1..] + [c] + b;
    ReplaceAround(a[1..], c, b, pat, rep);
    assert Replace(s, pat, rep) == [a[0]] + Replace(s[1..], pat, rep);
    if |a| >= |pat| {
      assert a[..|pat|] == s[..|pat|];
    } else {
      assert Replace(a[1..], pat, rep) == a[1..];
    }
    assert Replace(a, pat, rep) == [a[0]] + Replace(a[1..], pat, rep);
  }

  /** A prefix that lacks `c` ends before any `c`. */
  lemma PrefixBeforeLacked(s: string, pat: string, c: char, i: nat)
    requires Lacks(pat, c) && StartsWith(s, pat)
    requires i < |s| && s[i] == c
    ensures |pat| <= i
  {
    assert forall k :: 0 <= k < |pat| ==> s[k] == pat[k];
  }

  /** Replacing with text that lacks `c` adds no `c`. */
  lemma {:induction false} ReplaceLacks(s: string, c: char, pat: string, rep: string)
    requires pat != [] && Lacks(s, c) && Lacks(rep, c)
    ensures Lacks(Replace(s, pat, rep), c)
    decreases |s|
  {
    if |s| >= |pat| {
      if s[..|pat|] == pat {
        ReplaceLacks(s[|pat|..], c, pat, rep);
      } else {
        ReplaceLacks(s[1..], c, pat, rep);
      }
    }
  }

  /** `s.split(c)` for a one-character separator. */
  function Split(s: string, c: char): (r: seq<string>)
    ensures |r| >= 1
    decreases |s|
  {
    var i := IndexOf(s, c);
    if i == |s| then [s] else [s[..i]] + Split(s[i + 1..], c)
  }

  lemma SplitFirst(a: string, c: char, b: string)
    requires forall k :: 0 <= k < |a| ==> a[k] != c
    ensures Split(a + [c] + b, c) == [a] + Split(b, c)
  {
    var s := a + [c] + b;
    assert s[|a|] == c;
    IndexOfPrefix(a, c, b);
    assert s[..|a|] == a;
    assert s[|a| + 1..] == b;
  }

  /** Two strings joined by a single space, as `" ".join` and `format` produce them. */
  function JoinSpace(a: string, b: string): string {
    a + " " + b
  }

  lemma JoinSpaceEnds(a: string, b: string)
    requires a != [] && b != []
    ensures JoinSpace(a, b)[0] == a[0] && JoinSpace(a, b)[|JoinSpace(a, b)| - 1] == b[|b| - 1]
    ensures NoLineBreak(a) && NoLineBreak(b) ==> NoLineBreak(JoinSpace(a, b))
  {
  }

  lemma SplitJoinSpace(a: string, b: string)
    requires forall k :: 0 <= k < |a| ==> a[k] != ' '
    ensures Split(JoinSpace(a, b), ' ') == [a] + Split(b, ' ')
  {
    SplitFirst(a, ' ', b);
  }

  lemma SplitNone(s: string, c: char)
    requires forall k :: 0 <= k < |s| ==> s[k] != c
    ensures Split(s, c) == [s]
  {
  }

  lemma IndexOfPrefix(a: string, c: char, b: string)
    requires forall k :: 0 <= k < |a| ==> a[k] != c
    ensures IndexOf(a + [c] + b, c) == |a|
  {
    var s := a + [c] + b;
    assert forall k :: 0 <= k < |a| ==> s[k] == a[k];
    assert s[|a|] == c;
  }

  /** Where the line that starts `s` ends: the first line break, or `|s|`. */
  function LineEnd(s: string): (i: nat)
    ensures i <= |s|
    ensures forall k :: 0 <= k < i ==> !IsLineBreak(s[k])
    ensures i < |s| ==> IsLineBreak(s[i])
  {
    if |s| == 0 || IsLineBreak(s[0]) then 0 else 1 + LineEnd(s[1..])
  }

  /** `str.splitlines()`: lines without their terminators; "\r\n" ends one line, and a
      final terminator does not start an empty line. */
  function SplitLines(s: string): seq<string>
    decreases |s|
  {
    if s == [] then []
    else
      var i := LineEnd(s);
      var next := if i == |s| then |s|
                  else if s[i] == '\r' && i + 1 < |s| && s[i + 1] == '\n' then i + 2
                  else i + 1;
      [s[..i]] + SplitLines(s[next..])
  }

  /** Lines each closed by "\n", as a writer that ends every line with "\n" emits them. */
  function Unlines(lines: seq<string>): string {
    if lines == [] then "" else lines[0] + "\n" + Unlines(lines[1..])
  }

  lemma {:induction false} SplitLinesOfUnlines(lines: seq<string>)
    requires forall k :: 0 <= k < |lines| ==> NoLineBreak(lines[k])
    ensures SplitLines(Unlines(lines)) == lines
  {
    if lines != [] {
      SplitLinesCons(lines[0], Unlines(lines[1..]));
      SplitLinesOfUnlines(lines[1..]);
    }
  }

  /** A line closed by "\n" is the first line of what follows it. */
  lemma SplitLinesCons(l: string, rest: string)
    requires NoLineBreak(l)
    ensures SplitLines(l + "\n" + rest) == [l] + SplitLines(rest)
  {
    var s := l + "\n" + rest;
    LineEndOf(l, "\n" + rest);
    assert s == l + ("\n" + rest);
    assert s[|l|] == '\n';
    assert s[..|l|] == l;
    assert s[|l| + 1..] == rest;
  }

  lemma LineEndOf(l: string, t: string)
    requires NoLineBreak(l)
    requires t != [] && IsLineBreak(t[0])
    ensures LineEnd(l + t) == |l|
    decreases |l|
  {
    if l != [] {
      assert (l + t)[1..] == l[1..] + t;
      LineEndOf(l[1..], t);
    }
  }

  lemma UnlinesAppend(a: seq<string>, b: seq<string>)
    ensures Unlines(a + b) == Unlines(a) + Unlines(b)
  {
    if a != [] {
      assert (a + b)[0] == a[0];
      assert (a + b)[1..] == a[1..] + b;
      UnlinesAppend(a[1..], b);
      calc {
        Unlines(a + b);
        a[0] + "\n" + Unlines(a[1..] + b);
        a[0] + "\n" + (Unlines(a[1..]) + Unlines(b));
        (a[0] + "\n" + Unlines(a[1..])) + Unlines(b);
      }
    } else {
      assert a + b == b;
    }
  }
}
