/**
 * The handful of Python `str` operations the modelled code relies on,
 * written over `string` (a `seq<char>`).
 */
module PyStrings {
  import opened Wrappers

  /** `prefix` is a prefix of `s` (`s.startswith(prefix)`). */
  predicate StartsWith(s: string, prefix: string) {
    |prefix| <= |s| && s[..|prefix|] == prefix
  }

  /** `pat in s`: `pat` occurs somewhere in `s`. */
  predicate Contains(s: string, pat: string)
    decreases |s|
  {
    StartsWith(s, pat) || (|s| > 0 && Contains(s[1..], pat))
  }

  /** `s.count(c)` for a single character. */
  function CountChar(s: string, c: char): nat {
    multiset(s)[c]
  }

  /** `''.join(parts)`. */
  function Concat(parts: seq<string>): (s: string)
    ensures |parts| == 0 ==> s == ""
    ensures |s| == TotalLength(parts)
  {
    if |parts| == 0 then "" else parts[0] + Concat(parts[1..])
  }

  /** The summed length of the parts. */
  function TotalLength(parts: seq<string>): nat {
    if |parts| == 0 then 0 else |parts[0]| + TotalLength(parts[1..])
  }

  /** Part `i` of a join sits right after the parts before it. */
  lemma {:induction false} ConcatSlice(parts: seq<string>, i: nat)
    requires i < |parts|
    ensures var at := TotalLength(parts[..i]);
      at + |parts[i]| <= |Concat(parts)| && Concat(parts)[at..at + |parts[i]|] == parts[i]
  {
    if i > 0 {
      assert parts[..i][1..] == parts[1..][..i - 1];
      ConcatSlice(parts[1..], i - 1);
    }
  }

  /** `sep.join(parts)` for a one-character separator. */
  function JoinWith(parts: seq<string>, sep: char): string {
    if |parts| == 0 then ""
    else if |parts| == 1 then parts[0]
    else parts[0] + [sep] + JoinWith(parts[1..], sep)
  }

  /**
   * `s.split(sep)` for a one-character separator: the pieces between
   * separators, empty pieces included. The pieces hold no separator.
   */
  function Split(s: string, sep: char): (parts: seq<string>)
    ensures |parts| >= 1
    ensures forall i :: 0 <= i < |parts| ==> sep !in parts[i]
    decreases |s|
  {
    if |s| == 0 then [""]
    else
      var rest := Split(s[1..], sep);
      if s[0] == sep then [""] + rest
      else [[s[0]] + rest[0]] + rest[1..]
  }

  /** Joining the pieces of a split with the separator gives back the string. */
  lemma {:induction false} SplitJoin(s: string, sep: char)
    ensures JoinWith(Split(s, sep), sep) == s
    decreases |s|
  {
    if |s| > 0 {
      var rest := Split(s[1..], sep);
      SplitJoin(s[1..], sep);
      var parts := Split(s, sep);
      if s[0] == sep {
        assert parts == [""] + rest;
        assert JoinWith(parts, sep) == "" + [sep] + JoinWith(rest, sep);
      } else {
        assert parts == [[s[0]] + rest[0]] + rest[1..];
        if |rest| == 1 {
          assert JoinWith(parts, sep) == [s[0]] + rest[0];
        } else {
          assert JoinWith(rest, sep) == rest[0] + [sep] + JoinWith(rest[1..], sep);
          assert parts[1..] == rest[1..];
          assert JoinWith(parts, sep) == [s[0]] + rest[0] + [sep] + JoinWith(rest[1..], sep);
        }
      }
      assert s == [s[0]] + s[1..];
    }
  }

  /** A split yields one piece more than there are separators. */
  lemma {:induction false} SplitCount(s: string, sep: char)
    ensures |Split(s, sep)| == CountChar(s, sep) + 1
    decreases |s|
  {
    if |s| > 0 {
      SplitCount(s[1..], sep);
      assert s == [s[0]] + s[1..];
      assert multiset(s) == multiset{s[0]} + multiset(s[1..]);
    }
  }

  /** A string without the separator splits into itself alone. */
  lemma {:induction false} SplitNone(s: string, sep: char)
    requires sep !in s
    ensures Split(s, sep) == [s]
    decreases |s|
  {
    if |s| > 0 {
      SplitNone(s[1..], sep);
      assert [s[0]] + s[1..] == s;
    }
  }

  /** Splitting at the first separator: the piece before it, then the split of the rest. */
  lemma {:induction false} SplitAt(a: string, sep: char, b: string)
    requires sep !in a
    ensures Split(a + [sep] + b, sep) == [a] + Split(b, sep)
    decreases |a|
  {
    var s := a + [sep] + b;
    if |a| == 0 {
      assert s[0] == sep && s[1..] == b;
    } else {
      SplitAt(a[1..], sep, b);
      assert s[0] == a[0] && s[1..] == a[1..] + [sep] + b;
      assert [a[0]] + a[1..] == a;
    }
  }

  /** A pattern occurs in any string built around it. */
  lemma {:induction false} ContainsAt(x: string, pat: string, y: string)
    ensures Contains(x + pat + y, pat)
    decreases |x|
  {
    var s := x + pat + y;
    if |x| == 0 {
      assert s[..|pat|] == pat;
    } else {
      ContainsAt(x[1..], pat, y);
      assert s[1..] == x[1..] + pat + y;
    }
  }

  /** `s.split(c, 1)[1]`: what follows the first `c`. */
  function AfterFirst(s: string, c: char): (r: string)
    requires c in s
    ensures exists i :: 0 <= i < |s| && s[i] == c && c !in s[..i] && r == s[i + 1..]
    decreases |s|
  {
    if s[0] == c then s[1..]
    else
      assert c in s[1..] by {
        var k :| 0 <= k < |s| && s[k] == c;
        assert s[1..][k - 1] == c;
      }
      var r := AfterFirst(s[1..], c);
      var i :| 0 <= i < |s[1..]| && s[1..][i] == c && c !in s[1..][..i] && r == s[1..][i + 1..];
      assert s[..i + 1] == [s[0]] + s[1..][..i];
      assert s[i + 1] == c && r == s[i + 2..];
      r
  }

  /** What follows the first `c` of `a + [c] + b`, when `a` holds none, is `b`. */
  lemma AfterFirstAfter(a: string, c: char, b: string)
    requires c !in a
    ensures c in a + [c] + b && AfterFirst(a + [c] + b, c) == b
  {
    var s := a + [c] + b;
    assert s[|a|] == c;
    var i :| 0 <= i < |s| && s[i] == c && c !in s[..i] && AfterFirst(s, c) == s[i + 1..];
    assert forall k :: 0 <= k < |a| ==> s[k] == a[k];
    assert forall k :: 0 <= k < i ==> s[..i][k] == s[k];
    assert i == |a|;
    assert s[|a| + 1..] == b;
  }

  /** `s.lstrip(chars)`. */
  function StripLeft(s: string, chars: set<char>): (r: string)
    ensures |r| <= |s| && r == s[|s| - |r|..]
    ensures |r| > 0 ==> r[0] !in chars
    ensures forall i :: 0 <= i < |s| - |r| ==> s[i] in chars
    decreases |s|
  {
    if |s| > 0 && s[0] in chars then
      var r := StripLeft(s[1..], chars);
      assert s[1..][|s| - 1 - |r|..] == s[|s| - |r|..];
      assert forall i :: 1 <= i < |s| - |r| ==> s[i] == s[1..][i - 1];
      r
    else s
  }

  /** `s.rstrip(chars)`. */
  function StripRight(s: string, chars: set<char>): (r: string)
    ensures |r| <= |s| && r == s[..|r|]
    ensures |r| > 0 ==> r[|r| - 1] !in chars
    ensures forall i :: |r| <= i < |s| ==> s[i] in chars
    decreases |s|
  {
    if |s| > 0 && s[|s| - 1] in chars then
      var r := StripRight(s[..|s| - 1], chars);
      assert s[..|s| - 1][..|r|] == s[..|r|];
      assert forall i :: |r| <= i < |s| - 1 ==> s[i] == s[..|s| - 1][i];
      r
    else s
  }

  /** `s.strip(chars)`: both ends. */
  function Strip(s: string, chars: set<char>): (r: string)
    ensures |r| > 0 ==> r[0] !in chars && r[|r| - 1] !in chars
    ensures var lo := |s| - |StripLeft(s, chars)|;
      && 0 <= lo <= |s| - |r| && r == s[lo..lo + |r|]
      && (forall i :: 0 <= i < lo ==> s[i] in chars)
      && (forall i :: lo + |r| <= i < |s| ==> s[i] in chars)
  {
    var l := StripLeft(s, chars);
    var r := StripRight(l, chars);
    StripBoth(s, l, r, chars);
    r
  }

  /** A prefix `r` of a suffix `l` of `s` sits in `s` where `l` starts. */
  lemma StripBoth(s: string, l: string, r: string, chars: set<char>)
    requires |l| <= |s| && l == s[|s| - |l|..] && |r| <= |l| && r == l[..|r|]
    requires forall i :: |r| <= i < |l| ==> l[i] in chars
    ensures var lo := |s| - |l|;
      r == s[lo..lo + |r|] && forall i :: lo + |r| <= i < |s| ==> s[i] in chars
  {
    var lo := |s| - |l|;
    assert forall i :: lo <= i < |s| ==> s[i] == l[i - lo];
  }

  /** Stripping one opening and one closing character off a word that neither starts nor ends with one. */
  lemma StripWrapped(w: string, chars: set<char>, open: char, close: char)
    requires |w| > 0 && w[0] !in chars && w[|w| - 1] !in chars && open in chars && close in chars
    ensures Strip([open] + w + [close], chars) == w
  {
    var s := [open] + w + [close];
    assert s[1..] == w + [close];
    assert StripLeft(s, chars) == w + [close];
    assert (w + [close])[..|w|] == w;
  }

  /**
   * Python's `s[1:-1]`: drop the first and the last character; strings of
   * length 0 or 1 give "".
   */
  function Inner(s: string): (r: string)
    ensures |s| >= 2 ==> |r| == |s| - 2 && s == [s[0]] + r + [s[|s| - 1]]
    ensures |s| < 2 ==> r == ""
  {
    if |s| < 2 then "" else s[1..|s| - 1]
  }

  /**
   * SQL `replace(s, pat, repl)`: every non-overlapping occurrence of `pat`,
   * scanning from the left, becomes `repl`.
   */
  function ReplaceAll(s: string, pat: string, repl: string): (r: string)
    requires |pat| > 0
    ensures |repl| <= |pat| ==> |r| <= |s|
    decreases |s|
  {
    if |s| < |pat| then s
    else if s[..|pat|] == pat then repl + ReplaceAll(s[|pat|..], pat, repl)
    else [s[0]] + ReplaceAll(s[1..], pat, repl)
  }

  /** Replacing a pattern that does not occur changes nothing. */
  lemma {:induction false} ReplaceAbsent(s: string, pat: string, repl: string)
    requires |pat| > 0 && !Contains(s, pat)
    ensures ReplaceAll(s, pat, repl) == s
    decreases |s|
  {
    if |s| >= |pat| {
      assert s[..|pat|] != pat;
      ReplaceAbsent(s[1..], pat, repl);
      assert [s[0]] + s[1..] == s;
    }
  }

  /** `sep.join(parts)` for a separator string. */
  function JoinOn(parts: seq<string>, sep: string): string {
    if |parts| == 0 then ""
    else if |parts| == 1 then parts[0]
    else parts[0] + sep + JoinOn(parts[1..], sep)
  }

  /** The first character of `pat` occurs nowhere else in it, so no two occurrences overlap. */
  predicate HeadUnique(pat: string) {
    |pat| > 0 && forall k :: 0 < k < |pat| ==> pat[k] != pat[0]
  }

  /** The first occurrence of `pat` is replaced, and the scan goes on after it. */
  lemma {:induction false} ReplaceSplits(x: string, pat: string, repl: string, y: string)
    requires HeadUnique(pat) && !Contains(x, pat)
    ensures ReplaceAll(x + pat + y, pat, repl) == x + repl + ReplaceAll(y, pat, repl)
    decreases |x|
  {
    var s := x + pat + y;
    if |x| == 0 {
      assert s == pat + y && s[..|pat|] == pat && s[|pat|..] == y;
    } else {
      NoMatchBefore(x, pat, y);
      ReplaceStep(s, pat, repl);
      assert s[1..] == x[1..] + pat + y;
      ReplaceSplits(x[1..], pat, repl, y);
      var rest := ReplaceAll(y, pat, repl);
      assert s[0] == x[0];
      assert [x[0]] + (x[1..] + repl + rest) == x + repl + rest;
    }
  }

  /** Where `pat` does not start, the scan keeps one character and moves on. */
  lemma ReplaceStep(s: string, pat: string, repl: string)
    requires |pat| > 0 && |s| >= |pat| && s[..|pat|] != pat
    ensures ReplaceAll(s, pat, repl) == [s[0]] + ReplaceAll(s[1..], pat, repl)
  {
  }

  /** Where a pattern-free non-empty `x` starts, `x + pat + y` holds no occurrence of `pat`. */
  lemma NoMatchBefore(x: string, pat: string, y: string)
    requires HeadUnique(pat) && !Contains(x, pat) && |x| > 0
    ensures var s := x + pat + y;
      |s| >= |pat| && s[..|pat|] != pat
  {
    var s := x + pat + y;
    if |x| >= |pat| {
      assert s[..|pat|] == x[..|pat|];
    } else {
      assert s[|x|] == pat[0] && pat[|x|] != pat[0];
      assert s[..|pat|][|x|] != pat[|x|];
    }
  }

  /**
   * Replacing every occurrence of a non-overlapping pattern in a string
   * made of pattern-free pieces separated by it puts `repl` between the pieces.
   */
  lemma {:induction false} ReplaceJoin(parts: seq<string>, pat: string, repl: string)
    requires HeadUnique(pat)
    requires forall i :: 0 <= i < |parts| ==> !Contains(parts[i], pat)
    ensures ReplaceAll(JoinOn(parts, pat), pat, repl) == JoinOn(parts, repl)
    decreases |parts|
  {
    if |parts| >= 2 {
      ReplaceJoin(parts[1..], pat, repl);
      ReplaceSplits(parts[0], pat, repl, JoinOn(parts[1..], pat));
    } else if |parts| == 1 {
      ReplaceAbsent(parts[0], pat, repl);
    }
  }

  /** Joining with the empty separator is plain concatenation. */
  lemma {:induction false} JoinOnEmpty(parts: seq<string>)
    ensures JoinOn(parts, "") == Concat(parts)
    decreases |parts|
  {
    if |parts| >= 2 {
      JoinOnEmpty(parts[1..]);
    } else if |parts| == 1 {
      assert Concat(parts[1..]) == "";
    }
  }
}
