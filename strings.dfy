/**
 * The JavaScript string primitives the core relies on: startsWith, endsWith,
 * indexOf and lastIndexOf of one character, split on one character, join,
 * trim and ASCII lowercasing.  Strings are sequences of UTF-16 code units,
 * which is what `char` stands for here.
 */
module Strings {

  lemma Associative<T>(a: seq<T>, b: seq<T>, c: seq<T>)
    ensures a + (b + c) == (a + b) + c
  {
  }

  /** `s` cut at two positions and put back together. */
  lemma Cut3<T>(s: seq<T>, i: int, j: int)
    requires 0 <= i <= j <= |s|
    ensures s == s[..i] + s[i..j] + s[j..]
  {
    assert s == s[..i] + s[i..];
    assert s[i..] == s[i..j] + s[j..];
  }

  /** A prefix of `a + b` no longer than `a` is a prefix of `a`. */
  lemma PrefixOfJoin<T>(a: seq<T>, b: seq<T>, n: int)
    requires 0 <= n <= |a|
    ensures (a + b)[..n] == a[..n]
  {
  }

  predicate StartsWith(s: string, prefix: string) {
    |prefix| <= |s| && s[..|prefix|] == prefix
  }

  predicate EndsWith(s: string, suffix: string) {
    |suffix| <= |s| && s[|s| - |suffix|..] == suffix
  }

  /** `s.indexOf(c)`: the first position of `c`, or -1 when `c` does not occur. */
  function IndexOf(s: string, c: char): (r: int)
    ensures -1 <= r < |s|
    ensures r == -1 <==> c !in s
    ensures r >= 0 ==> s[r] == c
  {
    if |s| == 0 then -1
    else if s[0] == c then 0
    else
      var k := IndexOf(s[1..], c);
      if k == -1 then -1 else k + 1
  }

  /** No `c` occurs before the position `IndexOf` returns. */
  lemma {:induction false} IndexOfFirst(s: string, c: char)
    ensures IndexOf(s, c) >= 0 ==> c !in s[..IndexOf(s, c)]
  {
    if |s| > 0 && s[0] != c {
      var k := IndexOf(s[1..], c);
      IndexOfFirst(s[1..], c);
      if k >= 0 {
        assert s[..k + 1] == [s[0]] + s[1..][..k];
      }
    }
  }

  /** `s.lastIndexOf(c)`: the last position of `c`, or -1 when `c` does not occur. */
  function LastIndexOf(s: string, c: char): (r: int)
    ensures -1 <= r < |s|
    ensures r == -1 <==> c !in s
    ensures r >= 0 ==> s[r] == c
  {
    if |s| == 0 then -1
    else if s[|s| - 1] == c then |s| - 1
    else
      var init := s[..|s| - 1];
      assert s == init + [s[|s| - 1]];
      LastIndexOf(init, c)
  }

  /** No `c` occurs after the position `LastIndexOf` returns. */
  lemma {:induction false} LastIndexOfLast(s: string, c: char)
    ensures LastIndexOf(s, c) >= 0 ==> c !in s[LastIndexOf(s, c) + 1..]
  {
    if |s| > 0 && s[|s| - 1] != c {
      var init := s[..|s| - 1];
      var k := LastIndexOf(init, c);
      LastIndexOfLast(init, c);
      if k >= 0 {
        assert s[k + 1..] == init[k + 1..] + [s[|s| - 1]];
      }
    }
  }

  /** The pieces of `s` between occurrences of `c`, as `s.split(c)` returns them. */
  function Split(s: string, c: char): (r: seq<string>)
    ensures |r| >= 1
    ensures forall i :: 0 <= i < |r| ==> c !in r[i]
    decreases |s|
  {
    var k := LastIndexOf(s, c);
    LastIndexOfLast(s, c);
    if k == -1 then [s] else Split(s[..k], c) + [s[k + 1..]]
  }

  /** `parts.join(sep)`. */
  function Join(parts: seq<string>, sep: string): string {
    if |parts| == 0 then ""
    else if |parts| == 1 then parts[0]
    else Join(parts[..|parts| - 1], sep) + sep + parts[|parts| - 1]
  }

  /** Joining one more part appends the separator and the part. */
  lemma JoinLast(parts: seq<string>, last: string, sep: string)
    requires |parts| >= 1
    ensures Join(parts + [last], sep) == Join(parts, sep) + sep + last
  {
    assert (parts + [last])[..|parts|] == parts;
  }

  /** Joining two non-empty lists is joining their joins. */
  lemma {:induction false} JoinConcat(a: seq<string>, b: seq<string>, sep: string)
    requires |a| >= 1 && |b| >= 1
    ensures Join(a + b, sep) == Join(a, sep) + sep + Join(b, sep)
    decreases |b|
  {
    if |b| == 1 {
      JoinLast(a, b[0], sep);
      assert a + b == a + [b[0]];
    } else {
      var init := b[..|b| - 1];
      var last := b[|b| - 1];
      var ai := a + init;
      assert a + b == ai + [last];
      assert b == init + [last];
      calc {
        Join(a + b, sep);
        == { JoinLast(ai, last, sep); }
        Join(ai, sep) + sep + last;
        == { JoinConcat(a, init, sep); }
        Join(a, sep) + sep + Join(init, sep) + sep + last;
        == { JoinLast(init, last, sep); }
        Join(a, sep) + sep + Join(b, sep);
      }
    }
  }

  /** A join starts with its first part. */
  lemma {:induction false} JoinStarts(parts: seq<string>, sep: string)
    requires |parts| >= 1
    ensures StartsWith(Join(parts, sep), parts[0])
  {
    if |parts| > 1 {
      var init := parts[..|parts| - 1];
      JoinStarts(init, sep);
      var j := Join(init, sep);
      assert (j + sep + parts[|parts| - 1])[..|parts[0]|] == j[..|parts[0]|];
    }
  }

  lemma {:induction false} JoinSplit(s: string, c: char)
    ensures Join(Split(s, c), [c]) == s
    decreases |s|
  {
    var k := LastIndexOf(s, c);
    if k != -1 {
      var init := Split(s[..k], c);
      var last := s[k + 1..];
      var parts := init + [last];
      assert Split(s, c) == parts;
      JoinSplit(s[..k], c);
      assert parts[..|parts| - 1] == init;
      JoinLast(init, last, [c]);
      assert s == s[..k] + [c] + last;
    }
  }

  /** The last position of `c` in `a + [c] + b` when `b` has none. */
  lemma LastIndexOfAt(a: string, c: char, b: string)
    requires c !in b
    ensures LastIndexOf(a + [c] + b, c) == |a|
  {
    var s := a + [c] + b;
    LastIndexOfLast(s, c);
    var k := LastIndexOf(s, c);
    assert s[|a|] == c;
    assert s[|a| + 1..] == b;
  }

  /** One step of `Split`, cutting `a + [c] + b` at its last separator. */
  lemma SplitLast(a: string, c: char, b: string)
    requires c !in b
    ensures Split(a + [c] + b, c) == Split(a, c) + [b]
  {
    var s := a + [c] + b;
    LastIndexOfAt(a, c, b);
    assert s[..|a|] == a;
    assert s[|a| + 1..] == b;
  }

  /** Splitting at the first occurrence of the separator. */
  lemma {:induction false} SplitAtFirst(a: string, c: char, b: string)
    requires c !in a
    ensures Split(a + [c] + b, c) == [a] + Split(b, c)
    decreases |b|
  {
    var k := LastIndexOf(b, c);
    if k == -1 {
      SplitLast(a, c, b);
    } else {
      var b1, b2 := b[..k], b[k + 1..];
      LastIndexOfLast(b, c);
      var a1 := a + [c] + b1;
      assert b == b1 + [c] + b2;
      assert a + [c] + b == a1 + [c] + b2;
      SplitLast(a1, c, b2);
      SplitAtFirst(a, c, b1);
      SplitLast(b1, c, b2);
    }
  }

  /** What `const [head, ...rest] = s.split(c)` yields: the text before the first
      `c`, and a rest that is non-empty exactly when `c` occurs and that joins
      back to the text after the first `c`. */
  lemma SplitHead(s: string, c: char)
    ensures var k := IndexOf(s, c);
      && Split(s, c)[0] == (if k == -1 then s else s[..k])
      && (|Split(s, c)| > 1 <==> k != -1)
      && (k != -1 ==> Join(Split(s, c)[1..], [c]) == s[k + 1..])
  {
    var k := IndexOf(s, c);
    if k != -1 {
      var before, after := s[..k], s[k + 1..];
      IndexOfFirst(s, c);
      assert s == before + [c] + after;
      SplitAtFirst(before, c, after);
      var parts := Split(s, c);
      assert parts == [before] + Split(after, c);
      assert parts[1..] == Split(after, c);
      JoinSplit(after, c);
    } else {
      assert Split(s, c) == [s];
    }
  }

  /** Whitespace and line terminators as String.prototype.trim removes them. */
  const Whitespace: set<char> := {
    '\t', '\n', '\U{000B}', '\U{000C}', '\r', ' ', '\U{00A0}', '\U{1680}',
    '\U{2000}', '\U{2001}', '\U{2002}', '\U{2003}', '\U{2004}', '\U{2005}',
    '\U{2006}', '\U{2007}', '\U{2008}', '\U{2009}', '\U{200A}',
    '\U{2028}', '\U{2029}', '\U{202F}', '\U{205F}', '\U{3000}', '\U{FEFF}'
  }

  /** The number of leading whitespace characters of `s`. */
  function LeadingSpace(s: string): (i: nat)
    ensures i <= |s|
    ensures forall k :: 0 <= k < i ==> s[k] in Whitespace
    ensures i < |s| ==> s[i] !in Whitespace
  {
    if |s| > 0 && s[0] in Whitespace then 1 + LeadingSpace(s[1..]) else 0
  }

  /** The length of `s` without its trailing whitespace. */
  function TrailingStart(s: string): (j: nat)
    ensures j <= |s|
    ensures forall k :: j <= k < |s| ==> s[k] in Whitespace
    ensures j > 0 ==> s[j - 1] !in Whitespace
  {
    if |s| > 0 && s[|s| - 1] in Whitespace then TrailingStart(s[..|s| - 1]) else |s|
  }

  /** `s.trim()`: `s` without its leading and trailing whitespace. */
  function Trim(s: string): (r: string)
    ensures exists i, j :: (0 <= i <= j <= |s| && r == s[i..j] &&
      (forall k :: 0 <= k < i ==> s[k] in Whitespace) &&
      (forall k :: j <= k < |s| ==> s[k] in Whitespace))
    ensures r == [] || (r[0] !in Whitespace && r[|r| - 1] !in Whitespace)
  {
    var i := LeadingSpace(s);
    var t := s[i..];
    var j := TrailingStart(t);
    assert t[..j] == s[i..i + j];
    assert forall k :: i + j <= k < |s| ==> s[k] in Whitespace by {
      forall k | i + j <= k < |s| ensures s[k] in Whitespace {
        assert s[k] == t[k - i];
      }
    }
    assert 0 <= i <= i + j <= |s| && t[..j] == s[i..i + j];
    t[..j]
  }

  /** A string that is already trimmed is left unchanged. */
  lemma TrimFixes(s: string)
    requires s == [] || (s[0] !in Whitespace && s[|s| - 1] !in Whitespace)
    ensures Trim(s) == s
  {
    assert LeadingSpace(s) == 0;
    assert s[0..] == s;
    assert s[..|s|] == s;
  }

  function LowerChar(ch: char): char {
    if 'A' <= ch <= 'Z' then (ch as int + 32) as char else ch
  }

  /** `s.toLowerCase()` on text made of ASCII letters, digits and punctuation. */
  function Lower(s: string): (r: string)
    ensures |r| == |s|
    ensures forall i :: 0 <= i < |s| ==> r[i] == LowerChar(s[i])
  {
    seq(|s|, i requires 0 <= i < |s| => LowerChar(s[i]))
  }
}
