/**
  The few Python `str` operations the filename parser uses: `isspace`,
  `strip`, `lstrip(chars)`, `replace`, `endswith` and `split(sep)`.
 */
module Text {

  /**
    Python's `str.isspace` for a single character: the ASCII tab, line feed,
    vertical tab, form feed, carriage return and space, the four information
    separators U+001C..U+001F, and the Unicode spaces and line/paragraph
    separators.
   */
  predicate IsSpace(c: char) {
    || c == ' '
    || '\t' <= c <= '\r'
    || '\U{1C}' <= c <= '\U{1F}'
    || c == '\U{85}'
    || c == '\U{A0}'
    || c == '\U{1680}'
    || '\U{2000}' <= c <= '\U{200A}'
    || c == '\U{2028}'
    || c == '\U{2029}'
    || c == '\U{202F}'
    || c == '\U{205F}'
    || c == '\U{3000}'
  }

  predicate EndsWith(s: string, suffix: string) {
    |suffix| <= |s| && s[|s| - |suffix|..] == suffix
  }

  /** Removes the longest prefix of whitespace, as `s.lstrip()` does. */
  function LStripSpace(s: string): (r: string)
    ensures |r| <= |s| && r == s[|s| - |r|..]
    ensures forall k :: 0 <= k < |s| - |r| ==> IsSpace(s[k])
    ensures |r| > 0 ==> !IsSpace(r[0])
  {
    if |s| > 0 && IsSpace(s[0]) then LStripSpace(s[1..]) else s
  }

  /** Removes the longest suffix of whitespace, as `s.rstrip()` does. */
  function RStripSpace(s: string): (r: string)
    ensures |r| <= |s| && r == s[..|r|]
    ensures forall k :: |r| <= k < |s| ==> IsSpace(s[k])
    ensures |r| > 0 ==> !IsSpace(r[|r| - 1])
  {
    if |s| > 0 && IsSpace(s[|s| - 1]) then RStripSpace(s[..|s| - 1]) else s
  }

  /** `s.lstrip(c)`: removes the longest prefix made only of the character `c`. */
  function LStripChar(s: string, c: char): (r: string)
    ensures |r| <= |s| && r == s[|s| - |r|..]
    ensures forall k :: 0 <= k < |s| - |r| ==> s[k] == c
    ensures |r| > 0 ==> r[0] != c
  {
    if |s| > 0 && s[0] == c then LStripChar(s[1..], c) else s
  }

  /** `t` is what is left of `s` once leading and trailing whitespace are cut, starting at `i`. */
  predicate IsStripAt(s: string, t: string, i: nat) {
    && i + |t| <= |s|
    && t == s[i..i + |t|]
    && (forall k :: 0 <= k < i ==> IsSpace(s[k]))
    && (forall k :: i + |t| <= k < |s| ==> IsSpace(s[k]))
    && (|t| > 0 ==> !IsSpace(t[0]) && !IsSpace(t[|t| - 1]))
  }

  /** Python's `s.strip()`: whitespace removed from both ends. */
  function Strip(s: string): (r: string)
    ensures |r| <= |s|
  {
    RStripSpace(LStripSpace(s))
  }

  /** `Strip` cuts exactly the leading and the trailing whitespace. */
  lemma StripSpec(s: string)
    ensures IsStripAt(s, Strip(s), |s| - |LStripSpace(s)|)
  {
    StripSlice(s);
    StripTrailing(s);
    StripEnds(s);
  }

  /** What `Strip` keeps is the slice of `s` that starts where the leading whitespace ends. */
  lemma StripSlice(s: string)
    ensures |s| - |LStripSpace(s)| + |Strip(s)| <= |s|
    ensures Strip(s) == s[|s| - |LStripSpace(s)|..|s| - |LStripSpace(s)| + |Strip(s)|]
  {
    var l := LStripSpace(s);
    var r := RStripSpace(l);
    var i := |s| - |l|;
    assert l == s[i..];
    assert r == l[..|r|];
    SliceOfSuffix(s, i, |r|);
  }

  lemma SliceOfSuffix(s: string, i: nat, n: nat)
    requires i + n <= |s|
    ensures s[i..][..n] == s[i..i + n]
  {
  }

  /** Everything after what `Strip` keeps is whitespace. */
  lemma StripTrailing(s: string)
    ensures forall k :: |s| - |LStripSpace(s)| + |Strip(s)| <= k < |s| ==> IsSpace(s[k])
  {
    var l := LStripSpace(s);
    var i := |s| - |l|;
    assert forall k :: i <= k < |s| ==> s[k] == l[k - i];
  }

  /** What `Strip` keeps neither starts nor ends with whitespace. */
  lemma StripEnds(s: string)
    ensures |Strip(s)| > 0 ==> !IsSpace(Strip(s)[0]) && !IsSpace(Strip(s)[|Strip(s)| - 1])
  {
    var l := LStripSpace(s);
    var r := RStripSpace(l);
    assert |r| > 0 ==> r[0] == l[0];
  }

  /** At most one string is `s` with its surrounding whitespace cut, so `Strip` computes exactly that. */
  lemma StripUnique(s: string, t: string, i: nat)
    requires IsStripAt(s, t, i)
    ensures t == Strip(s)
  {
    var j := |s| - |LStripSpace(s)|;
    var u := Strip(s);
    StripSpec(s);
    if |t| > 0 && |u| > 0 {
      assert s[i] == t[0] && s[j] == u[0];
      assert s[i + |t| - 1] == t[|t| - 1] && s[j + |u| - 1] == u[|u| - 1];
    }
  }

  /** Python's `s.replace(a, b)` for single characters. */
  function ReplaceChar(s: string, a: char, b: char): (r: string)
    ensures |r| == |s|
    ensures forall k :: 0 <= k < |s| ==> r[k] == (if s[k] == a then b else s[k])
    ensures a != b ==> a !in r
  {
    if s == [] then [] else [if s[0] == a then b else s[0]] + ReplaceChar(s[1..], a, b)
  }

  /** Python's `s.split(sep)` for a single-character separator. */
  function Split(s: string, sep: char): (parts: seq<string>)
    ensures |parts| >= 1
    ensures forall i :: 0 <= i < |parts| ==> sep !in parts[i]
    ensures Join(parts, sep) == s
  {
    if s == [] then [""]
    else
      var rest := Split(s[1..], sep);
      if s[0] == sep then
        assert ([""] + rest)[1..] == rest;
        [""] + rest
      else
        var parts := [[s[0]] + rest[0]] + rest[1..];
        assert parts[1..] == rest[1..];
        assert s == [s[0]] + s[1..];
        parts
  }

  /** `sep.join(parts)`, the inverse of `Split`. */
  function Join(parts: seq<string>, sep: char): string
    requires |parts| >= 1
  {
    if |parts| == 1 then parts[0] else parts[0] + [sep] + Join(parts[1..], sep)
  }

  /** Splitting a join of separator-free parts gives the parts back. */
  lemma {:induction false} SplitJoin(parts: seq<string>, sep: char)
    requires |parts| >= 1
    requires forall i :: 0 <= i < |parts| ==> sep !in parts[i]
    ensures Split(Join(parts, sep), sep) == parts
  {
    if |parts| == 1 {
      SplitNoSeparator(parts[0], sep);
    } else {
      SplitJoin(parts[1..], sep);
      SplitPrefix(parts[0], Join(parts[1..], sep), sep);
      assert parts == [parts[0]] + parts[1..];
    }
  }

  /** A string without the separator splits into itself. */
  lemma {:induction false} SplitNoSeparator(s: string, sep: char)
    requires sep !in s
    ensures Split(s, sep) == [s]
  {
    if s != [] {
      SplitNoSeparator(s[1..], sep);
      assert s == [s[0]] + s[1..];
    }
  }

  /** Splitting `p + [sep] + q` for a separator-free `p`. */
  lemma {:induction false} SplitPrefix(p: string, q: string, sep: char)
    requires sep !in p
    ensures Split(p + [sep] + q, sep) == [p] + Split(q, sep)
  {
    if p == [] {
      assert p + [sep] + q == [sep] + q;
      assert ([sep] + q)[1..] == q;
    } else {
      var s := p + [sep] + q;
      assert s[1..] == p[1..] + [sep] + q;
      SplitPrefix(p[1..], q, sep);
      assert [p[0]] + p[1..] == p;
    }
  }

  /** `Join` peeled from the right end. */
  lemma {:induction false} JoinLast(parts: seq<string>, sep: char)
    requires |parts| >= 2
    ensures Join(parts, sep) == Join(parts[..|parts| - 1], sep) + [sep] + parts[|parts| - 1]
  {
    if |parts| > 2 {
      JoinLast(parts[1..], sep);
      assert parts[1..][..|parts| - 2] == parts[..|parts| - 1][1..];
    }
  }

  /**
    `s.split(sep)[-1]`: the text after the last separator, or all of `s` when
    it holds none.
   */
  function LastSegment(s: string, sep: char): (r: string)
    ensures sep !in r
    ensures EndsWith(s, r)
    ensures |r| == |s| || s[|s| - |r| - 1] == sep
  {
    var parts := Split(s, sep);
    if |parts| >= 2 then JoinLast(parts, sep); parts[|parts| - 1]
    else parts[|parts| - 1]
  }

  /** A suffix without the separator survives taking the last segment. */
  lemma LastSegmentKeepsSuffix(s: string, suffix: string, sep: char)
    requires EndsWith(s, suffix) && sep !in suffix
    ensures EndsWith(LastSegment(s, sep), suffix)
  {
    var r := LastSegment(s, sep);
    assert |suffix| <= |r|;
    assert r == s[|s| - |r|..];
    assert r[|r| - |suffix|..] == s[|s| - |suffix|..];
  }
}
