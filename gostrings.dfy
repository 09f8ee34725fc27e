/** The functions of Go's `strings` package that the window parser calls,
    for single-character separators and cut sets. Strings are sequences of
    Unicode scalar values, so Go's handling of invalid UTF-8 does not arise. */
module GoStrings {

  /** First position of `c` in `s`, or `|s|` when `c` does not occur. */
  function IndexOf(s: string, c: char): (i: nat)
    ensures i <= |s|
    ensures i < |s| ==> s[i] == c
    ensures forall j :: 0 <= j < i ==> s[j] != c
  {
    if s == [] || s[0] == c then 0 else 1 + IndexOf(s[1..], c)
  }

  /** The first `c` of a concatenation is the first in its left part, or
      else the first in its right part. */
  lemma IndexOfAppend(a: string, b: string, c: char)
    ensures IndexOf(a + b, c) == if c in a then IndexOf(a, c) else |a| + IndexOf(b, c)
  {
    var s := a + b;
    var i, j := IndexOf(s, c), IndexOf(a, c);
    assert forall k :: 0 <= k < |a| ==> s[k] == a[k];
    assert forall k :: 0 <= k < |b| ==> s[|a| + k] == b[k];
    if c in a {
      var k :| 0 <= k < |a| && a[k] == c;
      assert j <= k;
    } else {
      var m := IndexOf(b, c);
      if m < |b| {
        assert s[|a| + m] == c;
      }
    }
  }

  /** `strings.Join(parts, string(sep))`. */
  function Join(parts: seq<string>, sep: char): string
  {
    if |parts| == 0 then ""
    else if |parts| == 1 then parts[0]
    else parts[0] + [sep] + Join(parts[1..], sep)
  }

  /** `strings.Split(s, string(sep))`: the pieces between the occurrences of
      `sep`, so there is always one more piece than there are separators. */
  function Split(s: string, sep: char): (parts: seq<string>)
    ensures |parts| >= 1
    ensures forall i :: 0 <= i < |parts| ==> sep !in parts[i]
    decreases |s|
  {
    var i := IndexOf(s, sep);
    if i == |s| then [s] else [s[..i]] + Split(s[i + 1..], sep)
  }

  /** A string splits into more than one piece exactly when it holds the separator. */
  lemma SplitCount(s: string, sep: char)
    ensures |Split(s, sep)| == 1 <==> sep !in s
  {
    var i := IndexOf(s, sep);
    if sep in s {
      var j :| 0 <= j < |s| && s[j] == sep;
      assert i <= j;
    }
  }

  /** Join undoes Split. */
  lemma {:induction false} JoinSplit(s: string, sep: char)
    ensures Join(Split(s, sep), sep) == s
    decreases |s|
  {
    var i := IndexOf(s, sep);
    if i < |s| {
      var rest := Split(s[i + 1..], sep);
      var parts := [s[..i]] + rest;
      assert Split(s, sep) == parts;
      assert parts[0] == s[..i] && parts[1..] == rest && |parts| > 1;
      JoinSplit(s[i + 1..], sep);
      assert Join(parts, sep) == s[..i] + [sep] + Join(rest, sep);
      assert s == s[..i] + [sep] + s[i + 1..];
    }
  }

  /** A string holding `c` is cut around the first one. */
  lemma CutAt(s: string, c: char)
    requires c in s
    ensures IndexOf(s, c) < |s|
    ensures s == s[..IndexOf(s, c)] + [c] + s[IndexOf(s, c) + 1..]
    ensures c !in s[..IndexOf(s, c)]
  {
    var j :| 0 <= j < |s| && s[j] == c;
    var i := IndexOf(s, c);
    assert i <= j;
    assert s == s[..i] + [s[i]] + s[i + 1..];
  }

  /** Splitting at the first separator peels off the text before it. */
  lemma SplitAt(a: string, sep: char, b: string)
    requires sep !in a
    ensures Split(a + [sep] + b, sep) == [a] + Split(b, sep)
  {
    var s := a + [sep] + b;
    var i := IndexOf(s, sep);
    assert s[|a|] == sep;
    assert forall j :: 0 <= j < |a| ==> s[j] == a[j];
    assert s[..i] == a;
    assert s[i + 1..] == b;
  }

  /** Split undoes Join when no piece holds the separator. */
  lemma {:induction false} SplitJoin(parts: seq<string>, sep: char)
    requires |parts| >= 1
    requires forall i :: 0 <= i < |parts| ==> sep !in parts[i]
    ensures Split(Join(parts, sep), sep) == parts
    decreases |parts|
  {
    if |parts| > 1 {
      SplitAt(parts[0], sep, Join(parts[1..], sep));
      SplitJoin(parts[1..], sep);
      assert [parts[0]] + parts[1..] == parts;
    }
  }

  /** A joined string holds only the separator and the pieces' characters. */
  lemma {:induction false} JoinAvoids(parts: seq<string>, sep: char, c: char)
    requires c != sep
    requires forall i :: 0 <= i < |parts| ==> c !in parts[i]
    ensures c !in Join(parts, sep)
    decreases |parts|
  {
    if |parts| > 1 {
      JoinAvoids(parts[1..], sep, c);
    }
  }

  /** `strings.TrimLeft(s, cut)`: drops the longest prefix made of `cut`. */
  function TrimLeft(s: string, cut: set<char>): string
  {
    if s != [] && s[0] in cut then TrimLeft(s[1..], cut) else s
  }

  /** `strings.TrimRight(s, cut)`: drops the longest suffix made of `cut`. */
  function TrimRight(s: string, cut: set<char>): string
  {
    if s != [] && s[|s| - 1] in cut then TrimRight(s[..|s| - 1], cut) else s
  }

  lemma {:induction false} TrimLeftPrefix(pre: string, t: string, cut: set<char>)
    requires forall i :: 0 <= i < |pre| ==> pre[i] in cut
    requires t != [] ==> t[0] !in cut
    ensures TrimLeft(pre + t, cut) == t
  {
    if pre == [] {
      assert pre + t == t;
    } else {
      assert (pre + t)[0] == pre[0] && (pre + t)[1..] == pre[1..] + t;
      TrimLeftPrefix(pre[1..], t, cut);
    }
  }

  lemma {:induction false} TrimRightSuffix(t: string, post: string, cut: set<char>)
    requires forall i :: 0 <= i < |post| ==> post[i] in cut
    requires t != [] ==> t[|t| - 1] !in cut
    ensures TrimRight(t + post, cut) == t
    decreases |post|
  {
    if post == [] {
      assert t + post == t;
    } else {
      var tp := t + post;
      assert tp[|tp| - 1] == post[|post| - 1];
      assert tp[..|tp| - 1] == t + post[..|post| - 1];
      TrimRightSuffix(t, post[..|post| - 1], cut);
    }
  }

  /** `strings.Trim(s, cut)`: both ends. */
  function Trim(s: string, cut: set<char>): string
  {
    TrimRight(TrimLeft(s, cut), cut)
  }

  /** TrimLeft drops a prefix of cut characters and stops at one outside the set. */
  lemma {:induction false} TrimLeftDrops(s: string, cut: set<char>)
    ensures var r := TrimLeft(s, cut);
      |r| <= |s| && r == s[|s| - |r|..] && (r != [] ==> r[0] !in cut) &&
      forall i :: 0 <= i < |s| - |r| ==> s[i] in cut
  {
    if s != [] && s[0] in cut {
      TrimLeftDrops(s[1..], cut);
    }
  }

  /** TrimRight drops a suffix of cut characters and stops at one outside the set. */
  lemma {:induction false} TrimRightDrops(s: string, cut: set<char>)
    ensures var r := TrimRight(s, cut);
      |r| <= |s| && r == s[..|r|] && (r != [] ==> r[|r| - 1] !in cut) &&
      forall i :: |r| <= i < |s| ==> s[i] in cut
    decreases |s|
  {
    if s != [] && s[|s| - 1] in cut {
      TrimRightDrops(s[..|s| - 1], cut);
    }
  }

  /** Trim keeps a slice of the string, starting where TrimLeft stopped,
      drops only cut characters around it, and leaves no cut character at
      either end. */
  lemma TrimEnds(s: string, cut: set<char>)
    ensures var r := Trim(s, cut);
      var i := |s| - |TrimLeft(s, cut)|;
      && (r != [] ==> r[0] !in cut && r[|r| - 1] !in cut)
      && 0 <= i <= |s| - |r| && r == s[i..i + |r|]
      && (forall k :: 0 <= k < i ==> s[k] in cut)
      && (forall k :: i + |r| <= k < |s| ==> s[k] in cut)
  {
    var l := TrimLeft(s, cut);
    TrimLeftDrops(s, cut);
    TrimRightDrops(l, cut);
    var r := TrimRight(l, cut);
    var i := |s| - |l|;
    assert r == s[i..i + |r|];
    assert forall k :: i + |r| <= k < |s| ==> s[k] == l[k - i];
  }

  /** Trim leaves alone a string that has no cut character at either end. */
  lemma TrimFixed(s: string, cut: set<char>)
    ensures (s == [] || (s[0] !in cut && s[|s| - 1] !in cut)) ==> Trim(s, cut) == s
  {
    if s == [] || (s[0] !in cut && s[|s| - 1] !in cut) {
      TrimAround([], s, [], cut);
      assert [] + s + [] == s;
    }
  }

  /** The characters `unicode.IsSpace` accepts: the Latin-1 spaces and the
      other code points with Unicode's White_Space property. */
  const Space: set<char> := {
    '\t', '\n', '\U{000B}', '\U{000C}', '\r', ' ', '\U{0085}', '\U{00A0}',
    '\U{1680}', '\U{2000}', '\U{2001}', '\U{2002}', '\U{2003}', '\U{2004}',
    '\U{2005}', '\U{2006}', '\U{2007}', '\U{2008}', '\U{2009}', '\U{200A}',
    '\U{2028}', '\U{2029}', '\U{202F}', '\U{205F}', '\U{3000}'
  }

  /** `strings.TrimSpace(s)`. */
  function TrimSpace(s: string): (r: string)
    ensures r != [] ==> r[0] !in Space && r[|r| - 1] !in Space
    ensures (s == [] || (s[0] !in Space && s[|s| - 1] !in Space)) ==> r == s
  {
    TrimEnds(s, Space);
    TrimFixed(s, Space);
    Trim(s, Space)
  }

  /** Trim takes away exactly the cut characters around a string whose own
      ends are outside the cut set. */
  lemma TrimAround(pre: string, s: string, post: string, cut: set<char>)
    requires forall i :: 0 <= i < |pre| ==> pre[i] in cut
    requires forall i :: 0 <= i < |post| ==> post[i] in cut
    requires s != [] ==> s[0] !in cut && s[|s| - 1] !in cut
    ensures Trim(pre + s + post, cut) == s
  {
    if s == [] {
      var pp := pre + post;
      assert pre + s + post == pp + [];
      assert forall i :: |pre| <= i < |pp| ==> pp[i] == post[i - |pre|];
      TrimLeftPrefix(pp, [], cut);
    } else {
      assert pre + s + post == pre + (s + post);
      assert (s + post)[0] == s[0];
      TrimLeftPrefix(pre, s + post, cut);
      TrimRightSuffix(s, post, cut);
    }
  }

}
