/** The few operations of Go's `strings` package that the model needs. */
module Strings {

  /** `strings.Join(parts, string(sep))`. */
  function JoinWith(parts: seq<string>, sep: char): string
    decreases |parts|
  {
    if |parts| == 0 then ""
    else if |parts| == 1 then parts[0]
    else parts[0] + [sep] + JoinWith(parts[1..], sep)
  }

  /** `strings.Split(s, string(sep))`: the pieces between separators; always at
      least one piece, none of them holding the separator, and joining them back
      gives `s`. */
  function Split(s: string, sep: char): (parts: seq<string>)
    ensures |parts| >= 1
    ensures forall i :: 0 <= i < |parts| ==> sep !in parts[i]
    ensures JoinWith(parts, sep) == s
  {
    if |s| == 0 then [""]
    else
      var rest := Split(s[1..], sep);
      if s[0] == sep then
        assert ([""] + rest)[1..] == rest;
        [""] + rest
      else
        var parts := [[s[0]] + rest[0]] + rest[1..];
        assert |rest| > 1 ==> JoinWith(rest, sep) == rest[0] + [sep] + JoinWith(rest[1..], sep);
        assert |rest| > 1 ==> parts[1..] == rest[1..];
        assert s == [s[0]] + s[1..];
        parts
  }

  /** Splitting at the first separator peels off the first piece. */
  lemma {:induction false} SplitCons(a: string, sep: char, b: string)
    requires sep !in a
    ensures Split(a + [sep] + b, sep) == [a] + Split(b, sep)
  {
    if a != [] {
      var s := a + [sep] + b;
      assert s[1..] == a[1..] + [sep] + b;
      SplitCons(a[1..], sep, b);
      assert [s[0]] + a[1..] == a;
    } else {
      assert (a + [sep] + b)[1..] == b;
    }
  }

  /** A string without the separator is one piece. */
  lemma {:induction false} SplitSingle(a: string, sep: char)
    requires sep !in a
    ensures Split(a, sep) == [a]
  {
    if a != [] {
      SplitSingle(a[1..], sep);
      assert [a[0]] + a[1..] == a;
    }
  }

  /** Split is the inverse of JoinWith on pieces free of the separator. */
  lemma {:induction false} SplitJoin(parts: seq<string>, sep: char)
    requires |parts| >= 1
    requires forall i :: 0 <= i < |parts| ==> sep !in parts[i]
    ensures Split(JoinWith(parts, sep), sep) == parts
  {
    if |parts| == 1 {
      SplitSingle(parts[0], sep);
    } else {
      SplitJoin(parts[1..], sep);
      SplitCons(parts[0], sep, JoinWith(parts[1..], sep));
      assert [parts[0]] + parts[1..] == parts;
    }
  }

  /** Joining `xs + ys` is joining `ys` onto the join of `xs`. */
  lemma {:induction false} JoinWithPrefix(xs: seq<string>, ys: seq<string>, sep: char)
    requires |xs| >= 1
    ensures JoinWith(xs + ys, sep) == JoinWith([JoinWith(xs, sep)] + ys, sep)
  {
    if |xs| > 1 {
      JoinWithPrefix(xs[1..], ys, sep);
      assert (xs + ys)[1..] == xs[1..] + ys;
      var j1 := JoinWith(xs[1..], sep);
      if ys != [] {
        assert ([j1] + ys)[1..] == ys;
        assert ([xs[0] + [sep] + j1] + ys)[1..] == ys;
      }
    } else {
      assert xs == [xs[0]];
    }
  }

  /** `strings.HasPrefix`. */
  predicate HasPrefix(s: string, prefix: string) {
    |prefix| <= |s| && s[..|prefix|] == prefix
  }

  /** `strings.ContainsAny(s, chars)`, scanning `s` from the front. */
  predicate ContainsAny(s: string, chars: string)
    decreases |s|
  {
    |s| > 0 && (s[0] in chars || ContainsAny(s[1..], chars))
  }

  /** ContainsAny holds exactly when some character of `s` is one of `chars`. */
  lemma {:induction false} ContainsAnyIn(s: string, chars: string)
    ensures ContainsAny(s, chars) <==> exists i :: 0 <= i < |s| && s[i] in chars
    decreases |s|
  {
    if |s| > 0 {
      ContainsAnyIn(s[1..], chars);
      if !(s[0] in chars) && (exists i :: 0 <= i < |s| && s[i] in chars) {
        var i :| 0 <= i < |s| && s[i] in chars;
        assert s[1..][i - 1] in chars;
      }
    }
  }

  /** `unicode.IsSpace`: the Latin-1 spaces and the Unicode White_Space set. */
  predicate IsSpace(c: char) {
    c == ' ' || c == '\t' || c == '\n' || c == '\r' || c == '\U{000B}' || c == '\U{000C}'
    || c == '\U{0085}' || c == '\U{00A0}' || c == '\U{1680}' || ('\U{2000}' <= c <= '\U{200A}')
    || c == '\U{2028}' || c == '\U{2029}' || c == '\U{202F}' || c == '\U{205F}' || c == '\U{3000}'
  }

  /** Drops the leading white space. */
  function TrimLeft(s: string): string {
    if |s| > 0 && IsSpace(s[0]) then TrimLeft(s[1..]) else s
  }

  /** What TrimLeft keeps is a suffix of `s` that does not start with a
      space, and everything it drops is a space. */
  lemma {:induction false} TrimLeftSuffix(s: string)
    ensures var r := TrimLeft(s);
      |r| <= |s| && r == s[|s| - |r|..] && (r == [] || !IsSpace(r[0]))
      && forall i :: 0 <= i < |s| - |r| ==> IsSpace(s[i])
  {
    if |s| > 0 && IsSpace(s[0]) {
      TrimLeftSuffix(s[1..]);
    }
  }

  /** Drops the trailing white space. */
  function TrimRight(s: string): string {
    if |s| > 0 && IsSpace(s[|s| - 1]) then TrimRight(s[..|s| - 1]) else s
  }

  /** What TrimRight keeps is a prefix of `s` that does not end with a
      space, and everything it drops is a space. */
  lemma {:induction false} TrimRightPrefix(s: string)
    ensures var r := TrimRight(s);
      |r| <= |s| && r == s[..|r|] && (r == [] || !IsSpace(r[|r| - 1]))
      && forall i :: |r| <= i < |s| ==> IsSpace(s[i])
  {
    if |s| > 0 && IsSpace(s[|s| - 1]) {
      TrimRightPrefix(s[..|s| - 1]);
    }
  }

  /** `strings.TrimSpace`: white space removed at both ends. */
  function TrimSpace(s: string): string {
    TrimRight(TrimLeft(s))
  }

  /** TrimSpace leaves nothing exactly when `s` is all white space. */
  lemma TrimSpaceEmpty(s: string)
    ensures TrimSpace(s) == [] <==> forall i :: 0 <= i < |s| ==> IsSpace(s[i])
  {
    TrimSpaceSlice(s);
  }

  /** Where the text TrimSpace keeps starts. */
  function TrimStart(s: string): nat {
    TrimLeftSuffix(s);
    |s| - |TrimLeft(s)|
  }

  /** What TrimSpace keeps is the slice of `s` starting at TrimStart, and
      everything around that slice is white space. */
  lemma TrimSpaceSlice(s: string)
    ensures TrimStart(s) + |TrimSpace(s)| <= |s|
    ensures TrimSpace(s) == s[TrimStart(s)..TrimStart(s) + |TrimSpace(s)|]
    ensures TrimSpace(s) == [] || (!IsSpace(TrimSpace(s)[0]) && !IsSpace(TrimSpace(s)[|TrimSpace(s)| - 1]))
    ensures forall k :: 0 <= k < TrimStart(s) ==> IsSpace(s[k])
    ensures forall k :: TrimStart(s) + |TrimSpace(s)| <= k < |s| ==> IsSpace(s[k])
  {
    var left := TrimLeft(s);
    var r := TrimRight(left);
    TrimLeftSuffix(s);
    TrimRightPrefix(left);
    var i := |s| - |left|;
    assert TrimSpace(s) == r && TrimStart(s) == i;
    assert r == s[i..i + |r|] by {
      assert left == s[i..] && r == left[..|r|];
    }
    forall k | i + |r| <= k < |s|
      ensures IsSpace(s[k])
    {
      assert s[k] == left[k - i];
    }
  }

  /** Trimming removes only white space: a character that is not a space
      occurs in the trimmed text exactly when it occurs in the original. */
  lemma TrimSpaceKeeps(s: string, c: char)
    requires !IsSpace(c)
    ensures c in TrimSpace(s) <==> c in s
  {
    var left := TrimLeft(s);
    var r := TrimRight(left);
    TrimLeftSuffix(s);
    TrimRightPrefix(left);
    assert TrimSpace(s) == r;
    if c in s {
      var k :| 0 <= k < |s| && s[k] == c;
      var i := k - (|s| - |left|);
      assert left[i] == c;
      assert r[i] == c;
    }
    if c in r {
      var k :| 0 <= k < |r| && r[k] == c;
      assert left[k] == c;
      assert s[k + |s| - |left|] == c;
    }
  }
}
