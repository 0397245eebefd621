/** Go's `path.Clean` and `path.Join` for slash-separated paths. */
module Paths {
  import opened Strings

  /** A single path element that cleaning leaves alone. */
  predicate Plain(c: string) {
    c != "" && '/' !in c && c != "." && c != ".."
  }

  predicate AllPlain(comps: seq<string>) {
    forall i :: 0 <= i < |comps| ==> Plain(comps[i])
  }

  /** The lexical walk of `path.Clean`: empty and "." elements vanish, ".."
      removes the previous real element, is dropped at the root of a rooted
      path and is kept at the front of a relative one. */
  function Resolve(comps: seq<string>, stack: seq<string>, rooted: bool): seq<string>
    decreases |comps|
  {
    if comps == [] then stack
    else
      var c := comps[0];
      if c == "" || c == "." then Resolve(comps[1..], stack, rooted)
      else if c == ".." then
        if |stack| > 0 && stack[|stack| - 1] != ".." then Resolve(comps[1..], stack[..|stack| - 1], rooted)
        else if rooted then Resolve(comps[1..], stack, rooted)
        else Resolve(comps[1..], stack + [".."], rooted)
      else Resolve(comps[1..], stack + [c], rooted)
  }

  /** `path.Clean`: never empty ("." stands for the empty path), and rooted
      exactly when the input is. */
  function Clean(p: string): (r: string)
    ensures r != ""
    ensures (r[0] == '/') <==> (|p| > 0 && p[0] == '/')
  {
    var rooted := |p| > 0 && p[0] == '/';
    var stack := Resolve(Split(p, '/'), [], rooted);
    var body := JoinWith(stack, '/');
    ResolveNoEmpty(Split(p, '/'), [], rooted);
    if rooted then "/" + body
    else if body == "" then "."
    else
      JoinWithHead(stack, '/');
      body
  }

  /** Resolve never produces an empty element, nor one holding a slash when its
      input does not. */
  lemma {:induction false} ResolveNoEmpty(comps: seq<string>, stack: seq<string>, rooted: bool)
    requires forall i :: 0 <= i < |stack| ==> stack[i] != "" && '/' !in stack[i]
    requires forall i :: 0 <= i < |comps| ==> '/' !in comps[i]
    ensures forall i :: 0 <= i < |Resolve(comps, stack, rooted)| ==>
      Resolve(comps, stack, rooted)[i] != "" && '/' !in Resolve(comps, stack, rooted)[i]
    decreases |comps|
  {
    if comps != [] {
      var c := comps[0];
      assert c == comps[0];
      if c == "" || c == "." {
        ResolveNoEmpty(comps[1..], stack, rooted);
      } else if c == ".." {
        if |stack| > 0 && stack[|stack| - 1] != ".." {
          ResolveNoEmpty(comps[1..], stack[..|stack| - 1], rooted);
        } else if rooted {
          ResolveNoEmpty(comps[1..], stack, rooted);
        } else {
          ResolveNoEmpty(comps[1..], stack + [".."], rooted);
        }
      } else {
        ResolveNoEmpty(comps[1..], stack + [c], rooted);
      }
    }
  }

  /** A join of non-empty, slash-free elements starts with the first element. */
  lemma {:induction false} JoinWithHead(parts: seq<string>, sep: char)
    requires forall i :: 0 <= i < |parts| ==> parts[i] != "" && sep !in parts[i]
    ensures parts != [] ==> JoinWith(parts, sep) != "" && JoinWith(parts, sep)[0] == parts[0][0]
    ensures parts == [] ==> JoinWith(parts, sep) == ""
    ensures sep in JoinWith(parts, sep) ==> |parts| > 1
  {
    if |parts| > 1 {
      JoinWithHead(parts[1..], sep);
      var j := JoinWith(parts, sep);
      assert j == parts[0] + [sep] + JoinWith(parts[1..], sep);
      assert j[0] == parts[0][0];
    }
  }

  /** The buffer loop of `path.Join`: an element is appended (after a slash
      when the buffer is non-empty) unless both it and the buffer are empty. */
  function JoinBuf(elems: seq<string>, buf: string): string
    decreases |elems|
  {
    if elems == [] then buf
    else
      var e := elems[0];
      var buf' := if |buf| > 0 || e != "" then (if |buf| > 0 then buf + "/" else buf) + e else buf;
      JoinBuf(elems[1..], buf')
  }

  /** `path.Join`: "" exactly when every element is empty, the cleaned join
      otherwise. */
  function Join(elems: seq<string>): (r: string)
    ensures r == "" <==> forall i :: 0 <= i < |elems| ==> elems[i] == ""
  {
    if forall i :: 0 <= i < |elems| ==> elems[i] == "" then ""
    else Clean(JoinBuf(elems, ""))
  }

  /** Resolving plain elements just pushes them. */
  lemma {:induction false} ResolvePlain(comps: seq<string>, stack: seq<string>, rooted: bool)
    requires AllPlain(comps)
    ensures Resolve(comps, stack, rooted) == stack + comps
    decreases |comps|
  {
    if comps != [] {
      ResolvePlain(comps[1..], stack + [comps[0]], rooted);
      assert stack + [comps[0]] + comps[1..] == stack + comps;
    }
  }

  /** A relative path made of plain elements is already clean. */
  lemma {:induction false} CleanPlain(comps: seq<string>)
    requires |comps| >= 1 && AllPlain(comps)
    ensures Clean(JoinWith(comps, '/')) == JoinWith(comps, '/')
  {
    var p := JoinWith(comps, '/');
    JoinWithHead(comps, '/');
    SplitJoin(comps, '/');
    ResolvePlain(comps, [], false);
    assert [] + comps == comps;
  }

  /** With a non-empty buffer, joining non-empty elements puts one slash
      between each. */
  lemma {:induction false} JoinBufNonEmpty(elems: seq<string>, buf: string)
    requires buf != ""
    requires forall i :: 0 <= i < |elems| ==> elems[i] != ""
    ensures JoinBuf(elems, buf) == JoinWith([buf] + elems, '/')
    decreases |elems|
  {
    if elems != [] {
      JoinBufNonEmpty(elems[1..], buf + "/" + elems[0]);
      var rest := elems[1..];
      if rest == [] {
        assert ([buf] + elems)[1..] == [elems[0]];
      } else {
        assert ([buf + "/" + elems[0]] + rest)[1..] == rest;
        assert ([buf] + elems)[1..] == [elems[0]] + rest;
        assert ([elems[0]] + rest)[1..] == rest;
      }
    }
  }

  /** `path.Join` of plain elements is the slash-join of them. */
  lemma {:induction false} JoinPlain(comps: seq<string>)
    requires |comps| >= 1 && AllPlain(comps)
    ensures Join(comps) == JoinWith(comps, '/')
  {
    assert Plain(comps[0]);
    assert !(forall i :: 0 <= i < |comps| ==> comps[i] == "");
    JoinBufNonEmpty(comps[1..], comps[0]);
    assert [comps[0]] + comps[1..] == comps;
    assert "" + comps[0] == comps[0];
    assert JoinBuf(comps, "") == JoinBuf(comps[1..], "" + comps[0]);
    var j := JoinWith(comps, '/');
    assert JoinBuf(comps, "") == j;
    CleanPlain(comps);
    assert Join(comps) == Clean(j);
  }
}
