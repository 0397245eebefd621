/** Image references: the `Ref` record, its canonical rendering
    `registry/repository[:tag][@digest]`, and a reader for that rendering. */
module Reference {
  import opened Wrappers

  /** A parsed reference; `reference` keeps the raw input text. */
  datatype Ref = Ref(reference: string, registry: string, repository: string, tag: string, digest: string)

  /** What the external name normaliser reports for a reference string:
      domain, path, and the tag and digest when present. */
  datatype Named = Named(domain: string, path: string, tag: Option<string>, digest: Option<string>)

  /** `NewRef`: the raw text is kept; on success the four fields come from the
      normaliser, a missing tag or digest becoming the empty string. */
  function NewRef<E>(text: string, normalize: string -> Result<Named, E>): (r: Result<Ref, E>)
    ensures normalize(text).Err? <==> r.Err?
    ensures r.Err? ==> r.error == normalize(text).error
    ensures r.Ok? ==> (
      && r.value.reference == text
      && r.value.registry == normalize(text).value.domain
      && r.value.repository == normalize(text).value.path
      && r.value.tag == (if normalize(text).value.tag.Some? then normalize(text).value.tag.value else "")
      && r.value.digest == (if normalize(text).value.digest.Some? then normalize(text).value.digest.value else ""))
  {
    match normalize(text)
    case Err(e) => Err(e)
    case Ok(n) =>
      Ok(Ref(text, n.domain, n.path,
             if n.tag.Some? then n.tag.value else "",
             if n.digest.Some? then n.digest.value else ""))
  }

  /** `Ref.CommonName`: empty whenever the repository is empty; otherwise the
      repository, preceded by the registry and a slash when there is a registry,
      followed by ":tag" and "@digest" for whichever are set. */
  function CommonName(r: Ref): (cn: string)
    ensures r.repository == "" ==> cn == ""
    ensures r.repository != "" ==> (
      |cn| == (if r.registry != "" then |r.registry| + 1 else 0) + |r.repository|
        + (if r.tag != "" then |r.tag| + 1 else 0) + (if r.digest != "" then |r.digest| + 1 else 0))
  {
    var cn := if r.registry != "" then r.registry + "/" else "";
    if r.repository == "" then ""
    else
      var cn := cn + r.repository;
      var cn := if r.tag != "" then cn + ":" + r.tag else cn;
      if r.digest != "" then cn + "@" + r.digest else cn
  }

  /** Cuts `s` at its last `c`: absent exactly when `c` does not occur, and
      otherwise the part after the cut is free of `c`. */
  function SplitLast(s: string, c: char): (r: Option<(string, string)>)
    ensures r.None? <==> c !in s
    ensures r.Some? ==> s == r.value.0 + [c] + r.value.1 && c !in r.value.1
  {
    if |s| == 0 then None
    else if s[|s| - 1] == c then
      assert s == s[..|s| - 1] + [c] + "";
      Some((s[..|s| - 1], ""))
    else
      assert s == s[..|s| - 1] + [s[|s| - 1]];
      match SplitLast(s[..|s| - 1], c)
      case None => None
      case Some((a, b)) => Some((a, b + [s[|s| - 1]]))
  }

  /** Cuts `s` at its first `c`: absent exactly when `c` does not occur, and
      otherwise the part before the cut is free of `c`. */
  function SplitFirst(s: string, c: char): (r: Option<(string, string)>)
    ensures r.None? <==> c !in s
    ensures r.Some? ==> s == r.value.0 + [c] + r.value.1 && c !in r.value.0
  {
    if |s| == 0 then None
    else if s[0] == c then
      assert s == "" + [c] + s[1..];
      Some(("", s[1..]))
    else
      assert s == [s[0]] + s[1..];
      match SplitFirst(s[1..], c)
      case None => None
      case Some((a, b)) => Some(([s[0]] + a, b))
  }

  /** There is only one way to write `s` as `a + [c] + b` with `c` not in `b`. */
  lemma SplitLastUnique(s: string, c: char, a: string, b: string)
    requires s == a + [c] + b && c !in b
    ensures SplitLast(s, c) == Some((a, b))
  {
    var r := SplitLast(s, c);
    assert s[|a|] == c;
    var a', b' := r.value.0, r.value.1;
    assert s[|a'|] == c;
    assert a == s[..|a|] && a' == s[..|a'|];
    assert b == s[|a| + 1..] && b' == s[|a'| + 1..];
  }

  /** There is only one way to write `s` as `a + [c] + b` with `c` not in `a`. */
  lemma SplitFirstUnique(s: string, c: char, a: string, b: string)
    requires s == a + [c] + b && c !in a
    ensures SplitFirst(s, c) == Some((a, b))
  {
    var r := SplitFirst(s, c);
    assert s[|a|] == c;
    var a', b' := r.value.0, r.value.1;
    assert s[|a'|] == c;
    assert a == s[..|a|] && a' == s[..|a'|];
    assert b == s[|a| + 1..] && b' == s[|a'| + 1..];
  }

  /** Reads a canonical name back into its fields: the digest follows the last
      '@', the tag follows the last ':' when no '/' comes after it, and the
      registry is what precedes the first '/'. */
  function ParseCommonName(s: string): (r: Ref)
    ensures r.reference == s
  {
    var (rest, digest) := match SplitLast(s, '@') case Some(p) => p case None => (s, "");
    var (name, tag) :=
      match SplitLast(rest, ':')
      case Some((a, b)) => if '/' !in b then (a, b) else (rest, "")
      case None => (rest, "");
    var (registry, repository) := match SplitFirst(name, '/') case Some(p) => p case None => ("", name);
    Ref(s, registry, repository, tag, digest)
  }

  /** The shape of reference whose canonical name can be read back: a registry
      without '/' or '@' (a port's ':' is allowed), a repository path without
      ':' or '@', a tag without separators and a digest without '@'. */
  predicate Readable(r: Ref) {
    && r.registry != "" && '/' !in r.registry && '@' !in r.registry
    && r.repository != "" && ':' !in r.repository && '@' !in r.repository
    && ':' !in r.tag && '/' !in r.tag && '@' !in r.tag
    && '@' !in r.digest
  }

  /** The last ':' of `x + "/" + y` with no ':' in `y` lies inside `x`, so a '/'
      follows it. */
  lemma ColonBeforeSlash(x: string, y: string, a: string, b: string)
    requires ':' !in y
    requires x + "/" + y == a + ":" + b && ':' !in b
    ensures '/' in b
  {
    var s := x + "/" + y;
    assert s[|a|] == ':';
    assert s[|x|] == '/';
    assert b[|x| - |a| - 1] == s[|x|];
  }

  /** Round trip: reading back the canonical name of a readable reference gives
      back its registry, repository, tag and digest. */
  lemma CommonNameRoundTrip(r: Ref)
    requires Readable(r)
    ensures ParseCommonName(CommonName(r)) == r.(reference := CommonName(r))
  {
    var cn := CommonName(r);
    var name := r.registry + "/" + r.repository;
    var withTag := if r.tag != "" then name + ":" + r.tag else name;
    assert cn == if r.digest != "" then withTag + "@" + r.digest else withTag;
    assert '@' !in name;
    assert '@' !in withTag;
    var rest := if r.digest != "" then withTag else cn;
    if r.digest != "" {
      SplitLastUnique(cn, '@', withTag, r.digest);
    }
    assert (match SplitLast(cn, '@') case Some(p) => p case None => (cn, "")) == (rest, r.digest);
    assert rest == withTag;
    if r.tag != "" {
      SplitLastUnique(withTag, ':', name, r.tag);
    } else {
      match SplitLast(withTag, ':')
      case None =>
      case Some((a, b)) => ColonBeforeSlash(r.registry, r.repository, a, b);
    }
    SplitFirstUnique(name, '/', r.registry, r.repository);
  }

  /** A sequence is the prefix of its own length of anything appended to it. */
  lemma PrefixOfAppend(a: string, b: string)
    ensures (a + b)[..|a|] == a
  {
  }

  /** A character missing from a concatenation is missing from each part. */
  lemma NotInParts(x: char, a: string, b: string, c: string)
    requires x !in a + b + c
    ensures x !in a && x !in b && x !in c
  {
    assert forall i :: 0 <= i < |a| ==> a[i] == (a + b + c)[i];
    assert forall i :: 0 <= i < |b| ==> b[i] == (a + b + c)[|a| + i];
    assert forall i :: 0 <= i < |c| ==> c[i] == (a + b + c)[|a| + |b| + i];
  }

  /** A readable reference has an '@' in its canonical name exactly when it has
      a digest, and a reference without a registry renders without a leading
      slash. */
  lemma CommonNameSegments(r: Ref)
    requires r.repository != "" && '@' !in r.registry + r.repository + r.tag
    ensures '@' in CommonName(r) <==> r.digest != ""
    ensures r.registry == "" ==> CommonName(r)[..|r.repository|] == r.repository
    ensures r.registry != "" ==> CommonName(r)[..|r.registry| + 1] == r.registry + "/"
  {
    var cn := CommonName(r);
    var base := (if r.registry != "" then r.registry + "/" else "") + r.repository;
    var withTag := if r.tag != "" then base + ":" + r.tag else base;
    assert cn == if r.digest != "" then withTag + "@" + r.digest else withTag;
    NotInParts('@', r.registry, r.repository, r.tag);
    assert '@' !in withTag;
    if r.digest != "" {
      assert cn[|withTag|] == '@';
    }
    PrefixOfAppend(base, if r.tag != "" then ":" + r.tag else "");
    assert withTag[..|base|] == base;
    PrefixOfAppend(withTag, if r.digest != "" then "@" + r.digest else "");
    assert cn[..|base|] == base;
    if r.registry != "" {
      PrefixOfAppend(r.registry + "/", r.repository);
    }
  }
}
