/**
 Metadata trees (metadata.yaml files and page front matter) and
 `relativize_paths`, which rewrites the Markdown locations inside a tree so
 that they are relative to the directory of the page being built.
 */
module Metadata {
  import opened Wrappers
  import opened Text
  import opened Paths
  import opened Locations

  /** A YAML value. Numbers, booleans and null are `Scalar`s, kept as their
      text: nothing here looks inside them. */
  datatype Value =
    | Str(s: string)
    | List(items: seq<Value>)
    | Map(fields: map<string, Value>)
    | Scalar(text: string)

  // ---------------------------------------------------------------------------
  // Which strings look like Markdown locations
  // ---------------------------------------------------------------------------

  /** `re.match(r'^[^ "\']+.md(#|\?|$)', s)` succeeds with the class part
      covering `s[..i]`. The '.' is unescaped, so it is any character except
      a newline; `$` also matches before a final newline. */
  predicate MdLinkAt(s: string, i: int) {
    1 <= i && i + 3 <= |s| &&
    (forall j :: 0 <= j < i ==> LinkChar(s[j])) &&
    s[i] != '\n' && s[i + 1] == 'm' && s[i + 2] == 'd' &&
    (i + 3 == |s| || s[i + 3] == '#' || s[i + 3] == '?' || (i + 4 == |s| && s[i + 3] == '\n'))
  }

  predicate LooksLikeMdLink(s: string) {
    exists i :: 1 <= i <= |s| - 3 && MdLinkAt(s, i)
  }

  /** The regex, run as a left-to-right scan: the class part can only grow
      while it meets allowed characters, so the scan stops at the first
      quote or space. */
  method MatchMdLink(s: string) returns (b: bool)
    ensures b <==> LooksLikeMdLink(s)
  {
    var i := 1;
    while i + 3 <= |s| && LinkChar(s[i - 1])
      invariant 1 <= i && i - 1 <= |s|
      invariant forall j :: 0 <= j < i - 1 ==> LinkChar(s[j])
      invariant forall j :: 1 <= j < i ==> !MdLinkAt(s, j)
    {
      var t := i + 3;
      if s[i] != '\n' && s[i + 1] == 'm' && s[i + 2] == 'd' &&
         (t == |s| || s[t] == '#' || s[t] == '?' || (t + 1 == |s| && s[t] == '\n'))
      {
        assert MdLinkAt(s, i);
        return true;
      }
      i := i + 1;
    }
    forall j | i <= j <= |s| - 3 ensures !MdLinkAt(s, j) {
      assert !LinkChar(s[i - 1]);
    }
    return false;
  }

  /** A location that looks like Markdown is never made of slashes alone,
      so relativizing it cannot fail. */
  lemma MdLinkNotSlashes(s: string)
    requires LooksLikeMdLink(s)
    ensures !(s != [] && AllChar(s, '/'))
  {
    var i :| 1 <= i <= |s| - 3 && MdLinkAt(s, i);
    assert s[i + 1] == 'm';
  }

  // ---------------------------------------------------------------------------
  // relativize_paths
  // ---------------------------------------------------------------------------

  /** A leaf string after rewriting: a Markdown location is now relpath's
      spelling of the way from directory `to` to what it reached from
      directory `from`; any other string is unchanged. */
  predicate LeafRewritten(a: string, b: string, from: CleanPath, to: CleanPath) {
    if LooksLikeMdLink(a) then
      RelSpelling(b, to, AbsSegs(a, from))
    else
      b == a
  }

  /** `b` has the shape of `a` (same keys, same list lengths, same scalars),
      with every leaf string rewritten. */
  predicate Rewritten(a: Value, b: Value, from: CleanPath, to: CleanPath)
    decreases a
  {
    match a
    case Str(s) => b.Str? && LeafRewritten(s, b.s, from, to)
    case Scalar(_) => b == a
    case List(xs) =>
      b.List? && |b.items| == |xs| &&
      forall i :: 0 <= i < |xs| ==> Rewritten(xs[i], b.items[i], from, to)
    case Map(m) =>
      b.Map? && b.fields.Keys == m.Keys &&
      forall k :: k in m ==> Rewritten(m[k], b.fields[k], from, to)
  }

  /** Slashes around a base directory do not change where it is. */
  lemma DirStrip(base: string)
    ensures Dir(StripChar(base, '/')) == Dir(base)
  {
    ResolveStrip([], base);
    var t := StripChar(base, '/');
    if base != [] && base[0] == '/' && t != [] {
      assert t[0] != '/';
    }
  }

  /** `relativize_paths`. Both bases are stripped of slashes, then every
      string leaf that looks like a Markdown location is relativized; the
      structure is kept. */
  function RelativizePaths(v: Value, originalBase: string, newBase: string): (r: Value)
    ensures Rewritten(v, r, Dir(originalBase), Dir(newBase))
    decreases v, 1
  {
    DirStrip(originalBase);
    DirStrip(newBase);
    RelativizeStripped(v, StripChar(originalBase, '/'), StripChar(newBase, '/'))
  }

  /** The body of `relativize_paths` once the bases are stripped; the
      children go back through `relativize_paths`, which strips again. */
  function RelativizeStripped(v: Value, o: string, n: string): (r: Value)
    ensures Rewritten(v, r, Dir(o), Dir(n))
    decreases v, 0
  {
    match v
    case Str(s) =>
      if LooksLikeMdLink(s) then
        MdLinkNotSlashes(s);
        Str(Relativize(s, o, n).value)
      else v
    case Scalar(_) => v
    case List(xs) =>
      List(seq(|xs|, i requires 0 <= i < |xs| => RelativizePaths(xs[i], o, n)))
    case Map(m) =>
      Map(map k | k in m :: RelativizePaths(m[k], o, n))
  }

  /** Slashes around the base paths are irrelevant: `('/fr/', '/en/')`
      behaves as `('fr', 'en')`. */
  lemma StripBasesIrrelevant(v: Value, originalBase: string, newBase: string)
    ensures RelativizePaths(v, originalBase, newBase)
      == RelativizePaths(v, StripChar(originalBase, '/'), StripChar(newBase, '/'))
  {
    StripIdempotent(originalBase, '/');
    StripIdempotent(newBase, '/');
  }

  // ---------------------------------------------------------------------------
  // Examples from the repository's tests
  // ---------------------------------------------------------------------------

  /** "A page about fish.md" is a title, not a location: a space comes
      before any "md". */
  lemma FishTitleIsNoLink()
    ensures !LooksLikeMdLink("A page about fish.md")
  {
    var s := "A page about fish.md";
    forall i | 1 <= i <= |s| - 3 ensures !MdLinkAt(s, i) {
      if i >= 2 {
        assert !LinkChar(s[1]);
      } else {
        assert s[2] == 'p';
      }
    }
  }

  /** The unescaped '.' matches any character, so "fishmd" is taken for a
      location too. */
  lemma DotIsAnyChar()
    ensures LooksLikeMdLink("fishmd")
  {
    assert MdLinkAt("fishmd", 3);
  }

  /** Names `a` and `b` joined as "a/b". */
  lemma SplitPair(a: string, b: string)
    requires IsName(a) && IsName(b)
    ensures Split(a + "/" + b) == [a, b]
    ensures Dir(a + "/" + b) == [a, b]
  {
    SplitConcat(a, b);
    SplitNoSlash(a);
    SplitNoSlash(b);
    ResolveNames([], [a, b]);
  }

  /** A name read from the directory `base`. */
  lemma TargetOfName(file: string, base: string)
    requires IsName(base) && IsName(file)
    ensures Target(file, base) == [base, file]
  {
    assert file[0] in file && base[0] in base;
    SplitNoSlash(file);
    SplitNoSlash(base);
    ResolveNames([], [base]);
    assert [] + [base] == [base];
    assert Dir(base) == [base];
    ResolveNames([base], [file]);
    assert Target(file, base) == Resolve([base], [file]);
  }

  lemma OneUp(base: string, sub: string, file: string)
    requires file != sub
    ensures SegsToString(RelSegs([base, file], [base, sub])) == "../" + file
  {
    CommonPrefixLenIs([base, file], [base, sub], 1);
    assert [base, file][1..] == [file];
    assert RelSegs([base, file], [base, sub]) == ["..", file];
    assert JoinSegs(["..", file]) == ".." + "/" + JoinSegs([file]);
  }

  /** A file of the original base, seen from a subdirectory of it, is one
      level up: `file2.md` from "en" to "en/nested" is "../file2.md". */
  lemma SiblingFromSubdir(base: string, sub: string, file: string)
    requires IsName(base) && IsName(sub) && IsName(file) && file != sub
    ensures Relativize(file, base, base + "/" + sub) == Ok("../" + file)
  {
    TargetOfName(file, base);
    SplitPair(base, sub);
    RelativizeIs(file, base, base + "/" + sub);
    OneUp(base, sub, file);
  }

  /** Climbing two levels: `to` shares nothing with the two directories
      `from` it is seen from. */
  lemma TwoUp(to: seq<string>, base: string, sub: string)
    requires to != [] && to[0] != base
    ensures RelSegs(to, [base, sub]) == ["..", ".."] + to
  {
    CommonPrefixLenIs(to, [base, sub], 0);
    assert Ups(2) == ["..", ".."];
  }

  /** Two levels up, as a string. */
  lemma TwoUpString(to: seq<string>, base: string, sub: string)
    requires to != [] && to[0] != base
    ensures SegsToString(RelSegs(to, [base, sub])) == "../../" + JoinSegs(to)
  {
    TwoUp(to, base, sub);
    var xs := ["..", ".."] + to;
    assert xs[1..] == [".."] + to && xs[1..][1..] == to;
    assert JoinSegs(xs) == ".." + "/" + (".." + "/" + JoinSegs(to));
  }

  lemma DirOfName(base: string)
    requires IsName(base)
    ensures Dir(base) == [base]
  {
    SplitNoSlash(base);
    ResolveNames([], [base]);
    assert [] + [base] == [base];
  }

  /** The root directory, named by the empty base. */
  lemma RootDir()
    ensures Dir("") == []
  {
    ResolveEmpties([]);
  }

  lemma TargetFromRoot(file: string)
    requires IsName(file)
    ensures Target(file, "") == [file]
  {
    assert file[0] in file;
    SplitNoSlash(file);
    RootDir();
    ResolveNames([], [file]);
  }

  lemma RootedTarget(dir: string, file: string, originalBase: string)
    requires IsName(dir) && IsName(file)
    ensures Target("/" + dir + "/" + file, originalBase) == [dir, file]
  {
    var x := "/" + dir + "/" + file;
    assert x == "/" + (dir + "/" + file);
    SplitLeadingSlash(dir + "/" + file);
    SplitPair(dir, file);
    ResolveAppend([], [""], [dir, file]);
    ResolveEmpties([]);
    ResolveNames([], [dir, file]);
  }

  lemma ClimbTarget(base: string, sub: string, file: string)
    requires IsName(base) && IsName(sub) && IsName(file)
    ensures Target("../" + base + "/" + sub + "/" + file, base) == [base, sub, file]
  {
    var rest := base + "/" + sub + "/" + file;
    var x := "../" + base + "/" + sub + "/" + file;
    assert x == ".." + "/" + rest;
    SplitConcat("..", rest);
    SplitNoSlash("..");
    SplitNames3(base, sub, file);
    assert Split(x) == [".."] + [base, sub, file];
    DirOfName(base);
    assert x[0] == '.';
    assert Target(x, base) == Resolve([base], [".."] + [base, sub, file]);
    ResolveAppend([base], [".."], [base, sub, file]);
    assert Resolve([base], [".."]) == [];
    ResolveNames([], [base, sub, file]);
  }

  /** A file of the root, seen from "base/sub", is two levels up: with an
      empty original base, `file2.md` for "en/nested" is "../../file2.md". */
  lemma RootFileFromNested(file: string, base: string, sub: string)
    requires IsName(base) && IsName(sub) && IsName(file) && file != base
    ensures Relativize(file, "", base + "/" + sub) == Ok("../../" + file)
  {
    assert file[0] in file;
    TargetFromRoot(file);
    SplitPair(base, sub);
    RelativizeIs(file, "", base + "/" + sub);
    TwoUpString([file], base, sub);
  }

  /** A rooted location seen from "base/sub" climbs to the root and back
      down: "/base/file1.md" for "en/nested" is "../../base/file1.md". */
  lemma RootedFromNested(dir: string, file: string, originalBase: string, base: string, sub: string)
    requires IsName(dir) && IsName(file) && IsName(base) && IsName(sub) && dir != base
    ensures Relativize("/" + dir + "/" + file, originalBase, base + "/" + sub) == Ok("../../" + dir + "/" + file)
  {
    RootedRel(dir, file, originalBase, base + "/" + sub);
    assert Dir(base + "/" + sub) == [base, sub] by { SplitPair(base, sub); }
    TwoUpPair(dir, file, base, sub);
  }

  lemma TwoUpPair(dir: string, file: string, base: string, sub: string)
    requires dir != base
    ensures SegsToString(RelSegs([dir, file], [base, sub])) == "../../" + dir + "/" + file
  {
    var j := dir + "/" + file;
    TwoUpString([dir, file], base, sub);
    assert JoinSegs([dir, file]) == j;
    assert "../../" + j == "../../" + dir + "/" + file;
  }

  lemma RootedRel(dir: string, file: string, originalBase: string, newBase: string)
    requires IsName(dir) && IsName(file)
    ensures Relativize("/" + dir + "/" + file, originalBase, newBase)
      == Ok(SegsToString(RelSegs([dir, file], Dir(newBase))))
  {
    var x := "/" + dir + "/" + file;
    assert !AllChar(x, '/') by { assert dir[0] in dir; assert x[1] == dir[0]; }
    RootedTarget(dir, file, originalBase);
    RelativizeIs(x, originalBase, newBase);
  }

  /** A location that climbs out of `base` and comes back down into
      "base/sub" is just the file: "../en/nested/file3.md" from "en" to
      "en/nested" is "file3.md". */
  lemma NestedClimbBack(base: string, sub: string, file: string)
    requires IsName(base) && IsName(sub) && IsName(file)
    ensures Relativize("../" + base + "/" + sub + "/" + file, base, base + "/" + sub) == Ok(file)
  {
    var x := "../" + base + "/" + sub + "/" + file;
    assert x[0] == '.';
    ClimbTarget(base, sub, file);
    SplitPair(base, sub);
    CommonPrefixLenIs([base, sub, file], [base, sub], 2);
    assert RelSegs([base, sub, file], [base, sub]) == [file];
    RelativizeIs(x, base, base + "/" + sub);
  }
}
