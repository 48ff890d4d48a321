/**
 `relativize(location, original_base_path, new_base_path)`: re-express a
 location written relative to one directory of the documentation tree so
 that it is relative to another. Both directories are taken from the root of
 the tree ('/' is prepended), so the working directory never matters.
 */
module Locations {
  import opened Wrappers
  import opened Text
  import opened Paths

  /** The first argument `relativize` hands to relpath: a rooted location
      with trailing slashes removed, or the location joined onto the
      original base, with a '/' in front. */
  function AbsLocation(location: string, originalBase: string): string {
    if StartsWith(location, "/") then RStripChar(location, '/')
    else "/" + StripChar(PathJoin(originalBase, location), '/')
  }

  /** A base directory of the tree, as clean segments under the root. */
  function Dir(base: string): CleanPath {
    AbsSegs(base, [])
  }

  /** What `location` points at: from the root when it starts with '/',
      otherwise from `originalBase`. */
  function Target(location: string, originalBase: string): CleanPath {
    AbsSegs(location, Dir(originalBase))
  }

  lemma SlashRooted(base: string)
    ensures AbsSegs("/" + base, []) == Dir(base)
  {
    SplitLeadingSlash(base);
  }

  /** A rooted location loses only its trailing slashes. */
  lemma RootedLocation(location: string)
    requires StartsWith(location, "/")
    ensures var t := RStripChar(location, '/');
      (t == [] <==> AllChar(location, '/')) &&
      (t != [] ==> IsAbs(t) && Resolve([], Split(t)) == Resolve([], Split(location)))
  {
    var t := RStripChar(location, '/');
    assert location[0] == '/' by { assert location[..1][0] == location[0]; }
    if t == [] {
      assert location[|t|..] == location;
    } else {
      assert location[|t| - 1] != '/';
      assert t[0] == location[..|t|][0] == '/';
      assert IsAbs(t);
      ResolveRStrip([], location);
    }
  }

  /** A relative location is joined onto the base and rooted. */
  lemma JoinedLocation(location: string, originalBase: string)
    requires !StartsWith(location, "/")
    ensures Resolve([], Split("/" + StripChar(PathJoin(originalBase, location), '/')))
      == Resolve(Resolve([], Split(originalBase)), Split(location))
  {
    var j := PathJoin(originalBase, location);
    SplitLeadingSlash(StripChar(j, '/'));
    ResolveStrip([], j);
    assert location == [] || location[0] != '/';
    PathJoinResolves([], originalBase, location);
  }

  /** Every location except one made of slashes alone reaches relpath as a
      non-empty absolute path naming its target. */
  lemma AbsLocationSegs(location: string, originalBase: string)
    ensures AbsLocation(location, originalBase) == [] <==> location != [] && AllChar(location, '/')
    ensures AbsLocation(location, originalBase) != [] ==>
      AbsSegs(AbsLocation(location, originalBase), []) == Target(location, originalBase)
  {
    if StartsWith(location, "/") {
      RootedLocation(location);
    } else {
      JoinedLocation(location, originalBase);
      assert location == [] || location[0] != '/';
    }
  }

  /** `relativize`. It fails only when the location consists of slashes
      alone (relpath is then handed an empty path). Otherwise the result,
      read from `newBase`, reaches the target; it is "." exactly when the
      target is `newBase` itself; and it is in normal form. */
  function Relativize(location: string, originalBase: string, newBase: string): (r: Result<string>)
    ensures r.Err? <==> location != [] && AllChar(location, '/')
    ensures r.Ok? ==> Resolve(Dir(newBase), Split(r.value)) == Target(location, originalBase)
    ensures r.Ok? ==> (r.value == "." <==> Target(location, originalBase) == Dir(newBase))
    ensures r.Ok? ==> NormalRel(r.value)
    ensures r.Ok? && r.value != "." ==> StaysOut(Split(r.value), Dir(newBase))
  {
    AbsLocationSegs(location, originalBase);
    SlashRooted(newBase);
    RelPath(AbsLocation(location, originalBase), "/" + newBase, [])
  }

  /** A rooted location does not depend on the original base. */
  lemma RootedIgnoresBase(location: string, base1: string, base2: string, newBase: string)
    requires StartsWith(location, "/")
    ensures Relativize(location, base1, newBase) == Relativize(location, base2, newBase)
  {
  }

  /** Which string relpath returns depends only on where its two arguments
      lead. */
  lemma RelPathBySegs(p1: string, s1: string, p2: string, s2: string, cwd: CleanPath)
    requires p1 != [] && p2 != []
    requires AbsSegs(p1, cwd) == AbsSegs(p2, cwd) && AbsSegs(s1, cwd) == AbsSegs(s2, cwd)
    ensures RelPath(p1, s1, cwd) == RelPath(p2, s2, cwd)
  {
  }

  /** Round trip: moving a location from base `a` to base `b` and back gives
      what relativizing it from `a` to `a` gives, its normal form. */
  lemma RoundTrip(x: string, a: string, b: string)
    requires !(x != [] && AllChar(x, '/'))
    ensures Relativize(x, a, b).Ok?
    ensures Relativize(Relativize(x, a, b).value, b, a) == Relativize(x, a, a)
  {
    var y := Relativize(x, a, b).value;
    NormalRelNotAbs(y);
    assert !StartsWith(y, "/");
    AbsLocationSegs(y, b);
    AbsLocationSegs(x, a);
    assert Target(y, b) == Resolve(Dir(b), Split(y));
    RelPathBySegs(AbsLocation(y, b), "/" + a, AbsLocation(x, a), "/" + a, []);
  }

  /** Every location that is not all slashes is relativized by comparing
      its target with the new base. */
  lemma RelativizeIs(x: string, a: string, b: string)
    requires !(x != [] && AllChar(x, '/'))
    ensures Relativize(x, a, b) == Ok(SegsToString(RelSegs(Target(x, a), Dir(b))))
  {
    AbsLocationSegs(x, a);
    SlashRooted(b);
  }

  /** The contract of `Relativize` determines its result: the one string
      in relpath's spelling that leads from the new base to the target. */
  lemma RelativizeUnique(x: string, a: string, b: string, y: string)
    requires !(x != [] && AllChar(x, '/'))
    requires RelSpelling(y, Dir(b), Target(x, a))
    ensures Relativize(x, a, b) == Ok(y)
  {
    RelativizeIs(x, a, b);
    RelSpellingUnique(y, Dir(b), Target(x, a));
  }

  /** A location already in normal form relative to `a` is its own
      relativization from `a` to `a`, provided it does not climb above the
      root and does not climb out of a directory only to step back into it. */
  lemma NormalIsFixed(x: string, a: string)
    requires NormalRel(x)
    requires x != "." ==> StaysOut(Split(x), Dir(a))
    ensures Relativize(x, a, a) == Ok(x)
  {
    NormalRelNotAbs(x);
    RelativizeIs(x, a, a);
    if x == "." {
      DotIsFixed(a);
    } else {
      FixedClimb(x, Dir(a));
    }
  }

  lemma DotIsFixed(a: string)
    ensures SegsToString(RelSegs(Target(".", a), Dir(a))) == "."
  {
    SplitNoSlash(".");
    ResolveEmpties(Dir(a));
  }

  /** Splitting "a/b" and "a/b/c" built from real names. */
  lemma SplitNames2(a: string, b: string)
    requires '/' !in a && '/' !in b
    ensures Split(a + "/" + b) == [a, b]
  {
    SplitConcat(a, b);
    SplitNoSlash(a);
    SplitNoSlash(b);
  }

  lemma SplitNames3(a: string, b: string, c: string)
    requires '/' !in a && '/' !in b && '/' !in c
    ensures Split(a + "/" + b + "/" + c) == [a, b, c]
  {
    SplitConcat(a + "/" + b, c);
    SplitNames2(a, b);
    SplitNoSlash(c);
  }

  /** Without the last condition the fixed point fails: "../en/file.md"
      seen from "en" is simply "file.md". */
  lemma ClimbingBackIsShortened(dir: string, file: string)
    requires IsName(dir) && IsName(file)
    ensures Relativize("../" + dir + "/" + file, dir, dir) == Ok(file)
  {
    var x := "../" + dir + "/" + file;
    assert x == ".." + "/" + dir + "/" + file;
    SplitNames3("..", dir, file);
    SplitNoSlash(dir);
    ResolveNames([], [dir]);
    assert Dir(dir) == [dir];
    assert Split(x) == [".."] + [dir, file];
    ResolveAppend([dir], [".."], [dir, file]);
    ResolveNames([], [dir, file]);
    assert Target(x, dir) == [dir, file];
    CommonPrefixLenIs([dir, file], [dir], 1);
    assert RelSegs([dir, file], [dir]) == [file];
    SplitNoSlash(file);
    RelativizeIs(x, dir, dir);
  }
}
