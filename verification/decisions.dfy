/**
 The decisions the builders take for each page and for the media
 directory: which Markdown files are built, where their HTML goes, whether
 a page is already up to date, and which media files `mergetree` copies.
 Modification times are whole seconds, and the file system is passed in as
 data: a map from output paths to their mtimes, or a tree of entries.
 */
module Decisions {
  import opened Wrappers
  import opened Text
  import opened Paths
  import opened Locations

  // ---------------------------------------------------------------------------
  // Base names and extensions
  // ---------------------------------------------------------------------------

  /** After a '/', or at the start, the base name is what follows. */
  lemma BaseNameAfter(a: string, b: string)
    requires '/' !in b && (a == [] || a[|a| - 1] == '/')
    ensures BaseName(a + b) == b
  {
    var p := a + b;
    var i := LastIndex(p, '/');
    forall j | |a| <= j < |p| ensures p[j] != '/' {
      assert p[j] == b[j - |a|];
    }
    if a != [] {
      assert p[|a| - 1] == '/';
    }
    assert i == |a| - 1;
  }

  lemma BaseNameOfJoin(d: string, b: string)
    requires '/' !in b
    ensures BaseName(d + "/" + b) == b
  {
    BaseNameAfter(d + "/", b);
  }

  /** `splitext` of a name with a single dot. */
  lemma SplitExtOfName(n: string, e: string)
    requires n != [] && '/' !in n && '.' !in n && '/' !in e && '.' !in e
    ensures SplitExt(n + "." + e) == (n, "." + e)
  {
    var p := n + "." + e;
    assert p[0] == n[0] && n[0] in n;
    forall j | 0 <= j < |p| ensures p[j] != '/' {
      if j < |n| { assert p[j] == n[j]; }
      else if j > |n| { assert p[j] == e[j - |n| - 1]; }
    }
    forall j | |n| < j < |p| ensures p[j] != '.' {
      assert p[j] == e[j - |n| - 1];
    }
    assert p[|n|] == '.';
    assert LastIndex(p, '/') == -1;
    assert LastIndex(p, '.') == |n|;
    assert p[..|n|] == n && p[|n|..] == "." + e;
  }

  /** The base name without its extension. */
  function Stem(f: string): string {
    SplitExt(BaseName(f)).0
  }

  lemma StemNoSlash(f: string)
    ensures '/' !in Stem(f)
  {
    var b := BaseName(f);
    var e := SplitExt(b);
    assert '/' !in b;
    NoCharInPrefix(e.0, e.1, b, '/');
  }

  lemma NoCharInConcat(a: string, b: string, c: char)
    requires c !in a && c !in b
    ensures c !in a + b
  {
  }

  /** What a string lacks, its prefixes lack. */
  lemma NoCharInPrefix(a: string, x: string, b: string, c: char)
    requires a + x == b && c !in b
    ensures c !in a
  {
  }

  lemma StemOfPage(d: string, n: string, e: string)
    requires n != [] && '/' !in n && '.' !in n && '/' !in e && '.' !in e
    ensures Stem(d + "/" + n + "." + e) == n
  {
    assert d + "/" + n + "." + e == d + "/" + (n + "." + e);
    BaseNameOfJoin(d, n + "." + e);
    SplitExtOfName(n, e);
  }

  // ---------------------------------------------------------------------------
  // Uppercase names
  // ---------------------------------------------------------------------------

  /** `re.sub(r'\W+', '', s)`: the word characters of `s`, in order. */
  function WordChars(s: string): (r: string)
    ensures |r| <= |s|
    ensures forall j :: 0 <= j < |r| ==> IsWordChar(r[j])
    ensures forall c :: IsWordChar(c) ==> (c in r <==> c in s)
  {
    if s == [] then []
    else
      assert s == [s[0]] + s[1..];
      if IsWordChar(s[0]) then [s[0]] + WordChars(s[1..]) else WordChars(s[1..])
  }

  /** `isupper` looks only at cased characters, which are all word
      characters, so deleting the others never changes its answer. */
  lemma UpperIgnoresNonWord(s: string)
    ensures IsUpperString(WordChars(s)) <==> IsUpperString(s)
  {
    var w := WordChars(s);
    if IsUpperString(w) {
      var i :| 0 <= i < |w| && IsUpperChar(w[i]);
      assert w[i] in w;
      forall j | 0 <= j < |s| ensures !IsLowerChar(s[j]) {
        assert s[j] in s;
      }
    }
    if IsUpperString(s) {
      var i :| 0 <= i < |s| && IsUpperChar(s[i]);
      assert s[i] in s;
      forall j | 0 <= j < |w| ensures !IsLowerChar(w[j]) {
        assert w[j] in w;
      }
    }
  }

  /** The uppercase test of `_build_file` (the file is skipped when it
      holds), on the base name without extension and without non-word
      characters: it is `isupper` of the name itself. */
  function UppercaseName(f: string): (r: bool)
    ensures r <==> IsUpperString(Stem(f))
  {
    UpperIgnoresNonWord(Stem(f));
    IsUpperString(WordChars(Stem(f)))
  }

  /** For a page "d/n.md", the test looks at `n` alone. */
  lemma UppercasePage(d: string, n: string)
    requires n != [] && '/' !in n && '.' !in n
    ensures UppercaseName(d + "/" + n + ".md") <==> IsUpperString(n)
  {
    assert n + ".md" == n + "." + "md";
    assert d + "/" + n + ".md" == d + "/" + n + "." + "md";
    StemOfPage(d, n, "md");
  }

  /** README.md is skipped and index.md is built, wherever they are. */
  lemma ReadmeSkipped(d: string)
    ensures UppercaseName(d + "/README.md")
  {
    var n := "README";
    assert "/README.md" == "/" + n + ".md";
    Regroup3(d, "/", n, ".md");
    assert '/' !in n && '.' !in n;
    assert IsUpperChar(n[0]) && forall i :: 0 <= i < |n| ==> !IsLowerChar(n[i]);
    UppercasePage(d, n);
  }

  lemma IndexBuilt(d: string)
    ensures !UppercaseName(d + "/index.md")
  {
    var n := "index";
    assert "/index.md" == "/" + n + ".md";
    Regroup3(d, "/", n, ".md");
    assert '/' !in n && '.' !in n;
    assert IsLowerChar(n[0]);
    UppercasePage(d, n);
  }

  // ---------------------------------------------------------------------------
  // The ignore list
  // ---------------------------------------------------------------------------

  /** The files `build_files` hands on to `build_file`, in glob order: those
      whose base name is not in `ignore_files`. */
  function FilesToBuild(files: seq<string>, ignoreFiles: seq<string>): seq<string> {
    if files == [] then []
    else
      (if BaseName(files[0]) in ignoreFiles then [] else [files[0]])
        + FilesToBuild(files[1..], ignoreFiles)
  }

  /** A file is built exactly when it was found and its base name is not
      on the ignore list. */
  lemma {:induction false} FilesToBuildMembers(files: seq<string>, ignoreFiles: seq<string>)
    ensures forall f :: f in FilesToBuild(files, ignoreFiles) <==> f in files && BaseName(f) !in ignoreFiles
  {
    if files != [] {
      FilesToBuildMembers(files[1..], ignoreFiles);
      assert files == [files[0]] + files[1..];
    }
  }

  /** The filter keeps the glob order: it works file by file. */
  lemma {:induction false} FilesToBuildAppend(a: seq<string>, b: seq<string>, ignoreFiles: seq<string>)
    ensures FilesToBuild(a + b, ignoreFiles) == FilesToBuild(a, ignoreFiles) + FilesToBuild(b, ignoreFiles)
  {
    if a != [] {
      var ab := a + b;
      assert ab[0] == a[0] && ab[1..] == a[1..] + b;
      var head := if BaseName(a[0]) in ignoreFiles then [] else [a[0]];
      assert FilesToBuild(ab, ignoreFiles) == head + FilesToBuild(a[1..] + b, ignoreFiles);
      assert FilesToBuild(a, ignoreFiles) == head + FilesToBuild(a[1..], ignoreFiles);
      FilesToBuildAppend(a[1..], b, ignoreFiles);
    } else {
      assert a + b == b;
    }
  }

  /** With an empty ignore list every file is built, in order. */
  lemma {:induction false} NothingIgnored(files: seq<string>)
    ensures FilesToBuild(files, []) == files
  {
    if files != [] {
      NothingIgnored(files[1..]);
      assert files == [files[0]] + files[1..];
    }
  }

  // ---------------------------------------------------------------------------
  // Output paths
  // ---------------------------------------------------------------------------

  /** `re.sub(r'\.md$', '.html', p)`. `$` matches at the very end and also
      just before a final newline; at most one of the two can follow ".md". */
  function MdToHtml(p: string): string {
    if EndsWith(p, ".md") then p[..|p| - 3] + ".html"
    else if EndsWith(p, ".md\n") then p[..|p| - 4] + ".html\n"
    else p
  }

  /** The newline case of `$`. */
  lemma MdBeforeFinalNewline(p: string)
    ensures MdToHtml(p + ".md\n") == p + ".html\n"
  {
    var q := p + ".md\n";
    assert q[|q| - 1] == '\n';
    assert !EndsWith(q, ".md");
    assert q[|q| - 4..] == ".md\n" && q[..|q| - 4] == p;
  }

  /** Splitting a normal relative path gives back the relative segments it
      was made from. */
  lemma RelPathSplits(path: string, start: string, cwd: CleanPath, st: seq<string>)
    requires path != []
    ensures Resolve(st, Split(RelPath(path, start, cwd).value))
      == Resolve(st, RelSegs(AbsSegs(path, cwd), AbsSegs(start, cwd)))
  {
    var to, from := AbsSegs(path, cwd), AbsSegs(start, cwd);
    var xs := RelSegs(to, from);
    RelSegsString(to, from);
    if xs == [] {
      SplitNoSlash(".");
      ResolveEmpties(st);
    }
  }

  /** Joining a relative path onto `a` resolves it from where `a` is. */
  lemma AbsSegsJoin(a: string, b: string, cwd: CleanPath)
    requires !IsAbs(b)
    ensures AbsSegs(PathJoin(a, b), cwd) == Resolve(AbsSegs(a, cwd), Split(b))
  {
    var st := if IsAbs(a) then [] else cwd;
    PathJoinResolves(st, a, b);
    if a != [] {
      assert PathJoin(a, b)[0] == a[0];
    } else {
      assert PathJoin(a, b) == b;
    }
  }

  /** The output location of a page before its extension changes: the
      page's location relative to the source root, joined onto the output
      root. It sits where the source sits, with the output root standing in
      for the source root. Only an empty source path raises. */
  function OutputLocation(sourceFile: string, sourcePath: string, outputPath: string, cwd: CleanPath): (r: Result<string>)
    ensures r.Err? <==> sourceFile == ""
    ensures r.Ok? ==> (AbsSegs(r.value, cwd)
      == Resolve(AbsSegs(outputPath, cwd), RelSegs(AbsSegs(sourceFile, cwd), AbsSegs(sourcePath, cwd))))
  {
    var rel :- RelPath(sourceFile, sourcePath, cwd);
    NormalRelNotAbs(rel);
    AbsSegsJoin(outputPath, rel, cwd);
    RelPathSplits(sourceFile, sourcePath, cwd, AbsSegs(outputPath, cwd));
    Ok(PathJoin(outputPath, rel))
  }

  /** The output path of `_build_file` (builder.py) and of `build_file`
      (build.py), which compute it the same way. */
  function OutputPath(sourceFile: string, sourcePath: string, outputPath: string, cwd: CleanPath): (r: Result<string>)
    ensures r.Err? <==> sourceFile == ""
    ensures r.Ok? ==> r.value == MdToHtml(OutputLocation(sourceFile, sourcePath, outputPath, cwd).value)
  {
    var location :- OutputLocation(sourceFile, sourcePath, outputPath, cwd);
    Ok(MdToHtml(location))
  }

  /** A page "s/d/n.md" under the source root "s" is written to
      "o/d/n.html" under the output root "o". */
  lemma OutputPathOfPage(s: string, d: string, n: string, o: string, cwd: CleanPath)
    requires IsName(s) && IsName(d) && '/' !in n
    requires o != [] && o[|o| - 1] != '/'
    ensures OutputPath(s + "/" + d + "/" + n + ".md", s, o, cwd) == Ok(o + "/" + d + "/" + n + ".html")
  {
    var f := n + ".md";
    assert IsName(f) by { assert f[|f| - 1] == 'd'; }
    Regroup2(s + "/" + d + "/", n, ".md");
    var rel := d + "/" + f;
    RelPathOfPage(s, d, f, cwd);
    assert PathJoin(o, rel) == o + "/" + rel by { assert rel[0] == d[0] && d[0] in d; }
    Regroup3(o + "/", d, "/", f);
    Regroup2(o + "/" + d + "/", n, ".md");
    HtmlOfPage(o + "/" + d + "/", n);
  }

  /** Renaming the ".md" at the end of a path. */
  lemma HtmlOfPage(a: string, n: string)
    ensures MdToHtml(a + n + ".md") == a + n + ".html"
  {
    var p := a + n + ".md";
    assert p[|p| - 3..] == ".md";
    assert p[..|p| - 3] == a + n;
  }

  /** A page two names below the source root, relative to that root. */
  lemma RelPathOfPage(s: string, d: string, f: string, cwd: CleanPath)
    requires IsName(s) && IsName(d) && IsName(f)
    ensures RelPath(s + "/" + d + "/" + f, s, cwd) == Ok(d + "/" + f)
  {
    var src := s + "/" + d + "/" + f;
    SplitNames3(s, d, f);
    SplitNoSlash(s);
    assert src[0] == s[0];
    ResolveNames(cwd, [s, d, f]);
    ResolveNames(cwd, [s]);
    assert AbsSegs(src, cwd) == cwd + [s, d, f];
    assert AbsSegs(s, cwd) == cwd + [s];
    CommonPrefixLenIs(cwd + [s, d, f], cwd + [s], |cwd| + 1);
    assert (cwd + [s, d, f])[|cwd| + 1..] == [d, f];
    assert RelSegs(cwd + [s, d, f], cwd + [s]) == [d, f];
    assert [d, f][1..] == [f];
    assert JoinSegs([f]) == f;
    assert JoinSegs([d, f]) == d + "/" + JoinSegs([f]);
  }

  /** What `_build_file` does with a page. */
  datatype PageAction = SkipUppercase | SkipUnmodified | Build(output: string)

  /** `_build_file`'s decisions. `sourceMtime` is the page's mtime and
      `outputMtimes` those of the output files that exist. An uppercase
      name is skipped before anything else; then the page is skipped
      exactly when its output exists and is strictly newer (an equal mtime
      rebuilds, and metadata files are not consulted). */
  function BuildFileAction(sourceFile: string, sourcePath: string, outputPath: string,
                           sourceMtime: int, outputMtimes: map<string, int>, cwd: CleanPath): (r: Result<PageAction>)
    ensures r == Ok(SkipUppercase) <==> IsUpperString(Stem(sourceFile))
    ensures r.Err? <==> !IsUpperString(Stem(sourceFile)) && sourceFile == ""
    ensures r.Ok? && !r.value.SkipUppercase? ==>
      var out := OutputPath(sourceFile, sourcePath, outputPath, cwd).value;
      (r.value.SkipUnmodified? <==> out in outputMtimes && outputMtimes[out] > sourceMtime) &&
      (r.value.Build? ==> r.value.output == out)
  {
    if UppercaseName(sourceFile) then Ok(SkipUppercase)
    else
      var out :- OutputPath(sourceFile, sourcePath, outputPath, cwd);
      if out in outputMtimes && outputMtimes[out] > sourceMtime then Ok(SkipUnmodified)
      else Ok(Build(out))
  }

  /** An output as old as its source is rebuilt. */
  lemma EqualMtimesRebuild(s: string, d: string, n: string, o: string, t: int, cwd: CleanPath)
    requires IsName(s) && IsName(d) && n != [] && '/' !in n && '.' !in n && !IsUpperString(n)
    requires o != [] && o[|o| - 1] != '/'
    ensures BuildFileAction(s + "/" + d + "/" + n + ".md", s, o, t,
                            map[o + "/" + d + "/" + n + ".html" := t], cwd)
      == Ok(Build(o + "/" + d + "/" + n + ".html"))
  {
    var file := s + "/" + d + "/" + n + ".md";
    var out := o + "/" + d + "/" + n + ".html";
    UppercasePage(s + "/" + d, n);
    assert file == (s + "/" + d) + "/" + n + ".md";
    OutputPathOfPage(s, d, n, o, cwd);
    BuiltWhenNotNewer(file, s, o, t, map[out := t], cwd, out);
  }

  /** A page that is not skipped as upper case and whose output is not newer
      than it is built into that output. */
  lemma BuiltWhenNotNewer(sourceFile: string, sourcePath: string, outputPath: string,
                          sourceMtime: int, outputMtimes: map<string, int>, cwd: CleanPath, out: string)
    requires !UppercaseName(sourceFile) && OutputPath(sourceFile, sourcePath, outputPath, cwd) == Ok(out)
    requires !(out in outputMtimes && outputMtimes[out] > sourceMtime)
    ensures BuildFileAction(sourceFile, sourcePath, outputPath, sourceMtime, outputMtimes, cwd) == Ok(Build(out))
  {
  }

  // ---------------------------------------------------------------------------
  // mdbuild.py
  // ---------------------------------------------------------------------------

  /** `getoutfile`: the page's base name with its last extension replaced
      by ".html", joined onto `outpath`. */
  function GetOutFile(filename: string, outpath: string): (r: string)
    ensures BaseName(r) == Stem(filename) + ".html"
  {
    StemNoSlash(filename);
    JoinedHtml(Stem(filename), outpath);
    PathJoin(outpath, Stem(filename) + ".html")
  }

  /** The output file sits directly in `outpath`: read from the working
      directory, its place is that of `outpath` followed by the page's stem
      plus ".html". */
  lemma GetOutFilePlace(filename: string, outpath: string, cwd: CleanPath)
    ensures AbsSegs(GetOutFile(filename, outpath), cwd) == AbsSegs(outpath, cwd) + [Stem(filename) + ".html"]
  {
    var b := Stem(filename) + ".html";
    StemNoSlash(filename);
    HtmlName(Stem(filename));
    JoinedNamePlace(outpath, b, cwd);
  }

  /** A slash-free stem plus ".html" is a name. */
  lemma HtmlName(stem: string)
    requires '/' !in stem
    ensures IsName(stem + ".html")
  {
    NoCharInConcat(stem, ".html", '/');
  }

  /** A name joined onto a directory is one more segment below it. */
  lemma JoinedNamePlace(a: string, b: string, cwd: CleanPath)
    requires IsName(b)
    ensures AbsSegs(PathJoin(a, b), cwd) == AbsSegs(a, cwd) + [b]
  {
    assert b[0] in b;
    AbsSegsJoin(a, b, cwd);
    SplitNoSlash(b);
    ResolveNames(AbsSegs(a, cwd), [b]);
  }

  /** A slash-free stem plus ".html", joined onto a directory, is the base
      name of the result. */
  lemma JoinedHtml(stem: string, outpath: string)
    requires '/' !in stem
    ensures BaseName(PathJoin(outpath, stem + ".html")) == stem + ".html"
  {
    NoCharInConcat(stem, ".html", '/');
    JoinedName(outpath, stem + ".html");
  }

  /** A name joined onto a directory is the base name of the result. */
  lemma JoinedName(a: string, b: string)
    requires b != [] && '/' !in b
    ensures BaseName(PathJoin(a, b)) == b
  {
    assert !IsAbs(b) by { assert b[0] in b; }
    if a == [] || a[|a| - 1] == '/' {
      BaseNameAfter(a, b);
    } else {
      BaseNameAfter(a + "/", b);
      assert PathJoin(a, b) == (a + "/") + b;
    }
  }

  /** Directories of the page are dropped: pages with the same name in two
      directories go to the same file. */
  lemma DirectoriesDropped(d: string, f: string, outpath: string)
    requires '/' !in f
    ensures GetOutFile(d + "/" + f, outpath) == GetOutFile(f, outpath)
  {
    BaseNameOfJoin(d, f);
    BaseNameAfter([], f);
    assert [] + f == f;
  }

  /** mdbuild.py converts a file only when `splitext` gives exactly ".md":
      the name ends in ".md" and its last segment has something other than
      dots before that. */
  function IsMarkdownFile(f: string): (r: bool)
    ensures r <==> EndsWith(f, ".md") && exists i :: LastIndex(f, '/') < i < |f| - 3 && f[i] != '.'
  {
    MdDot(f);
    SplitExt(f).1 == ".md"
  }

  /** In a name ending with ".md", that dot is the last one. */
  lemma MdDot(f: string)
    ensures EndsWith(f, ".md") ==> LastIndex(f, '.') == |f| - 3
  {
    if EndsWith(f, ".md") {
      assert f[|f| - 3] == '.' && f[|f| - 2] == 'm' && f[|f| - 1] == 'd';
    }
  }

  /** A hidden file named ".md" is not converted. */
  lemma HiddenMdSkipped()
    ensures !IsMarkdownFile(".md")
  {
  }

  // ---------------------------------------------------------------------------
  // parsers.py
  // ---------------------------------------------------------------------------

  /** `p[:-3] + '.html'`; the slice is empty when `p` is shorter. */
  function DropThreeAddHtml(p: string): string {
    (if |p| >= 3 then p[..|p| - 3] else []) + ".html"
  }

  /** The output path of parsers.py as written: every occurrence of the
      source path is deleted from the page's path, not only the leading one;
      then slashes are stripped, the rest is joined onto the destination, and
      the last three characters make way for ".html". */
  function ParsersOutputPathAsWritten(filepath: string, sourcePath: string, destinationPath: string): string {
    var local := StripChar(Replace(filepath, sourcePath, ""), '/');
    DropThreeAddHtml(PathJoin(destinationPath, local))
  }

  /** A page whose name repeats the source directory's name loses its name:
      with source "s", "s/d/s.md" is written to "o/d/.html". */
  lemma SourceNameRepeatedIsLost(s: string, d: string, o: string)
    requires IsName(s) && IsName(d) && s[0] !in d && !Contains(".md", s)
    requires o != [] && o[|o| - 1] != '/'
    ensures ParsersOutputPathAsWritten(s + "/" + d + "/" + s + ".md", s, o) == o + "/" + d + "/" + ".html"
  {
    RepeatedNameIn(s, d, o, s + "/" + d + "/" + s + ".md", o + "/" + d + "/" + ".html");
  }

  lemma RepeatedNameIn(s: string, d: string, o: string, t: string, out: string)
    requires IsName(s) && IsName(d) && s[0] !in d && !Contains(".md", s)
    requires o != [] && o[|o| - 1] != '/'
    requires t == s + "/" + d + "/" + s + ".md" && out == o + "/" + d + "/" + ".html"
    ensures ParsersOutputPathAsWritten(t, s, o) == out
  {
    var w := d + "/";
    var a := "/" + d + "/";
    assert t == s + a + s + ".md";
    RepeatedNameDeleted(s, t, a);
    assert a + "" + ".md" == "/" + (w + ".md");
    StripOneSlash(w + ".md");
    JoinedPage(o, w);
    RegroupDir(o, d, w);
  }

  lemma RegroupDir(o: string, d: string, w: string)
    requires w == d + "/"
    ensures o + "/" + w + ".html" == o + "/" + d + "/" + ".html"
  {
  }

  /** Both occurrences of `s` go: the leading one and the page's name. */
  lemma RepeatedNameDeleted(s: string, t: string, a: string)
    requires s != [] && s[0] !in a && !Contains(".md", s)
    requires t == s + a + s + ".md"
    ensures Replace(t, s, "") == a + "" + ".md"
  {
    assert t[..|s|] == s && t[|s|..] == a + s + ".md";
    ReplaceAtStart(t, s, "");
    ReplaceOnce(a, s, ".md", "");
  }

  /** One leading slash is stripped from a name that has no other at
      either end. */
  lemma StripOneSlash(w: string)
    requires w != [] && w[0] != '/' && w[|w| - 1] != '/'
    ensures StripChar("/" + w, '/') == w
  {
    assert ("/" + w)[1..] == w;
  }

  /** A relative page path ending in ".md", joined onto a directory and
      given the ".html" extension in place of the last three characters. */
  lemma JoinedPage(o: string, w: string)
    requires o != [] && o[|o| - 1] != '/' && w != [] && w[0] != '/'
    ensures DropThreeAddHtml(PathJoin(o, w + ".md")) == o + "/" + w + ".html"
  {
    assert (w + ".md")[0] == w[0];
    var p := o + "/" + (w + ".md");
    assert p[..|p| - 3] == o + "/" + w;
  }

  /** parsers.py's output path with only the leading source path removed,
      as a path relative to the source directory is meant. */
  function ParsersOutputPath(filepath: string, sourcePath: string, destinationPath: string): string {
    var rest := if StartsWith(filepath, sourcePath) then filepath[|sourcePath|..] else filepath;
    DropThreeAddHtml(PathJoin(destinationPath, StripChar(rest, '/')))
  }

  /** With only the leading source path removed, every page "s/d/n.md" is
      written to "o/d/n.html", whatever its name. */
  lemma ParsersOutputOfPage(s: string, d: string, n: string, o: string)
    requires IsName(d) && '/' !in n
    requires o != [] && o[|o| - 1] != '/'
    ensures ParsersOutputPath(s + "/" + d + "/" + n + ".md", s, o) == o + "/" + d + "/" + n + ".html"
  {
    ParsersPageIn(s, d, n, o, s + "/" + d + "/" + n + ".md", o + "/" + d + "/" + n + ".html");
  }

  lemma ParsersPageIn(s: string, d: string, n: string, o: string, t: string, out: string)
    requires IsName(d) && '/' !in n
    requires o != [] && o[|o| - 1] != '/'
    requires t == s + "/" + d + "/" + n + ".md" && out == o + "/" + d + "/" + n + ".html"
    ensures ParsersOutputPath(t, s, o) == out
  {
    var w := d + "/" + n;
    var u := "/" + (w + ".md");
    assert w[0] == d[0] && d[0] in d;
    assert t == s + u;
    LeadingSourceRemoved(s, t, u, o);
    StripOneSlash(w + ".md");
    JoinedPage(o, w);
    RegroupPage(o, d, n, w);
  }

  lemma RegroupPage(o: string, d: string, n: string, w: string)
    requires w == d + "/" + n
    ensures o + "/" + w + ".html" == o + "/" + d + "/" + n + ".html"
  {
  }

  lemma LeadingSourceRemoved(s: string, t: string, u: string, o: string)
    requires t == s + u
    ensures ParsersOutputPath(t, s, o) == DropThreeAddHtml(PathJoin(o, StripChar(u, '/')))
  {
    assert t[..|s|] == s && t[|s|..] == u;
  }

  // ---------------------------------------------------------------------------
  // Copying the media directory
  // ---------------------------------------------------------------------------

  /** `copy_media` of operations.py. `Ok(true)` when it merges the media
      directory into the output one; `Ok(false)` for its `None`, when the
      two name the same place. `relpath` raises on an empty media path and
      `mergetree` when the media path is not a directory. */
  function CopyMedia(mediaPath: string, outputMediaPath: string, mediaIsDir: bool, cwd: CleanPath): (r: Result<bool>)
    ensures r.Err? <==> mediaPath == "" || (!mediaIsDir && AbsSegs(mediaPath, cwd) != AbsSegs(outputMediaPath, cwd))
    ensures r.Err? && mediaPath != "" ==> r.error == EnvironmentError
    ensures r.Ok? ==> (r.value <==> AbsSegs(mediaPath, cwd) != AbsSegs(outputMediaPath, cwd))
  {
    var rel :- RelPath(mediaPath, outputMediaPath, cwd);
    if rel == "." then Ok(false)
    else if !mediaIsDir then Err(EnvironmentError)
    else Ok(true)
  }

  /** The media step of `build_files` (build.py) and `_copy_media`
      (builder.py): a missing source directory only draws a warning, and the
      copy happens exactly when the two directories are different places.
      (`isdir('')` is false, hence the precondition.) */
  function MediaCopied(sourceMediaPath: string, outputMediaPath: string, sourceIsDir: bool, cwd: CleanPath): (r: bool)
    requires sourceMediaPath == "" ==> !sourceIsDir
    ensures r <==> sourceIsDir && AbsSegs(sourceMediaPath, cwd) != AbsSegs(outputMediaPath, cwd)
  {
    sourceIsDir && RelPath(sourceMediaPath, outputMediaPath, cwd).value != "."
  }

  /** Spellings of one directory are recognised: "media", "./media" and
      "media/" are never copied onto each other. */
  lemma SameMediaNotCopied(m: string, cwd: CleanPath)
    requires IsName(m)
    ensures !MediaCopied(m, "./" + m, true, cwd)
    ensures !MediaCopied(m + "/", m, true, cwd)
  {
    SplitNoSlash(m);
    assert "./" + m == "." + "/" + m;
    SplitConcat(".", m);
    SplitNoSlash(".");
    ResolveAppend(cwd, ["."], [m]);
    ResolveEmpties(cwd);
    SplitTrailingSlash(m);
    ResolveAppend(cwd, [m], [""]);
    ResolveEmpties(Resolve(cwd, [m]));
    assert ("./" + m)[0] == '.' && (m + "/")[0] == m[0];
  }

  // ---------------------------------------------------------------------------
  // mergetree
  // ---------------------------------------------------------------------------

  /** A file-system entry with its modification time. */
  datatype Entry = File(mtime: int) | Dir(mtime: int, children: map<string, Entry>)

  /** The entries of a directory; nothing for a file or a missing entry. */
  function Children(d: Option<Entry>): map<string, Entry> {
    if d.Some? && d.value.Dir? then d.value.children else map[]
  }

  /** `mergetree`'s test for one file: the destination is missing, or the
      source is newer by more than one second. */
  predicate CopiesFile(sourceMtime: int, destination: Option<Entry>) {
    destination.None? || sourceMtime - destination.value.mtime > 1
  }

  /** `copy2` of a file called `name` with mtime `t`. The mtime is kept; onto
      a directory the file is written inside it, which fails when that
      directory has a sub-directory of the same name. */
  function Copy2(name: string, t: int, destination: Option<Entry>): (r: Result<Entry>)
    ensures r.Ok? && destination.Some? && destination.value.Dir? ==>
      r.value == Dir(destination.value.mtime, destination.value.children[name := File(t)])
    ensures r.Ok? && !(destination.Some? && destination.value.Dir?) ==> r.value == File(t)
    ensures r.Err? <==> name in Children(destination) && Children(destination)[name].Dir?
  {
    if destination.Some? && destination.value.Dir? then
      var ch := destination.value.children;
      if name in ch && ch[name].Dir? then Err(EnvironmentError)
      else Ok(Dir(destination.value.mtime, ch[name := File(t)]))
    else Ok(File(t))
  }

  /** `mergetree(src, dst)`, giving the destination tree afterwards. It
      raises when the source is not a directory and when `makedirs` meets a
      file; `now` is the mtime of a directory it creates. Entries of the
      destination the source does not have are left alone. */
  function Merge(src: Entry, dst: Option<Entry>, now: int): (r: Result<Entry>)
    ensures !src.Dir? ==> r == Err(EnvironmentError)
    ensures r.Err? ==> r.error == EnvironmentError
    ensures r.Ok? ==> (r.value.Dir? && src.Dir? &&
      r.value.children.Keys == Children(dst).Keys + src.children.Keys)
    ensures r.Ok? ==> (forall k :: k in Children(dst) && k !in src.children ==>
      r.value.children[k] == Children(dst)[k])
    decreases src, 2
  {
    if !src.Dir? || (dst.Some? && dst.value.File?) then Err(EnvironmentError)
    else
      var step := Steps(src, Children(dst), now);
      if AnyFailed(step) then Err(EnvironmentError)
      else Ok(Dir(if dst.Some? then dst.value.mtime else now, Children(dst) + Merged(step)))
  }

  /** The outcome for every item of the source directory `src`. */
  function Steps(src: Entry, dc: map<string, Entry>, now: int): (r: map<string, Result<Entry>>)
    requires src.Dir?
    ensures r.Keys == src.children.Keys
    decreases src, 1
  {
    map k | k in src.children :: MergeItem(k, src.children[k], Lookup(dc, k), now)
  }

  predicate AnyFailed(step: map<string, Result<Entry>>) {
    exists k :: k in step && step[k].Err?
  }

  /** The entries the items became, when none failed. */
  function Merged(step: map<string, Result<Entry>>): (r: map<string, Entry>)
    requires !AnyFailed(step)
    ensures r.Keys == step.Keys
  {
    map k | k in step :: step[k].value
  }

  function Lookup(m: map<string, Entry>, k: string): Option<Entry> {
    if k in m then Some(m[k]) else None
  }

  /** One item of the source directory: a directory is merged recursively,
      a file is copied when `CopiesFile` says so. */
  function MergeItem(name: string, s: Entry, d: Option<Entry>, now: int): (r: Result<Entry>)
    ensures r.Err? ==> r.error == EnvironmentError
    ensures s.File? ==> r == (if CopiesFile(s.mtime, d) then Copy2(name, s.mtime, d) else Ok(d.value))
    decreases s, 3
  {
    if s.Dir? then Merge(s, d, now)
    else if CopiesFile(s.mtime, d) then Copy2(name, s.mtime, d)
    else Ok(d.value)
  }

  /** Once a file has been copied, `copy2` has given it the source's mtime,
      so the next merge leaves it alone. */
  lemma MergeItemIdempotent(name: string, s: Entry, d: Option<Entry>, now: int, e: Entry)
    requires MergeItem(name, s, d, now) == Ok(e)
    ensures MergeItem(name, s, Some(e), now) == Ok(e)
    decreases s, 3
  {
    if s.Dir? {
      MergeIdempotent(s, d, now, e);
    } else if CopiesFile(s.mtime, d) && d.Some? && d.value.Dir? {
      var ch := d.value.children;
      assert e == Dir(d.value.mtime, ch[name := File(s.mtime)]);
      assert ch[name := File(s.mtime)][name := File(s.mtime)] == ch[name := File(s.mtime)];
    }
  }

  /** Merging a second time changes nothing: every copied file now has the
      source's mtime, and every other decision is taken as before. */
  lemma {:induction false} MergeIdempotent(src: Entry, dst: Option<Entry>, now: int, d: Entry)
    requires Merge(src, dst, now) == Ok(d)
    ensures Merge(src, Some(d), now) == Ok(d)
    decreases src, 2
  {
    var step := Steps(src, Children(dst), now);
    assert d.children == Children(dst) + Merged(step);
    var step' := Steps(src, d.children, now);
    forall k | k in src.children ensures step'[k] == Ok(d.children[k]) {
      assert d.children[k] == Merged(step)[k] == step[k].value;
      MergeItemIdempotent(k, src.children[k], Lookup(Children(dst), k), now, d.children[k]);
    }
    assert !AnyFailed(step');
    OverrideSame(d.children, Merged(step'));
    assert Children(Some(d)) == d.children;
  }

  /** Overriding entries by equal ones changes nothing. */
  lemma OverrideSame(m: map<string, Entry>, f: map<string, Entry>)
    requires forall k :: k in f ==> k in m && f[k] == m[k]
    ensures m + f == m
  {
  }

  /** A source file over a destination file or a missing one: it is copied
      exactly when `CopiesFile` holds, and then has the source's mtime. */
  lemma MergeCopiesIff(src: Entry, dst: Option<Entry>, now: int, k: string)
    requires Merge(src, dst, now).Ok?
    requires k in src.children && src.children[k].File?
    requires k !in Children(dst) || Children(dst)[k].File?
    ensures var out := Merge(src, dst, now).value.children[k];
      out == (if CopiesFile(src.children[k].mtime, Lookup(Children(dst), k))
              then File(src.children[k].mtime) else Children(dst)[k])
  {
    var step := Steps(src, Children(dst), now);
    assert Merge(src, dst, now).value.children[k] == Merged(step)[k] == step[k].value;
  }
}
