/**
 How a page's template context is assembled: the metadata trees that apply
 to the page are relativized to the page's directory and merged with
 `dict.update`, later trees overriding earlier ones; the page's own
 metadata and its HTML go on top.
 */
module Inheritance {
  import opened Wrappers
  import opened Text
  import opened Paths
  import opened Locations
  import opened Metadata

  type Fields = map<string, Value>

  /** One metadata.yaml file: its directory relative to the source root,
      and its top-level mapping. */
  datatype MetadataFile = MetadataFile(dir: string, fields: Fields)

  /** A metadata tree relativized for a page in `pageDir`: the locations it
      holds are rewritten from the tree's own directory. */
  function ForPage(t: MetadataFile, pageDir: string): Fields {
    var v := RelativizePaths(Map(t.fields), t.dir, pageDir);
    RewrittenMap(t.fields, v, Dir(t.dir), Dir(pageDir));
    v.fields
  }

  /** The relativized tree has the tree's keys. */
  lemma ForPageKeys(pageDir: string)
    ensures forall t :: ForPage(t, pageDir).Keys == t.fields.Keys
  {
    forall t ensures ForPage(t, pageDir).Keys == t.fields.Keys {
      var v := RelativizePaths(Map(t.fields), t.dir, pageDir);
      RewrittenMap(t.fields, v, Dir(t.dir), Dir(pageDir));
    }
  }

  /** Every tree relativized for a page in `pageDir`. */
  function ForPageIn(pageDir: string): MetadataFile -> Fields {
    t => ForPage(t, pageDir)
  }

  /** A way to relativize every tree for one page that keeps its keys. */
  ghost predicate KeepsKeys(relativize: MetadataFile -> Fields) {
    forall t :: relativize(t).Keys == t.fields.Keys
  }

  lemma ForPageInKeepsKeys(pageDir: string)
    ensures KeepsKeys(ForPageIn(pageDir))
  {
    ForPageKeys(pageDir);
  }

  /** Each value of the relativized tree is the tree's value rewritten from
      the tree's directory to the page's. */
  lemma ForPageRewrites(t: MetadataFile, pageDir: string)
    ensures forall k :: k in t.fields ==>
      k in ForPage(t, pageDir) && Rewritten(t.fields[k], ForPage(t, pageDir)[k], Dir(t.dir), Dir(pageDir))
  {
    var v := RelativizePaths(Map(t.fields), t.dir, pageDir);
    RewrittenMap(t.fields, v, Dir(t.dir), Dir(pageDir));
  }

  /** What `Rewritten` says of a mapping, one level down. */
  lemma RewrittenMap(m: Fields, b: Value, from: CleanPath, to: CleanPath)
    requires Rewritten(Map(m), b, from, to)
    ensures b.Map? && b.fields.Keys == m.Keys
    ensures forall k :: k in b.fields ==> Rewritten(m[k], b.fields[k], from, to)
  {
  }

  /** `trees[i]` applies and has key `k`. */
  ghost predicate Applying(trees: seq<MetadataFile>, applies: MetadataFile -> bool, k: string, i: int) {
    0 <= i < |trees| && applies(trees[i]) && k in trees[i].fields
  }

  /** `trees[i]` applies, has key `k`, and no later applying tree has it. */
  ghost predicate LastWith(trees: seq<MetadataFile>, applies: MetadataFile -> bool, k: string, i: int) {
    Applying(trees, applies, k, i) &&
    forall j :: i < j < |trees| ==> !Applying(trees, applies, k, j)
  }

  /** `r[k]` is the value for `k` in the last applying tree that has `k`,
      relativized for the page. */
  ghost predicate FromLast(r: Fields, trees: seq<MetadataFile>, applies: MetadataFile -> bool,
                           relativize: MetadataFile -> Fields, k: string, i: int) {
    LastWith(trees, applies, k, i) &&
    k in r && k in relativize(trees[i]) && r[k] == relativize(trees[i])[k]
  }

  /** `r` is what updating an empty dict with every tree that `applies`, in
      order, gives: a key is present exactly when some applying tree has
      it, and its value comes from the last applying tree that has it. */
  ghost predicate Inherits(r: Fields, trees: seq<MetadataFile>, applies: MetadataFile -> bool,
                           relativize: MetadataFile -> Fields) {
    (forall k :: k in r <==> exists i :: Applying(trees, applies, k, i)) &&
    (forall k :: k in r ==> exists i :: FromLast(r, trees, applies, relativize, k, i))
  }

  /** The loop of `_build_metadata`, for a given test of which trees apply. */
  function Inherit(trees: seq<MetadataFile>, applies: MetadataFile -> bool, relativize: MetadataFile -> Fields): (r: Fields)
    requires KeepsKeys(relativize)
    ensures Inherits(r, trees, applies, relativize)
  {
    if trees == [] then map[]
    else
      var init := trees[..|trees| - 1];
      var before := Inherit(init, applies, relativize);
      assert init + [trees[|trees| - 1]] == trees;
      InheritKeys(init, trees[|trees| - 1], before, applies, relativize);
      InheritValues(init, trees[|trees| - 1], before, applies, relativize);
      Update(before, trees[|trees| - 1], applies, relativize)
  }

  /** One iteration of the loop: `dict.update` with the tree when it applies. */
  function Update(before: Fields, t: MetadataFile, applies: MetadataFile -> bool, relativize: MetadataFile -> Fields): Fields {
    if applies(t) then before + relativize(t) else before
  }

  /** One more iteration keeps the keys right. */
  lemma {:induction false} InheritKeys(init: seq<MetadataFile>, last: MetadataFile, before: Fields,
                                       applies: MetadataFile -> bool, relativize: MetadataFile -> Fields)
    requires KeepsKeys(relativize)
    requires forall k :: k in before <==> exists i :: Applying(init, applies, k, i)
    ensures forall k :: k in Update(before, last, applies, relativize) <==>
      exists i :: Applying(init + [last], applies, k, i)
  {
    var trees := init + [last];
    var r := Update(before, last, applies, relativize);
    var n := |init|;
    assert relativize(last).Keys == last.fields.Keys;
    forall k ensures k in r <==> exists i :: Applying(trees, applies, k, i) {
      if k in r {
        if applies(last) && k in last.fields {
          assert Applying(trees, applies, k, n);
        } else {
          var i :| Applying(init, applies, k, i);
          assert Applying(trees, applies, k, i);
        }
      }
      if exists i :: Applying(trees, applies, k, i) {
        var i :| Applying(trees, applies, k, i);
        if i < n {
          assert Applying(init, applies, k, i);
        }
      }
    }
  }

  /** One more iteration keeps every value coming from the last applying
      tree that has its key. */
  lemma {:induction false} InheritValues(init: seq<MetadataFile>, last: MetadataFile, before: Fields,
                                         applies: MetadataFile -> bool, relativize: MetadataFile -> Fields)
    requires KeepsKeys(relativize)
    requires forall k :: k in before ==> exists i :: FromLast(before, init, applies, relativize, k, i)
    ensures forall k :: k in Update(before, last, applies, relativize) ==>
      exists i :: FromLast(Update(before, last, applies, relativize), init + [last], applies, relativize, k, i)
  {
    var trees := init + [last];
    var r := Update(before, last, applies, relativize);
    var n := |init|;
    assert relativize(last).Keys == last.fields.Keys;
    forall k | k in r ensures exists i :: FromLast(r, trees, applies, relativize, k, i) {
      if applies(last) && k in last.fields {
        assert Applying(trees, applies, k, n);
        assert FromLast(r, trees, applies, relativize, k, n);
      } else {
        var i :| FromLast(before, init, applies, relativize, k, i);
        assert trees[i] == init[i];
        forall j | i < j < |trees| ensures !Applying(trees, applies, k, j) {
          if j < n {
            assert !Applying(init, applies, k, j);
          }
        }
        assert FromLast(r, trees, applies, relativize, k, i);
      }
    }
  }

  /** The test builder.py applies: the page's directory, as a string that
      still starts with the source root, begins with the tree's directory,
      which is relative to that root. */
  predicate AppliesAsWritten(sourceDir: string, t: MetadataFile) {
    StartsWith(sourceDir, t.dir)
  }

  /** The test for the page file `sourceFile`, whose directory is taken
      with `dirname`. */
  function AppliesAsWrittenTo(sourceFile: string): MetadataFile -> bool {
    t => AppliesAsWritten(DirName(sourceFile), t)
  }

  /** `dir_in_project`: the page's directory relative to the source root. */
  function PageDir(sourceFile: string, sourcePath: string, cwd: CleanPath): string
    requires sourceFile != ""
  {
    DirName(RelPath(sourceFile, sourcePath, cwd).value)
  }

  /** The loop run with the trees relativized for one page directory. */
  function InheritForPage(trees: seq<MetadataFile>, applies: MetadataFile -> bool, pageDir: string): (r: Fields)
    ensures Inherits(r, trees, applies, ForPageIn(pageDir))
  {
    ForPageInKeepsKeys(pageDir);
    Inherit(trees, applies, ForPageIn(pageDir))
  }

  /** `_build_metadata` as written. relpath raises on an empty file path. */
  function BuildMetadataAsWritten(trees: seq<MetadataFile>, sourceFile: string, sourcePath: string, cwd: CleanPath): (r: Result<Fields>)
    ensures r.Err? <==> sourceFile == ""
    ensures r.Ok? ==> Inherits(r.value, trees, AppliesAsWrittenTo(sourceFile),
                               ForPageIn(PageDir(sourceFile, sourcePath, cwd)))
  {
    if sourceFile == "" then Err(ValueError)
    else
      Ok(InheritForPage(trees, AppliesAsWrittenTo(sourceFile), PageDir(sourceFile, sourcePath, cwd)))
  }

  /** The evident intent: a tree applies when its directory is the page's
      directory or one of its ancestors, compared segment by segment
      relative to the source root. */
  predicate AppliesToDir(pageDir: string, t: MetadataFile) {
    IsPrefix(Dir(t.dir), Dir(pageDir))
  }

  function AppliesToDirIn(pageDir: string): MetadataFile -> bool {
    t => AppliesToDir(pageDir, t)
  }

  /** `_build_metadata` with the ancestry test done on the page's directory
      relative to the source root. */
  function BuildMetadata(trees: seq<MetadataFile>, sourceFile: string, sourcePath: string, cwd: CleanPath): (r: Result<Fields>)
    ensures r.Err? <==> sourceFile == ""
    ensures r.Ok? ==> Inherits(r.value, trees, AppliesToDirIn(PageDir(sourceFile, sourcePath, cwd)),
                               ForPageIn(PageDir(sourceFile, sourcePath, cwd)))
  {
    if sourceFile == "" then Err(ValueError)
    else
      var pageDir := PageDir(sourceFile, sourcePath, cwd);
      Ok(InheritForPage(trees, AppliesToDirIn(pageDir), pageDir))
  }

  // ---------------------------------------------------------------------------
  // Nested metadata with the default source root
  // ---------------------------------------------------------------------------

  /** The directory part of "a/f", for a name `f`. */
  lemma DirNameOfJoin(a: string, f: string)
    requires a != [] && a[|a| - 1] != '/' && IsName(f)
    ensures DirName(a + "/" + f) == a
  {
    var p := a + "/" + f;
    var i := |a|;
    assert p[i] == '/';
    forall j | i < j < |p| ensures p[j] != '/' {
      assert p[j] == f[j - i - 1];
    }
    var head := p[..i + 1];
    assert head == a + "/";
    assert !AllChar(head, '/') by { assert head[i - 1] != '/'; }
    assert RStripChar(head, '/') == RStripChar(a, '/');
  }

  /** The segments of "./d/f", read from the working directory. */
  lemma DotPathSegs(d: string, f: string, cwd: CleanPath)
    requires IsName(d) && IsName(f)
    ensures AbsSegs("./" + d + "/" + f, cwd) == cwd + [d, f]
  {
    assert "./" + d + "/" + f == "." + "/" + (d + "/" + f);
    SplitConcat(".", d + "/" + f);
    SplitNoSlash(".");
    SplitConcat(d, f);
    SplitNoSlash(d);
    SplitNoSlash(f);
    assert Split("./" + d + "/" + f) == ["."] + [d, f];
    ResolveAppend(cwd, ["."], [d, f]);
    ResolveEmpties(cwd);
    ResolveNames(cwd, [d, f]);
  }

  /** With the default source root ".", the pages of "d" are globbed as
      "./d/f", and their directory is "d" relative to the root. */
  lemma DotPageDir(d: string, f: string, cwd: CleanPath)
    requires IsName(d) && IsName(f)
    ensures PageDir("./" + d + "/" + f, ".", cwd) == d
  {
    DotPathSegs(d, f, cwd);
    SplitNoSlash(".");
    ResolveEmpties(cwd);
    assert AbsSegs(".", cwd) == cwd;
    CommonPrefixLenIs(cwd + [d, f], cwd, |cwd|);
    assert (cwd + [d, f])[|cwd|..] == [d, f];
    assert RelSegs(cwd + [d, f], cwd) == [d, f];
    assert JoinSegs([d, f]) == d + "/" + JoinSegs([f]);
    DirNameOfJoin(d, f);
  }

  /** As written, a metadata tree in a subdirectory "d" never applies to
      the pages of that subdirectory when the source root is ".": their
      directory is "./d", which does not start with "d". */
  lemma SubdirMetadataIgnored(d: string, f: string, fields: Fields, cwd: CleanPath)
    requires IsName(d) && IsName(f) && d[0] != '.'
    ensures BuildMetadataAsWritten([MetadataFile(d, fields)], "./" + d + "/" + f, ".", cwd) == Ok(map[])
  {
    var file := "./" + d + "/" + f;
    SubdirNotApplying(d, f, fields);
    AsWrittenNoneApply([MetadataFile(d, fields)], file, ".", cwd);
  }

  lemma SubdirNotApplying(d: string, f: string, fields: Fields)
    requires IsName(d) && IsName(f) && d[0] != '.'
    ensures !AppliesAsWritten(DirName("./" + d + "/" + f), MetadataFile(d, fields))
  {
    DirNameOfJoin("./" + d, f);
    assert ("./" + d)[0] == '.';
  }

  /** As written, a page to which no tree applies inherits nothing. */
  lemma AsWrittenNoneApply(trees: seq<MetadataFile>, sourceFile: string, sourcePath: string, cwd: CleanPath)
    requires sourceFile != ""
    requires forall i :: 0 <= i < |trees| ==> !AppliesAsWritten(DirName(sourceFile), trees[i])
    ensures BuildMetadataAsWritten(trees, sourceFile, sourcePath, cwd) == Ok(map[])
  {
    var r := BuildMetadataAsWritten(trees, sourceFile, sourcePath, cwd);
    NoneApplies(r.value, trees, AppliesAsWrittenTo(sourceFile),
                ForPageIn(PageDir(sourceFile, sourcePath, cwd)));
  }

  /** When no tree applies, nothing is inherited. */
  lemma NoneApplies(r: Fields, trees: seq<MetadataFile>, applies: MetadataFile -> bool,
                    relativize: MetadataFile -> Fields)
    requires Inherits(r, trees, applies, relativize)
    requires forall i :: 0 <= i < |trees| ==> !applies(trees[i])
    ensures r == map[]
  {
    assert forall k :: k !in r;
  }

  /** A single tree that applies to the page gives the page all its keys. */
  lemma OneTreeInherited(t: MetadataFile, sourceFile: string, sourcePath: string, cwd: CleanPath)
    requires sourceFile != ""
    requires AppliesToDir(PageDir(sourceFile, sourcePath, cwd), t)
    ensures BuildMetadata([t], sourceFile, sourcePath, cwd).Ok?
    ensures BuildMetadata([t], sourceFile, sourcePath, cwd).value.Keys == t.fields.Keys
  {
    var pageDir := PageDir(sourceFile, sourcePath, cwd);
    var r := BuildMetadata([t], sourceFile, sourcePath, cwd);
    InheritsOne(r.value, t, AppliesToDirIn(pageDir), ForPageIn(pageDir));
  }

  /** Inheriting from one tree that applies gives exactly its keys. */
  lemma InheritsOne(m: Fields, t: MetadataFile, applies: MetadataFile -> bool, relativize: MetadataFile -> Fields)
    requires Inherits(m, [t], applies, relativize) && applies(t)
    ensures m.Keys == t.fields.Keys
  {
    forall k ensures k in m <==> k in t.fields {
      assert k in t.fields <==> Applying([t], applies, k, 0);
      assert forall i :: Applying([t], applies, k, i) ==> i == 0;
    }
  }

  /** Corrected, the tree applies: every key of it reaches the page. */
  lemma SubdirMetadataInherited(d: string, f: string, fields: Fields, cwd: CleanPath)
    requires IsName(d) && IsName(f)
    ensures BuildMetadata([MetadataFile(d, fields)], "./" + d + "/" + f, ".", cwd).Ok?
    ensures BuildMetadata([MetadataFile(d, fields)], "./" + d + "/" + f, ".", cwd).value.Keys == fields.Keys
  {
    var file := "./" + d + "/" + f;
    DotPageDir(d, f, cwd);
    SplitNoSlash(d);
    ResolveNames([], [d]);
    assert Dir(d) == [d];
    assert file != "" by { assert file[0] == '.'; }
    OneTreeInherited(MetadataFile(d, fields), file, ".", cwd);
  }

  // ---------------------------------------------------------------------------
  // The page context
  // ---------------------------------------------------------------------------

  /** `build_context`: a copy of the global context, updated with the page's
      metadata, then `content` set to the page's HTML. */
  function Context(global: Fields, page: Fields, content: string): (r: Fields)
    ensures "content" in r && r["content"] == Str(content)
    ensures forall k :: k != "content" ==> (k in r <==> k in global || k in page)
    ensures forall k :: k != "content" && k in page ==> r[k] == page[k]
    ensures forall k :: k != "content" && k in global && k !in page ==> r[k] == global[k]
  {
    (global + page)["content" := Str(content)]
  }

  /** The metadata `_build_html` renders: the inherited metadata updated
      with the page's own, `content` set, and `site_root` set last, only
      when one is configured. */
  function PageMetadata(inherited: Fields, local: Fields, content: string, siteRoot: Option<string>): (r: Fields)
    ensures Truthy(siteRoot) ==> "site_root" in r && r["site_root"] == Str(siteRoot.value)
    ensures "content" in r && r["content"] == Str(content)
    ensures forall k :: k != "content" && !(Truthy(siteRoot) && k == "site_root") ==>
      (k in r <==> k in inherited || k in local) &&
      (k in r ==> r[k] == if k in local then local[k] else inherited[k])
  {
    var m := Context(inherited, local, content);
    if Truthy(siteRoot) then m["site_root" := Str(siteRoot.value)] else m
  }
}
