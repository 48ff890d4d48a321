/**
 `matching_metadata` and `sort_paths`: the metadata entries that apply to a
 directory, ordered by their normalised directory path.
 */
module Matching {
  import opened Wrappers
  import opened Text
  import opened Paths
  import opened Metadata
  import opened Locations

  /** A `(dirpath, metadata)` item of the metadata dictionary. */
  type Entry = (string, Value)

  /** `sort_paths`: the key is the normalised directory path. */
  function SortKey(e: Entry): string {
    NormPath(e.0)
  }

  /** `sort_paths`, passed as the `key` argument of `sorted`. */
  function ByPath(): Entry -> string {
    (e: Entry) => SortKey(e)
  }

  /** `a` may come before `b`: its key is not greater. */
  predicate NotAfter(key: Entry -> string, a: Entry, b: Entry) {
    !Less(key(b), key(a))
  }

  predicate Sorted(key: Entry -> string, s: seq<Entry>) {
    forall i, j :: 0 <= i < j < |s| ==> NotAfter(key, s[i], s[j])
  }

  /** Whether an element's key is `k`. */
  function HasKey(key: Entry -> string, k: string): Entry -> bool {
    (x: Entry) => key(x) == k
  }

  /** The elements of `s` whose key is `k`, in order. */
  function WithKey(key: Entry -> string, s: seq<Entry>, k: string): seq<Entry> {
    Filter(s, HasKey(key, k))
  }

  // ---------------------------------------------------------------------------
  // Filters
  // ---------------------------------------------------------------------------

  /** The elements of `s` that satisfy `f`, in order. */
  function Filter<T>(s: seq<T>, f: T -> bool): (r: seq<T>)
    ensures |r| <= |s|
  {
    if s == [] then [] else (if f(s[0]) then [s[0]] else []) + Filter(s[1..], f)
  }

  lemma FilterCons<T>(e: T, s: seq<T>, f: T -> bool)
    ensures Filter([e] + s, f) == (if f(e) then [e] else []) + Filter(s, f)
  {
    assert ([e] + s)[0] == e && ([e] + s)[1..] == s;
  }

  /** A filter distributes over concatenation. */
  lemma {:induction false} FilterAppend<T>(a: seq<T>, b: seq<T>, f: T -> bool)
    ensures Filter(a + b, f) == Filter(a, f) + Filter(b, f)
    decreases |a|
  {
    if a == [] {
      assert a + b == b;
    } else {
      var e, t := a[0], a[1..];
      assert a == [e] + t && a + b == [e] + (t + b);
      FilterCons(e, t + b, f);
      FilterCons(e, t, f);
      FilterAppend(t, b, f);
      var h := if f(e) then [e] else [];
      assert h + (Filter(t, f) + Filter(b, f)) == (h + Filter(t, f)) + Filter(b, f);
    }
  }

  /** A filter holds exactly the elements that satisfy it. */
  lemma {:induction false} FilterMembers<T>(s: seq<T>, f: T -> bool)
    ensures forall e :: e in Filter(s, f) <==> e in s && f(e)
  {
    if s != [] {
      FilterMembers(s[1..], f);
      assert s == [s[0]] + s[1..];
    }
  }

  lemma FilterMember<T>(s: seq<T>, f: T -> bool, e: T)
    requires e in Filter(s, f)
    ensures e in s && f(e)
  {
    FilterMembers(s, f);
  }

  /** Two filters commute. */
  lemma {:induction false} FilterCommute<T>(s: seq<T>, f: T -> bool, g: T -> bool)
    ensures Filter(Filter(s, f), g) == Filter(Filter(s, g), f)
  {
    if s != [] {
      var e, t := s[0], s[1..];
      assert s == [e] + t;
      FilterCommute(t, f, g);
      FilterCons(e, t, f);
      FilterCons(e, t, g);
      var hf := if f(e) then [e] else [];
      var hg := if g(e) then [e] else [];
      FilterAppend(hf, Filter(t, f), g);
      FilterAppend(hg, Filter(t, g), f);
      if f(e) {
        FilterCons(e, [], g);
        assert hf == [e] + [];
      }
      if g(e) {
        FilterCons(e, [], f);
        assert hg == [e] + [];
      }
    }
  }

  /** A filter of a sorted sequence is sorted. */
  lemma {:induction false} FilterSorted(key: Entry -> string, s: seq<Entry>, f: Entry -> bool)
    requires Sorted(key, s)
    ensures Sorted(key, Filter(s, f))
  {
    if s != [] {
      FilterSorted(key, s[1..], f);
      var t := Filter(s[1..], f);
      forall j | 0 <= j < |t| ensures NotAfter(key, s[0], t[j]) {
        assert t[j] in t;
        FilterMember(s[1..], f, t[j]);
        var m :| 0 <= m < |s[1..]| && s[1..][m] == t[j];
        assert s[m + 1] == t[j];
      }
      FilterCons(s[0], s[1..], f);
      assert s == [s[0]] + s[1..];
      if f(s[0]) {
        SortedCons(key, s[0], t);
      }
    }
  }

  // ---------------------------------------------------------------------------
  // Python's sorted(): a stable sort
  // ---------------------------------------------------------------------------

  /** Place `e` in front of the first element whose key is not smaller. */
  function Insert(key: Entry -> string, e: Entry, s: seq<Entry>): (r: seq<Entry>)
    ensures multiset(r) == multiset(s) + multiset{e}
    ensures forall x :: x in r <==> x == e || x in s
  {
    if s == [] || !Less(key(s[0]), key(e)) then [e] + s
    else
      assert s == [s[0]] + s[1..];
      [s[0]] + Insert(key, e, s[1..])
  }

  /** An element that may come before every element of a sorted sequence
      can lead it. */
  lemma SortedCons(key: Entry -> string, e: Entry, s: seq<Entry>)
    requires Sorted(key, s) && forall j :: 0 <= j < |s| ==> NotAfter(key, e, s[j])
    ensures Sorted(key, [e] + s)
  {
    var r := [e] + s;
    forall i, j | 0 <= i < j < |r| ensures NotAfter(key, r[i], r[j]) {
      assert r[j] == s[j - 1];
      if i > 0 {
        assert r[i] == s[i - 1];
      }
    }
  }

  lemma {:induction false} InsertSorted(key: Entry -> string, e: Entry, s: seq<Entry>)
    requires Sorted(key, s)
    ensures Sorted(key, Insert(key, e, s))
  {
    if s == [] {
      SortedCons(key, e, s);
    } else if !Less(key(s[0]), key(e)) {
      forall j | 0 <= j < |s| ensures NotAfter(key, e, s[j]) {
        if j > 0 {
          assert NotAfter(key, s[0], s[j]);
          NotLessTransitive(key(e), key(s[0]), key(s[j]));
        }
      }
      SortedCons(key, e, s);
    } else {
      InsertSorted(key, e, s[1..]);
      var t := Insert(key, e, s[1..]);
      LessAsymmetric(key(s[0]), key(e));
      forall j | 0 <= j < |t| ensures NotAfter(key, s[0], t[j]) {
        assert t[j] in t;
        if t[j] != e {
          var m :| 0 <= m < |s[1..]| && s[1..][m] == t[j];
          assert s[m + 1] == t[j];
        }
      }
      SortedCons(key, s[0], t);
    }
  }

  /** Inserting keeps the relative order of every key's elements, `e` going
      in front of those with its own key. */
  lemma {:induction false} InsertWithKey(key: Entry -> string, e: Entry, s: seq<Entry>, k: string)
    ensures WithKey(key, Insert(key, e, s), k) == (if key(e) == k then [e] else []) + WithKey(key, s, k)
  {
    if s == [] || !Less(key(s[0]), key(e)) {
      FilterCons(e, s, HasKey(key, k));
    } else {
      InsertWithKey(key, e, s[1..], k);
      var t := Insert(key, e, s[1..]);
      FilterCons(s[0], t, HasKey(key, k));
      assert s == [s[0]] + s[1..];
      FilterCons(s[0], s[1..], HasKey(key, k));
      if key(e) == k {
        // `s[0]` is strictly smaller than `e`, so its key is not `k`.
        LessIrreflexive(k);
      }
    }
  }

  /** `sorted(items, key=key)`: insertion sort, each element going in front
      of the first one whose key is not smaller. */
  function Sort(key: Entry -> string, s: seq<Entry>): (r: seq<Entry>)
    ensures multiset(r) == multiset(s)
    ensures Sorted(key, r)
  {
    if s == [] then []
    else
      assert s == [s[0]] + s[1..];
      InsertSorted(key, s[0], Sort(key, s[1..]));
      Insert(key, s[0], Sort(key, s[1..]))
  }

  /** The sort is stable: the elements with the same key keep their order. */
  lemma {:induction false} SortStable(key: Entry -> string, s: seq<Entry>, k: string)
    ensures WithKey(key, Sort(key, s), k) == WithKey(key, s, k)
  {
    if s != [] {
      SortStable(key, s[1..], k);
      InsertWithKey(key, s[0], Sort(key, s[1..]), k);
      assert s == [s[0]] + s[1..];
      FilterCons(s[0], s[1..], HasKey(key, k));
    }
  }

  // ---------------------------------------------------------------------------
  // matching_metadata
  // ---------------------------------------------------------------------------

  /** The test on one entry: `relpath(context_path, dirpath)` contains no
      "..". relpath raises on an empty context path. */
  function Related(dirpath: string, contextPath: string, cwd: CleanPath): (r: Result<bool>)
    ensures r.Err? <==> contextPath == ""
  {
    var rel :- RelPath(contextPath, dirpath, cwd);
    Ok(!Contains(rel, ".."))
  }

  /** The test as a predicate on entries: relpath succeeds and its result
      holds no "..". */
  function Test(contextPath: string, cwd: CleanPath): Entry -> bool {
    (e: Entry) => Related(e.0, contextPath, cwd) == Ok(true)
  }

  /** The entries of `s` that pass the test, in order. */
  function Keep(s: seq<Entry>, contextPath: string, cwd: CleanPath): seq<Entry>
    requires contextPath != ""
  {
    Filter(s, Test(contextPath, cwd))
  }

  /** `Keep` holds exactly the entries of `s` that pass the test. */
  lemma KeepMembers(s: seq<Entry>, contextPath: string, cwd: CleanPath)
    requires contextPath != ""
    ensures forall e :: e in Keep(s, contextPath, cwd) <==> e in s && Related(e.0, contextPath, cwd).value
  {
    FilterMembers(s, Test(contextPath, cwd));
  }

  /** `matching_metadata`, its generator run to the end. The first relpath
      raises when the context path is empty and there is an item. */
  function MatchingMetadata(items: seq<Entry>, contextPath: string, cwd: CleanPath): (r: Result<seq<Entry>>)
    ensures r.Err? <==> contextPath == "" && items != []
    ensures r.Ok? ==> Sorted(ByPath(), r.value)
    ensures r.Ok? ==> forall e :: e in r.value <==> e in items && Related(e.0, contextPath, cwd) == Ok(true)
    ensures r.Ok? && contextPath != "" ==>
      forall k :: WithKey(ByPath(), r.value, k) == Keep(WithKey(ByPath(), items, k), contextPath, cwd)
  {
    if items == [] then Ok([])
    else if contextPath == "" then Err(ValueError)
    else
      var sorted := Sort(ByPath(), items);
      var r := Keep(sorted, contextPath, cwd);
      FilterSorted(ByPath(), sorted, Test(contextPath, cwd));
      KeepMembers(sorted, contextPath, cwd);
      SortKeepStable(items, contextPath, cwd);
      assert forall e :: e in sorted <==> e in multiset(sorted);
      assert forall e :: e in items <==> e in multiset(items);
      Ok(r)
  }

  /** The test keeps or drops each entry on its own. */
  lemma KeepAppend(a: seq<Entry>, b: seq<Entry>, contextPath: string, cwd: CleanPath)
    requires contextPath != ""
    ensures Keep(a + b, contextPath, cwd) == Keep(a, contextPath, cwd) + Keep(b, contextPath, cwd)
  {
    FilterAppend(a, b, Test(contextPath, cwd));
  }

  /** Filtering by the test and selecting one key commute. */
  lemma KeepWithKey(s: seq<Entry>, k: string, contextPath: string, cwd: CleanPath)
    requires contextPath != ""
    ensures WithKey(ByPath(), Keep(s, contextPath, cwd), k) == Keep(WithKey(ByPath(), s, k), contextPath, cwd)
  {
    FilterCommute(s, Test(contextPath, cwd), HasKey(ByPath(), k));
  }

  /** The entries kept for each key are those of the input with that key
      that pass the test, in their input order. */
  lemma SortKeepStable(items: seq<Entry>, contextPath: string, cwd: CleanPath)
    requires contextPath != ""
    ensures forall k :: WithKey(ByPath(), Keep(Sort(ByPath(), items), contextPath, cwd), k) == Keep(WithKey(ByPath(), items, k), contextPath, cwd)
  {
    forall k ensures WithKey(ByPath(), Keep(Sort(ByPath(), items), contextPath, cwd), k) == Keep(WithKey(ByPath(), items, k), contextPath, cwd) {
      KeepWithKey(Sort(ByPath(), items), k, contextPath, cwd);
      SortStable(ByPath(), items, k);
    }
  }

  // ---------------------------------------------------------------------------
  // What the ".." test means
  // ---------------------------------------------------------------------------

  lemma JoinStartsWith(xs: seq<string>)
    requires xs != []
    ensures StartsWith(JoinSegs(xs), xs[0])
  {
    if |xs| > 1 {
      assert JoinSegs(xs)[..|xs[0]|] == xs[0];
    }
  }

  /** When `from` is not an ancestor of `to`, the relative path climbs, so
      it contains "..". */
  lemma ClimbingContainsDots(to: CleanPath, from: CleanPath)
    ensures CommonPrefixLen(to, from) < |from| ==> Contains(SegsToString(RelSegs(to, from)), "..")
  {
    var xs := RelSegs(to, from);
    if CommonPrefixLen(to, from) < |from| {
      assert xs[0] == "..";
      JoinStartsWith(xs);
      assert OccursAt(JoinSegs(xs), "..", 0);
    }
  }

  /** ".." has no '/', so an occurrence in a joined path lies inside one
      segment. */
  lemma {:induction false} JoinNoDots(ys: seq<string>)
    requires forall i :: 0 <= i < |ys| ==> !Contains(ys[i], "..")
    ensures !Contains(JoinSegs(ys), "..")
  {
    if |ys| == 1 {
    } else if |ys| > 1 {
      var y, rest := ys[0], JoinSegs(ys[1..]);
      JoinNoDots(ys[1..]);
      var s := y + "/" + rest;
      assert JoinSegs(ys) == s;
      forall p | 0 <= p <= |s| - 2 ensures !OccursAt(s, "..", p) {
        if p + 1 < |y| {
          assert s[p..p + 2] == y[p..p + 2];
          assert !OccursAt(y, "..", p);
        } else if p > |y| {
          assert s[p..p + 2] == rest[p - |y| - 1..p - |y| + 1];
          assert !OccursAt(rest, "..", p - |y| - 1);
        } else if p + 1 == |y| {
          assert s[p + 1] == '/';
        } else {
          assert s[p] == '/';
        }
      }
    }
  }

  /** An entry that passes the test is the context's directory or one of
      its ancestors. */
  lemma KeptIsAncestor(dirpath: string, contextPath: string, cwd: CleanPath)
    requires Related(dirpath, contextPath, cwd) == Ok(true)
    ensures IsPrefix(AbsSegs(dirpath, cwd), AbsSegs(contextPath, cwd))
  {
    ClimbingContainsDots(AbsSegs(contextPath, cwd), AbsSegs(dirpath, cwd));
  }

  /** An ancestor passes the test, provided no name below it contains "..". */
  lemma AncestorIsKept(dirpath: string, contextPath: string, cwd: CleanPath)
    requires contextPath != ""
    requires IsPrefix(AbsSegs(dirpath, cwd), AbsSegs(contextPath, cwd))
    requires forall i :: |AbsSegs(dirpath, cwd)| <= i < |AbsSegs(contextPath, cwd)| ==>
      !Contains(AbsSegs(contextPath, cwd)[i], "..")
    ensures Related(dirpath, contextPath, cwd) == Ok(true)
  {
    var to, from := AbsSegs(contextPath, cwd), AbsSegs(dirpath, cwd);
    CommonPrefixLenIs(to, from, |from|);
    var ys := to[|from|..];
    assert RelSegs(to, from) == ys;
    if ys != [] {
      JoinNoDots(ys);
    }
  }

  /** The test is on the string: a directory below the entry's whose name
      contains ".." (such as "a..b") does not get the entry. */
  lemma DottedNameExcluded(d: string, n: string, cwd: CleanPath)
    requires IsName(d) && IsName(n) && Contains(n, "..")
    ensures IsPrefix(AbsSegs(d, cwd), AbsSegs(d + "/" + n, cwd))
    ensures Related(d, d + "/" + n, cwd) == Ok(false)
  {
    SplitNoSlash(d);
    SplitNoSlash(n);
    SplitConcat(d, n);
    ResolveNames(cwd, [d]);
    ResolveNames(cwd, [d, n]);
    var to, from := cwd + [d, n], cwd + [d];
    assert to[..|from|] == from;
    CommonPrefixLenIs(to, from, |from|);
    assert to[|from|..] == [n];
    assert RelSegs(to, from) == [n];
  }
}
