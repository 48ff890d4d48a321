/**
 POSIX path algebra as Python's `posixpath` implements it.

 Strings are split on '/' into segments. An absolute location is resolved to
 a clean segment sequence (no empty, "." or ".." segments); `relpath` compares
 two such sequences. `os.path.relpath` consults `os.getcwd()` for relative
 arguments, so the working directory is an explicit parameter `cwd` here.
 */
module Paths {
  import opened Wrappers
  import opened Text

  // ---------------------------------------------------------------------------
  // Segments
  // ---------------------------------------------------------------------------

  /** A real directory or file name: not empty, not "." or "..", no '/'. */
  predicate IsName(s: string) {
    s != "" && s != "." && s != ".." && '/' !in s
  }

  predicate Clean(xs: seq<string>) {
    forall i :: 0 <= i < |xs| ==> IsName(xs[i])
  }

  predicate NoSlash(xs: seq<string>) {
    forall i :: 0 <= i < |xs| ==> '/' !in xs[i]
  }

  /** An absolute, normalised location: the working directory, for one. */
  type CleanPath = xs: seq<string> | Clean(xs) witness []

  /** `s.split('/')` */
  function Split(s: string): (r: seq<string>)
    ensures |r| >= 1
    ensures NoSlash(r)
  {
    if s == [] then [""]
    else
      var rest := Split(s[1..]);
      if s[0] == '/' then [""] + rest
      else [[s[0]] + rest[0]] + rest[1..]
  }

  /** `'/'.join(xs)` */
  function JoinSegs(xs: seq<string>): string {
    if xs == [] then ""
    else if |xs| == 1 then xs[0]
    else xs[0] + "/" + JoinSegs(xs[1..])
  }

  lemma {:induction false} SplitNoSlash(a: string)
    requires '/' !in a
    ensures Split(a) == [a]
  {
    if a != [] {
      SplitNoSlash(a[1..]);
      assert a == [a[0]] + a[1..];
    }
  }

  lemma {:induction false} SplitConcat(a: string, b: string)
    ensures Split(a + "/" + b) == Split(a) + Split(b)
  {
    var s := a + "/" + b;
    SplitCons(s);
    if a == [] {
      assert s == "/" + b && s[1..] == b;
    } else {
      assert s[0] == a[0] && s[1..] == a[1..] + "/" + b;
      SplitConcat(a[1..], b);
      SplitCons(a);
      if a[0] != '/' {
        HeadMerge(a[0], Split(a[1..]), Split(b));
      }
    }
  }

  /** Putting a character in front of the first segment commutes with
      appending more segments. */
  lemma HeadMerge(c: char, xs: seq<string>, ys: seq<string>)
    requires |xs| >= 1
    ensures [[c] + (xs + ys)[0]] + (xs + ys)[1..] == [[c] + xs[0]] + xs[1..] + ys
  {
    assert (xs + ys)[0] == xs[0];
    assert (xs + ys)[1..] == xs[1..] + ys;
  }

  /** Splitting a joined sequence of slash-free segments gives them back. */
  lemma {:induction false} SplitJoin(xs: seq<string>)
    requires |xs| >= 1 && NoSlash(xs)
    ensures Split(JoinSegs(xs)) == xs
  {
    if |xs| == 1 {
      SplitNoSlash(xs[0]);
    } else {
      SplitJoin(xs[1..]);
      SplitNoSlash(xs[0]);
      SplitConcat(xs[0], JoinSegs(xs[1..]));
      assert xs == [xs[0]] + xs[1..];
    }
  }

  /** Joining the pieces of a split gives the string back. */
  lemma {:induction false} JoinSplit(s: string)
    ensures JoinSegs(Split(s)) == s
  {
    if s != [] {
      JoinSplit(s[1..]);
      SplitCons(s);
      if s[0] == '/' {
        JoinSlash(Split(s[1..]));
      } else {
        JoinCons(s[0], Split(s[1..]));
      }
      assert s == [s[0]] + s[1..];
    }
  }

  /** One step of `Split`, with the first character taken off. */
  lemma SplitCons(s: string)
    requires s != []
    ensures var rest := Split(s[1..]);
      Split(s) == if s[0] == '/' then [""] + rest else [[s[0]] + rest[0]] + rest[1..]
  {
  }

  /** Joining after a leading empty segment. */
  lemma JoinSlash(rest: seq<string>)
    requires |rest| >= 1
    ensures JoinSegs([""] + rest) == "/" + JoinSegs(rest)
  {
    var xs := [""] + rest;
    assert xs[0] == "" && xs[1..] == rest;
    assert JoinSegs(xs) == "" + "/" + JoinSegs(rest);
    assert "" + "/" + JoinSegs(rest) == "/" + JoinSegs(rest);
  }

  /** Joining after a character put in front of the first segment. */
  lemma JoinCons(c: char, rest: seq<string>)
    requires |rest| >= 1
    ensures JoinSegs([[c] + rest[0]] + rest[1..]) == [c] + JoinSegs(rest)
  {
    var xs := [[c] + rest[0]] + rest[1..];
    if |rest| > 1 {
      var tail := rest[1..];
      assert xs[0] == [c] + rest[0] && xs[1..] == tail;
      assert JoinSegs(xs) == [c] + rest[0] + "/" + JoinSegs(tail);
      assert JoinSegs(rest) == rest[0] + "/" + JoinSegs(tail);
      Regroup3([c], rest[0], "/", JoinSegs(tail));
    } else {
      assert xs == [[c] + rest[0]];
    }
  }

  lemma SplitLeadingSlash(s: string)
    ensures Split("/" + s) == [""] + Split(s)
  {
    SplitConcat("", s);
  }

  lemma SplitTrailingSlash(s: string)
    ensures Split(s + "/") == Split(s) + [""]
  {
    SplitConcat(s, "");
    assert s + "/" + "" == s + "/";
  }

  // ---------------------------------------------------------------------------
  // Resolution of '.', '..' and empty segments
  // ---------------------------------------------------------------------------

  /** One step of `posixpath.normpath` on a rooted path: empty and "."
      segments vanish, ".." removes the last segment (and is dropped at the
      root), any other segment is appended. */
  function Step(stack: seq<string>, c: string): seq<string> {
    if c == "" || c == "." then stack
    else if c == ".." then (if stack == [] then [] else stack[..|stack| - 1])
    else stack + [c]
  }

  function Resolve(stack: seq<string>, comps: seq<string>): seq<string>
    decreases |comps|
  {
    if comps == [] then stack else Resolve(Step(stack, comps[0]), comps[1..])
  }

  lemma {:induction false} ResolveAppend(st: seq<string>, a: seq<string>, b: seq<string>)
    ensures Resolve(st, a + b) == Resolve(Resolve(st, a), b)
    decreases |a|
  {
    if a == [] {
      assert a + b == b;
    } else {
      assert (a + b)[0] == a[0] && (a + b)[1..] == a[1..] + b;
      ResolveAppend(Step(st, a[0]), a[1..], b);
    }
  }

  lemma {:induction false} ResolveClean(st: seq<string>, comps: seq<string>)
    requires Clean(st) && NoSlash(comps)
    ensures Clean(Resolve(st, comps))
    decreases |comps|
  {
    if comps != [] {
      ResolveClean(Step(st, comps[0]), comps[1..]);
    }
  }

  /** Real names are simply appended. */
  lemma {:induction false} ResolveNames(st: seq<string>, xs: seq<string>)
    requires Clean(xs)
    ensures Resolve(st, xs) == st + xs
    decreases |xs|
  {
    if xs != [] {
      ResolveNames(st + [xs[0]], xs[1..]);
      assert st + [xs[0]] + xs[1..] == st + xs;
    }
  }

  /** `n` copies of "..". */
  function Ups(n: nat): (r: seq<string>)
    ensures |r| == n && forall i :: 0 <= i < n ==> r[i] == ".."
  {
    if n == 0 then [] else Ups(n - 1) + [".."]
  }

  /** Each ".." climbs one directory. */
  lemma {:induction false} ResolveUps(st: seq<string>, n: nat)
    requires n <= |st|
    ensures Resolve(st, Ups(n)) == st[..|st| - n]
  {
    if n > 0 {
      ResolveUps(st, n - 1);
      ResolveAppend(st, Ups(n - 1), [".."]);
      assert Resolve(st[..|st| - (n - 1)], [".."]) == st[..|st| - n];
    }
  }

  lemma ResolveEmpties(st: seq<string>)
    ensures Resolve(st, [""]) == st && Resolve(st, ["."]) == st
  {
  }

  /** Leading and trailing slashes add only empty segments. */
  lemma {:induction false} ResolveLStrip(st: seq<string>, s: string)
    ensures Resolve(st, Split(LStripChar(s, '/'))) == Resolve(st, Split(s))
    decreases |s|
  {
    if s != [] && s[0] == '/' {
      ResolveLStrip(st, s[1..]);
      assert s == "/" + s[1..];
      SplitLeadingSlash(s[1..]);
      ResolveAppend(st, [""], Split(s[1..]));
    }
  }

  lemma {:induction false} ResolveRStrip(st: seq<string>, s: string)
    ensures Resolve(st, Split(RStripChar(s, '/'))) == Resolve(st, Split(s))
    decreases |s|
  {
    if s != [] && s[|s| - 1] == '/' {
      var t := s[..|s| - 1];
      ResolveRStrip(st, t);
      assert s == t + "/";
      SplitTrailingSlash(t);
      ResolveAppend(st, Split(t), [""]);
    }
  }

  lemma ResolveStrip(st: seq<string>, s: string)
    ensures Resolve(st, Split(StripChar(s, '/'))) == Resolve(st, Split(s))
  {
    ResolveRStrip(st, LStripChar(s, '/'));
    ResolveLStrip(st, s);
  }

  // ---------------------------------------------------------------------------
  // posixpath functions
  // ---------------------------------------------------------------------------

  /** `os.path.isabs` */
  predicate IsAbs(p: string) {
    p != [] && p[0] == '/'
  }

  /** `os.path.join(a, b)` */
  function PathJoin(a: string, b: string): string {
    if IsAbs(b) then b
    else if a == [] || a[|a| - 1] == '/' then a + b
    else a + "/" + b
  }

  /** Joining adds the segments of `b` after those of `a`, unless `b` is
      absolute. */
  lemma PathJoinResolves(st: seq<string>, a: string, b: string)
    requires !IsAbs(b)
    ensures Resolve(st, Split(PathJoin(a, b))) == Resolve(Resolve(st, Split(a)), Split(b))
  {
    if a == [] {
      assert PathJoin(a, b) == b by { assert a + b == b; }
      assert Split(a) == [""];
      ResolveEmpties(st);
    } else if a[|a| - 1] == '/' {
      var a' := a[..|a| - 1];
      assert a == a' + "/";
      assert PathJoin(a, b) == a' + "/" + b;
      SplitConcat(a', b);
      SplitTrailingSlash(a');
      ResolveAppend(st, Split(a'), Split(b));
      ResolveAppend(st, Split(a'), [""]);
    } else {
      SplitConcat(a, b);
      ResolveAppend(st, Split(a), Split(b));
    }
  }

  /** `s.rfind(c)`: the last index of `c`, or -1. */
  function LastIndex(s: string, c: char): (r: int)
    ensures -1 <= r < |s|
    ensures r >= 0 ==> s[r] == c
    ensures forall j :: r < j < |s| ==> s[j] != c
  {
    if s == [] then -1
    else if s[|s| - 1] == c then |s| - 1
    else LastIndex(s[..|s| - 1], c)
  }

  /** `os.path.basename`: everything after the last '/'. */
  function BaseName(p: string): (r: string)
    ensures '/' !in r
    ensures EndsWith(p, r)
    ensures |r| < |p| ==> p[|p| - |r| - 1] == '/'
  {
    p[LastIndex(p, '/') + 1..]
  }

  /** `os.path.dirname`: everything before the last '/', with trailing
      slashes removed unless it consists of slashes only. */
  function DirName(p: string): (r: string)
    ensures |r| + |BaseName(p)| <= |p| && r == p[..|r|]
  {
    var i := LastIndex(p, '/');
    var head := p[..i + 1];
    if head != [] && !AllChar(head, '/') then RStripChar(head, '/') else head
  }

  /** What `dirname` removes: the base name, the slashes in front of it and
      nothing else, except that a head made of slashes only is kept. */
  lemma DirNameIs(p: string)
    ensures var r, b := DirName(p), BaseName(p);
      AllChar(p[|r|..|p| - |b|], '/') &&
      ('/' !in p ==> r == []) &&
      ('/' in p ==> r != [] && (r[|r| - 1] != '/' || (r == p[..|p| - |b|] && AllChar(r, '/'))))
  {
    var i := LastIndex(p, '/');
    var head := p[..i + 1];
    assert |p| - |BaseName(p)| == i + 1;
    assert '/' in p ==> i >= 0 && head[i] == '/';
    if head != [] && !AllChar(head, '/') {
      var r := RStripChar(head, '/');
      assert p[|r|..|p| - |BaseName(p)|] == head[|r|..];
    }
  }

  /** `os.path.splitext`: the extension starts at the last '.' of the last
      segment, unless that segment consists of dots up to it. */
  function SplitExt(p: string): (r: (string, string))
    ensures r.0 + r.1 == p
    ensures r.1 == [] || (r.1[0] == '.' && '/' !in r.1 && '.' !in r.1[1..])
    ensures r.1 != [] <==> HasExt(BaseName(p))
  {
    var sep := LastIndex(p, '/');
    var dot := LastIndex(p, '.');
    ExtAtLastDot(p);
    if dot > sep && exists i :: sep + 1 <= i < dot && p[i] != '.' then
      (p[..dot], p[dot..])
    else
      (p, "")
  }

  /** The test of `splitext` is whether the base name has an extension, and
      nothing after the last '.' is a '.'. */
  lemma ExtAtLastDot(p: string)
    ensures var sep, dot := LastIndex(p, '/'), LastIndex(p, '.');
      ((dot > sep && exists i :: sep + 1 <= i < dot && p[i] != '.') <==> HasExt(BaseName(p))) &&
      (dot >= 0 ==> '.' !in p[dot..][1..])
  {
    var sep, dot := LastIndex(p, '/'), LastIndex(p, '.');
    var b := BaseName(p);
    assert b == p[sep + 1..];
    ExtFromDot(p, sep, dot, b);
    DotFromExt(p, sep, dot, b);
    NoDotAfter(p, dot);
  }

  /** A '.' of the base name after a character other than '.' makes an
      extension. */
  lemma ExtFromDot(p: string, sep: int, dot: int, b: string)
    requires -1 <= sep < |p| && -1 <= dot < |p| && (dot >= 0 ==> p[dot] == '.') && b == p[sep + 1..]
    ensures (dot > sep && exists i :: sep + 1 <= i < dot && p[i] != '.') ==> HasExt(b)
  {
    if dot > sep && exists i :: sep + 1 <= i < dot && p[i] != '.' {
      var i :| sep + 1 <= i < dot && p[i] != '.';
      var x, y := i - sep - 1, dot - sep - 1;
      assert b[x] == p[i] && b[y] == p[dot];
      assert 0 <= x < y < |b| && b[x] != '.' && b[y] == '.';
    }
  }

  /** An extension of the base name ends at or before the last '.'. */
  lemma DotFromExt(p: string, sep: int, dot: int, b: string)
    requires -1 <= sep < |p| && -1 <= dot < |p| && b == p[sep + 1..]
    requires forall j :: dot < j < |p| ==> p[j] != '.'
    ensures HasExt(b) ==> dot > sep && exists i :: sep + 1 <= i < dot && p[i] != '.'
  {
    if HasExt(b) {
      var i, j :| 0 <= i < j < |b| && b[i] != '.' && b[j] == '.';
      assert p[sep + 1 + j] == '.' && p[sep + 1 + i] != '.';
    }
  }

  /** No '.' follows the last one. */
  lemma NoDotAfter(p: string, dot: int)
    requires -1 <= dot < |p| && forall j :: dot < j < |p| ==> p[j] != '.'
    ensures dot >= 0 ==> '.' !in p[dot..][1..]
  {
    if dot >= 0 {
      forall k | 0 <= k < |p[dot..][1..]| ensures p[dot..][1..][k] != '.' {
        assert p[dot..][1..][k] == p[dot + 1 + k];
      }
    }
  }

  /** A base name has an extension when a '.' follows some character
      other than '.'; leading dots, as in ".bashrc", do not count. */
  predicate HasExt(b: string) {
    exists i, j :: 0 <= i < j < |b| && b[i] != '.' && b[j] == '.'
  }

  // ---------------------------------------------------------------------------
  // normpath, abspath and relpath
  // ---------------------------------------------------------------------------

  /** normpath's treatment of a path without a leading '/': ".." is kept when
      there is nothing (or only "..") to remove. */
  function RelStep(stack: seq<string>, c: string): seq<string> {
    if c == "" || c == "." then stack
    else if c != ".." || stack == [] || stack[|stack| - 1] == ".." then stack + [c]
    else stack[..|stack| - 1]
  }

  function RelResolve(stack: seq<string>, comps: seq<string>): seq<string>
    decreases |comps|
  {
    if comps == [] then stack else RelResolve(RelStep(stack, comps[0]), comps[1..])
  }

  function Slashes(n: nat): (r: string)
    ensures |r| == n && AllChar(r, '/')
  {
    if n == 0 then "" else Slashes(n - 1) + "/"
  }

  /** `os.path.normpath`. POSIX lets exactly two leading slashes survive. */
  function NormPath(p: string): string {
    if p == [] then "."
    else
      var lead :=
        if p[0] != '/' then 0
        else if |p| >= 2 && p[1] == '/' && !(|p| >= 3 && p[2] == '/') then 2
        else 1;
      var comps := if lead > 0 then Resolve([], Split(p)) else RelResolve([], Split(p));
      var r := Slashes(lead) + JoinSegs(comps);
      if r == [] then "." else r
  }

  lemma {:induction false} RelResolveAppend(st: seq<string>, a: seq<string>, b: seq<string>)
    ensures RelResolve(st, a + b) == RelResolve(RelResolve(st, a), b)
    decreases |a|
  {
    if a == [] {
      assert a + b == b;
    } else {
      assert (a + b)[0] == a[0] && (a + b)[1..] == a[1..] + b;
      RelResolveAppend(RelStep(st, a[0]), a[1..], b);
    }
  }

  lemma {:induction false} RelResolveNames(st: seq<string>, xs: seq<string>)
    requires Clean(xs)
    ensures RelResolve(st, xs) == st + xs
    decreases |xs|
  {
    if xs != [] {
      RelResolveNames(st + [xs[0]], xs[1..]);
      assert st + [xs[0]] + xs[1..] == st + xs;
    }
  }

  /** A relative path made of real names is already normal. */
  lemma NormPathOfNames(xs: seq<string>)
    requires Clean(xs) && xs != []
    ensures NormPath(JoinSegs(xs)) == JoinSegs(xs)
  {
    var p := JoinSegs(xs);
    assert xs[0][0] in xs[0];
    assert p != [] && p[0] == xs[0][0] by {
      if |xs| == 1 {
        assert p == xs[0];
      } else {
        assert p == xs[0] + "/" + JoinSegs(xs[1..]);
      }
    }
    SplitJoin(xs);
    RelResolveNames([], xs);
    assert [] + xs == xs;
    assert RelResolve([], Split(p)) == xs;
    assert Slashes(0) + p == p;
  }

  /** A trailing slash does not change the normal form of a relative path:
      "d" and "d/" get the same sort key. */
  lemma NormPathTrailingSlash(s: string)
    requires s != [] && !IsAbs(s)
    ensures NormPath(s + "/") == NormPath(s)
  {
    var p := s + "/";
    SplitTrailingSlash(s);
    RelResolveAppend([], Split(s), [""]);
    assert RelResolve([], Split(p)) == RelResolve([], Split(s));
    assert p != [] && p[0] == s[0] != '/';
  }

  /** The segments of `os.path.abspath(p)`: `p` resolved against the root
      when absolute, against the working directory otherwise. This is the
      list `relpath` builds with `[x for x in abspath(p).split('/') if x]`. */
  function AbsSegs(p: string, cwd: CleanPath): (r: CleanPath) {
    ResolveClean(if IsAbs(p) then [] else cwd, Split(p));
    Resolve(if IsAbs(p) then [] else cwd, Split(p))
  }

  function CommonPrefixLen(a: seq<string>, b: seq<string>): (n: nat)
    ensures n <= |a| && n <= |b| && a[..n] == b[..n]
    ensures n < |a| && n < |b| ==> a[n] != b[n]
  {
    if a == [] || b == [] || a[0] != b[0] then 0
    else
      var n := CommonPrefixLen(a[1..], b[1..]);
      assert a[..n + 1] == [a[0]] + a[1..][..n];
      assert b[..n + 1] == [b[0]] + b[1..][..n];
      n + 1
  }

  /** `a` is a leading part of `b`: as directories, `a` is `b` or one of
      its ancestors. */
  predicate IsPrefix(a: seq<string>, b: seq<string>) {
    |a| <= |b| && b[..|a|] == a
  }

  /** The relative segments leading from directory `from` to `to`. */
  function RelSegs(to: seq<string>, from: seq<string>): seq<string> {
    var i := CommonPrefixLen(to, from);
    Ups(|from| - i) + to[i..]
  }

  function SegsToString(xs: seq<string>): string {
    if xs == [] then "." else JoinSegs(xs)
  }

  /** Number of leading ".." segments. */
  function LeadingUps(xs: seq<string>): (k: nat)
    ensures k <= |xs| && forall i :: 0 <= i < k ==> xs[i] == ".."
    ensures k < |xs| ==> xs[k] != ".."
  {
    if xs == [] || xs[0] != ".." then 0 else 1 + LeadingUps(xs[1..])
  }

  /** The normal form of a relative path: ".", or some ".." segments followed
      by real names. */
  predicate NormalRel(r: string) {
    var xs := Split(r);
    r == "." || Clean(xs[LeadingUps(xs)..])
  }

  /** A segment sequence is its leading ".." segments and what follows. */
  lemma UpsThenRest(xs: seq<string>)
    ensures xs == Ups(LeadingUps(xs)) + xs[LeadingUps(xs)..]
  {
    var k := LeadingUps(xs);
    assert xs[..k] == Ups(k);
    assert xs == xs[..k] + xs[k..];
  }

  lemma {:induction false} LeadingUpsOf(n: nat, ys: seq<string>)
    requires Clean(ys)
    ensures LeadingUps(Ups(n) + ys) == n
    decreases n
  {
    if n > 0 {
      assert (Ups(n) + ys)[0] == "..";
      assert (Ups(n) + ys)[1..] == Ups(n - 1) + ys;
      LeadingUpsOf(n - 1, ys);
    } else {
      assert Ups(0) + ys == ys;
    }
  }

  /** The string form of `RelSegs` is normal and splits back into them. */
  lemma RelSegsString(to: CleanPath, from: CleanPath)
    ensures var xs := RelSegs(to, from);
      NormalRel(SegsToString(xs)) &&
      (xs != [] ==> Split(SegsToString(xs)) == xs)
  {
    var i := CommonPrefixLen(to, from);
    var xs := RelSegs(to, from);
    if xs != [] {
      assert NoSlash(xs) by {
        forall j | 0 <= j < |xs| ensures '/' !in xs[j] {
          if j >= |from| - i {
            assert xs[j] == to[i + j - (|from| - i)];
          }
        }
      }
      SplitJoin(xs);
      LeadingUpsOf(|from| - i, to[i..]);
      assert xs[|from| - i..] == to[i..];
    }
  }

  /** Resolving the relative segments against `from` arrives at `to`. */
  lemma RelSegsResolve(to: CleanPath, from: CleanPath)
    ensures Resolve(from, RelSegs(to, from)) == to
  {
    var i := CommonPrefixLen(to, from);
    ResolveAppend(from, Ups(|from| - i), to[i..]);
    ResolveUps(from, |from| - i);
    assert from[..|from| - (|from| - i)] == from[..i];
    ResolveNames(from[..i], to[i..]);
    assert from[..i] + to[i..] == to;
  }

  lemma RelSegsNotDot(to: CleanPath, from: CleanPath)
    ensures RelSegs(to, from) != [] ==> SegsToString(RelSegs(to, from)) != "."
  {
    var xs := RelSegs(to, from);
    if xs != [] {
      RelSegsString(to, from);
      SplitNoSlash(".");
      assert xs[0] == ".." || IsName(xs[0]);
      assert xs != ["."];
    }
  }

  /** A result in normal form is never absolute and never empty. */
  lemma NormalRelNotAbs(r: string)
    ensures NormalRel(r) ==> r != [] && !IsAbs(r) && !AllChar(r, '/')
  {
    if r == [] || r[0] == '/' {
      var xs := Split(r);
      assert xs[0] == "";
      assert LeadingUps(xs) == 0;
      assert !IsName(xs[LeadingUps(xs)..][0]);
      assert r != ".";
    }
  }

  /** The first index of `xs` that is not a "..". */
  lemma NormalSplit(x: string)
    requires NormalRel(x) && x != "."
    ensures var xs := Split(x); var k := LeadingUps(xs);
      xs == Ups(k) + xs[k..] && Clean(xs[k..])
  {
    UpsThenRest(Split(x));
  }

  /** The common prefix of two sequences is determined by its two
      defining facts. */
  lemma {:induction false} CommonPrefixLenIs(a: seq<string>, b: seq<string>, n: nat)
    requires n <= |a| && n <= |b| && a[..n] == b[..n]
    requires n < |a| && n < |b| ==> a[n] != b[n]
    ensures CommonPrefixLen(a, b) == n
  {
    if n > 0 {
      assert a[0] == a[..n][0];
      assert b[0] == b[..n][0];
      assert a[1..][..n - 1] == a[..n][1..];
      assert b[1..][..n - 1] == b[..n][1..];
      CommonPrefixLenIs(a[1..], b[1..], n - 1);
    }
  }

  /** Climbing `k` levels out of `base` and descending into `names` lands
      in the first `|base| - k` directories of `base` followed by `names`. */
  lemma ClimbThenDescend(base: seq<string>, k: nat, names: seq<string>)
    requires Clean(names) && k <= |base|
    ensures Resolve(base, Ups(k) + names) == base[..|base| - k] + names
  {
    ResolveAppend(base, Ups(k), names);
    ResolveUps(base, k);
    ResolveNames(base[..|base| - k], names);
  }

  /** relpath undoes such a climb, unless the first name re-enters the
      directory just left. */
  lemma FixedSegs(base: CleanPath, k: nat, names: seq<string>)
    requires Clean(names) && k <= |base|
    requires 0 < k && names != [] ==> names[0] != base[|base| - k]
    ensures RelSegs(base[..|base| - k] + names, base) == Ups(k) + names
  {
    var m := |base| - k;
    var t := base[..m] + names;
    assert t[..m] == base[..m];
    assert m < |t| && m < |base| ==> t[m] == names[0];
    CommonPrefixLenIs(t, base, m);
    assert t[m..] == names;
  }

  /** The leading ".." segments of `xs` stay inside `base`, and the first
      name after them does not step back into the directory just left. */
  predicate StaysOut(xs: seq<string>, base: seq<string>) {
    var k := LeadingUps(xs);
    k <= |base| && (0 < k < |xs| ==> xs[k] != base[|base| - k])
  }

  /** The segments of a normal location, climbed and descended from
      `base`, come back out of relpath as they were. */
  lemma FixedClimb(x: string, base: CleanPath)
    requires NormalRel(x) && x != "." && StaysOut(Split(x), base)
    ensures SegsToString(RelSegs(AbsSegs(x, base), base)) == x
  {
    var xs := Split(x);
    var k := LeadingUps(xs);
    var names := xs[k..];
    NormalSplit(x);
    ClimbThenDescend(base, k, names);
    assert 0 < k && names != [] ==> names[0] == xs[k];
    FixedSegs(base, k, names);
    assert RelSegs(Resolve(base, xs), base) == xs;
    JoinSplit(x);
    assert xs != [] by { NormalRelNotAbs(x); }
  }

  /** The relative segments never climb out of a directory only to step
      back into it: after the ".." segments comes a name that differs from
      the directory left last. */
  lemma RelSegsStaysOut(to: CleanPath, from: CleanPath)
    ensures StaysOut(RelSegs(to, from), from)
  {
    var i := CommonPrefixLen(to, from);
    var k := |from| - i;
    var xs := RelSegs(to, from);
    LeadingUpsOf(k, to[i..]);
    if 0 < k < |xs| {
      assert xs[k] == to[i];
    }
  }

  /** `r` spells the way from directory `from` to `to` as relpath does: in
      normal form, leading there, "." exactly for the same directory, and
      never climbing out of a directory only to re-enter it. */
  predicate RelSpelling(r: string, from: seq<string>, to: seq<string>) {
    NormalRel(r) && Resolve(from, Split(r)) == to && (r == "." <==> to == from) &&
    (r != "." ==> StaysOut(Split(r), from))
  }

  /** Only one string has those properties: the one relpath builds. */
  lemma RelSpellingUnique(x: string, from: CleanPath, to: CleanPath)
    requires RelSpelling(x, from, to)
    ensures x == SegsToString(RelSegs(to, from))
  {
    if x == "." {
      CommonPrefixLenIs(from, from, |from|);
      assert RelSegs(from, from) == [];
    } else {
      NormalRelNotAbs(x);
      FixedClimb(x, from);
    }
  }

  /** `os.path.relpath(path, start)`, which raises ValueError on an empty
      path. The result, resolved against `start`, is `path`; it is "." exactly
      when the two name the same directory; and it is in normal form. */
  function RelPath(path: string, start: string, cwd: CleanPath): (r: Result<string>)
    ensures r.Err? <==> path == ""
    ensures r.Ok? ==> Resolve(AbsSegs(start, cwd), Split(r.value)) == AbsSegs(path, cwd)
    ensures r.Ok? ==> (r.value == "." <==> AbsSegs(path, cwd) == AbsSegs(start, cwd))
    ensures r.Ok? ==> NormalRel(r.value)
    ensures r.Ok? && r.value != "." ==> StaysOut(Split(r.value), AbsSegs(start, cwd))
  {
    if path == [] then Err(ValueError)
    else
      var to := AbsSegs(path, cwd);
      var from := AbsSegs(start, cwd);
      var xs := RelSegs(to, from);
      RelSegsString(to, from);
      RelSegsResolve(to, from);
      ResolveEmpties(from);
      RelSegsNotDot(to, from);
      RelSegsStaysOut(to, from);
      Ok(SegsToString(xs))
  }

  /** The contract of `RelPath` determines its result: any string that
      leads from `start` to `path` in relpath's spelling is the result. */
  lemma RelPathUnique(path: string, start: string, cwd: CleanPath, x: string)
    requires path != ""
    requires RelSpelling(x, AbsSegs(start, cwd), AbsSegs(path, cwd))
    ensures RelPath(path, start, cwd) == Ok(x)
  {
    RelSpellingUnique(x, AbsSegs(start, cwd), AbsSegs(path, cwd));
  }
}
