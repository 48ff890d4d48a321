/**
 The link rewriting applied to rendered HTML. Each rewrite is one `re.sub`
 with a fixed regular expression: the text is scanned from the left, the
 first position where the expression matches is replaced, and the scan
 resumes after the match. `Sub` is that scanner; a `Rule` says what matches
 at a position and what replaces it.
 */
module Links {
  import opened Wrappers
  import opened Text
  import opened Paths
  import opened Locations

  // ---------------------------------------------------------------------------
  // The regular expressions
  // ---------------------------------------------------------------------------

  datatype Rule =
      /** `(?<=q)path(?=/)` for any `q` of `prefixes`, '.' in `path` escaped:
          `path` where a prefix comes right before it and '/' right after. */
    | Anchored(prefixes: seq<string>, path: string, rep: string)
      /** `\b([^ "']+)\.md\b`, replaced by the group followed by `ext`. */
    | InternalLink(ext: string)
      /** `(href="(?! *http).*)\.md`, replaced by the group followed by `ext`. */
    | HrefLink(ext: string)
      /** `(href="(?! *http)[^"]*)\.md`: the group cannot leave the
          attribute value. */
    | HrefAttr(ext: string)
      /** A pattern whose only special character is '.', which matches any
          character except a newline. */
    | Wild(pat: string, rep: string)

  /** The wildcard patterns used here are fixed and never empty. An empty
      anchored path is allowed: it matches the empty string. */
  predicate Valid(rule: Rule) {
    !(rule.Wild? && rule.pat == [])
  }

  /** `s[..i]` ends with `q`. */
  predicate EndsAt(s: string, i: int, q: string) {
    |q| <= i <= |s| && s[i - |q|..i] == q
  }

  /** `(?<=q)` at `i` for some `q` of `prefixes`, tried in order. */
  predicate Preceded(s: string, i: int, prefixes: seq<string>)
    decreases |prefixes|
  {
    |prefixes| > 0 && (EndsAt(s, i, prefixes[0]) || Preceded(s, i, prefixes[1..]))
  }

  /** Any prefix that ends at `i` makes the lookbehind succeed. */
  lemma {:induction false} PrecededBy(s: string, i: int, prefixes: seq<string>, q: string)
    requires q in prefixes && EndsAt(s, i, q)
    ensures Preceded(s, i, prefixes)
    decreases |prefixes|
  {
    if prefixes[0] != q {
      assert q in prefixes[1..];
      PrecededBy(s, i, prefixes[1..], q);
    }
  }

  /** When no prefix ends at `i` the lookbehind fails. */
  lemma {:induction false} NotPreceded(s: string, i: int, prefixes: seq<string>)
    requires forall q :: q in prefixes ==> !EndsAt(s, i, q)
    ensures !Preceded(s, i, prefixes)
    decreases |prefixes|
  {
    if |prefixes| > 0 {
      assert prefixes[0] in prefixes;
      forall q | q in prefixes[1..] ensures !EndsAt(s, i, q) {
        assert q in prefixes;
      }
      NotPreceded(s, i, prefixes[1..]);
    }
  }

  predicate AnchoredAt(s: string, i: int, prefixes: seq<string>, path: string) {
    Preceded(s, i, prefixes) && OccursAt(s, path, i) && i + |path| < |s| && s[i + |path|] == '/'
  }

  /** `\b` at `i`, with ASCII word characters. */
  predicate WordBoundary(s: string, i: int)
    requires 0 <= i <= |s|
  {
    (i > 0 && IsWordChar(s[i - 1])) != (i < |s| && IsWordChar(s[i]))
  }

  /** `([^ "']+)\.md\b` matches at `i` with the group `s[i..k]`. */
  predicate MdEnd(s: string, i: int, k: int) {
    0 <= i < k && k + 3 <= |s| && (forall j :: i <= j < k ==> LinkChar(s[j])) &&
    OccursAt(s, ".md", k) && WordBoundary(s, k + 3)
  }

  /** The first index from `j` on that is not a space. */
  function SkipSpaces(s: string, j: nat): (r: nat)
    requires j <= |s|
    ensures j <= r <= |s| && (r == |s| || s[r] != ' ')
    ensures forall t :: j <= t < r ==> s[t] == ' '
    decreases |s| - j
  {
    if j < |s| && s[j] == ' ' then SkipSpaces(s, j + 1) else j
  }

  /** `href="(?! *http)` at `i`. The spaces cannot give back a character
      to `http`, which starts with 'h', so only the longest run counts. */
  predicate HrefStart(s: string, i: int) {
    OccursAt(s, "href=\"", i) && !OccursAt(s, "http", SkipSpaces(s, i + 6))
  }

  /** `.*\.md` after `href="` at `i`: the characters before `k` are on the
      same line. */
  predicate LineEnd(s: string, i: int, k: int) {
    0 <= i && i + 6 <= k && k + 3 <= |s| && (forall j :: i + 6 <= j < k ==> s[j] != '\n') &&
    OccursAt(s, ".md", k)
  }

  /** `[^"]*\.md` after `href="` at `i`: the characters before `k` are in
      the attribute value. */
  predicate AttrEnd(s: string, i: int, k: int) {
    0 <= i && i + 6 <= k && k + 3 <= |s| && (forall j :: i + 6 <= j < k ==> s[j] != '"') &&
    OccursAt(s, ".md", k)
  }

  /** The pattern `pat` at `i`, its '.' standing for any character but a
      newline. */
  predicate WildAt(s: string, pat: string, i: int) {
    0 <= i && i + |pat| <= |s| &&
    forall j :: 0 <= j < |pat| ==> if pat[j] == '.' then s[i + j] != '\n' else s[i + j] == pat[j]
  }

  /** Where the group of `rule` ends, for a match at `i` with group end `k`. */
  predicate GroupEnd(rule: Rule, s: string, i: int, k: int) {
    match rule
    case InternalLink(_) => MdEnd(s, i, k)
    case HrefLink(_) => LineEnd(s, i, k)
    case HrefAttr(_) => AttrEnd(s, i, k)
    case _ => false
  }

  /** The greedy group: the largest `k` in `[lo, hi]` that can end the group
      for a match at `i`. A greedy repetition tries the longest group first
      and gives back characters one at a time. */
  function LastGroupEnd(rule: Rule, s: string, i: int, lo: int, hi: int): (r: Option<int>)
    ensures r.Some? ==> lo <= r.value <= hi && GroupEnd(rule, s, i, r.value)
    ensures r.Some? ==> forall k :: r.value < k <= hi ==> !GroupEnd(rule, s, i, k)
    ensures r.None? ==> forall k :: lo <= k <= hi ==> !GroupEnd(rule, s, i, k)
    decreases hi - lo
  {
    if hi < lo then None
    else if GroupEnd(rule, s, i, hi) then Some(hi)
    else LastGroupEnd(rule, s, i, lo, hi - 1)
  }

  /** The end of the match whose group is the greedy one, if the group can
      end anywhere; the group cannot end before `lo`. */
  function GroupMatch(rule: Rule, s: string, i: nat, lo: nat): (r: Option<nat>)
    requires forall k :: GroupEnd(rule, s, i, k) ==> lo <= k
    ensures r.Some? <==> exists k :: GroupEnd(rule, s, i, k)
    ensures r.Some? ==> 3 <= r.value && GroupEnd(rule, s, i, r.value - 3)
    ensures r.Some? ==> forall k :: r.value - 3 < k ==> !GroupEnd(rule, s, i, k)
  {
    assert forall k :: GroupEnd(rule, s, i, k) ==> k + 3 <= |s|;
    var last := LastGroupEnd(rule, s, i, lo, |s| - 3);
    if last.Some? then Some(last.value + 3) else None
  }

  /** `\b([^ "']+)\.md\b` at `i`. */
  function MatchInternal(ext: string, s: string, i: nat): (r: Option<nat>)
    requires i < |s|
    ensures r.Some? ==> i < r.value <= |s|
    ensures r.Some? <==> WordBoundary(s, i) && exists k :: MdEnd(s, i, k)
    ensures r.Some? ==> MdEnd(s, i, r.value - 3) && forall k :: r.value - 3 < k ==> !MdEnd(s, i, k)
  {
    assert forall k :: GroupEnd(InternalLink(ext), s, i, k) <==> MdEnd(s, i, k);
    if WordBoundary(s, i) then GroupMatch(InternalLink(ext), s, i, i + 1) else None
  }

  /** `(href="(?! *http).*)\.md` at `i`. */
  function MatchHrefLine(ext: string, s: string, i: nat): (r: Option<nat>)
    requires i < |s|
    ensures r.Some? ==> i < r.value <= |s|
    ensures r.Some? <==> HrefStart(s, i) && exists k :: LineEnd(s, i, k)
    ensures r.Some? ==> LineEnd(s, i, r.value - 3) && forall k :: r.value - 3 < k ==> !LineEnd(s, i, k)
  {
    assert forall k :: GroupEnd(HrefLink(ext), s, i, k) <==> LineEnd(s, i, k);
    if HrefStart(s, i) then GroupMatch(HrefLink(ext), s, i, i + 6) else None
  }

  /** `(href="(?! *http)[^"]*)\.md` at `i`. */
  function MatchHrefAttr(ext: string, s: string, i: nat): (r: Option<nat>)
    requires i < |s|
    ensures r.Some? ==> i < r.value <= |s|
    ensures r.Some? <==> HrefStart(s, i) && exists k :: AttrEnd(s, i, k)
    ensures r.Some? ==> AttrEnd(s, i, r.value - 3) && forall k :: r.value - 3 < k ==> !AttrEnd(s, i, k)
  {
    assert forall k :: GroupEnd(HrefAttr(ext), s, i, k) <==> AttrEnd(s, i, k);
    if HrefStart(s, i) then GroupMatch(HrefAttr(ext), s, i, i + 6) else None
  }

  /** The end of the match of `rule` at `i`, if it matches there. Only an
      anchored rule with an empty path has empty matches. */
  function MatchAt(rule: Rule, s: string, i: nat): (r: Option<nat>)
    requires Valid(rule) && i < |s|
    ensures r.Some? ==> i <= r.value <= |s|
    ensures r.Some? && r.value == i ==> rule.Anchored? && rule.path == []
  {
    match rule
    case Anchored(prefixes, path, _) =>
      if AnchoredAt(s, i, prefixes, path) then Some(i + |path|) else None
    case Wild(pat, _) =>
      if WildAt(s, pat, i) then Some(i + |pat|) else None
    case InternalLink(ext) => MatchInternal(ext, s, i)
    case HrefLink(ext) => MatchHrefLine(ext, s, i)
    case HrefAttr(ext) => MatchHrefAttr(ext, s, i)
  }

  /** What replaces the match `s[i..e]`: the groups end three characters
      before the match, in front of ".md". */
  function Rep(rule: Rule, s: string, i: nat, e: nat): string
    requires i <= e <= |s|
  {
    match rule
    case Anchored(_, _, rep) => rep
    case Wild(_, rep) => rep
    case InternalLink(ext) => if i <= e - 3 then s[i..e - 3] + ext else ext
    case HrefLink(ext) => if i <= e - 3 then s[i..e - 3] + ext else ext
    case HrefAttr(ext) => if i <= e - 3 then s[i..e - 3] + ext else ext
  }

  /** `re.sub` from index `i` on. After an empty match the character at
      `i` is copied and the scan goes on from the next one. */
  function Sub(rule: Rule, s: string, i: nat): string
    requires Valid(rule) && i <= |s|
    decreases |s| - i
  {
    if i == |s| then []
    else match MatchAt(rule, s, i)
      case Some(e) =>
        if e == i then Rep(rule, s, i, e) + [s[i]] + Sub(rule, s, i + 1)
        else Rep(rule, s, i, e) + Sub(rule, s, e)
      case None => [s[i]] + Sub(rule, s, i + 1)
  }

  /** No match from `i` on: the rest is copied as it is. */
  predicate NoMatchFrom(rule: Rule, s: string, i: nat, j: nat)
    requires Valid(rule)
  {
    forall t :: i <= t < j && t < |s| ==> MatchAt(rule, s, t).None?
  }

  // ---------------------------------------------------------------------------
  // The scanner
  // ---------------------------------------------------------------------------

  /** A step of the scan where nothing matches. */
  lemma SubSkip(rule: Rule, s: string, i: nat)
    requires Valid(rule) && i < |s| && MatchAt(rule, s, i).None?
    ensures Sub(rule, s, i) == [s[i]] + Sub(rule, s, i + 1)
  {
  }

  /** A step of the scan where a match ends at `e`. */
  lemma SubReplace(rule: Rule, s: string, i: nat, e: nat)
    requires Valid(rule) && i < e && i < |s| && MatchAt(rule, s, i) == Some(e)
    ensures Sub(rule, s, i) == Rep(rule, s, i, e) + Sub(rule, s, e)
  {
  }

  /** A step of the scan with an empty match. */
  lemma SubInsert(rule: Rule, s: string, i: nat)
    requires Valid(rule) && i < |s| && MatchAt(rule, s, i) == Some(i)
    ensures Sub(rule, s, i) == Rep(rule, s, i, i) + [s[i]] + Sub(rule, s, i + 1)
  {
  }

  /** Without a match the text is returned unchanged. */
  lemma {:induction false} SubNoMatch(rule: Rule, s: string, i: nat)
    requires Valid(rule) && i <= |s|
    requires NoMatchFrom(rule, s, i, |s|)
    ensures Sub(rule, s, i) == s[i..]
    decreases |s| - i
  {
    if i < |s| {
      SubSkip(rule, s, i);
      SubNoMatch(rule, s, i + 1);
      assert s[i..] == [s[i]] + s[i + 1..];
    }
  }

  lemma CopyStep(s: string, i: nat, m: nat, x: string, y: string, z: string)
    requires i < m <= |s|
    requires x == [s[i]] + y && y == s[i + 1..m] + z
    ensures x == s[i..m] + z
  {
    assert s[i..m] == [s[i]] + s[i + 1..m];
  }

  /** The text before the first match is copied. */
  lemma {:induction false} SubCopies(rule: Rule, s: string, i: nat, m: nat)
    requires Valid(rule) && i <= m <= |s|
    requires NoMatchFrom(rule, s, i, m)
    ensures Sub(rule, s, i) == s[i..m] + Sub(rule, s, m)
    decreases m - i
  {
    if i < m {
      var x, y, z := Sub(rule, s, i), Sub(rule, s, i + 1), Sub(rule, s, m);
      assert x == [s[i]] + y by { SubSkip(rule, s, i); }
      assert y == s[i + 1..m] + z by { SubCopies(rule, s, i + 1, m); }
      CopyStep(s, i, m, x, y, z);
    }
  }

  /** Leftmost: the text up to the first match is copied, the match is
      replaced, and the scan resumes after it. */
  lemma SubFirstMatch(rule: Rule, s: string, i: nat, m: nat, e: nat)
    requires Valid(rule) && i <= m < e && m < |s|
    requires NoMatchFrom(rule, s, i, m) && MatchAt(rule, s, m) == Some(e)
    ensures Sub(rule, s, i) == s[i..m] + Rep(rule, s, m, e) + Sub(rule, s, e)
  {
    SubCopies(rule, s, i, m);
    SubReplace(rule, s, m, e);
  }

  /** The first position from `i` on where `rule` matches, if any. */
  function FirstMatch(rule: Rule, s: string, i: nat): (r: Option<nat>)
    requires Valid(rule) && i <= |s|
    ensures r.None? ==> NoMatchFrom(rule, s, i, |s|)
    ensures r.Some? ==> i <= r.value < |s| && NoMatchFrom(rule, s, i, r.value) && MatchAt(rule, s, r.value).Some?
    decreases |s| - i
  {
    if i == |s| then None
    else if MatchAt(rule, s, i).Some? then Some(i)
    else FirstMatch(rule, s, i + 1)
  }

  /** A slice of a text free of `q` is free of it. */
  lemma FreeSlice(t: string, a: nat, b: nat, q: string)
    requires a <= b <= |t| && !Contains(t, q)
    ensures !Contains(t[a..b], q)
  {
    forall m | 0 <= m <= (b - a) - |q| ensures !OccursAt(t[a..b], q, m) {
      var u := t[a..b];
      var x, y := u[m..m + |q|], t[a + m..a + m + |q|];
      forall k | 0 <= k < |q| ensures x[k] == y[k] {
        assert u[m + k] == t[a + m + k];
      }
      assert x == y;
      assert !OccursAt(t, q, a + m);
    }
  }

  /** Copied text free of `q`, followed by a replacement that no tail of
      `q` can start, followed by a text free of `q`, is free of `q`. */
  lemma CopyThenFree(c: string, rep: string, rest: string, q: string)
    requires q != [] && !Contains(c, q) && !Contains(rep + rest, q)
    requires forall j :: 0 < j < |q| ==> Clash(q[j..], rep)
    ensures !Contains(c + (rep + rest), q)
  {
    var out := c + (rep + rest);
    forall t | 0 <= t <= |out| - |q| ensures !OccursAt(out, q, t) {
      if t >= |c| {
        assert out[t..t + |q|] == (rep + rest)[t - |c|..t - |c| + |q|];
        assert !OccursAt(rep + rest, q, t - |c|);
      } else if t + |q| <= |c| {
        assert out[t..t + |q|] == c[t..t + |q|];
        assert !OccursAt(c, q, t);
      } else {
        var j := |c| - t;
        assert Clash(q[j..], rep);
        var k :| 0 <= k < |q[j..]| && k < |rep| && q[j..][k] != rep[k];
        assert out[t..t + |q|][j + k] == rep[k];
      }
    }
  }

  /** `re.sub` with a wildcard pattern adds no occurrence of `q` to a text
      free of it, when no part of `rep` can belong to an occurrence of `q`. */
  lemma {:induction false} WildCreatesNo(pat: string, rep: string, s: string, i: nat, q: string)
    requires pat != [] && q != [] && i <= |s|
    requires forall j :: 0 <= j < |rep| ==> Clash(rep[j..], q)
    requires forall j :: 0 < j < |q| ==> Clash(q[j..], rep)
    requires !Contains(s[i..], q)
    ensures !Contains(Sub(Wild(pat, rep), s, i), q)
    decreases |s| - i
  {
    var rule := Wild(pat, rep);
    match FirstMatch(rule, s, i)
    case None =>
      SubNoMatch(rule, s, i);
    case Some(m) =>
      var e := MatchAt(rule, s, m).value;
      var rest := Sub(rule, s, e);
      SubFirstMatch(rule, s, i, m, e);
      FreeAroundMatch(s, i, m, e, q);
      WildCreatesNo(pat, rep, s, e, q);
      NoneAfterReplacement(rep, rest, q);
      CopyThenFree(s[i..m], rep, rest, q);
      assert s[i..m] + rep + rest == s[i..m] + (rep + rest);
  }

  /** The text before a match and the text after it are free of `q` when
      the whole is. */
  lemma FreeAroundMatch(s: string, i: nat, m: nat, e: nat, q: string)
    requires i <= m <= e <= |s| && !Contains(s[i..], q)
    ensures !Contains(s[i..m], q) && !Contains(s[e..], q)
  {
    assert s[i..][e - i..|s| - i] == s[e..] && s[i..][0..m - i] == s[i..m];
    FreeSlice(s[i..], e - i, |s| - i, q);
    FreeSlice(s[i..], 0, m - i, q);
  }

  // ---------------------------------------------------------------------------
  // What each rule rewrites
  // ---------------------------------------------------------------------------

  /** A pattern without '.' matches exactly where it occurs. */
  lemma WildAtLiteral(s: string, pat: string, i: nat)
    requires '.' !in pat
    ensures WildAt(s, pat, i) <==> OccursAt(s, pat, i)
  {
    if WildAt(s, pat, i) {
      assert forall j :: 0 <= j < |pat| ==> pat[j] != '.';
      assert s[i..i + |pat|] == pat;
    }
  }

  /** With no '.' in the pattern, `re.sub` is `str.replace`. */
  lemma {:induction false} WildIsReplace(pat: string, rep: string, s: string, i: nat)
    requires pat != [] && '.' !in pat && i <= |s|
    ensures Sub(Wild(pat, rep), s, i) == Replace(s[i..], pat, rep)
    decreases |s| - i
  {
    var rule := Wild(pat, rep);
    if i < |s| {
      var t := s[i..];
      WildAtLiteral(s, pat, i);
      if |t| < |pat| {
        assert Sub(rule, s, i) == t by { NoWildInShort(pat, rep, s, i); }
        ReplaceShort(t, pat, rep);
      } else if t[..|pat|] == pat {
        var e := i + |pat|;
        assert OccursAt(s, pat, i);
        assert Sub(rule, s, i) == rep + Sub(rule, s, e) by { SubReplace(rule, s, i, e); }
        assert Sub(rule, s, e) == Replace(s[e..], pat, rep) by { WildIsReplace(pat, rep, s, e); }
        assert t[|pat|..] == s[e..];
        ReplaceAtStart(t, pat, rep);
      } else {
        assert s[i..i + |pat|] == t[..|pat|];
        assert Sub(rule, s, i) == [s[i]] + Sub(rule, s, i + 1) by { SubSkip(rule, s, i); }
        assert Sub(rule, s, i + 1) == Replace(s[i + 1..], pat, rep) by { WildIsReplace(pat, rep, s, i + 1); }
        assert t[1..] == s[i + 1..];
        ReplaceNotAtStart(t, pat, rep);
      }
    }
  }

  /** Too close to the end for the pattern: the rest is copied. */
  lemma NoWildInShort(pat: string, rep: string, s: string, i: nat)
    requires pat != [] && i <= |s| && |s| - i < |pat|
    ensures Sub(Wild(pat, rep), s, i) == s[i..]
  {
    SubNoMatch(Wild(pat, rep), s, i);
  }

  /** Without ".md" in the text, no link rule changes it. */
  lemma NoMdUnchanged(rule: Rule, s: string)
    requires rule.InternalLink? || rule.HrefLink? || rule.HrefAttr?
    requires !Contains(s, ".md")
    ensures Sub(rule, s, 0) == s
  {
    forall t | 0 <= t < |s| ensures MatchAt(rule, s, t).None? {
      assert forall k :: !OccursAt(s, ".md", k);
    }
    SubNoMatch(rule, s, 0);
  }

  /** `\b` after ".md": a ".md" that goes on with a word character, as in
      ".mdx", never ends an internal link. */
  lemma MdBeforeWordNotLink(s: string, i: nat, k: nat)
    requires k + 3 < |s| && IsWordChar(s[k + 3]) && OccursAt(s, ".md", k)
    ensures !MdEnd(s, i, k)
  {
    assert s[k + 2] == 'd';
  }

  // ---------------------------------------------------------------------------
  // Anchored paths
  // ---------------------------------------------------------------------------

  /** No anchored occurrence before `m`. */
  predicate NoAnchoredBefore(s: string, m: int, prefixes: seq<string>, path: string) {
    forall t :: 0 <= t < m ==> !AnchoredAt(s, t, prefixes, path)
  }

  /** The first anchored occurrence, at `m`, is replaced and the scan goes
      on after it; everything before it is copied. */
  lemma AnchoredFirst(prefixes: seq<string>, path: string, rep: string, s: string, m: nat)
    requires NoAnchoredBefore(s, m, prefixes, path) && AnchoredAt(s, m, prefixes, path)
    ensures var rule := Anchored(prefixes, path, rep);
      Sub(rule, s, 0) ==
        if path == [] then s[..m] + rep + [s[m]] + Sub(rule, s, m + 1)
        else s[..m] + rep + Sub(rule, s, m + |path|)
  {
    if path == [] {
      AnchoredFirstEmpty(prefixes, rep, s, m);
    } else {
      AnchoredFirstPath(prefixes, path, rep, s, m);
    }
  }

  /** An empty anchored path inserts `rep` in front of `s[m]`. */
  lemma AnchoredFirstEmpty(prefixes: seq<string>, rep: string, s: string, m: nat)
    requires NoAnchoredBefore(s, m, prefixes, []) && AnchoredAt(s, m, prefixes, [])
    ensures var rule := Anchored(prefixes, [], rep);
      Sub(rule, s, 0) == s[..m] + rep + [s[m]] + Sub(rule, s, m + 1)
  {
    var rule := Anchored(prefixes, [], rep);
    var x, y, z := Sub(rule, s, 0), Sub(rule, s, m), Sub(rule, s, m + 1);
    assert x == s[..m] + y by { AnchoredCopies(prefixes, [], rep, s, m); }
    assert y == rep + [s[m]] + z by {
      AnchoredCopies(prefixes, [], rep, s, m);
      SubInsert(rule, s, m);
    }
    Regroup3(s[..m], rep, [s[m]], z);
  }

  /** A nonempty anchored path is replaced by `rep`. */
  lemma AnchoredFirstPath(prefixes: seq<string>, path: string, rep: string, s: string, m: nat)
    requires path != []
    requires NoAnchoredBefore(s, m, prefixes, path) && AnchoredAt(s, m, prefixes, path)
    ensures var rule := Anchored(prefixes, path, rep);
      Sub(rule, s, 0) == s[..m] + rep + Sub(rule, s, m + |path|)
  {
    var rule := Anchored(prefixes, path, rep);
    var x, y, z := Sub(rule, s, 0), Sub(rule, s, m), Sub(rule, s, m + |path|);
    assert x == s[..m] + y by { AnchoredCopies(prefixes, path, rep, s, m); }
    assert y == rep + z by {
      AnchoredCopies(prefixes, path, rep, s, m);
      SubReplace(rule, s, m, m + |path|);
    }
    Regroup2(s[..m], rep, z);
  }

  /** The text before the first anchored occurrence is copied. */
  lemma AnchoredCopies(prefixes: seq<string>, path: string, rep: string, s: string, m: nat)
    requires NoAnchoredBefore(s, m, prefixes, path) && AnchoredAt(s, m, prefixes, path)
    ensures var rule := Anchored(prefixes, path, rep);
      MatchAt(rule, s, m) == Some(m + |path|) && Sub(rule, s, 0) == s[..m] + Sub(rule, s, m)
  {
    var rule := Anchored(prefixes, path, rep);
    AnchoredNoneBefore(rule, s, m);
    SubCopies(rule, s, 0, m);
  }

  /** No anchored occurrence before `m`: the anchored rule matches nowhere
      before it. */
  lemma AnchoredNoneBefore(rule: Rule, s: string, m: nat)
    requires rule.Anchored? && m <= |s| && NoAnchoredBefore(s, m, rule.prefixes, rule.path)
    ensures NoMatchFrom(rule, s, 0, m)
  {
    forall t | 0 <= t < m && t < |s| ensures MatchAt(rule, s, t).None? {
      assert !AnchoredAt(s, t, rule.prefixes, rule.path);
    }
  }

  /** Without an anchored occurrence the text is unchanged. */
  lemma AnchoredAbsent(prefixes: seq<string>, path: string, rep: string, s: string)
    requires NoAnchoredBefore(s, |s|, prefixes, path)
    ensures Sub(Anchored(prefixes, path, rep), s, 0) == s
  {
    SubNoMatch(Anchored(prefixes, path, rep), s, 0);
  }

  /** Both of the above, for every first occurrence. */
  lemma AnchoredFacts(prefixes: seq<string>, path: string, rep: string, s: string)
    ensures var rule := Anchored(prefixes, path, rep);
      (NoAnchoredBefore(s, |s|, prefixes, path) ==> Sub(rule, s, 0) == s) &&
      forall m :: path != [] && NoAnchoredBefore(s, m, prefixes, path) && AnchoredAt(s, m, prefixes, path) ==>
        Sub(rule, s, 0) == s[..m] + rep + Sub(rule, s, m + |path|)
  {
    var rule := Anchored(prefixes, path, rep);
    if NoAnchoredBefore(s, |s|, prefixes, path) {
      AnchoredAbsent(prefixes, path, rep, s);
    }
    forall m | path != [] && NoAnchoredBefore(s, m, prefixes, path) && AnchoredAt(s, m, prefixes, path)
      ensures Sub(rule, s, 0) == s[..m] + rep + Sub(rule, s, m + |path|)
    {
      AnchoredFirst(prefixes, path, rep, s, m);
    }
  }

  /** `(?<=q)` needs the character before to end some `q`: an occurrence
      after anything else is left alone. */
  lemma NotPrecededNotAnchored(s: string, t: int, prefixes: seq<string>, path: string)
    requires 0 < t <= |s|
    requires forall q :: q in prefixes ==> q != [] && q[|q| - 1] != s[t - 1]
    ensures !AnchoredAt(s, t, prefixes, path)
  {
    forall q | q in prefixes ensures !EndsAt(s, t, q) {
      if |q| <= t {
        assert s[t - |q|..t][|q| - 1] == s[t - 1];
      }
    }
    NotPreceded(s, t, prefixes);
  }

  /** `(?=/)`: an occurrence not followed by '/' is left alone. */
  lemma NoSlashAfterNotAnchored(s: string, t: nat, prefixes: seq<string>, path: string)
    requires t + |path| < |s| && s[t + |path|] != '/'
    ensures !AnchoredAt(s, t, prefixes, path)
  {
  }

  /** A text with one anchored occurrence of `path`, between `a` and `b`:
      only that occurrence is replaced. */
  lemma AnchoredOnce(prefixes: seq<string>, path: string, rep: string, a: string, b: string, q: string)
    requires path != [] && path[0] !in a && !Contains(b, path)
    requires q in prefixes && EndsWith(a, q)
    requires b != [] && b[0] == '/'
    ensures Sub(Anchored(prefixes, path, rep), a + path + b, 0) == a + rep + b
  {
    Around3(a, path, b);
    NoneInHead(prefixes, path, a + path + b, a, b);
    AnchoredOnlyAt(prefixes, path, rep, a + path + b, a, b, q);
  }

  /** `s` is `x` with `a` before it and `b` after it. */
  predicate Around(s: string, a: string, x: string, b: string) {
    var m := |a| + |x|;
    |s| == m + |b| && s[..|a|] == a && s[|a|..m] == x && s[m..] == b
  }

  lemma Around3(a: string, x: string, b: string)
    ensures Around(a + x + b, a, x, b)
  {
  }

  /** The occurrence between `a` and `b` is the only anchored one: it alone
      is replaced. */
  lemma AnchoredOnlyAt(prefixes: seq<string>, path: string, rep: string, s: string, a: string, b: string, q: string)
    requires Around(s, a, path, b)
    requires path != [] && NoAnchoredBefore(s, |a|, prefixes, path) && !Contains(b, path)
    requires q in prefixes && EndsWith(a, q)
    requires b != [] && b[0] == '/'
    ensures Sub(Anchored(prefixes, path, rep), s, 0) == a + rep + b
  {
    var m := |a|;
    AnchoredBetween(prefixes, path, s, a, b, q);
    assert s[..m] == a && s[m + |path|..] == b;
    AnchoredFirstOnly(prefixes, path, rep, s, m);
  }

  /** The first anchored occurrence is replaced, and a rest without
      another occurrence is copied. */
  lemma AnchoredFirstOnly(prefixes: seq<string>, path: string, rep: string, s: string, m: nat)
    requires path != [] && NoAnchoredBefore(s, m, prefixes, path) && AnchoredAt(s, m, prefixes, path)
    requires !Contains(s[m + |path|..], path)
    ensures Sub(Anchored(prefixes, path, rep), s, 0) == s[..m] + rep + s[m + |path|..]
  {
    AnchoredFirstPath(prefixes, path, rep, s, m);
    NoneInTail(prefixes, path, rep, s, m + |path|, s[m + |path|..]);
  }

  lemma AnchoredBetween(prefixes: seq<string>, path: string, s: string, a: string, b: string, q: string)
    requires Around(s, a, path, b)
    requires q in prefixes && EndsWith(a, q)
    requires b != [] && b[0] == '/'
    ensures AnchoredAt(s, |a|, prefixes, path)
  {
    var m := |a|;
    assert s[m - |q|..m] == s[..m][|a| - |q|..];
    PrecededBy(s, m, prefixes, q);
    assert s[m + |path|] == s[m + |path|..][0] == b[0];
  }

  /** No occurrence of `path` starts in `a` when `a` lacks its first character. */
  lemma NoneInHead(prefixes: seq<string>, path: string, s: string, a: string, b: string)
    requires Around(s, a, path, b)
    requires path != [] && path[0] !in a
    ensures NoAnchoredBefore(s, |a|, prefixes, path)
  {
    forall t | 0 <= t < |a| ensures !OccursAt(s, path, t) {
      assert s[t] == s[..|a|][t] == a[t] != path[0];
      if t + |path| <= |s| {
        assert s[t..t + |path|][0] == s[t];
      }
    }
  }

  /** After the occurrence, `b` is copied when it holds no other. */
  lemma NoneInTail(prefixes: seq<string>, path: string, rep: string, s: string, e: nat, b: string)
    requires e <= |s| && s[e..] == b && path != [] && !Contains(b, path)
    ensures Sub(Anchored(prefixes, path, rep), s, e) == b
  {
    var rule := Anchored(prefixes, path, rep);
    forall t | e <= t < |s| ensures !OccursAt(s, path, t) {
      if t + |path| <= |s| {
        SliceOfTail(s, e, b, t, |path|);
        assert !OccursAt(b, path, t - e);
      }
    }
    assert NoMatchFrom(rule, s, e, |s|);
    SubNoMatch(rule, s, e);
  }

  /** A window of `s` past `e` is the same window of `s[e..]`. */
  lemma SliceOfTail(s: string, e: nat, b: string, t: nat, n: nat)
    requires e <= t && t + n <= |s| && s[e..] == b
    ensures s[t..t + n] == b[t - e..t - e + n]
  {
    forall k | t <= k < t + n ensures s[k] == b[k - e] {
      assert s[k] == s[e..][k - e];
    }
  }

  /** The attribute openings that `replace_link_paths` looks behind. */
  const LinkPrefixes: seq<string> := ["src=\"", "src='", "href=\"", "href='"]

  /** `replace_link_paths`: `old` is replaced where one of `src="`, `src='`,
      `href="`, `href='` comes right before it and '/' right after it. The
      dots of `old` are escaped, so they match only dots. */
  function ReplaceLinkPaths(html: string, oldLink: string, newLink: string): (r: string)
    ensures NoAnchoredBefore(html, |html|, LinkPrefixes, oldLink) ==> r == html
    ensures forall m ::
      (oldLink != [] && NoAnchoredBefore(html, m, LinkPrefixes, oldLink) && AnchoredAt(html, m, LinkPrefixes, oldLink)) ==>
        r == html[..m] + newLink + Sub(Anchored(LinkPrefixes, oldLink, newLink), html, m + |oldLink|)
  {
    AnchoredFacts(LinkPrefixes, oldLink, newLink, html);
    Sub(Anchored(LinkPrefixes, oldLink, newLink), html, 0)
  }

  /** A path of `replace_media_links`, re-expressed against the context
      directory unless it is absolute. */
  function AgainstContext(p: string, contextDir: string, cwd: CleanPath): (r: string)
    requires p != ""
    ensures IsAbs(p) ==> r == p
    ensures !IsAbs(p) ==> RelSpelling(r, AbsSegs(contextDir, cwd), AbsSegs(p, cwd))
  {
    if IsAbs(p) then p else RelPath(p, contextDir, cwd).value
  }

  /** `replace_media_links`. Nothing happens without an oldLink path; a relative
      newLink path that is empty makes `relpath` raise. */
  function ReplaceMediaLinks(html: string, oldPath: string, newPath: string, contextDir: string, cwd: CleanPath)
    : (r: Result<string>)
    ensures oldPath == "" ==> r == Ok(html)
    ensures r.Err? <==> oldPath != "" && newPath == ""
    ensures r.Ok? && oldPath != "" ==>
      r.value == ReplaceLinkPaths(html, AgainstContext(oldPath, contextDir, cwd), AgainstContext(newPath, contextDir, cwd))
  {
    if oldPath == "" then Ok(html)
    else if newPath == "" then Err(ValueError)
    else
      var oldLink := AgainstContext(oldPath, contextDir, cwd);
      var newLink := AgainstContext(newPath, contextDir, cwd);
      Ok(ReplaceLinkPaths(html, oldLink, newLink))
  }

  /** `replace_media_links` with both paths given. */
  lemma MediaLinksOf(html: string, oldPath: string, newPath: string, contextDir: string, cwd: CleanPath)
    requires oldPath != "" && newPath != ""
    ensures ReplaceMediaLinks(html, oldPath, newPath, contextDir, cwd)
      == Ok(ReplaceLinkPaths(html, AgainstContext(oldPath, contextDir, cwd), AgainstContext(newPath, contextDir, cwd)))
  {
  }

  /** Two names side by side: the one is "../" and its name from the other. */
  lemma SiblingRelPath(a: string, b: string, cwd: CleanPath)
    requires IsName(a) && IsName(b) && a != b
    ensures RelPath(a, b, cwd) == Ok("../" + a)
    ensures AgainstContext(a, b, cwd) == "../" + a
  {
    SplitNoSlash(a);
    SplitNoSlash(b);
    ResolveNames(cwd, [a]);
    ResolveNames(cwd, [b]);
    var to, from := cwd + [a], cwd + [b];
    assert AbsSegs(a, cwd) == to;
    assert AbsSegs(b, cwd) == from;
    assert to[..|cwd|] == cwd && from[..|cwd|] == cwd;
    CommonPrefixLenIs(to, from, |cwd|);
    assert RelSegs(to, from) == ["..", a];
    assert ["..", a][1..] == [a];
    assert JoinSegs(["..", a]) == ".." + "/" + a;
    assert ".." + "/" + a == "../" + a;
  }

  // ---------------------------------------------------------------------------
  // Examples from the repository's tests
  // ---------------------------------------------------------------------------

  /** The rest of the test's anchor holds no "..". */
  lemma ImageTail(path: string)
    requires |path| >= 2 && path[0] == '.' && path[1] == '.'
    ensures !Contains("/image.png\">", path)
  {
    var b := "/image.png\">";
    forall i | 0 <= i <= |b| - |path| ensures !OccursAt(b, path, i) {
      if b[i] == '.' {
        assert i == 6 && b[i + 1] == 'p';
      }
      assert b[i..i + |path|][0] == b[i];
      assert b[i..i + |path|][1] == b[i + 1];
    }
  }

  /** The anchor of the test text, pointing into `dir`. */
  function ImageAnchor(dir: string): string {
    "<a href=\"" + dir + "/image.png\">"
  }

  /** The anchor's "../" + `mediaDir` is replaced by `rep`. */
  lemma MediaAnchor(mediaDir: string, rep: string)
    ensures ReplaceLinkPaths(ImageAnchor("../" + mediaDir), "../" + mediaDir, rep) == ImageAnchor(rep)
  {
    var a, path, b := "<a href=\"", "../" + mediaDir, "/image.png\">";
    assert '.' !in a;
    assert a[|a| - 6..] == "href=\"";
    ImageTail(path);
    AnchoredOnce(LinkPrefixes, path, rep, a, b, "href=\"");
  }

  /** `replace_media_links(html, 'media', 'static', 'en')`: from "en",
      "media" is "../media" and "static" is "../static", so the anchor to
      "../media/image.png" now points into "../static". */
  lemma RelativeMediaLink(mediaDir: string, staticDir: string, contextDir: string, cwd: CleanPath)
    requires IsName(mediaDir) && IsName(staticDir) && IsName(contextDir) && mediaDir != contextDir && staticDir != contextDir
    ensures ReplaceMediaLinks(ImageAnchor("../" + mediaDir), mediaDir, staticDir, contextDir, cwd)
      == Ok(ImageAnchor("../" + staticDir))
  {
    var html := ImageAnchor("../" + mediaDir);
    var a, b := AgainstContext(mediaDir, contextDir, cwd), AgainstContext(staticDir, contextDir, cwd);
    assert ReplaceMediaLinks(html, mediaDir, staticDir, contextDir, cwd) == Ok(ReplaceLinkPaths(html, a, b)) by {
      MediaLinksOf(html, mediaDir, staticDir, contextDir, cwd);
    }
    assert a == "../" + mediaDir by { SiblingRelPath(mediaDir, contextDir, cwd); }
    assert b == "../" + staticDir by { SiblingRelPath(staticDir, contextDir, cwd); }
    MediaAnchor(mediaDir, b);
  }

  /** An absolute new path, such as "/static", is used as it is. */
  lemma AbsoluteMediaLink(mediaDir: string, staticDir: string, contextDir: string, cwd: CleanPath)
    requires IsName(mediaDir) && IsName(contextDir) && mediaDir != contextDir && IsAbs(staticDir)
    ensures ReplaceMediaLinks(ImageAnchor("../" + mediaDir), mediaDir, staticDir, contextDir, cwd)
      == Ok(ImageAnchor(staticDir))
  {
    var html := ImageAnchor("../" + mediaDir);
    assert ReplaceMediaLinks(html, mediaDir, staticDir, contextDir, cwd)
      == Ok(ReplaceLinkPaths(html, AgainstContext(mediaDir, contextDir, cwd), staticDir)) by {
      MediaLinksOf(html, mediaDir, staticDir, contextDir, cwd);
    }
    assert AgainstContext(mediaDir, contextDir, cwd) == "../" + mediaDir by { SiblingRelPath(mediaDir, contextDir, cwd); }
    MediaAnchor(mediaDir, staticDir);
  }

  /** The anchor text "some ../media" follows a space, not a quote. */
  lemma AnchorTextKept(s: string, t: int, path: string)
    requires 0 < t <= |s| && s[t - 1] == ' '
    ensures !AnchoredAt(s, t, LinkPrefixes, path)
  {
    NotPrecededNotAnchored(s, t, LinkPrefixes, path);
  }

  /** The page of the repository's `replace_media_links` test: a rooted
      link into "/media", the anchor text "some ../media", and a link into
      "../media". The part before that link is written split at its dots. */
  const MediaTestHead := "\n\n<a href=\"/media/thing" + "." + "png\">some " + ".." + "/media</a>\n\n\n<a href=\""
  const MediaTestTail := "/image.png\">link</a>\n"
  const MediaTestHtml := MediaTestHead + "../media" + MediaTestTail

  /** The test page is its head, one link into "../media" after `href="`,
      and its tail, and that link is the only anchored "../media" in it. */
  lemma MediaTestPage()
    ensures var a, path, b := MediaTestHead, "../media", MediaTestTail;
      Around(MediaTestHtml, a, path, b) && NoAnchoredBefore(MediaTestHtml, |a|, LinkPrefixes, path) &&
      !Contains(b, path) && EndsWith(a, "href=\"")
  {
    var a, path, b := MediaTestHead, "../media", MediaTestTail;
    var x, y, z := "\n\n<a href=\"/media/thing", "png\">some ", "/media</a>\n\n\n<a href=\"";
    Around3(a, path, b);
    DotsAtPieces(x, y, z);
    assert '.' !in x && '.' !in y && '.' !in z && y[|y| - 1] == ' ';
    NoAnchoredInHead(MediaTestHtml, a, path, b, x, y, z);
    TestTailKept(path);
    assert a[|a| - 6..] == "href=\"";
  }

  /** The test, relative setting: seen from "en", only the link into
      "../media" moves, to "../static"; the rooted link and the anchor text
      before it are kept, and so is the rest. */
  lemma MediaLinksTestRelative(cwd: CleanPath)
    ensures ReplaceMediaLinks(MediaTestHtml, "media", "static", "en", cwd)
      == Ok(MediaTestHead + "../static" + MediaTestTail)
  {
    MediaTestPage();
    assert "../" + "media" == "../media" && "../" + "static" == "../static";
    assert IsName("static") && !IsAbs("static");
    OneMediaLinkMoves(MediaTestHtml, MediaTestHead, MediaTestTail, "media", "en", "static", cwd);
  }

  /** The test, rooted setting: the same link moves to "/static". */
  lemma MediaLinksTestRooted(cwd: CleanPath)
    ensures ReplaceMediaLinks(MediaTestHtml, "media", "/static", "en", cwd)
      == Ok(MediaTestHead + "/static" + MediaTestTail)
  {
    MediaTestPage();
    OneMediaLinkMoves(MediaTestHtml, MediaTestHead, MediaTestTail, "media", "en", "/static", cwd);
  }

  /** A page whose only anchored "../" + `m` follows `href="`, seen from a
      sibling `c` of `m`, has that link and nothing else moved to the new
      path: "../" and its name, or the rooted path as it is. */
  lemma OneMediaLinkMoves(s: string, a: string, b: string, m: string, c: string, newPath: string, cwd: CleanPath)
    requires IsName(m) && IsName(c) && m != c
    requires IsAbs(newPath) || (IsName(newPath) && newPath != c)
    requires Around(s, a, "../" + m, b) && NoAnchoredBefore(s, |a|, LinkPrefixes, "../" + m)
    requires !Contains(b, "../" + m) && EndsWith(a, "href=\"") && b != [] && b[0] == '/'
    ensures ReplaceMediaLinks(s, m, newPath, c, cwd)
      == Ok(a + (if IsAbs(newPath) then newPath else "../" + newPath) + b)
  {
    SiblingMediaLinks(s, m, c, newPath, cwd);
    OneLinkMoves(s, a, b, "../" + m, if IsAbs(newPath) then newPath else "../" + newPath);
  }

  /** Media and new directories beside the context directory, or a rooted
      new path: the links handed on are "../" and a name, or that path. */
  lemma SiblingMediaLinks(s: string, m: string, c: string, newPath: string, cwd: CleanPath)
    requires IsName(m) && IsName(c) && m != c
    requires IsAbs(newPath) || (IsName(newPath) && newPath != c)
    ensures ReplaceMediaLinks(s, m, newPath, c, cwd)
      == Ok(ReplaceLinkPaths(s, "../" + m, if IsAbs(newPath) then newPath else "../" + newPath))
  {
    SiblingRelPath(m, c, cwd);
    if !IsAbs(newPath) { SiblingRelPath(newPath, c, cwd); }
    MediaLinksOf(s, m, newPath, c, cwd);
  }

  lemma OneLinkMoves(s: string, a: string, b: string, path: string, newLink: string)
    requires Around(s, a, path, b) && path != [] && NoAnchoredBefore(s, |a|, LinkPrefixes, path)
    requires !Contains(b, path) && EndsWith(a, "href=\"") && b != [] && b[0] == '/'
    ensures ReplaceLinkPaths(s, path, newLink) == a + newLink + b
  {
    AnchoredOnlyAt(LinkPrefixes, path, newLink, s, a, b, "href=\"");
  }

  /** `a` is `x`, a dot, `y`, two dots, then `z`. */
  predicate DotsAt(a: string, x: string, y: string, z: string) {
    var i := |x|;
    var j := i + 1 + |y|;
    |a| == j + 2 + |z| && a[..i] == x && a[i] == '.' && a[i + 1..j] == y &&
    a[j] == '.' && a[j + 1] == '.' && a[j + 2..] == z
  }

  lemma DotsAtPieces(x: string, y: string, z: string)
    ensures DotsAt(x + "." + y + ".." + z, x, y, z)
  {
  }

  /** A head whose dots are one dot before a letter and a ".." that comes
      after a space and before '/' holds no anchored path starting with "..". */
  lemma NoAnchoredInHead(s: string, a: string, path: string, b: string, x: string, y: string, z: string)
    requires Around(s, a, path, b) && DotsAt(a, x, y, z)
    requires |path| >= 2 && path[0] == '.' && path[1] == '.'
    requires '.' !in x && '.' !in y && '.' !in z && y != [] && y[|y| - 1] == ' ' && z != [] && z[0] == '/'
    ensures NoAnchoredBefore(s, |a|, LinkPrefixes, path)
  {
    var i, j := |x|, |x| + 1 + |y|;
    forall t | 0 <= t < |a| ensures !AnchoredAt(s, t, LinkPrefixes, path) {
      assert s[t] == s[..|a|][t] == a[t];
      if t == j {
        assert s[t - 1] == s[..|a|][t - 1] == a[i + 1..j][|y| - 1];
        AnchorTextKept(s, t, path);
      } else if t == i || t == j + 1 {
        assert s[t + 1] == s[..|a|][t + 1] == a[t + 1];
        assert a[t + 1] != '.' by {
          if t == i {
            assert a[i + 1] == a[i + 1..j][0] && y[0] in y;
          } else {
            assert a[j + 2] == a[j + 2..][0];
          }
        }
        if t + |path| <= |s| { assert s[t..t + |path|][1] == s[t + 1]; }
      } else {
        assert a[t] != '.' by {
          if t < i {
            assert a[t] == a[..i][t] && x[t] in x;
          } else if t < j {
            assert a[t] == a[i + 1..j][t - i - 1] && y[t - i - 1] in y;
          } else {
            assert a[t] == a[j + 2..][t - j - 2] && z[t - j - 2] in z;
          }
        }
        if t + |path| <= |s| { assert s[t..t + |path|][0] == s[t]; }
      }
    }
  }

  /** No "../media" in the tail: its only dot is followed by 'p'. */
  lemma TestTailKept(path: string)
    requires path == "../media"
    ensures !Contains(MediaTestTail, path)
  {
    var b := MediaTestTail;
    forall i | 0 <= i <= |b| - |path| ensures !OccursAt(b, path, i) {
      if b[i] == '.' {
        assert i == 6 && b[i + 1] == 'p';
      }
      assert b[i..i + |path|][0] == b[i];
      assert b[i..i + |path|][1] == b[i + 1];
    }
  }

  // ---------------------------------------------------------------------------
  // Internal links
  // ---------------------------------------------------------------------------

  /** A link target that `([^ "']+)` takes whole and `\b` lets start: no
      space or quote, and a word character first. */
  predicate LinkTarget(x: string) {
    x != [] && IsWordChar(x[0]) && forall j :: 0 <= j < |x| ==> LinkChar(x[j])
  }

  /** One link to a page, after a text `a` that has no '.' and ends in a
      space or a quote, and before a text `b` without ".md" that starts
      with a space or a quote: the link's ".md" is replaced, nothing else. */
  lemma InternalLinkOnce(ext: string, a: string, x: string, b: string)
    requires LinkTarget(x) && '.' !in a && (a == [] || !LinkChar(a[|a| - 1]))
    requires (b == [] || !LinkChar(b[0])) && !Contains(b, ".md")
    ensures Sub(InternalLink(ext), a + x + ".md" + b, 0) == a + x + ext + b
  {
    Pieces(a, x, ".md", b);
    InternalLinkIn(ext, a + x + ".md" + b, a, x, b);
  }

  /** `s` is `a`, then `x`, then `c`, then `b`. */
  predicate SplitAs(s: string, a: string, x: string, c: string, b: string) {
    var m := |a| + |x|;
    |s| == m + |c| + |b| && s[..|a|] == a && s[|a|..m] == x && s[m..m + |c|] == c && s[m + |c|..] == b
  }

  /** Where the four parts of `a + x + c + b` sit. */
  lemma Pieces(a: string, x: string, c: string, b: string)
    ensures SplitAs(a + x + c + b, a, x, c, b)
  {
  }

  lemma InternalLinkIn(ext: string, s: string, a: string, x: string, b: string)
    requires SplitAs(s, a, x, ".md", b)
    requires LinkTarget(x) && '.' !in a && (a == [] || !LinkChar(a[|a| - 1]))
    requires (b == [] || !LinkChar(b[0])) && !Contains(b, ".md")
    ensures Sub(InternalLink(ext), s, 0) == a + x + ext + b
  {
    var rule, m, e := InternalLink(ext), |a|, |a| + |x| + 3;
    assert NoMatchFrom(rule, s, 0, m) by { NoInternalInHead(ext, s, a, x, b); }
    assert MatchAt(rule, s, m) == Some(e) by { InternalMatchIs(ext, s, a, x, b); }
    assert s[0..m] + Rep(rule, s, m, e) == a + x + ext by {
      assert s[0..m] == s[..m];
      GroupThenExt(rule, s, 0, m, e, a, x);
    }
    assert Sub(rule, s, e) == b by { NoInternalInTail(ext, s, e, b); }
    SubThrough(rule, s, 0, m, e, a + x + ext, b);
  }

  /** The text before a match, then the match's replacement: the text up
      to the group, the group, and the extension. */
  lemma GroupThenExt(rule: Rule, s: string, i: nat, m: nat, e: nat, a: string, x: string)
    requires rule.InternalLink? || rule.HrefLink? || rule.HrefAttr?
    requires i <= m && m + 3 <= e <= |s| && s[i..m] == a && s[m..e - 3] == x
    ensures s[i..m] + Rep(rule, s, m, e) == a + x + rule.ext
  {
  }

  /** No link starts in `a`: its group would have to cross the space or
      quote that ends `a`, and `a` has no ".md" of its own. */
  lemma NoInternalInHead(ext: string, s: string, a: string, x: string, b: string)
    requires SplitAs(s, a, x, ".md", b)
    requires '.' !in a && (a == [] || !LinkChar(a[|a| - 1]))
    ensures NoMatchFrom(InternalLink(ext), s, 0, |a|)
  {
    forall t, k | 0 <= t < |a| && t < k ensures !MdEnd(s, t, k) {
      if k < |a| {
        assert s[k] == s[..|a|][k] == a[k] && a[k] in a;
        if k + 3 <= |s| {
          assert s[k..k + 3][0] == s[k];
        }
      } else {
        assert s[|a| - 1] == s[..|a|][|a| - 1];
      }
    }
  }

  /** The link at `|a|` runs to its own ".md": every later ".md" lies past
      the space or quote that starts `b`. */
  lemma InternalMatchIs(ext: string, s: string, a: string, x: string, b: string)
    requires SplitAs(s, a, x, ".md", b)
    requires LinkTarget(x) && (a == [] || !LinkChar(a[|a| - 1])) && (b == [] || !LinkChar(b[0]))
    ensures |a| < |s| && MatchAt(InternalLink(ext), s, |a|) == Some(|a| + |x| + 3)
  {
    InternalEndsHere(s, a, x, b);
    InternalMatchAt(ext, s, |a|, |a| + |x|);
  }

  /** The group can end right before the link's ".md", and what follows
      that ".md" cannot continue a link. */
  lemma InternalEndsHere(s: string, a: string, x: string, b: string)
    requires SplitAs(s, a, x, ".md", b)
    requires LinkTarget(x) && (a == [] || !LinkChar(a[|a| - 1])) && (b == [] || !LinkChar(b[0]))
    ensures |a| < |s| && WordBoundary(s, |a|) && MdEnd(s, |a|, |a| + |x|)
    ensures |a| + |x| + 3 == |s| || !LinkChar(s[|a| + |x| + 3])
  {
    var m, k := |a|, |a| + |x|;
    assert s[m] == s[m..k][0] == x[0];
    forall j | m <= j < k ensures LinkChar(s[j]) {
      assert s[j] == s[m..k][j - m] == x[j - m];
    }
    if m > 0 {
      assert s[m - 1] == s[..m][m - 1] == a[m - 1];
    }
    if k + 3 < |s| {
      assert s[k + 3] == s[k + 3..][0] == b[0];
    }
  }

  /** The match at `i` when the group can end at `k` and the character
      after that ".md", if any, cannot continue a link: the greedy group
      cannot end later. */
  lemma InternalMatchAt(ext: string, s: string, i: nat, k: nat)
    requires i < |s| && WordBoundary(s, i) && MdEnd(s, i, k)
    requires k + 3 == |s| || !LinkChar(s[k + 3])
    ensures MatchAt(InternalLink(ext), s, i) == Some(k + 3)
  {
    var md := s[k..k + 3];
    assert md == ".md";
    assert s[k + 1] == md[1] == 'm';
    assert s[k + 2] == md[2] == 'd';
    forall g | k < g ensures !MdEnd(s, i, g) {
      if g + 3 <= |s| {
        assert s[g..g + 3][0] == s[g];
      }
    }
    var r := MatchInternal(ext, s, i);
    assert r.value - 3 >= k;
  }

  /** After the link, `b` is copied when it holds no ".md". */
  lemma NoInternalInTail(ext: string, s: string, e: nat, b: string)
    requires e <= |s| && s[e..] == b && !Contains(b, ".md")
    ensures Sub(InternalLink(ext), s, e) == b
  {
    var rule := InternalLink(ext);
    forall t, k | e <= t < k ensures !MdEnd(s, t, k) {
      if k + 3 <= |s| {
        assert s[k..k + 3] == b[k - e..k - e + 3];
        assert !OccursAt(b, ".md", k - e);
      }
    }
    assert NoMatchFrom(rule, s, e, |s|);
    SubNoMatch(rule, s, e);
  }

  /** An anchor to a Markdown page on another site. */
  function HttpLink(rest: string): string {
    "href=\"" + ("http" + rest) + ".md" + "\""
  }

  /** `\b([^ "']+)\.md\b` does not look at the scheme: a link to another
      site is rewritten like a local one. */
  lemma InternalRewritesHttp(ext: string, rest: string)
    requires forall j :: 0 <= j < |rest| ==> LinkChar(rest[j])
    ensures Sub(InternalLink(ext), HttpLink(rest), 0) == "href=\"" + ("http" + rest) + ext + "\""
  {
    var x := "http" + rest;
    assert forall j :: 0 <= j < |x| ==> LinkChar(x[j]) by {
      forall j | 0 <= j < |x| ensures LinkChar(x[j]) {
        if j >= 4 {
          assert x[j] == rest[j - 4];
        }
      }
    }
    assert '.' !in "href=\"";
    InternalLinkOnce(ext, "href=\"", x, "\"");
  }

  /** `(?! *http)` keeps both href rules off links to other sites. */
  lemma HrefKeepsHttp(ext: string, rest: string)
    requires '"' !in rest
    ensures Sub(HrefLink(ext), HttpLink(rest), 0) == HttpLink(rest)
    ensures Sub(HrefAttr(ext), HttpLink(rest), 0) == HttpLink(rest)
  {
    var s, mid := HttpLink(rest), "http" + rest + ".md";
    assert s == "href=\"" + mid + "\"";
    assert '"' !in mid;
    assert forall j :: 6 <= j < |s| - 1 ==> s[j] == mid[j - 6];
    assert s[|s| - 2] == 'd';
    forall t | 0 <= t < |s| ensures !HrefStart(s, t) {
      if t == 0 {
        assert s[6..10] == "http";
        assert SkipSpaces(s, 6) == 6;
      } else if t + 6 <= |s| {
        assert s[t..t + 6][5] == s[t + 5];
        assert s[t..t + 6][4] == s[t + 4];
      }
    }
    assert NoMatchFrom(HrefLink(ext), s, 0, |s|);
    assert NoMatchFrom(HrefAttr(ext), s, 0, |s|);
    SubNoMatch(HrefLink(ext), s, 0);
    SubNoMatch(HrefAttr(ext), s, 0);
  }

  // ---------------------------------------------------------------------------
  // Two links on one line
  // ---------------------------------------------------------------------------

  /** A link target that `(?! *http)` lets through, inside one attribute
      value on one line. */
  predicate PlainTarget(x: string) {
    x != [] && x[0] != ' ' && !StartsWith(x, "http") && '"' !in x && '\n' !in x
  }

  /** Two anchors to Markdown pages on one line. */
  function TwoLinks(x: string, y: string): string {
    "href=\"" + x + ".md\" href=\"" + y + ".md\""
  }

  /** `href="` at `i`, followed by a plain target, starts a rewrite. */
  lemma PlainHrefStart(s: string, i: nat, x: string)
    requires PlainTarget(x) && i + 6 + |x| + 1 <= |s|
    requires s[i..i + 6] == "href=\"" && s[i + 6..i + 6 + |x|] == x && s[i + 6 + |x|] == '.'
    ensures HrefStart(s, i)
  {
    var j := i + 6;
    assert s[j] == x[0];
    assert SkipSpaces(s, j) == j;
    if j + 4 <= |s| {
      if |x| >= 4 {
        assert s[j..j + 4] == x[..4];
      } else {
        assert s[j..j + 4][|x|] == '.';
      }
    }
  }

  /** At a position that cannot start `href="`, nothing matches. */
  lemma NoHrefHere(ext: string, s: string, i: nat)
    requires i < |s| && s[i] != 'h'
    ensures MatchAt(HrefLink(ext), s, i).None? && MatchAt(HrefAttr(ext), s, i).None?
  {
    if i + 6 <= |s| {
      assert s[i..i + 6][0] == s[i];
    }
  }

  /** The greedy `.*` of build.py: of two links on one line only the last
      is rewritten. */
  lemma GreedyRewritesLastOnly(x: string, y: string, ext: string)
    requires PlainTarget(x) && PlainTarget(y)
    ensures Sub(HrefLink(ext), TwoLinks(x, y), 0) == "href=\"" + x + ".md\" href=\"" + y + ext + "\""
  {
    var s, rule := TwoLinks(x, y), HrefLink(ext);
    var k := |s| - 4;
    assert MatchAt(rule, s, 0) == Some(k + 3) by { GreedyMatch(x, y, ext); }
    assert Sub(rule, s, 0) == s[..k] + ext + Sub(rule, s, k + 3) by { SubReplace(rule, s, 0, k + 3); }
    assert Sub(rule, s, k + 3) == "\"" by {
      NoHrefHere(ext, s, k + 3);
      SubNoMatch(rule, s, k + 3);
    }
    assert s[..k] == "href=\"" + x + ".md\" href=\"" + y;
  }

  /** The match of `(href="(?! *http).*)\.md` at the start of the line
      runs to its last ".md". */
  lemma GreedyMatch(x: string, y: string, ext: string)
    requires PlainTarget(x) && PlainTarget(y)
    ensures MatchAt(HrefLink(ext), TwoLinks(x, y), 0) == Some(|TwoLinks(x, y)| - 1)
  {
    var s := TwoLinks(x, y);
    var k := |s| - 4;
    assert s[..6] == "href=\"" && s[6..6 + |x|] == x && s[6 + |x|] == '.';
    PlainHrefStart(s, 0, x);
    assert s[k..k + 3] == ".md";
    assert forall j :: 6 <= j < k ==> s[j] != '\n';
    assert LineEnd(s, 0, k);
    assert s[k + 1] == 'm';
    LineMatchIs(ext, s, 0, k);
  }

  /** The match of `(href="(?! *http).*)\.md` at `i` when its group can
      end at `k` and no ".md" starts after `k`. */
  lemma LineMatchIs(ext: string, s: string, i: nat, k: nat)
    requires i < |s| && HrefStart(s, i) && LineEnd(s, i, k) && |s| <= k + 4 && s[k + 1] != '.'
    ensures MatchAt(HrefLink(ext), s, i) == Some(k + 3)
  {
    var r := MatchHrefLine(ext, s, i);
    assert r.Some?;
    var g := r.value - 3;
    assert LineEnd(s, i, g);
    assert g >= k;
  }

  /** `[^"]*` keeps each rewrite inside its attribute: both links are
      rewritten. */
  lemma AttrRewritesBoth(x: string, y: string, ext: string)
    requires PlainTarget(x) && PlainTarget(y)
    ensures Sub(HrefAttr(ext), TwoLinks(x, y), 0) == "href=\"" + x + ext + "\" href=\"" + y + ext + "\""
  {
    var s, rule := TwoLinks(x, y), HrefAttr(ext);
    var e1 := 6 + |x| + 3;
    TwoLinksShape(x, y);
    assert MatchAt(rule, s, 0) == Some(e1) by { FirstAttrMatch(x, y, ext); }
    var u, v := Sub(rule, s, 0), Sub(rule, s, e1);
    assert u == s[..6 + |x|] + ext + v by { SubReplace(rule, s, 0, e1); }
    assert v == "\" href=\"" + y + ext + "\"" by { AttrRewritesSecond(x, y, ext); }
    Regroup("href=\"", x, ext, "\" href=\"", y, "\"", u, v);
  }

  /** After the first rewrite, the scan copies the gap and rewrites the
      second link. */
  lemma AttrRewritesSecond(x: string, y: string, ext: string)
    requires PlainTarget(x) && PlainTarget(y)
    ensures Sub(HrefAttr(ext), TwoLinks(x, y), 6 + |x| + 3) == "\" href=\"" + y + ext + "\""
  {
    var s, e1 := TwoLinks(x, y), 6 + |x| + 3;
    assert |s| == e1 + 2 + 6 + |y| + 4 && s[e1..|s| - 4] == "\" href=\"" + y by {
      TwoLinksShape(x, y);
    }
    assert MatchAt(HrefAttr(ext), s, e1 + 2) == Some(|s| - 1) by { SecondAttrMatch(x, y, ext); }
    assert NoMatchFrom(HrefAttr(ext), s, e1, e1 + 2) by { BetweenLinks(x, y, ext); }
    assert Sub(HrefAttr(ext), s, |s| - 1) == "\"" by { ClosingQuote(x, y, ext); }
    LastAttrOf(s, y, ext, e1);
  }

  /** The scan over `s[e1..]`: a quote and a space, then one attribute to
      rewrite, then the closing quote. */
  lemma LastAttrOf(s: string, y: string, ext: string, e1: nat)
    requires |s| == e1 + 2 + 6 + |y| + 4
    requires s[e1..|s| - 4] == "\" href=\"" + y
    requires MatchAt(HrefAttr(ext), s, e1 + 2) == Some(|s| - 1)
    requires NoMatchFrom(HrefAttr(ext), s, e1, e1 + 2)
    requires Sub(HrefAttr(ext), s, |s| - 1) == "\""
    ensures Sub(HrefAttr(ext), s, e1) == "\" href=\"" + y + ext + "\""
  {
    var rule, m, e2 := HrefAttr(ext), e1 + 2, |s| - 1;
    var mid := "\" href=\"" + y + ext;
    assert s[e1..m] + s[m..e2 - 3] == s[e1..e2 - 3];
    assert s[e1..m] + Rep(rule, s, m, e2) == mid;
    SubThrough(rule, s, e1, m, e2, mid, "\"");
  }

  /** The scan from `i` when the first match is `s[m..e]` and the scan
      after it yields `tail`. */
  lemma SubThrough(rule: Rule, s: string, i: nat, m: nat, e: nat, mid: string, tail: string)
    requires Valid(rule) && i <= m < e && m < |s|
    requires NoMatchFrom(rule, s, i, m) && MatchAt(rule, s, m) == Some(e)
    requires s[i..m] + Rep(rule, s, m, e) == mid && Sub(rule, s, e) == tail
    ensures Sub(rule, s, i) == mid + tail
  {
    SubFirstMatch(rule, s, i, m, e);
  }

  /** The closing quote is copied. */
  lemma ClosingQuote(x: string, y: string, ext: string)
    ensures Sub(HrefAttr(ext), TwoLinks(x, y), |TwoLinks(x, y)| - 1) == "\""
  {
    var s := TwoLinks(x, y);
    TwoLinksShape(x, y);
    NoHrefHere(ext, s, |s| - 1);
    SubNoMatch(HrefAttr(ext), s, |s| - 1);
    assert s[|s| - 1..] == "\"";
  }

  /** The quote and the space between the two attributes start nothing. */
  lemma BetweenLinks(x: string, y: string, ext: string)
    ensures var e1 := 6 + |x| + 3;
      NoMatchFrom(HrefAttr(ext), TwoLinks(x, y), e1, e1 + 2)
  {
    var s, e1 := TwoLinks(x, y), 6 + |x| + 3;
    TwoLinksShape(x, y);
    NoHrefIn(ext, s, e1, e1 + 2);
  }

  /** Where no 'h' is, no `href="` starts. */
  lemma NoHrefIn(ext: string, s: string, i: nat, j: nat)
    requires forall t :: i <= t < j && t < |s| ==> s[t] != 'h'
    ensures NoMatchFrom(HrefAttr(ext), s, i, j) && NoMatchFrom(HrefLink(ext), s, i, j)
  {
    forall t | i <= t < j && t < |s|
      ensures MatchAt(HrefAttr(ext), s, t).None? && MatchAt(HrefLink(ext), s, t).None?
    {
      NoHrefHere(ext, s, t);
    }
  }

  lemma Regroup(h: string, x: string, ext: string, g: string, y: string, c: string, u: string, v: string)
    requires u == (h + x) + ext + v && v == g + y + ext + c
    ensures u == h + x + ext + g + y + ext + c
  {
  }

  /** Where the pieces of `TwoLinks` sit. */
  lemma TwoLinksShape(x: string, y: string)
    ensures var s, e1 := TwoLinks(x, y), 6 + |x| + 3;
      |s| == e1 + 2 + 6 + |y| + 4 &&
      s[..6 + |x|] == "href=\"" + x &&
      s[e1] == '"' && s[e1 + 1] == ' ' &&
      s[e1..|s| - 4] == "\" href=\"" + y &&
      s[|s| - 1] == '"'
  {
  }

  /** The first attribute's match stops at its own ".md". */
  lemma FirstAttrMatch(x: string, y: string, ext: string)
    requires PlainTarget(x) && PlainTarget(y)
    ensures MatchAt(HrefAttr(ext), TwoLinks(x, y), 0) == Some(6 + |x| + 3)
  {
    var s := TwoLinks(x, y);
    var k := 6 + |x|;
    assert s[..6] == "href=\"" && s[6..k] == x && s[k] == '.';
    PlainHrefStart(s, 0, x);
    assert s[k..k + 3] == ".md";
    assert forall j :: 6 <= j < k ==> s[j] != '"';
    assert AttrEnd(s, 0, k);
    AttrMatchIs(ext, s, 0, k);
  }

  /** The match of `(href="(?! *http)[^"]*)\.md` at `i` when its group can
      end at `k` and the value closes right after that ".md". */
  lemma AttrMatchIs(ext: string, s: string, i: nat, k: nat)
    requires i < |s| && HrefStart(s, i) && AttrEnd(s, i, k) && k + 3 < |s| && s[k + 3] == '"'
    ensures MatchAt(HrefAttr(ext), s, i) == Some(k + 3)
  {
    var r := MatchHrefAttr(ext, s, i);
    assert r.Some?;
    var g := r.value - 3;
    assert k <= g;
    LastAttrEnd(s, i, g, k);
  }

  /** A value that closes right after ".md" at `k` has no later ".md". */
  lemma LastAttrEnd(s: string, i: int, g: int, k: int)
    requires AttrEnd(s, i, g) && AttrEnd(s, i, k) && k <= g && k + 3 < |s| && s[k + 3] == '"'
    ensures g == k
  {
    AttrEndStops(s, i, g, k + 3);
    MdChars(s, g);
    MdChars(s, k);
  }

  /** The characters of an occurrence of ".md". */
  lemma MdChars(s: string, k: int)
    requires OccursAt(s, ".md", k)
    ensures s[k] == '.' && s[k + 1] == 'm' && s[k + 2] == 'd'
  {
    assert s[k..k + 3][0] == s[k] && s[k..k + 3][1] == s[k + 1] && s[k..k + 3][2] == s[k + 2];
  }

  /** The group of `[^"]*` cannot run past a quote. */
  lemma AttrEndStops(s: string, i: int, g: int, q: int)
    requires AttrEnd(s, i, g) && i + 6 <= q < |s| && s[q] == '"'
    ensures g <= q
  {
  }

  /** The second attribute's match runs to the last ".md". */
  lemma SecondAttrMatch(x: string, y: string, ext: string)
    requires PlainTarget(x) && PlainTarget(y)
    ensures MatchAt(HrefAttr(ext), TwoLinks(x, y), 6 + |x| + 5) == Some(|TwoLinks(x, y)| - 1)
  {
    var s := TwoLinks(x, y);
    var m := 6 + |x| + 5;
    var k := |s| - 4;
    assert s[m..m + 6] == "href=\"" && s[m + 6..m + 6 + |y|] == y && s[m + 6 + |y|] == '.';
    PlainHrefStart(s, m, y);
    assert s[k..k + 3] == ".md";
    assert forall j :: m + 6 <= j < k ==> s[j] != '"';
    assert AttrEnd(s, m, k);
    AttrMatchIs(ext, s, m, k);
  }
}
