/**
 Token substitution in page templates. `parse_template` (parsers.py)
 applies six `str.replace` calls in a fixed order; `Page.post_process`
 (mdbuild.py) applies the same six pairs with `re.sub`, so that the '.' of
 "./media/" matches any character. parsers.py then swaps the media path,
 relative to the page, for the output media path, relative to the output
 page.
 */
module Templates {
  import opened Wrappers
  import opened Text
  import opened Paths
  import opened Links

  const TitleToken := "%%TITLE%%"
  const ContentToken := "%%CONTENT%%"
  const NavToken := "%%DOCNAV%%"
  const SrcMedia := "src=\"media/"
  const SrcDotMedia := "src=\"./media/"
  const SrcUpMedia := "src=\"../media/"
  const CodeClass := "code class=\""
  const CodeLanguage := "code class=\"language-"

  /** The replacement list of both variants, in the order it is applied. */
  function Pairs(title: string, contents: string, navigation: string): seq<(string, string)> {
    [(TitleToken, title), (ContentToken, contents), (NavToken, navigation),
     (SrcMedia, SrcUpMedia), (SrcDotMedia, SrcUpMedia), (CodeClass, CodeLanguage)]
  }

  // ---------------------------------------------------------------------------
  // parse_template
  // ---------------------------------------------------------------------------

  /** `for (original, replacement) in pairs: s = s.replace(original, replacement)` */
  function ReplaceAll(s: string, pairs: seq<(string, string)>): string
    decreases |pairs|
  {
    if pairs == [] then s else ReplaceAll(Replace(s, pairs[0].0, pairs[0].1), pairs[1..])
  }

  /** Replacing strings that do not occur changes nothing. */
  lemma {:induction false} ReplaceAllAbsent(s: string, pairs: seq<(string, string)>)
    requires forall i :: 0 <= i < |pairs| ==> pairs[i].0 != [] && !Contains(s, pairs[i].0)
    ensures ReplaceAll(s, pairs) == s
    decreases |pairs|
  {
    if pairs != [] {
      ReplaceAbsent(s, pairs[0].0, pairs[0].1);
      ReplaceAllAbsent(s, pairs[1..]);
    }
  }

  /** `parse_template`. Every replacement applies to the whole document as
      it stands, so the media and code-class rewrites also reach the title,
      contents and navigation inserted before them; no media location of
      the forms "media/" and "./media/" is left. */
  function ParseTemplate(template: string, contents: string, title: string, navigation: string): (r: string)
    ensures !Contains(r, SrcMedia) && !Contains(r, SrcDotMedia)
  {
    ParseTemplateSteps(template, contents, title, navigation);
    var s3 := Replace(Replace(Replace(template, TitleToken, title), ContentToken, contents), NavToken, navigation);
    NoMediaLeft(s3);
    ReplaceAll(template, Pairs(title, contents, navigation))
  }

  /** The six replacements, one after the other. */
  lemma ParseTemplateSteps(template: string, contents: string, title: string, navigation: string)
    ensures ReplaceAll(template, Pairs(title, contents, navigation))
      == Replace(Replace(Replace(
           Replace(Replace(Replace(template, TitleToken, title), ContentToken, contents), NavToken, navigation),
           SrcMedia, SrcUpMedia), SrcDotMedia, SrcUpMedia), CodeClass, CodeLanguage)
  {
    var ps := Pairs(title, contents, navigation);
    var s1 := Replace(template, TitleToken, title);
    var s2 := Replace(s1, ContentToken, contents);
    var s3 := Replace(s2, NavToken, navigation);
    var s4 := Replace(s3, SrcMedia, SrcUpMedia);
    var s5 := Replace(s4, SrcDotMedia, SrcUpMedia);
    var s6 := Replace(s5, CodeClass, CodeLanguage);
    assert ReplaceAll(template, ps) == ReplaceAll(s1, ps[1..]);
    assert ReplaceAll(s1, ps[1..]) == ReplaceAll(s2, ps[2..]);
    assert ReplaceAll(s2, ps[2..]) == ReplaceAll(s3, ps[3..]);
    assert ReplaceAll(s3, ps[3..]) == ReplaceAll(s4, ps[4..]);
    assert ReplaceAll(s4, ps[4..]) == ReplaceAll(s5, ps[5..]);
    assert ReplaceAll(s5, ps[5..]) == ReplaceAll(s6, []);
  }

  /** `a` and `b` differ at index `k`. */
  lemma ClashAt(a: string, b: string, k: nat)
    requires k < |a| && k < |b| && a[k] != b[k]
    ensures Clash(a, b)
  {
  }

  /** "src=\"../media/" can neither hold nor begin the tail of a media
      location of the two replaced forms. */
  lemma UpMediaClashes()
    ensures forall j :: 0 <= j < |SrcUpMedia| ==> Clash(SrcUpMedia[j..], SrcMedia) && Clash(SrcUpMedia[j..], SrcDotMedia)
    ensures forall j :: 0 < j < |SrcMedia| ==> Clash(SrcMedia[j..], SrcUpMedia)
    ensures forall j :: 0 < j < |SrcDotMedia| ==> Clash(SrcDotMedia[j..], SrcUpMedia)
  {
    forall j | 0 <= j < |SrcUpMedia|
      ensures Clash(SrcUpMedia[j..], SrcMedia) && Clash(SrcUpMedia[j..], SrcDotMedia)
    {
      if j == 0 {
        ClashAt(SrcUpMedia, SrcMedia, 5);
        ClashAt(SrcUpMedia, SrcDotMedia, 6);
      } else {
        ClashAt(SrcUpMedia[j..], SrcMedia, 0);
        ClashAt(SrcUpMedia[j..], SrcDotMedia, 0);
      }
    }
    forall j | 0 < j < |SrcMedia| ensures Clash(SrcMedia[j..], SrcUpMedia) {
      ClashAt(SrcMedia[j..], SrcUpMedia, 0);
    }
    forall j | 0 < j < |SrcDotMedia| ensures Clash(SrcDotMedia[j..], SrcUpMedia) {
      ClashAt(SrcDotMedia[j..], SrcUpMedia, 0);
    }
  }

  /** Where "code class=\"language-" has an 's'. */
  lemma LanguageS(j: nat)
    requires j < |CodeLanguage| && CodeLanguage[j] == 's'
    ensures j == 8 || j == 9
  {
  }

  /** Neither can "code class=\"language-". */
  lemma LanguageClashes(q: string)
    requires q == SrcMedia || q == SrcDotMedia
    ensures forall j :: 0 <= j < |CodeLanguage| ==> Clash(CodeLanguage[j..], q)
    ensures forall j :: 0 < j < |q| ==> Clash(q[j..], CodeLanguage)
  {
    forall j | 0 <= j < |CodeLanguage| ensures Clash(CodeLanguage[j..], q) {
      if CodeLanguage[j] == 's' {
        LanguageS(j);
        ClashAt(CodeLanguage[j..], q, 1);
      } else {
        ClashAt(CodeLanguage[j..], q, 0);
      }
    }
    forall j | 0 < j < |q| ensures Clash(q[j..], CodeLanguage) {
      if j == 2 {
        ClashAt(q[j..], CodeLanguage, 1);
      } else {
        ClashAt(q[j..], CodeLanguage, 0);
      }
    }
  }

  /** After the fourth replacement no "src=\"media/" is left, the fifth
      removes every "src=\"./media/" and the sixth brings back neither. */
  lemma NoMediaLeft(s3: string)
    ensures var s6 := Replace(Replace(Replace(s3, SrcMedia, SrcUpMedia), SrcDotMedia, SrcUpMedia), CodeClass, CodeLanguage);
      !Contains(s6, SrcMedia) && !Contains(s6, SrcDotMedia)
  {
    var s4 := Replace(s3, SrcMedia, SrcUpMedia);
    var s5 := Replace(s4, SrcDotMedia, SrcUpMedia);
    UpMediaClashes();
    ReplaceCreatesNo(s3, SrcMedia, SrcUpMedia, SrcMedia);
    ReplaceCreatesNo(s4, SrcDotMedia, SrcUpMedia, SrcMedia);
    ReplaceCreatesNo(s4, SrcDotMedia, SrcUpMedia, SrcDotMedia);
    LanguageClashes(SrcMedia);
    LanguageClashes(SrcDotMedia);
    ReplaceCreatesNo(s5, CodeClass, CodeLanguage, SrcMedia);
    ReplaceCreatesNo(s5, CodeClass, CodeLanguage, SrcDotMedia);
  }

  /** A template holding none of the six search strings comes back as it
      is, whatever the title, contents and navigation. */
  lemma ParseTemplateUntouched(template: string, contents: string, title: string, navigation: string)
    requires !Contains(template, TitleToken) && !Contains(template, ContentToken) && !Contains(template, NavToken)
    requires !Contains(template, SrcMedia) && !Contains(template, SrcDotMedia) && !Contains(template, CodeClass)
    ensures ParseTemplate(template, contents, title, navigation) == template
  {
    ReplaceAllAbsent(template, Pairs(title, contents, navigation));
  }

  /** A code block gets "language-" after its `code class="`. A class that
      already starts with "language-" gets it a second time. */
  lemma CodeClassPrefixed(a: string, b: string, contents: string, title: string, navigation: string)
    requires 'c' !in a && !Contains(b, CodeClass)
    requires var t := a + CodeClass + b;
      !Contains(t, TitleToken) && !Contains(t, ContentToken) && !Contains(t, NavToken) &&
      !Contains(t, SrcMedia) && !Contains(t, SrcDotMedia)
    ensures ParseTemplate(a + CodeClass + b, contents, title, navigation) == a + CodeLanguage + b
  {
    var t := a + CodeClass + b;
    ParseTemplateSteps(t, contents, title, navigation);
    ReplaceAbsent(t, TitleToken, title);
    ReplaceAbsent(t, ContentToken, contents);
    ReplaceAbsent(t, NavToken, navigation);
    ReplaceAbsent(t, SrcMedia, SrcUpMedia);
    ReplaceAbsent(t, SrcDotMedia, SrcUpMedia);
    ReplaceOnce(a, CodeClass, b, CodeLanguage);
  }

  // ---------------------------------------------------------------------------
  // parsers.py: media paths
  // ---------------------------------------------------------------------------

  /** The media substitution of `parse_files`: the media path relative to
      the page's directory is replaced, wherever it occurs, by the output
      media path relative to the output page's directory. `relpath` raises
      when either media path is empty. */
  function ParsersMedia(html: string, mediaPath: string, mediaDestination: string,
                        filepath: string, outputPath: string, cwd: CleanPath): (r: Result<string>)
    ensures r.Err? <==> mediaPath == "" || mediaDestination == ""
    ensures r.Ok? ==>
      var original := RelPath(mediaPath, DirName(filepath), cwd).value;
      var replacement := RelPath(mediaDestination, DirName(outputPath), cwd).value;
      RelSpelling(original, AbsSegs(DirName(filepath), cwd), AbsSegs(mediaPath, cwd)) &&
      RelSpelling(replacement, AbsSegs(DirName(outputPath), cwd), AbsSegs(mediaDestination, cwd)) &&
      r.value == Replace(html, original, replacement)
  {
    var original :- RelPath(mediaPath, DirName(filepath), cwd);
    var replacement :- RelPath(mediaDestination, DirName(outputPath), cwd);
    Ok(Replace(html, original, replacement))
  }

  /** A document without the page-relative media path comes back as it
      is; and when the output-relative path cannot overlap the page-relative
      one from either side, no occurrence of the page-relative path is
      left. */
  lemma ParsersMediaReplacesAll(html: string, mediaPath: string, mediaDestination: string,
                                filepath: string, outputPath: string, cwd: CleanPath)
    ensures var r := ParsersMedia(html, mediaPath, mediaDestination, filepath, outputPath, cwd);
      r.Ok? ==>
        var original := RelPath(mediaPath, DirName(filepath), cwd).value;
        var replacement := RelPath(mediaDestination, DirName(outputPath), cwd).value;
        (!Contains(html, original) ==> r.value == html) &&
        ((forall j :: 0 <= j < |replacement| ==> Clash(replacement[j..], original)) &&
         (forall j :: 0 < j < |original| ==> Clash(original[j..], replacement)) ==>
           !Contains(r.value, original))
  {
    if mediaPath != "" && mediaDestination != "" {
      var original := RelPath(mediaPath, DirName(filepath), cwd).value;
      var replacement := RelPath(mediaDestination, DirName(outputPath), cwd).value;
      NormalRelNotAbs(original);
      if !Contains(html, original) {
        ReplaceAbsent(html, original, replacement);
      }
      if (forall j :: 0 <= j < |replacement| ==> Clash(replacement[j..], original)) &&
         (forall j :: 0 < j < |original| ==> Clash(original[j..], replacement)) {
        ReplaceCreatesNo(html, original, replacement, original);
      }
    }
  }

  /** One occurrence of the page-relative media path is swapped for the
      output-relative one, which reaches the output media directory from the
      output page; the rest of the document is kept. */
  lemma ParsersMediaOnce(mediaPath: string, mediaDestination: string, filepath: string, outputPath: string,
                         cwd: CleanPath, original: string, replacement: string, a: string, b: string)
    requires mediaPath != "" && mediaDestination != ""
    requires original == RelPath(mediaPath, DirName(filepath), cwd).value
    requires replacement == RelPath(mediaDestination, DirName(outputPath), cwd).value
    requires original[0] !in a && !Contains(b, original)
    ensures ParsersMedia(a + original + b, mediaPath, mediaDestination, filepath, outputPath, cwd)
      == Ok(a + replacement + b)
    ensures Resolve(AbsSegs(DirName(outputPath), cwd), Split(replacement)) == AbsSegs(mediaDestination, cwd)
  {
    NormalRelNotAbs(original);
    ReplaceOnce(a, original, b, replacement);
  }

  // ---------------------------------------------------------------------------
  // mdbuild.py: Page.post_process
  // ---------------------------------------------------------------------------

  const DefaultTitle := "Juju Documentation"

  /** The parser's metadata: every key maps to its list of lines. */
  type Meta = map<string, seq<string>>

  /** A page of mdbuild.py: the parser's metadata, the converted HTML and
      the output. */
  datatype Page = Page(meta: Meta, parsed: string, output: string)

  /** The first "title" line, or the default title; an empty list of title
      lines raises IndexError. */
  function PageTitle(meta: Meta): (r: Result<string>)
    ensures "title" !in meta ==> r == Ok(DefaultTitle)
    ensures "title" in meta ==> (r.Err? <==> meta["title"] == [])
    ensures r.Ok? && "title" in meta ==> r.value == meta["title"][0]
  {
    if "title" in meta then
      if meta["title"] == [] then Err(IndexError) else Ok(meta["title"][0])
    else Ok(DefaultTitle)
  }

  /** Every pattern is non-empty and starts with a literal character. */
  predicate Patterns(pairs: seq<(string, string)>) {
    forall i :: 0 <= i < |pairs| ==> pairs[i].0 != [] && pairs[i].0[0] != '.'
  }

  lemma PatternsTail(pairs: seq<(string, string)>)
    requires pairs != [] && Patterns(pairs)
    ensures Patterns(pairs[1..])
  {
    assert forall i :: 0 <= i < |pairs| - 1 ==> pairs[1..][i] == pairs[i + 1];
  }

  /** `for pair in pairs: s = re.sub(pair[0], pair[1], s)`. The patterns'
      only special character is '.'; the replacements are taken as
      literal text. */
  function SubAll(s: string, pairs: seq<(string, string)>): string
    requires Patterns(pairs)
    decreases |pairs|
  {
    if pairs == [] then s else SubAll(Sub(Wild(pairs[0].0, pairs[0].1), s, 0), pairs[1..])
  }

  /** A pattern whose first character, a literal one, does not occur in
      the text leaves it unchanged. */
  lemma NoMatchAbsent(pat: string, rep: string, s: string)
    requires pat != [] && pat[0] != '.' && pat[0] !in s
    ensures Sub(Wild(pat, rep), s, 0) == s
  {
    forall t | 0 <= t < |s| ensures MatchAt(Wild(pat, rep), s, t).None? {
      MismatchAt(s, pat, t, 0);
    }
    SubNoMatch(Wild(pat, rep), s, 0);
  }

  /** Patterns whose first characters do not occur in the text leave it
      unchanged. */
  lemma {:induction false} SubAllAbsent(s: string, pairs: seq<(string, string)>)
    requires Patterns(pairs)
    requires forall i :: 0 <= i < |pairs| ==> pairs[i].0[0] !in s
    ensures SubAll(s, pairs) == s
    decreases |pairs|
  {
    if pairs != [] {
      NoMatchAbsent(pairs[0].0, pairs[0].1, s);
      SubAllAbsent(s, pairs[1..]);
    }
  }

  /** `Page.post_process`: the title is chosen, then with a base template
      the six pairs are substituted into it, and without one the output is
      the converted HTML. The parser is reset afterwards, which empties its
      metadata. An empty template counts as none. */
  function PostProcess(page: Page, baseTemplate: string, docNav: string): (r: Result<Page>)
    ensures r.Err? <==> PageTitle(page.meta).Err?
    ensures r.Ok? ==> r.value.meta == map[] && r.value.parsed == page.parsed
    ensures r.Ok? && baseTemplate == "" ==> r.value.output == page.parsed
    ensures r.Ok? && baseTemplate != "" ==>
      r.value.output == SubAll(baseTemplate, Pairs(PageTitle(page.meta).value, page.parsed, docNav))
  {
    var title :- PageTitle(page.meta);
    var output :=
      if baseTemplate != "" then SubAll(baseTemplate, Pairs(title, page.parsed, docNav))
      else page.parsed;
    Ok(Page(map[], page.parsed, output))
  }

  /** The six substitutions of `Page.post_process`, one after the other. */
  lemma PostProcessSteps(s: string, title: string, contents: string, navigation: string)
    ensures var s3 := SubAll(s, Pairs(title, contents, navigation)[..3]);
      SubAll(s, Pairs(title, contents, navigation))
      == Sub(Wild(CodeClass, CodeLanguage),
           Sub(Wild(SrcDotMedia, SrcUpMedia), Sub(Wild(SrcMedia, SrcUpMedia), s3, 0), 0), 0)
  {
    var ps := Pairs(title, contents, navigation);
    assert Patterns(ps[..3]) && Patterns(ps[3..]);
    assert ps == ps[..3] + ps[3..];
    SubAllAppend(s, ps[..3], ps[3..]);
    var s3 := SubAll(s, ps[..3]);
    var t := ps[3..];
    var s4 := Sub(Wild(SrcMedia, SrcUpMedia), s3, 0);
    var s5 := Sub(Wild(SrcDotMedia, SrcUpMedia), s4, 0);
    assert SubAll(s3, t) == SubAll(s4, t[1..]);
    assert SubAll(s4, t[1..]) == SubAll(s5, t[2..]);
    var u := t[2..];
    assert u == [(CodeClass, CodeLanguage)] && u[1..] == [];
    assert SubAll(s5, u) == SubAll(Sub(Wild(CodeClass, CodeLanguage), s5, 0), []);
  }

  /** With a base template no media location of the form "media/" is left
      in the output: the fourth substitution removes them all, and neither
      "src=\"../media/" nor "code class=\"language-" can start or finish
      one. */
  lemma PostProcessNoMediaLeft(page: Page, baseTemplate: string, docNav: string)
    ensures var r := PostProcess(page, baseTemplate, docNav);
      r.Ok? && baseTemplate != "" ==> !Contains(r.value.output, SrcMedia)
  {
    if PageTitle(page.meta).Ok? && baseTemplate != "" {
      var ps := Pairs(PageTitle(page.meta).value, page.parsed, docNav);
      var s3 := SubAll(baseTemplate, ps[..3]);
      var s4 := Sub(Wild(SrcMedia, SrcUpMedia), s3, 0);
      var s5 := Sub(Wild(SrcDotMedia, SrcUpMedia), s4, 0);
      PostProcessSteps(baseTemplate, PageTitle(page.meta).value, page.parsed, docNav);
      UpMediaClashes();
      LanguageClashes(SrcMedia);
      assert s3[0..] == s3 && s4[0..] == s4 && s5[0..] == s5;
      WildIsReplace(SrcMedia, SrcUpMedia, s3, 0);
      ReplaceCreatesNo(s3, SrcMedia, SrcUpMedia, SrcMedia);
      WildCreatesNo(SrcDotMedia, SrcUpMedia, s4, 0, SrcMedia);
      WildCreatesNo(CodeClass, CodeLanguage, s5, 0, SrcMedia);
    }
  }

  /** Substituting one list and then another is substituting their
      concatenation. */
  lemma {:induction false} SubAllAppend(s: string, a: seq<(string, string)>, b: seq<(string, string)>)
    requires Patterns(a) && Patterns(b)
    ensures Patterns(a + b)
    ensures SubAll(s, a + b) == SubAll(SubAll(s, a), b)
    decreases |a|
  {
    if a != [] {
      assert (a + b)[1..] == a[1..] + b;
      SubAllAppend(Sub(Wild(a[0].0, a[0].1), s, 0), a[1..], b);
    } else {
      assert a + b == b;
    }
  }

  /** A non-empty `p` whose first character is not in `s` does not occur
      in it. */
  lemma AbsentFirst(s: string, p: string)
    requires p != [] && p[0] !in s
    ensures !Contains(s, p)
  {
    forall i | 0 <= i <= |s| - |p| ensures !OccursAt(s, p, i) {
      MismatchAt(s, p, i, 0);
    }
  }

  /** The re.sub variant differs from `parse_template` on one point: its
      "./media/" matches any character before "/media/" but a newline, so
      `src="x/media/` becomes `src="../media/`, which `parse_template`
      leaves alone. */
  lemma WildcardMedia(c: char, meta: Meta, parsed: string, docNav: string)
    requires c != '\n' && c != '.' && c != '%'
    requires "title" !in meta
    ensures var t := "src=\"" + [c] + "/media/";
      PostProcess(Page(meta, parsed, ""), t, docNav) == Ok(Page(map[], parsed, SrcUpMedia)) &&
      ParseTemplate(t, parsed, DefaultTitle, docNav) == t
  {
    var t := "src=\"" + [c] + "/media/";
    var ps := Pairs(DefaultTitle, parsed, docNav);
    assert Patterns(ps[..3]) && Patterns(ps[3..]);
    assert ps == ps[..3] + ps[3..];
    assert '%' !in t by {
      assert t == "src=\"" + ([c] + "/media/");
    }
    SubAllAbsent(t, ps[..3]);
    SubAllAppend(t, ps[..3], ps[3..]);
    WildcardSteps(c, t);
    assert ps[3..] == [ps[3], ps[4], ps[5]];
    SubAllThree(t, ps[3..], ps[3], ps[4], ps[5]);
    assert SubAll(t, ps) == SrcUpMedia;
    WildcardUntouched(c, t, parsed, docNav);
  }

  /** `p` does not occur at `i` when the text differs from `p` there, and
      does not match either when that character of `p` is not '.'. */
  lemma MismatchAt(s: string, p: string, i: nat, j: nat)
    requires j < |p| && i + j < |s| && s[i + j] != p[j]
    ensures !OccursAt(s, p, i) && (p[j] != '.' ==> !WildAt(s, p, i))
  {
    if i + |p| <= |s| {
      assert s[i..i + |p|][j] == s[i + j];
    }
  }

  /** A pattern that fits at most at the first three places of the text,
      and matches at none of them, leaves it unchanged. */
  lemma NoMatchNearStart(pat: string, rep: string, s: string)
    requires pat != [] && |s| < |pat| + 3
    requires !WildAt(s, pat, 0) && !WildAt(s, pat, 1) && !WildAt(s, pat, 2)
    ensures Sub(Wild(pat, rep), s, 0) == s
  {
    var rule := Wild(pat, rep);
    forall t | 0 <= t < |s| ensures MatchAt(rule, s, t).None? {
      assert t <= 2 || !WildAt(s, pat, t);
    }
    assert s[0..] == s;
    SubNoMatch(rule, s, 0);
  }

  /** Likewise for `Contains`. */
  lemma AbsentNearStart(s: string, p: string)
    requires |s| < |p| + 3
    requires !OccursAt(s, p, 0) && !OccursAt(s, p, 1) && !OccursAt(s, p, 2)
    ensures !Contains(s, p)
  {
  }

  /** Three substitutions, one after the other. */
  lemma SubAllThree(t: string, ps: seq<(string, string)>, a: (string, string), b: (string, string), c: (string, string))
    requires ps == [a, b, c] && Patterns(ps)
    requires a.0 != [] && b.0 != [] && c.0 != []
    ensures SubAll(t, ps) == Sub(Wild(c.0, c.1), Sub(Wild(b.0, b.1), Sub(Wild(a.0, a.1), t, 0), 0), 0)
  {
    PatternsTail(ps);
    PatternsTail(ps[1..]);
    assert ps[1..] == [b, c] && ps[1..][1..] == [c] && ps[1..][1..][1..] == [];
    var u := Sub(Wild(a.0, a.1), t, 0);
    var v := Sub(Wild(b.0, b.1), u, 0);
    assert SubAll(t, ps) == SubAll(u, ps[1..]);
    assert SubAll(u, ps[1..]) == SubAll(v, ps[1..][1..]);
  }

  /** The three media and code-class substitutions of `WildcardMedia`. */
  lemma WildcardSteps(c: char, t: string)
    requires t == "src=\"" + [c] + "/media/" && c != '\n'
    ensures Sub(Wild(SrcMedia, SrcUpMedia), t, 0) == t
    ensures Sub(Wild(SrcDotMedia, SrcUpMedia), t, 0) == SrcUpMedia
    ensures Sub(Wild(CodeClass, CodeLanguage), SrcUpMedia, 0) == SrcUpMedia
  {
    WildcardNoMedia(c, t);
    WildcardDotMedia(c, t);
    MismatchAt(SrcUpMedia, CodeClass, 0, 0);
    MismatchAt(SrcUpMedia, CodeClass, 1, 0);
    MismatchAt(SrcUpMedia, CodeClass, 2, 1);
    NoMatchNearStart(CodeClass, CodeLanguage, SrcUpMedia);
  }

  lemma WildcardNoMedia(c: char, t: string)
    requires t == "src=\"" + [c] + "/media/"
    ensures Sub(Wild(SrcMedia, SrcUpMedia), t, 0) == t
  {
    assert t[1] == 'r' && t[2] == 'c' && t[6] == '/';
    MismatchAt(t, SrcMedia, 0, 6);
    MismatchAt(t, SrcMedia, 1, 0);
    MismatchAt(t, SrcMedia, 2, 0);
    NoMatchNearStart(SrcMedia, SrcUpMedia, t);
  }

  lemma WildcardDotMedia(c: char, t: string)
    requires t == "src=\"" + [c] + "/media/" && c != '\n'
    ensures Sub(Wild(SrcDotMedia, SrcUpMedia), t, 0) == SrcUpMedia
  {
    assert WildAt(t, SrcDotMedia, 0);
    SubReplace(Wild(SrcDotMedia, SrcUpMedia), t, 0, |t|);
  }

  /** `parse_template` finds none of its search strings in `src="x/media/`. */
  lemma WildcardUntouched(c: char, t: string, parsed: string, docNav: string)
    requires t == "src=\"" + [c] + "/media/" && c != '.' && c != '%'
    ensures ParseTemplate(t, parsed, DefaultTitle, docNav) == t
  {
    assert '%' !in t by {
      assert t == "src=\"" + ([c] + "/media/");
    }
    AbsentFirst(t, TitleToken);
    AbsentFirst(t, ContentToken);
    AbsentFirst(t, NavToken);
    assert t[1] == 'r' && t[2] == 'c' && t[5] == c && t[6] == '/';
    MismatchAt(t, SrcMedia, 0, 6);
    MismatchAt(t, SrcMedia, 1, 0);
    MismatchAt(t, SrcMedia, 2, 0);
    AbsentNearStart(t, SrcMedia);
    MismatchAt(t, SrcDotMedia, 0, 5);
    AbsentNearStart(t, SrcDotMedia);
    MismatchAt(t, CodeClass, 0, 0);
    MismatchAt(t, CodeClass, 1, 0);
    assert |t| == 13;
    AbsentNearStart(t, CodeClass);
    ParseTemplateUntouched(t, parsed, DefaultTitle, docNav);
  }

  // ---------------------------------------------------------------------------
  // mdbuild.py: converting a page
  // ---------------------------------------------------------------------------

  /** What `build` of mdbuild.py produces for a page as written: the `Page`
      is made without `base_template`, so the template read from base.tpl
      is never applied and the output is the converted HTML. */
  function ConvertAsWritten(meta: Meta, parsed: string, docTemplate: string, docNav: string): (r: Result<Page>)
    ensures r.Err? <==> PageTitle(meta).Err?
    ensures r.Ok? ==> r.value.output == parsed
  {
    PostProcess(Page(meta, parsed, ""), "", docNav)
  }

  /** The conversion with the template passed on, as the loaded template
      and the `base_template` parameter are meant for. */
  function Convert(meta: Meta, parsed: string, docTemplate: string, docNav: string): (r: Result<Page>)
    ensures r.Err? <==> PageTitle(meta).Err?
  {
    PostProcess(Page(meta, parsed, ""), docTemplate, docNav)
  }

  /** As written, a template that differs from the converted HTML never
      reaches the output, where passing it on makes it the output. */
  lemma TemplateDropped(t: string, meta: Meta, parsed: string, docNav: string)
    requires t != "" && '%' !in t && 's' !in t && 'c' !in t && t != parsed
    requires PageTitle(meta).Ok?
    ensures ConvertAsWritten(meta, parsed, t, docNav) == Ok(Page(map[], parsed, parsed))
    ensures ConvertAsWritten(meta, parsed, t, docNav) != Convert(meta, parsed, t, docNav)
  {
    TemplateApplied(t, meta, parsed, docNav);
  }

  /** Passed on, such a template is the output. */
  lemma TemplateApplied(t: string, meta: Meta, parsed: string, docNav: string)
    requires t != "" && '%' !in t && 's' !in t && 'c' !in t
    requires PageTitle(meta).Ok?
    ensures Convert(meta, parsed, t, docNav) == Ok(Page(map[], parsed, t))
  {
    SubAllAbsent(t, Pairs(PageTitle(meta).value, parsed, docNav));
  }
}
