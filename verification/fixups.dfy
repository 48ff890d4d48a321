/**
 The fix-ups run on a rendered page before it is written: the media and
 internal-link rewrites of builder.py's `Builder`, and the cruder ones of
 build.py's `Builder.build_file`.
 */
module Fixups {
  import opened Wrappers
  import opened Text
  import opened Paths
  import opened Locations
  import opened Links

  /** What replaces ".md" in a link to a page. */
  function LinkExt(noLinkExtensions: bool): string {
    if noLinkExtensions then "" else ".html"
  }

  // ---------------------------------------------------------------------------
  // builder.py
  // ---------------------------------------------------------------------------

  /** What the fix-ups of builder.py's `Builder` read from it. An unset
      `media_url` is `None`. */
  datatype Settings = Settings(
    sourceMediaPath: string,
    outputMediaPath: string,
    mediaUrl: Option<string>,
    noLinkExtensions: bool)

  /** The quotes of `(?<=['"])`. */
  const QuotePrefixes: seq<string> := ["'", "\""]

  /** The source media directory as seen from the page's source
      directory: the path `_replace_media_links` looks for. */
  function OriginalMedia(st: Settings, sourceFile: string, cwd: CleanPath): (r: string)
    requires st.sourceMediaPath != ""
    ensures r != ""
    ensures RelSpelling(r, AbsSegs(DirName(sourceFile), cwd), AbsSegs(st.sourceMediaPath, cwd))
  {
    var original := RelPath(st.sourceMediaPath, DirName(sourceFile), cwd).value;
    NormalRelNotAbs(original);
    original
  }

  /** `self.media_url or new_media_path`: the configured URL when it is set
      and not empty, else the output media directory as seen from the
      page's output directory. */
  function MediaUrl(st: Settings, outputFile: string, cwd: CleanPath): (r: string)
    requires st.outputMediaPath != ""
    ensures Truthy(st.mediaUrl) ==> r == st.mediaUrl.value
    ensures !Truthy(st.mediaUrl) ==>
      r != "" && RelSpelling(r, AbsSegs(DirName(outputFile), cwd), AbsSegs(st.outputMediaPath, cwd))
  {
    var moved := RelPath(st.outputMediaPath, DirName(outputFile), cwd).value;
    NormalRelNotAbs(moved);
    if Truthy(st.mediaUrl) then st.mediaUrl.value else moved
  }

  /** Both builder fix-ups first compute both relative media paths, which
      raises on an empty setting. */
  predicate MediaPathsRaise(st: Settings) {
    st.sourceMediaPath == "" || st.outputMediaPath == ""
  }

  /** `_replace_media_links`: the source media path, as seen from the
      page's source directory, becomes the media URL wherever a quote comes
      right before it and '/' right after it. */
  function BuilderMediaLinks(st: Settings, content: string, sourceFile: string, outputFile: string, cwd: CleanPath)
    : (r: Result<string>)
    ensures r.Err? <==> MediaPathsRaise(st)
    ensures r.Ok? ==>
      var original := OriginalMedia(st, sourceFile, cwd);
      NoAnchoredBefore(content, |content|, QuotePrefixes, original) ==> r.value == content
    ensures r.Ok? ==>
      r.value == Sub(Anchored(QuotePrefixes, OriginalMedia(st, sourceFile, cwd), MediaUrl(st, outputFile, cwd)), content, 0)
  {
    if MediaPathsRaise(st) then Err(ValueError)
    else
      var original, url := OriginalMedia(st, sourceFile, cwd), MediaUrl(st, outputFile, cwd);
      AnchoredFacts(QuotePrefixes, original, url, content);
      Ok(Sub(Anchored(QuotePrefixes, original, url), content, 0))
  }

  /** Leftmost: the first quoted occurrence of the source media path
      becomes the media URL, the text before it is kept, and the rewrite
      goes on after it. */
  lemma BuilderMediaFirst(st: Settings, content: string, sourceFile: string, outputFile: string, cwd: CleanPath,
                          original: string, url: string, m: nat)
    requires !MediaPathsRaise(st)
    requires original == OriginalMedia(st, sourceFile, cwd) && url == MediaUrl(st, outputFile, cwd)
    requires NoAnchoredBefore(content, m, QuotePrefixes, original) && AnchoredAt(content, m, QuotePrefixes, original)
    ensures BuilderMediaLinks(st, content, sourceFile, outputFile, cwd)
      == Ok(content[..m] + url + Sub(Anchored(QuotePrefixes, original, url), content, m + |original|))
  {
    AnchoredFirst(QuotePrefixes, original, url, content, m);
  }

  /** A page with one quoted occurrence of the source media path: that
      occurrence, and nothing else, becomes the media URL. */
  lemma BuilderMediaOnce(st: Settings, sourceFile: string, outputFile: string, cwd: CleanPath,
                         a: string, b: string, q: string)
    requires !MediaPathsRaise(st)
    requires var original := OriginalMedia(st, sourceFile, cwd);
      original[0] !in a && !Contains(b, original)
    requires q in QuotePrefixes && EndsWith(a, q) && b != [] && b[0] == '/'
    ensures var original, url := OriginalMedia(st, sourceFile, cwd), MediaUrl(st, outputFile, cwd);
      BuilderMediaLinks(st, a + original + b, sourceFile, outputFile, cwd) == Ok(a + url + b)
  {
    var original, url := OriginalMedia(st, sourceFile, cwd), MediaUrl(st, outputFile, cwd);
    AnchoredOnce(QuotePrefixes, original, url, a, b, q);
  }

  /** `_replace_internal_links`: every `\b([^ "']+)\.md\b` becomes its group
      followed by ".html", or by nothing with `no_link_extensions`. It
      computes the same relative media paths first and never uses them,
      but they still raise on empty settings. */
  function BuilderInternalLinks(st: Settings, content: string, sourceFile: string, outputFile: string, cwd: CleanPath)
    : (r: Result<string>)
    ensures r.Err? <==> MediaPathsRaise(st)
    ensures r.Ok? ==> r.value == Sub(InternalLink(LinkExt(st.noLinkExtensions)), content, 0)
  {
    if MediaPathsRaise(st) then Err(ValueError)
    else Ok(Sub(InternalLink(LinkExt(st.noLinkExtensions)), content, 0))
  }

  /** A page without ".md" keeps its links. */
  lemma BuilderNoMdKept(st: Settings, content: string, sourceFile: string, outputFile: string, cwd: CleanPath)
    requires !MediaPathsRaise(st)
    requires !Contains(content, ".md")
    ensures BuilderInternalLinks(st, content, sourceFile, outputFile, cwd) == Ok(content)
  {
    NoMdUnchanged(InternalLink(LinkExt(st.noLinkExtensions)), content);
  }

  /** One link to a page: its ".md" becomes ".html", or goes with
      `no_link_extensions`. */
  lemma BuilderLinkOnce(st: Settings, sourceFile: string, outputFile: string, cwd: CleanPath,
                        a: string, x: string, b: string)
    requires !MediaPathsRaise(st)
    requires LinkTarget(x) && '.' !in a && (a == [] || !LinkChar(a[|a| - 1]))
    requires (b == [] || !LinkChar(b[0])) && !Contains(b, ".md")
    ensures BuilderInternalLinks(st, a + x + ".md" + b, sourceFile, outputFile, cwd)
      == Ok(a + x + (if st.noLinkExtensions then "" else ".html") + b)
  {
    InternalLinkOnce(LinkExt(st.noLinkExtensions), a, x, b);
  }

  /** The fix-ups of `_build_html`: media links first, then internal links. */
  function BuilderFixups(st: Settings, content: string, sourceFile: string, outputFile: string, cwd: CleanPath)
    : (r: Result<string>)
    ensures r.Err? <==> MediaPathsRaise(st)
    ensures r.Ok? ==>
      r.value == Sub(InternalLink(LinkExt(st.noLinkExtensions)),
                     BuilderMediaLinks(st, content, sourceFile, outputFile, cwd).value, 0)
  {
    var media :- BuilderMediaLinks(st, content, sourceFile, outputFile, cwd);
    BuilderInternalLinks(st, media, sourceFile, outputFile, cwd)
  }

  // ---------------------------------------------------------------------------
  // build.py
  // ---------------------------------------------------------------------------

  /** build.py's media URL for a page: the configured or earlier decided
      one when set, else the output media directory as seen from the
      page's output directory. */
  function StickyMediaUrl(mediaUrl: Option<string>, outputMediaPath: string, outputFile: string, cwd: CleanPath)
    : (r: Result<string>)
    ensures Truthy(mediaUrl) ==> r == Ok(mediaUrl.value)
    ensures r.Err? <==> !Truthy(mediaUrl) && outputMediaPath == ""
    ensures r.Ok? ==> r.value != ""
    ensures !Truthy(mediaUrl) && r.Ok? ==>
      RelSpelling(r.value, AbsSegs(DirName(outputFile), cwd), AbsSegs(outputMediaPath, cwd))
  {
    if Truthy(mediaUrl) then Ok(mediaUrl.value)
    else
      var url :- RelPath(outputMediaPath, DirName(outputFile), cwd);
      NormalRelNotAbs(url);
      Ok(url)
  }

  /** The media URLs the pages `outputFiles` are built with, in order: the
      first page decides the URL and `self.media_url` keeps it. */
  function MediaUrls(mediaUrl: Option<string>, outputMediaPath: string, outputFiles: seq<string>, cwd: CleanPath)
    : (r: Result<seq<string>>)
    ensures r.Ok? ==> |r.value| == |outputFiles|
    decreases |outputFiles|
  {
    if outputFiles == [] then Ok([])
    else
      var url :- StickyMediaUrl(mediaUrl, outputMediaPath, outputFiles[0], cwd);
      var rest :- MediaUrls(Some(url), outputMediaPath, outputFiles[1..], cwd);
      Ok([url] + rest)
  }

  /** `n` copies of `x`. */
  function Repeat(x: string, n: nat): (r: seq<string>)
    ensures |r| == n && forall i :: 0 <= i < n ==> r[i] == x
  {
    if n == 0 then [] else [x] + Repeat(x, n - 1)
  }

  /** A URL once set is used for every page. */
  lemma {:induction false} UrlKept(url: string, outputMediaPath: string, outputFiles: seq<string>, cwd: CleanPath)
    requires url != ""
    ensures MediaUrls(Some(url), outputMediaPath, outputFiles, cwd) == Ok(Repeat(url, |outputFiles|))
    decreases |outputFiles|
  {
    if outputFiles != [] {
      UrlKept(url, outputMediaPath, outputFiles[1..], cwd);
    }
  }

  /** Every page after the first is built with the first page's media
      URL; the URL fails only when it is unset and the output media path is
      empty. */
  lemma MediaUrlSticks(mediaUrl: Option<string>, outputMediaPath: string, outputFiles: seq<string>, cwd: CleanPath)
    requires outputFiles != []
    ensures var r := MediaUrls(mediaUrl, outputMediaPath, outputFiles, cwd);
      (r.Err? <==> !Truthy(mediaUrl) && outputMediaPath == "") &&
      (r.Ok? ==> r.value[0] == StickyMediaUrl(mediaUrl, outputMediaPath, outputFiles[0], cwd).value &&
                 forall i :: 0 <= i < |r.value| ==> r.value[i] == r.value[0])
  {
    var first := StickyMediaUrl(mediaUrl, outputMediaPath, outputFiles[0], cwd);
    var r := MediaUrls(mediaUrl, outputMediaPath, outputFiles, cwd);
    if first.Ok? {
      var url := first.value;
      UrlKept(url, outputMediaPath, outputFiles[1..], cwd);
      var rest := Repeat(url, |outputFiles| - 1);
      assert r == Ok([url] + rest);
      assert forall i :: 0 <= i < |r.value| ==> r.value[i] == url by {
        forall i | 0 <= i < |r.value| ensures r.value[i] == url {
          if i > 0 { assert r.value[i] == rest[i - 1]; }
        }
      }
    } else {
      assert r.Err?;
    }
  }

  /** What build.py's `Builder` reads when fixing up a page. */
  datatype BuildSettings = BuildSettings(
    sourceMediaPath: string,
    outputMediaPath: string,
    noLinkExtensions: bool)

  /** The fix-ups of `build_file` with the link rule `links`. The media path
      as seen from the page's source directory is replaced everywhere, then
      links are rewritten; the result holds the page and the media URL kept
      for the next page. */
  function BuildPageWith(links: Rule, bs: BuildSettings, mediaUrl: Option<string>, html: string,
                         sourceFile: string, outputFile: string, cwd: CleanPath)
    : (r: Result<(string, string)>)
    requires links.HrefLink? || links.HrefAttr?
    ensures r.Err? <==> (!Truthy(mediaUrl) && bs.outputMediaPath == "") || bs.sourceMediaPath == ""
    ensures r.Ok? ==> r.value.1 == StickyMediaUrl(mediaUrl, bs.outputMediaPath, outputFile, cwd).value
    ensures r.Ok? ==>
      var stale := RelPath(bs.sourceMediaPath, DirName(sourceFile), cwd).value;
      stale != "" && r.value.0 == Sub(links, Replace(html, stale, r.value.1), 0)
  {
    var url :- StickyMediaUrl(mediaUrl, bs.outputMediaPath, outputFile, cwd);
    var stale :- RelPath(bs.sourceMediaPath, DirName(sourceFile), cwd);
    NormalRelNotAbs(stale);
    Ok((Sub(links, Replace(html, stale, url), 0), url))
  }

  /** `build_file` as written: `(href="(?! *http).*)\.md`. */
  function BuildPageAsWritten(bs: BuildSettings, mediaUrl: Option<string>, html: string,
                              sourceFile: string, outputFile: string, cwd: CleanPath)
    : (r: Result<(string, string)>)
    ensures r.Err? <==> (!Truthy(mediaUrl) && bs.outputMediaPath == "") || bs.sourceMediaPath == ""
    ensures r.Ok? ==> r.value.1 == StickyMediaUrl(mediaUrl, bs.outputMediaPath, outputFile, cwd).value
    ensures r.Ok? ==>
      var stale := RelPath(bs.sourceMediaPath, DirName(sourceFile), cwd).value;
      r.value.0 == Sub(HrefLink(LinkExt(bs.noLinkExtensions)), Replace(html, stale, r.value.1), 0)
  {
    BuildPageWith(HrefLink(LinkExt(bs.noLinkExtensions)), bs, mediaUrl, html, sourceFile, outputFile, cwd)
  }

  /** `build_file` with the link's group kept inside its attribute value:
      `(href="(?! *http)[^"]*)\.md`. */
  function BuildPage(bs: BuildSettings, mediaUrl: Option<string>, html: string,
                     sourceFile: string, outputFile: string, cwd: CleanPath)
    : (r: Result<(string, string)>)
    ensures r.Err? <==> (!Truthy(mediaUrl) && bs.outputMediaPath == "") || bs.sourceMediaPath == ""
    ensures r.Ok? ==> r.value.1 == StickyMediaUrl(mediaUrl, bs.outputMediaPath, outputFile, cwd).value
    ensures r.Ok? ==>
      var stale := RelPath(bs.sourceMediaPath, DirName(sourceFile), cwd).value;
      r.value.0 == Sub(HrefAttr(LinkExt(bs.noLinkExtensions)), Replace(html, stale, r.value.1), 0)
  {
    BuildPageWith(HrefAttr(LinkExt(bs.noLinkExtensions)), bs, mediaUrl, html, sourceFile, outputFile, cwd)
  }

  /** The media path is replaced as plain text, outside attributes too:
      the anchor text "some ../media" is rewritten, which
      `replace_media_links` leaves alone. */
  lemma MediaReplacedInText(a: string, stale: string, b: string, url: string)
    requires stale != [] && stale[0] !in a && !Contains(b, stale)
    ensures Replace(a + stale + b, stale, url) == a + url + b
  {
    ReplaceOnce(a, stale, b, url);
  }

  /** A page with two links on one line and no media path: as written,
      only the second link is rewritten. */
  lemma BuildPageRewritesLastOnly(bs: BuildSettings, mediaUrl: Option<string>, x: string, y: string,
                                  sourceFile: string, outputFile: string, cwd: CleanPath)
    requires PlainTarget(x) && PlainTarget(y)
    requires bs.sourceMediaPath != "" && (Truthy(mediaUrl) || bs.outputMediaPath != "")
    requires !Contains(TwoLinks(x, y), RelPath(bs.sourceMediaPath, DirName(sourceFile), cwd).value)
    ensures var r := BuildPageAsWritten(bs, mediaUrl, TwoLinks(x, y), sourceFile, outputFile, cwd);
      r.Ok? && r.value.0 == "href=\"" + x + ".md\" href=\"" + y + LinkExt(bs.noLinkExtensions) + "\""
  {
    var r := BuildPageAsWritten(bs, mediaUrl, TwoLinks(x, y), sourceFile, outputFile, cwd);
    var stale := RelPath(bs.sourceMediaPath, DirName(sourceFile), cwd).value;
    ReplaceAbsent(TwoLinks(x, y), stale, r.value.1);
    GreedyRewritesLastOnly(x, y, LinkExt(bs.noLinkExtensions));
  }

  /** The same page with the group kept inside the attribute: both links
      are rewritten. */
  lemma BuildPageRewritesBoth(bs: BuildSettings, mediaUrl: Option<string>, x: string, y: string,
                              sourceFile: string, outputFile: string, cwd: CleanPath)
    requires PlainTarget(x) && PlainTarget(y)
    requires bs.sourceMediaPath != "" && (Truthy(mediaUrl) || bs.outputMediaPath != "")
    requires !Contains(TwoLinks(x, y), RelPath(bs.sourceMediaPath, DirName(sourceFile), cwd).value)
    ensures var r := BuildPage(bs, mediaUrl, TwoLinks(x, y), sourceFile, outputFile, cwd);
      var ext := LinkExt(bs.noLinkExtensions);
      r.Ok? && r.value.0 == "href=\"" + x + ext + "\" href=\"" + y + ext + "\""
  {
    var r := BuildPage(bs, mediaUrl, TwoLinks(x, y), sourceFile, outputFile, cwd);
    var stale := RelPath(bs.sourceMediaPath, DirName(sourceFile), cwd).value;
    ReplaceAbsent(TwoLinks(x, y), stale, r.value.1);
    AttrRewritesBoth(x, y, LinkExt(bs.noLinkExtensions));
  }
}
