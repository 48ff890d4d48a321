# documentation_builder, modelled in Dafny

A model of the pure core of `ubuntudesign/documentation_builder`. It covers the
tool that turns a tree of Markdown pages into HTML pages. The model has six
parts:

- **Path algebra.** These are the `os.path` functions the builder relies on:
  `split('/')`, `join`, `basename`, `dirname`, `splitext`, `normpath` and
  `relpath`. The working directory that `relpath` reads is passed in as a
  parameter.
- **Metadata.** `relativize` re-expresses a location for another directory.
  `relativize_paths` applies it to every Markdown-looking string of a
  metadata tree. `matching_metadata` sorts and filters the trees.
  `_build_metadata` merges the trees that apply to a page, and the page
  context is built on top of the result.
- **Link rewriting.** `re.sub` is modelled for the patterns the builder uses:
  - the look-behind media pattern;
  - the `\b…\.md\b` internal-link pattern;
  - the greedy `href="….md` pattern;
  - the literal and wildcard token patterns.

  On top of these sit `replace_link_paths`, `replace_media_links`, the two
  `Builder` fix-ups and the fix-ups of `build_file`.
- **Build decisions.** This part covers:
  - which pages are skipped (uppercase names, ignored names, outputs that are
    strictly newer);
  - where a page's output goes, in `builder.py`, `parsers.py` and
    `mdbuild.py`;
  - when media is copied;
  - what `mergetree` does to a destination tree.
- **Templates.** `parse_template`'s token replacement by `str.replace`, and
  `mdbuild`'s `post_process`, which uses `re.sub`.
- **Notifications.** The `!!! type "title"` header of the Markdown
  notification extension: finding it, reading its type and title, removing it,
  and flattening the block's body.

Errors that the Python code raises are `Err` values of `Wrappers.Result`:
- `relpath` of an empty path raises `ValueError`;
- `mergetree` on a source that is not a directory raises `EnvironmentError`;
- a `title` list with no lines raises `IndexError`.

Every file the builder reads is passed in as a value. The output of a call is
returned as a value instead of being written.

The files follow the program's structure:

| file | module | models |
|---|---|---|
| `wrappers.dfy` | `Wrappers` | `Result`, `Option`, Python truthiness |
| `text.dfy` | `Text` | strip, `startswith`, `in`, `str.replace`, string ordering, ASCII case |
| `paths.dfy` | `Paths` | `posixpath` |
| `locations.dfy` | `Locations` | `relativize` |
| `metadata.dfy` | `Metadata` | `relativize_paths` and its test |
| `matching.dfy` | `Matching` | `sort_paths`, `matching_metadata` |
| `inheritance.dfy` | `Inheritance` | `_build_metadata`, `build_context`, the page context |
| `links.dfy` | `Links` | `re.sub` for the link patterns, `replace_link_paths`, `replace_media_links` and its test |
| `fixups.dfy` | `Fixups` | `_replace_media_links`, `_replace_internal_links`, the fix-ups of `build_file` |
| `decisions.dfy` | `Decisions` | skipping, output paths, media copying, `mergetree` |
| `templates.dfy` | `Templates` | `parse_template`, `post_process`, `Page.convert` |
| `notifications.dfy` | `Notifications` | `NotificationsProcessor.run` and `get_type_and_title` |

Source paths below are relative to the repository root. Package files are under
`ubuntudesign/documentation_builder/`.

## Model

| member | source | states |
|---|---|---|
| Paths.RelPath | ubuntudesign/documentation_builder/utilities.py:39-40 | `relpath` raises exactly when the path is empty. Otherwise, read from the start directory, the result leads to the path. It is "." exactly when both name the same directory. It is in normal form: leading ".." segments, then real names. Past its ".." segments it never climbs back into a directory it has just left, which together with the rest fixes the spelling. |
| Paths.RelSpellingUnique | ubuntudesign/documentation_builder/utilities.py:39-40 | Two facts fix the string: it is in normal form and leads to the target, and it never re-enters a directory it has left. Any such string is the one `relpath` computes. |
| Paths.RelPathUnique | ubuntudesign/documentation_builder/utilities.py:39-40 | `relpath` returns exactly the string that has these properties. |
| Paths.PathJoinResolves | ubuntudesign/documentation_builder/utilities.py:37 | `os.path.join(a, b)` with a relative `b` leads where `a` and then `b` lead. |
| Paths.SplitJoin | ubuntudesign/documentation_builder/utilities.py:37 | Joining segments with '/' and splitting on '/' gives the segments back. |
| Paths.JoinSplit | ubuntudesign/documentation_builder/utilities.py:37 | Splitting a string on '/' and joining with '/' gives the string back. |
| Paths.BaseName | ubuntudesign/documentation_builder/build.py:141 | `basename` is a slash-free suffix of the path that follows its last '/'. |
| Paths.DirNameIs | ubuntudesign/documentation_builder/builder.py:354 | `dirname` is the part of the path before its last '/': the base name and the slashes in front of it are removed. A trailing run of slashes is also removed unless the remaining prefix is all slashes, as with "/" or "//a". A path without '/' gives "". |
| Paths.SplitExt | ubuntudesign/documentation_builder/builder.py:283 | `splitext` splits the path into two parts that concatenate back to it. The extension is empty or one dot and what follows it, with no further dot and no '/'. It is non-empty exactly when the base name has a dot after a character other than a dot, so leading dots do not start an extension. |
| Paths.NormPathOfNames | ubuntudesign/documentation_builder/utilities.py:68-73 | The sort key of a relative directory made of real names is the directory itself. |
| Paths.NormPathTrailingSlash | ubuntudesign/documentation_builder/utilities.py:68-73 | A trailing slash does not change the sort key: "d" and "d/" sort together. |
| Text.ReplaceOnce | ubuntudesign/documentation_builder/build.py:176 | `str.replace` of a text holding one occurrence changes that occurrence only. |
| Text.ReplaceAbsent | ubuntudesign/documentation_builder/parsers.py:116-119 | `str.replace` leaves a text without the pattern unchanged. |
| Text.StripIdempotent | ubuntudesign/documentation_builder/operations.py:97-98 | Stripping '/' a second time changes nothing. |
| Locations.Relativize | ubuntudesign/documentation_builder/utilities.py:29-40 | `relativize` fails exactly when the location is all slashes. Otherwise the result, read from the new base, reaches the location's target. It is "." exactly when the target is the new base. It is in normal form and never climbs back into a directory it has just left. |
| Locations.RelativizeUnique | ubuntudesign/documentation_builder/utilities.py:29-40 | Any normal location that leads from the new base to the target without re-entering a directory is the result of `relativize`. |
| Locations.RootedIgnoresBase | ubuntudesign/documentation_builder/utilities.py:34-35 | A location starting with '/' does not depend on the original base. |
| Locations.RootedLocation | ubuntudesign/documentation_builder/utilities.py:34-35 | A rooted location loses only its trailing slashes, which changes neither where it leads nor whether it is empty. |
| Locations.RoundTrip | ubuntudesign/documentation_builder/builder.py:152-163 | Moving a location from base a to base b and back gives its normal form from a. |
| Locations.NormalIsFixed | ubuntudesign/documentation_builder/builder.py:152-163 | A normal location that climbs no higher than the base, and does not re-enter a directory it just left, is its own relativization to the same base. |
| Locations.ClimbingBackIsShortened | ubuntudesign/documentation_builder/utilities.py:29-40 | "../en/file.md" seen from "en" becomes "file.md": without the re-entry condition the fixed point fails. |
| Metadata.MatchMdLink | ubuntudesign/documentation_builder/operations.py:95 | The scan answers true exactly when `^[^ "']+.md(#\|\?\|$)` matches, with '.' as any character and `$` also before a final newline. |
| Metadata.RelativizePaths | ubuntudesign/documentation_builder/operations.py:89-121 | The result has the item's shape: same keys, same list lengths, same scalars. Every string that looks like a Markdown location is replaced by the one spelling that `relpath` gives for it from the new base. Every other string is kept. |
| Metadata.StripBasesIrrelevant | ubuntudesign/documentation_builder/operations.py:97-98 | Leading and trailing slashes of the two bases do not change the result. |
| Metadata.FishTitleIsNoLink | tests/test_operations.py:79 | "A page about fish.md" is not a location because it has spaces, so the test's title is kept. |
| Metadata.DotIsAnyChar | ubuntudesign/documentation_builder/operations.py:95 | The unescaped '.' makes "fishmd" count as a Markdown location. |
| Metadata.SiblingFromSubdir | tests/test_operations.py:106 | A file of base "en", seen from "en/nested", is "../file2.md". |
| Metadata.NestedClimbBack | tests/test_operations.py:110 | "../en/nested/file3.md" from "en" to "en/nested" is "file3.md". |
| Metadata.RootFileFromNested | tests/test_operations.py:130 | With an empty original base, "file2.md" seen from "en/nested" is "../../file2.md". |
| Metadata.RootedFromNested | tests/test_operations.py:101 | "/base/file1.md" seen from "en/nested" is "../../base/file1.md", whatever the original base. |
| Matching.Sort | ubuntudesign/documentation_builder/utilities.py:61-73 | `sorted(…, key=sort_paths)` returns a permutation of the items, ordered by normalised path. |
| Matching.SortStable | ubuntudesign/documentation_builder/utilities.py:61-63 | The sort is stable: items with equal keys keep their order. |
| Matching.KeepMembers | ubuntudesign/documentation_builder/utilities.py:64 | An item is kept exactly when it is one of the items and the context path, taken relative to the item's directory, contains no "..". |
| Matching.KeepAppend | ubuntudesign/documentation_builder/utilities.py:64 | The test keeps or drops each item on its own, so filtering a concatenation filters each part. |
| Matching.KeepWithKey | ubuntudesign/documentation_builder/utilities.py:64 | Filtering and selecting one sort key can be done in either order. |
| Matching.MatchingMetadata | ubuntudesign/documentation_builder/utilities.py:55-65 | It raises exactly when the context path is empty and there is an item to test. Otherwise the result is sorted. It holds exactly the items such that the context path, taken relative to the item's directory, contains no "..". For each sort key, the kept items are those passing the test, in their input order. |
| Matching.KeptIsAncestor | ubuntudesign/documentation_builder/utilities.py:64 | A kept tree's directory is an ancestor of the context directory, or the directory itself. |
| Matching.AncestorIsKept | ubuntudesign/documentation_builder/utilities.py:64 | An ancestor directory is kept when no segment between it and the context holds "..". |
| Matching.DottedNameExcluded | ubuntudesign/documentation_builder/utilities.py:64 | The substring test also drops an ancestor whose descendant's name contains "..", such as "a..b". |
| Inheritance.Inherit | ubuntudesign/documentation_builder/builder.py:353-368 | Updating an empty dict with every applying tree in order: a key is present exactly when some applying tree has it, and its value comes from the last applying tree that has it. |
| Inheritance.ForPageRewrites | ubuntudesign/documentation_builder/builder.py:360-365 | Each value of a tree is rewritten from the tree's directory to the page's directory. |
| Inheritance.ForPageKeys | ubuntudesign/documentation_builder/builder.py:360-365 | Relativizing a tree keeps its keys. |
| Inheritance.BuildMetadataAsWritten | ubuntudesign/documentation_builder/builder.py:346-368 | `_build_metadata` as written: a tree applies when the page's source directory starts with the tree's key. |
| Inheritance.SubdirMetadataIgnored | ubuntudesign/documentation_builder/builder.py:354-359 | With source root ".", a tree in "d" never applies to "./d/f", because "./d" does not start with "d". |
| Inheritance.BuildMetadata | ubuntudesign/documentation_builder/builder.py:346-368 | Corrected: a tree applies when its directory is an ancestor of the page's directory, relative to the source root. |
| Inheritance.SubdirMetadataInherited | ubuntudesign/documentation_builder/builder.py:355-366 | Corrected: the tree in "d" applies to "./d/f", and all of its keys reach the page. |
| Inheritance.OneTreeInherited | ubuntudesign/documentation_builder/builder.py:358-366 | One applying tree gives the page exactly that tree's keys. |
| Inheritance.Context | ubuntudesign/documentation_builder/build.py:197-206 | Page metadata overrides the global context. "content" is the page's HTML. Every other key comes from one of the two dicts. |
| Inheritance.PageMetadata | ubuntudesign/documentation_builder/builder.py:323-328 | Local metadata overrides the inherited metadata. "content" is the page's HTML. "site_root" is set only when the setting is truthy. |
| Links.ReplaceLinkPaths | ubuntudesign/documentation_builder/utilities.py:43-52 | An occurrence counts when `src=` or `href=` and a quote come before it and '/' follows it. Without one the HTML is unchanged. Otherwise the first one becomes the new path, the text before it is kept, and the rest is scanned the same way. |
| Links.AnchoredOnce | ubuntudesign/documentation_builder/utilities.py:48-52 | One anchored occurrence in a text with no other: only it is replaced. |
| Links.AnchorTextKept | ubuntudesign/documentation_builder/utilities.py:48 | A path after a space, as in anchor text, is not a link and is never replaced. |
| Links.ReplaceMediaLinks | ubuntudesign/documentation_builder/operations.py:10-29 | With no old path the HTML is returned unchanged. It raises exactly when there is an old path and the new path is empty. Relative paths are re-expressed against the context directory; absolute paths are kept. |
| Links.AgainstContext | ubuntudesign/documentation_builder/operations.py:22-25 | An absolute path is kept. A relative one becomes the spelling `relpath` gives for it from the context directory: normal, and never climbing back into a directory it has left. |
| Links.RelativeMediaLink | ubuntudesign/documentation_builder/operations.py:10-29 | From "en", a link into "../media" is moved to "../static". |
| Links.AbsoluteMediaLink | ubuntudesign/documentation_builder/operations.py:24-27 | An absolute new path such as "/static" replaces "../media" as it is. |
| Links.MediaLinksTestRelative | tests/test_operations.py:164-177 | The test page: only the link into "../media" moves, to "../static". The rooted link and the anchor text "some ../media" are kept. |
| Links.MediaLinksTestRooted | tests/test_operations.py:179-186 | The same page with "/static": only that link moves, to "/static". |
| Links.InternalLinkOnce | ubuntudesign/documentation_builder/builder.py:172 | One link "x.md" between non-link characters becomes "x" plus the extension. Nothing else changes. |
| Links.InternalRewritesHttp | ubuntudesign/documentation_builder/builder.py:172 | The internal-link pattern ignores the scheme, so "http….md" is rewritten too. |
| Links.HrefKeepsHttp | ubuntudesign/documentation_builder/build.py:181 | The `href` patterns leave a link starting with "http" alone. |
| Links.NoMdUnchanged | ubuntudesign/documentation_builder/builder.py:392-403 | A text without ".md" is untouched by every link pattern. |
| Links.GreedyRewritesLastOnly | ubuntudesign/documentation_builder/build.py:187 | As written: with two links on one line, the greedy `.*` rewrites only the last one. |
| Links.AttrRewritesBoth | ubuntudesign/documentation_builder/build.py:187 | Corrected: a group kept inside the attribute rewrites both links. |
| Links.WildIsReplace | ubuntudesign/documentation_builder/mdbuild.py:159 | `re.sub` with a pattern that has no '.' is `str.replace`. |
| Links.WildCreatesNo | ubuntudesign/documentation_builder/mdbuild.py:159 | `re.sub` with a wildcard pattern adds no occurrence of a string whose overlaps with the replacement all clash. |
| Fixups.OriginalMedia | ubuntudesign/documentation_builder/builder.py:417-420 | The searched path is the spelling `relpath` gives for the source media directory, read from the page's source directory. |
| Fixups.MediaUrl | ubuntudesign/documentation_builder/builder.py:421-425 | A truthy `media_url` is used as it is. Otherwise the URL is the spelling `relpath` gives for the output media directory, read from the output page's directory. |
| Fixups.BuilderMediaLinks | ubuntudesign/documentation_builder/builder.py:407-432 | It raises exactly when a media setting is empty. Without a quote-anchored occurrence the content is unchanged. Otherwise every quote-anchored occurrence becomes the media URL. |
| Fixups.BuilderMediaFirst | ubuntudesign/documentation_builder/builder.py:426-430 | The first anchored occurrence becomes the URL, and the text before it is copied. |
| Fixups.BuilderMediaOnce | ubuntudesign/documentation_builder/builder.py:426-430 | A page with one anchored media link gets the URL there and nothing else. |
| Fixups.BuilderInternalLinks | ubuntudesign/documentation_builder/builder.py:370-405 | It raises exactly when a media setting is empty, since the unused relpaths run first. Otherwise ".md" links get ".html", or nothing with `no_link_extensions`. |
| Fixups.BuilderLinkOnce | ubuntudesign/documentation_builder/builder.py:392-403 | One page link "x.md" becomes "x.html", or "x" with `no_link_extensions`. |
| Fixups.BuilderNoMdKept | ubuntudesign/documentation_builder/builder.py:392-403 | Content without ".md" is kept. |
| Fixups.BuilderFixups | ubuntudesign/documentation_builder/builder.py:332-342 | Media links are fixed first, then internal links. It fails exactly when a media setting is empty. |
| Fixups.StickyMediaUrl | ubuntudesign/documentation_builder/build.py:168-170 | A truthy `media_url` is kept. Otherwise the URL leads from the output directory to the output media path. |
| Fixups.UrlKept | ubuntudesign/documentation_builder/build.py:168-170 | Once set, `media_url` is the same for every later page. |
| Fixups.MediaUrlSticks | ubuntudesign/documentation_builder/build.py:168-170 | Every page of a run gets the URL computed for the first page. |
| Fixups.BuildPageWith | ubuntudesign/documentation_builder/build.py:167-190 | It fails exactly when no URL can be computed or the source media path is empty. Otherwise the stale media path is replaced by the sticky URL everywhere, and then links are rewritten. |
| Fixups.BuildPageAsWritten | ubuntudesign/documentation_builder/build.py:167-190 | `build_file` as written fails exactly when no URL can be computed or the source media path is empty. Otherwise it keeps the sticky URL for the next page, replaces the stale media path by it everywhere, and then rewrites links with the greedy `(href="(?! *http).*)\.md`. |
| Fixups.BuildPage | ubuntudesign/documentation_builder/build.py:167-190 | Corrected: the same failures, URL and media replacement, but links are rewritten with `(href="(?! *http)[^"]*)\.md`, whose group stays inside one attribute value. |
| Fixups.MediaReplacedInText | ubuntudesign/documentation_builder/build.py:176 | A single stale media path becomes the URL. |
| Fixups.BuildPageRewritesLastOnly | ubuntudesign/documentation_builder/build.py:179-190 | As written: of two page links on one line, only the second gets the extension. |
| Fixups.BuildPageRewritesBoth | ubuntudesign/documentation_builder/build.py:179-190 | Corrected: both links get the extension. |
| Decisions.UppercaseName | ubuntudesign/documentation_builder/builder.py:282-290 | A page is skipped exactly when its name, without directory and extension, is uppercase. |
| Decisions.UpperIgnoresNonWord | ubuntudesign/documentation_builder/builder.py:284-286 | Dropping the non-word characters does not change whether a name counts as uppercase. |
| Decisions.UppercasePage | ubuntudesign/documentation_builder/builder.py:282-290 | "d/n.md" is skipped exactly when n is uppercase. |
| Decisions.ReadmeSkipped | ubuntudesign/documentation_builder/builder.py:286 | README.md is skipped. |
| Decisions.IndexBuilt | ubuntudesign/documentation_builder/builder.py:286 | index.md is not skipped. |
| Decisions.FilesToBuildMembers | ubuntudesign/documentation_builder/build.py:137-144 | A found file is built exactly when its base name is not on the ignore list. |
| Decisions.FilesToBuildAppend | ubuntudesign/documentation_builder/build.py:137-144 | Filtering two lists of files is filtering each one. |
| Decisions.NothingIgnored | ubuntudesign/documentation_builder/build.py:141 | An empty ignore list builds every file, in order. |
| Decisions.OutputLocation | ubuntudesign/documentation_builder/builder.py:293-298 | It fails exactly when the page path is empty. Otherwise the output location leads to the page's place under the output root. That place mirrors the page's place under the source root. |
| Decisions.OutputPath | ubuntudesign/documentation_builder/build.py:152-155 | The output path is that location with a final ".md" swapped for ".html". |
| Decisions.OutputPathOfPage | ubuntudesign/documentation_builder/builder.py:293-299 | "s/d/n.md" with source root "s" goes to "o/d/n.html". |
| Decisions.MdBeforeFinalNewline | ubuntudesign/documentation_builder/builder.py:295-297 | `\.md$` also matches before a final newline. |
| Decisions.BuildFileAction | ubuntudesign/documentation_builder/builder.py:276-306 | Uppercase names are skipped first. A page is then skipped exactly when its output exists and is strictly newer. Otherwise it is built into its output path. |
| Decisions.EqualMtimesRebuild | ubuntudesign/documentation_builder/builder.py:302-306 | An output with the page's own mtime is rebuilt. |
| Decisions.GetOutFile | ubuntudesign/documentation_builder/mdbuild.py:36-39 | The output's base name is the page's stem plus ".html". |
| Decisions.GetOutFilePlace | ubuntudesign/documentation_builder/mdbuild.py:36-39 | The file is placed directly in `outpath`: read from the working directory, its place is the place of `outpath` followed by the page's stem plus ".html". |
| Decisions.DirectoriesDropped | ubuntudesign/documentation_builder/mdbuild.py:36-39 | The page's directory plays no part in its output path. |
| Decisions.IsMarkdownFile | ubuntudesign/documentation_builder/mdbuild.py:92 | A file counts as Markdown exactly when it ends in ".md" and its base name has a character other than '.' before that. |
| Decisions.HiddenMdSkipped | ubuntudesign/documentation_builder/mdbuild.py:72 | A file named ".md" is not taken for a page. |
| Decisions.SourceNameRepeatedIsLost | ubuntudesign/documentation_builder/parsers.py:97-98 | As written: "s/d/s.md" with source "s" is written to "o/d/.html". |
| Decisions.ParsersOutputOfPage | ubuntudesign/documentation_builder/parsers.py:97-98 | Corrected: "s/d/n.md" goes to "o/d/n.html" whatever n is. |
| Decisions.CopyMedia | ubuntudesign/documentation_builder/operations.py:124-136 | It raises exactly when the media path is empty or the media directory is missing and differs from the output. The second error is `EnvironmentError`. Otherwise it reports true, meaning copied, exactly when the two directories differ. |
| Decisions.MediaCopied | ubuntudesign/documentation_builder/builder.py:250-274 | Media is merged exactly when the source is a directory and the two paths name different places. |
| Decisions.SameMediaNotCopied | ubuntudesign/documentation_builder/build.py:117-122 | "m" and "./m", or "m/" and "m", name the same place, so nothing is copied. |
| Decisions.Copy2 | ubuntudesign/documentation_builder/utilities.py:26 | The copied file keeps the source's mtime. Onto a directory it lands inside, and it fails exactly when a sub-directory of that name is in the way. |
| Decisions.Merge | ubuntudesign/documentation_builder/utilities.py:7-26 | It raises when the source is not a directory. Afterwards the destination has its old entries plus the source's, and entries the source lacks are untouched. |
| Decisions.MergeItem | ubuntudesign/documentation_builder/utilities.py:19-26 | A file is copied exactly when the destination is missing or more than one second older. |
| Decisions.MergeCopiesIff | ubuntudesign/documentation_builder/utilities.py:22-26 | A file entry ends up as the copy exactly when the copy test holds. Otherwise the old entry stays. |
| Decisions.MergeIdempotent | ubuntudesign/documentation_builder/utilities.py:7-26 | Merging again into the merged tree changes nothing. |
| Templates.ParseTemplate | ubuntudesign/documentation_builder/parsers.py:60-74 | No `src="media/` or `src="./media/` is left in the page. |
| Templates.ParseTemplateSteps | ubuntudesign/documentation_builder/parsers.py:63-72 | The six replacements are applied in their listed order. |
| Templates.ParseTemplateUntouched | ubuntudesign/documentation_builder/parsers.py:60-74 | A template with none of the six patterns is returned as it is. |
| Templates.CodeClassPrefixed | ubuntudesign/documentation_builder/parsers.py:69 | `code class="` becomes `code class="language-`. |
| Templates.ParsersMedia | ubuntudesign/documentation_builder/parsers.py:99-119 | It raises exactly when a media path is empty. Otherwise the two relpath spellings are computed: the media path from the page's directory and the destination from the output page's directory. Every occurrence of the first in the page is replaced by the second. |
| Templates.ParsersMediaReplacesAll | ubuntudesign/documentation_builder/parsers.py:116-119 | A page without the source-relative media path is kept. When the two paths cannot overlap, no source-relative path is left. |
| Templates.ParsersMediaOnce | ubuntudesign/documentation_builder/parsers.py:99-119 | One occurrence of the source-relative media path becomes the path that leads from the output directory to the media destination. |
| Templates.PageTitle | ubuntudesign/documentation_builder/mdbuild.py:140-144 | The title is the first "title" line, or "Juju Documentation" when there is none. An empty list of title lines raises. |
| Templates.PostProcess | ubuntudesign/documentation_builder/mdbuild.py:136-163 | It fails exactly when the title does. Afterwards the parser's metadata is reset. Without a template the output is the parsed HTML. With one, the output is the template after the six `re.sub` substitutions. |
| Templates.PostProcessSteps | ubuntudesign/documentation_builder/mdbuild.py:150-159 | The six patterns are substituted in their listed order. |
| Templates.PostProcessNoMediaLeft | ubuntudesign/documentation_builder/mdbuild.py:150-159 | With a template, no `src="media/` is left in the output, whatever the title, HTML and navigation put there. |
| Templates.SubAllAbsent | ubuntudesign/documentation_builder/mdbuild.py:158-159 | A template that lacks the first character of every pattern is unchanged. |
| Templates.WildcardMedia | ubuntudesign/documentation_builder/mdbuild.py:150-159 | `re.sub` reads the '.' of `./media/` as any character, so `src="x/media/` becomes `src="../media/`; `str.replace` keeps it. |
| Templates.ConvertAsWritten | ubuntudesign/documentation_builder/mdbuild.py:96-98 | As written: the page is made without a template, so its output is always the parsed HTML. |
| Templates.TemplateDropped | ubuntudesign/documentation_builder/mdbuild.py:96-98 | As written: a template of plain text is ignored, unlike in the corrected conversion. |
| Templates.TemplateApplied | ubuntudesign/documentation_builder/mdbuild.py:146-159 | Corrected: the base template becomes the page. |
| Notifications.TypeRunEnd | ubuntudesign/documentation_builder/extensions.py:77 | `[\w\-]*` takes the longest run of type characters. |
| Notifications.ClosingQuote | ubuntudesign/documentation_builder/extensions.py:77 | `"(.*?)"` stops at the first quote, and it never crosses a line. |
| Notifications.HeaderAt | ubuntudesign/documentation_builder/extensions.py:77 | A header found starts with "!!!". It has a non-empty type of word characters and '-', and a title without a quote or a newline. |
| Notifications.SearchFrom | ubuntudesign/documentation_builder/extensions.py:94 | `search` finds the first position where a header matches, and only that one. |
| Notifications.HeaderRoundTrip | ubuntudesign/documentation_builder/extensions.py:94-97 | The line `!!! type "title"` is found at the start of a block with its type and title, and removing it leaves the rest of the block. |
| Notifications.TypeAndTitle | ubuntudesign/documentation_builder/extensions.py:149-161 | The type is lower-cased. A missing title becomes the capitalised type, an empty title becomes none, and any other title is kept. |
| Notifications.TypeIsLowerCase | ubuntudesign/documentation_builder/extensions.py:150-155 | The type has no uppercase letter. The default title is its first letter in upper case followed by the rest in lower case. |
| Notifications.TypeClass | ubuntudesign/documentation_builder/extensions.py:117-129 | The four known types map to their classes. |
| Notifications.TypeClassDefault | ubuntudesign/documentation_builder/extensions.py:126-129 | Every class starts with "p-notification". A type gets the bare default exactly when it is not one of the four. |
| Notifications.RemoveHeader | ubuntudesign/documentation_builder/extensions.py:96-97 | A block without a header is kept. Otherwise what remains is the block after the character that follows the header, or nothing when the header ends the block. |
| Notifications.Flatten | ubuntudesign/documentation_builder/extensions.py:100 | The body has no newline or carriage return and no surrounding white space. It is a slice of the block after each newline becomes a space and each carriage return is dropped, with only white space cut from either end. |
| Notifications.FlattenKeepsText | ubuntudesign/documentation_builder/extensions.py:100 | A block without carriage returns that starts and ends with visible text keeps its length. Each newline becomes a space and every other character stays in place. |
| Notifications.FlattenIdempotent | ubuntudesign/documentation_builder/extensions.py:100 | Flattening twice is flattening once. |
| Notifications.FlattenJoinsLines | ubuntudesign/documentation_builder/extensions.py:100 | Two lines joined by "\r\n" become the two joined by a single space. |
| Notifications.Run | ubuntudesign/documentation_builder/extensions.py:91-135 | A notice is produced exactly when the block has a header. Its body is flat and its class starts with "p-notification". |
| Notifications.RunFound | ubuntudesign/documentation_builder/extensions.py:94-133 | The notice has the type's class, the title from `get_type_and_title`, and the flattened unindented rest of the block. |
| Notifications.RunUntitled | ubuntudesign/documentation_builder/extensions.py:151-155 | `!!! type` gives the capitalised type as the title. |
| Notifications.RunBlankTitle | ubuntudesign/documentation_builder/extensions.py:156-160 | `!!! type ""` gives no title. |

## Left out

- File-system effects are left out: reading and writing files, `makedirs`,
  `glob` and `os.walk` order, `copytree`, symlinks and temporary directories.
  Also left out are git cloning, `cache_dir`, printing, `quiet`, `sys.exit`,
  the command line and `setup.py`. Files and directory listings are values,
  and mtimes are integers.
- `parse_markdown` and `parse_file` are left out, because they call a
  Markdown library. So are front matter and YAML parsing, Jinja rendering and
  the BeautifulSoup table of contents. The model takes the parsed HTML and the
  parsed metadata as inputs.
- Notifications.Run: `detab` is the Markdown library's method, so it is passed
  in as a function. The markup the notice is rendered into, and the
  continuation branch that appends to a previous notification, are not
  modelled.
- operations.py:7 imports `replace_links`, which utilities.py does not define.
  `replace_media_links` is modelled as calling `replace_link_paths`, which is
  what its test expects.
- In the look-behind patterns only '.' is escaped. A path holding another
  regular-expression metacharacter is treated as literal text.
- Backslash escapes in a replacement string are not processed. Replacements
  are inserted literally.
- `\w`, `\b`, `isupper`, `lower`, `capitalize` and `strip()` are modelled for
  ASCII characters only.
- Python's `None` for a string setting is `Option.None`. `media_url` is
  "unset" exactly when it is not truthy.
- The `mergetree` of parsers.py copies sub-directories with `copytree`, which
  fails when the destination exists. Only the `mergetree` of utilities.py is
  modelled.
- Decisions.Merge: when `makedirs` or `copy2` fails partway through, the
  items merged before the error stay in the destination. The model returns
  only the error and does not describe that partial tree.
- Templates.ParsersMediaReplacesAll: no source-relative path is left only
  when the two paths cannot overlap. Otherwise the replacement can itself
  hold the replaced path, and no such promise is made.
- Templates.PostProcessNoMediaLeft: only `src="media/` is shown gone. The
  wildcard form `src="./media/` is not shown gone from the output.
- Inheritance: `deepcopy` in `_build_metadata` and `build_context` protects
  the stored trees from mutation. A pure model has nothing to protect.
- Metadata: dictionaries with keys that are not strings, and YAML values
  other than strings, lists, mappings and scalars, are not modelled.
- Inheritance.BuildMetadataAsWritten: a metadata file whose top level is not
  a mapping is not modelled. An empty file loads as `None`, and
  `relativize_paths` returns such a value unchanged, so `metadata.update`
  raises `TypeError` or `ValueError`. Every tree is typed as a mapping, so
  the model has no such error.
- Locations.NormalIsFixed: the fixed point holds only for locations that do
  not climb above the base and then re-enter it. Locations.ClimbingBackIsShortened
  shows the case it excludes.
- Templates.CodeClassPrefixed: stated for one occurrence of `code class="` in
  a template with no other pattern, not for every template.
- Templates.Convert: its contract states only when it fails.
  Templates.TemplateApplied states its output for a plain template.
- Paths.NormPath: only the two properties the sort key needs are stated. It is
  not characterised in full.
- The third call of the `relativize_paths` test (bases "/fr/" and "/en/") and
  the climbing location of its second call are not stated as lemmas.
  Metadata.StripBasesIrrelevant covers the slashes around the bases.

## Findings

| source | as written | input that shows it | evidently intended | confidence | as-written member | corrected member |
|---|---|---|---|---|---|---|
| ubuntudesign/documentation_builder/builder.py:359 | A tree applies when `source_dirpath.startswith(metadata_tree_path)`. The directory includes the source root, but the tree's key does not. | source root ".", a metadata tree in "d", page "./d/f": "./d" does not start with "d", so the tree is ignored | a tree applies to pages in its directory and below | not executed | Inheritance.SubdirMetadataIgnored | Inheritance.SubdirMetadataInherited |
| ubuntudesign/documentation_builder/build.py:187 | `(href="(?! *http).*)\.md` is greedy and crosses attributes. | `href="a.md" href="b.md"` becomes `href="a.md" href="b.html"` | every page link gets the extension | not executed | Links.GreedyRewritesLastOnly | Links.AttrRewritesBoth |
| ubuntudesign/documentation_builder/parsers.py:97 | `filepath.replace(source_path, '')` deletes every occurrence of the source path, not only the leading one. | source "s", page "s/d/s.md" is written to "o/d/.html" | only the leading source directory is removed | not executed | Decisions.SourceNameRepeatedIsLost | Decisions.ParsersOutputOfPage |
| ubuntudesign/documentation_builder/mdbuild.py:96 | `Page` is created without `base_template`, so `post_process` never applies the template read into `doc_template`. | any page with a non-empty base.tpl: the output is the bare parsed HTML | the page is rendered into the base template | not executed | Templates.TemplateDropped | Templates.TemplateApplied |
