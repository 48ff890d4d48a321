/**
 The notifications block processor of extensions.py. A block whose header
 line is `!!! Type` or `!!! Type "Title"` becomes a notification: the type,
 lower-cased, picks the CSS class; a missing title becomes the capitalised
 type and an empty one means no status line; the rest of the block,
 flattened to one line, is the body.
 */
module Notifications {
  import opened Wrappers
  import opened Text

  // ---------------------------------------------------------------------------
  // The header: (?:^|\n)!!!\ ?([\w\-]+)(?:\ "(.*?)")?
  // ---------------------------------------------------------------------------

  /** A character of the class `[\w\-]`. */
  predicate IsTypeChar(c: char) {
    IsWordChar(c) || c == '-'
  }

  /** Where the greedy run `[\w\-]*` starting at `i` ends. */
  function TypeRunEnd(s: string, i: nat): (e: nat)
    requires i <= |s|
    ensures i <= e <= |s|
    ensures forall k :: i <= k < e ==> IsTypeChar(s[k])
    ensures e == |s| || !IsTypeChar(s[e])
    decreases |s| - i
  {
    if i < |s| && IsTypeChar(s[i]) then TypeRunEnd(s, i + 1) else i
  }

  /** Where the lazy `(.*?)"` starting at `j` ends: the first '"' with no
      newline before it, if there is one. */
  function ClosingQuote(s: string, j: nat): (r: Option<nat>)
    requires j <= |s|
    ensures r.Some? ==> j <= r.value < |s| && s[r.value] == '"'
    ensures r.Some? ==> forall k :: j <= k < r.value ==> s[k] != '"' && s[k] != '\n'
    ensures r.None? ==> forall k :: j <= k < |s| && s[k] == '"' ==> exists m :: j <= m < k && s[m] == '\n'
    decreases |s| - j
  {
    if j == |s| || s[j] == '\n' then None
    else if s[j] == '"' then Some(j)
    else ClosingQuote(s, j + 1)
  }

  /** A matched header: the type as written (group 1), the title (group 2,
      `None` when the optional group did not take part) and where the match
      ends. */
  datatype Header = Header(kind: string, title: Option<string>, end: nat)

  /** The header pattern after its anchor, tried at `h`. An optional space
      is taken when present; giving it back never helps, since a space is
      not a type character. */
  function HeaderAt(s: string, h: nat): (r: Option<Header>)
    requires h <= |s|
    ensures r.Some? ==> OccursAt(s, "!!!", h)
    ensures r.Some? ==> r.value.kind != [] && forall k :: 0 <= k < |r.value.kind| ==> IsTypeChar(r.value.kind[k])
    ensures r.Some? ==> h + 3 + |r.value.kind| <= r.value.end <= |s|
    ensures r.Some? && r.value.title.Some? ==> '"' !in r.value.title.value && '\n' !in r.value.title.value
  {
    if !OccursAt(s, "!!!", h) then None
    else
      var b := if h + 3 < |s| && s[h + 3] == ' ' then h + 4 else h + 3;
      var g := TypeRunEnd(s, b);
      if g == b then None
      else
        var kind := s[b..g];
        if g + 1 < |s| && s[g] == ' ' && s[g + 1] == '"' then
          match ClosingQuote(s, g + 2)
          case Some(q) =>
            var title := s[g + 2..q];
            assert forall k :: 0 <= k < |title| ==> title[k] == s[g + 2 + k];
            Some(Header(kind, Some(title), q + 1))
          case None => Some(Header(kind, None, g))
        else Some(Header(kind, None, g))
  }

  /** A match starting at `p`: `^` at the very start, or a newline with the
      header right after it, tried in that order. */
  function StartAt(s: string, p: nat): (r: Option<Header>)
    requires p <= |s|
    ensures r.Some? ==> 3 <= |s| && r.value.end <= |s|
  {
    var anchored := if p == 0 then HeaderAt(s, 0) else None;
    if anchored.Some? then anchored
    else if p < |s| && s[p] == '\n' then HeaderAt(s, p + 1)
    else None
  }

  /** `line_match.search(block)` from `p` on: the leftmost place a match
      starts, with the match. */
  function SearchFrom(s: string, p: nat): (r: Option<(nat, Header)>)
    requires p <= |s|
    ensures r.Some? ==> p <= r.value.0 <= |s| && StartAt(s, r.value.0) == Some(r.value.1)
    ensures r.Some? ==> forall q :: p <= q < r.value.0 ==> StartAt(s, q).None?
    ensures r.None? ==> forall q :: p <= q <= |s| ==> StartAt(s, q).None?
    decreases |s| - p
  {
    var here := StartAt(s, p);
    if here.Some? then Some((p, here.value))
    else if p == |s| then None
    else
      var r := SearchFrom(s, p + 1);
      assert r.Some? ==> forall q :: p <= q < r.value.0 ==> StartAt(s, q).None? by {
        if r.Some? {
          forall q | p <= q < r.value.0 ensures StartAt(s, q).None? {
            if q == p { assert StartAt(s, q) == here; }
          }
        }
      }
      r
  }

  function Search(s: string): Option<(nat, Header)> {
    SearchFrom(s, 0)
  }

  // ---------------------------------------------------------------------------
  // get_type_and_title and the class lookup
  // ---------------------------------------------------------------------------

  /** `get_type_and_title`: the type is lower-cased; a missing title becomes
      the capitalised type, an empty one becomes `None`, and any other is
      kept as written. */
  function TypeAndTitle(h: Header): (r: (string, Option<string>))
    ensures r.0 == Lower(h.kind)
    ensures h.title.None? ==> r.1 == Some(Capitalize(r.0))
    ensures h.title == Some("") ==> r.1.None?
    ensures h.title.Some? && h.title.value != "" ==> r.1 == h.title
  {
    var kind := Lower(h.kind);
    var title :=
      if h.title.None? then Some(Capitalize(kind))
      else if h.title.value == "" then None
      else h.title;
    (kind, title)
  }

  /** The type carries no upper-case letter, and with no title given the
      status line is the type with its first letter upper-cased. */
  lemma TypeIsLowerCase(h: Header)
    ensures forall k :: 0 <= k < |TypeAndTitle(h).0| ==> !IsUpperChar(TypeAndTitle(h).0[k])
    ensures h.title.None? && h.kind != [] ==>
      (TypeAndTitle(h).1.value[0] == ToUpperChar(ToLowerChar(h.kind[0])) &&
       TypeAndTitle(h).1.value[1..] == Lower(h.kind)[1..])
  {
    var kind := TypeAndTitle(h).0;
    if h.title.None? && h.kind != [] {
      var t := TypeAndTitle(h).1.value;
      assert |t| == |kind|;
      assert forall k :: 1 <= k < |kind| ==> t[k] == ToLowerChar(kind[k]) == kind[k];
      assert t[1..] == kind[1..];
    }
  }

  const DefaultClass := "p-notification"

  /** The `type_classes` lookup with its default. */
  function TypeClass(kind: string): (r: string)
    ensures kind == "warning" ==> r == "p-notification--caution"
    ensures kind == "positive" ==> r == "p-notification--positive"
    ensures kind == "negative" ==> r == "p-notification--negative"
    ensures kind == "information" ==> r == "p-notification--information"
  {
    match kind
    case "warning" => "p-notification--caution"
    case "positive" => "p-notification--positive"
    case "negative" => "p-notification--negative"
    case "information" => "p-notification--information"
    case _ => DefaultClass
  }

  /** Every class is a vanilla notification class, and the plain one is
      chosen exactly for the types the table does not list. */
  lemma TypeClassDefault(kind: string)
    ensures StartsWith(TypeClass(kind), DefaultClass)
    ensures TypeClass(kind) == DefaultClass <==> kind !in {"warning", "positive", "negative", "information"}
  {
    var r := TypeClass(kind);
    if r != DefaultClass {
      assert r[..|DefaultClass|] == DefaultClass;
      assert r[|DefaultClass|..|DefaultClass| + 2] == "--";
    }
  }

  // ---------------------------------------------------------------------------
  // The block
  // ---------------------------------------------------------------------------

  /** `block[match.end() + 1:]` when the header matches (the character after
      the match, normally the newline ending the header line, goes too);
      otherwise the block as it is. */
  function RemoveHeader(block: string): (r: string)
    ensures Search(block).None? ==> r == block
    ensures Search(block).Some? ==> |r| < |block| && r == block[|block| - |r|..]
    ensures Search(block).Some? ==>
      var e := Search(block).value.1.end;
      r == if e + 1 <= |block| then block[e + 1..] else []
  {
    match Search(block)
    case None => block
    case Some((p, h)) =>
      assert StartAt(block, p) == Some(h);
      if h.end + 1 <= |block| then block[h.end + 1..] else []
  }

  lemma ContainsChar(s: string, c: char)
    ensures Contains(s, [c]) <==> c in s
  {
    if Contains(s, [c]) {
      var i :| 0 <= i <= |s| - 1 && OccursAt(s, [c], i);
      assert s[i] == s[i..i + 1][0];
    }
    if c in s {
      var i :| 0 <= i < |s| && s[i] == c;
      assert s[i..i + 1] == [c];
      assert OccursAt(s, [c], i);
    }
  }

  /** `block.replace('\n', ' ').replace('\r', '').strip()`: one line, with
      no carriage return and no whitespace at either end. */
  function Flatten(block: string): (r: string)
    ensures '\n' !in r && '\r' !in r
    ensures r == [] || (!IsSpaceChar(r[0]) && !IsSpaceChar(r[|r| - 1]))
    ensures var u := Unbroken(block);
      exists i, j :: 0 <= i <= j <= |u| && r == u[i..j] &&
        (forall k :: 0 <= k < i ==> IsSpaceChar(u[k])) &&
        (forall k :: j <= k < |u| ==> IsSpaceChar(u[k]))
  {
    var a := Replace(block, "\n", " ");
    var b := Replace(a, "\r", "");
    NoBreaks(block);
    UnbrokenIsReplace(block);
    StripSpaceOfSame(b, Unbroken(block));
    StripSpace(b)
  }

  lemma StripSpaceOfSame(b: string, u: string)
    requires b == u
    ensures exists i, j :: (0 <= i <= j <= |u| && StripSpace(b) == u[i..j] &&
      (forall k :: 0 <= k < i ==> IsSpaceChar(u[k])) &&
      (forall k :: j <= k < |u| ==> IsSpaceChar(u[k])))
  {
    var r := StripSpace(b);
    var i, j :| 0 <= i <= j <= |b| && r == b[i..j] &&
      (forall k :: 0 <= k < i ==> IsSpaceChar(b[k])) &&
      (forall k :: j <= k < |b| ==> IsSpaceChar(b[k]));
  }

  /** The body with every line break read as a space and every carriage
      return dropped. */
  function Unbroken(s: string): string {
    if s == [] then []
    else (if s[0] == '\n' then " " else if s[0] == '\r' then "" else [s[0]]) + Unbroken(s[1..])
  }

  lemma {:induction false} UnbrokenIsReplace(s: string)
    ensures Replace(Replace(s, "\n", " "), "\r", "") == Unbroken(s)
    decreases |s|
  {
    if s != [] {
      var h := if s[0] == '\n' then " " else [s[0]];
      ReplaceCharStep(s, '\n', " ");
      ReplaceCharAppend(h, Replace(s[1..], "\n", " "), '\r', "");
      ReplaceCharStep(h, '\r', "");
      assert h[1..] == [];
      UnbrokenIsReplace(s[1..]);
    }
  }

  /** Without carriage returns, every character is kept in place, a line
      break becoming a space. */
  lemma {:induction false} UnbrokenInPlace(s: string)
    requires '\r' !in s
    ensures |Unbroken(s)| == |s|
    ensures forall k :: 0 <= k < |s| ==> Unbroken(s)[k] == if s[k] == '\n' then ' ' else s[k]
    decreases |s|
  {
    if s != [] {
      UnbrokenInPlace(s[1..]);
    }
  }

  /** A body without carriage returns and without white space at either
      end keeps all of its text, each line break becoming a space. */
  lemma FlattenKeepsText(block: string)
    requires '\r' !in block
    requires block == [] || (!IsSpaceChar(block[0]) && !IsSpaceChar(block[|block| - 1]))
    ensures |Flatten(block)| == |block|
    ensures forall k :: 0 <= k < |block| ==> Flatten(block)[k] == if block[k] == '\n' then ' ' else block[k]
  {
    var u := Unbroken(block);
    UnbrokenInPlace(block);
    UnbrokenIsReplace(block);
    StripSpaceStripped(u);
  }

  lemma NoBreaks(block: string)
    ensures var b := Replace(Replace(block, "\n", " "), "\r", "");
      '\n' !in b && '\r' !in b
  {
    var a := Replace(block, "\n", " ");
    var b := Replace(a, "\r", "");
    assert " "[0..] == " " && " "[0] != "\n"[0];
    ReplaceCreatesNo(block, "\n", " ", "\n");
    ContainsChar(a, '\n');
    ReplaceCreatesNo(a, "\r", "", "\n");
    ReplaceCreatesNo(a, "\r", "", "\r");
    ContainsChar(b, '\n');
    ContainsChar(b, '\r');
  }

  /** The text without whitespace at either end is its own `strip()`. */
  lemma StripSpaceStripped(s: string)
    requires s == [] || (!IsSpaceChar(s[0]) && !IsSpaceChar(s[|s| - 1]))
    ensures StripSpace(s) == s
  {
  }

  /** Flattening a flattened body changes nothing. */
  lemma FlattenIdempotent(block: string)
    ensures Flatten(Flatten(block)) == Flatten(block)
  {
    var f := Flatten(block);
    ContainsChar(f, '\n');
    ContainsChar(f, '\r');
    ReplaceAbsent(f, "\n", " ");
    ReplaceAbsent(f, "\r", "");
    StripSpaceStripped(f);
  }

  /** Two lines joined by a Windows line break become one, with a single
      space between them. */
  lemma FlattenJoinsLines(a: string, b: string)
    requires a != [] && b != []
    requires forall k :: 0 <= k < |a| ==> !IsSpaceChar(a[k])
    requires forall k :: 0 <= k < |b| ==> !IsSpaceChar(b[k])
    ensures Flatten(a + "\r\n" + b) == a + " " + b
  {
    assert '\n' !in a + "\r" && '\r' !in a && '\r' !in " " + b;
    ContainsChar(b, '\n');
    ReplaceOnce(a + "\r", "\n", b, " ");
    assert a + "\r\n" + b == (a + "\r") + "\n" + b;
    assert (a + "\r") + " " + b == a + "\r" + (" " + b);
    ContainsChar(" " + b, '\r');
    ReplaceOnce(a, "\r", " " + b, "");
    assert a + "" + (" " + b) == a + " " + b;
    var r := a + " " + b;
    assert r[0] == a[0] && r[|r| - 1] == b[|b| - 1];
    StripSpaceStripped(r);
  }

  // ---------------------------------------------------------------------------
  // NotificationsProcessor.run, for a block that opens a notification
  // ---------------------------------------------------------------------------

  /** What the markup is rendered from: the CSS class, the status title
      (`None`: no status line) and the body. */
  datatype Notice = Notice(cssClass: string, title: Option<string>, body: string)

  /** The notification a block opens, if it has a header. `detab` is the
      markdown library's `BlockProcessor.detab` (the indented part of the
      block, unindented), which is passed in. */
  function Run(block: string, detab: string -> string): (r: Option<Notice>)
    ensures r.None? <==> Search(block).None?
    ensures r.Some? ==> '\n' !in r.value.body && '\r' !in r.value.body
    ensures r.Some? ==> StartsWith(r.value.cssClass, DefaultClass)
  {
    match Search(block)
    case None => None
    case Some((_, h)) =>
      var (kind, title) := TypeAndTitle(h);
      TypeClassDefault(kind);
      Some(Notice(TypeClass(kind), title, Flatten(detab(RemoveHeader(block)))))
  }

  // ---------------------------------------------------------------------------
  // Header lines
  // ---------------------------------------------------------------------------

  predicate IsType(kind: string) {
    kind != [] && forall k :: 0 <= k < |kind| ==> IsTypeChar(kind[k])
  }

  /** A title the header can carry: no quote and no newline. */
  predicate IsTitle(title: Option<string>) {
    title.Some? ==> '"' !in title.value && '\n' !in title.value
  }

  /** The header line `!!! type` or `!!! type "title"`, newline included. */
  function HeaderLine(kind: string, title: Option<string>): string {
    "!!! " + kind + (if title.Some? then " \"" + title.value + "\"" else "") + "\n"
  }

  /** A block that starts with a header line: the header is found at the
      start, with its type and title as written, and removing it leaves the
      rest of the block. */
  lemma {:induction false} HeaderRoundTrip(kind: string, title: Option<string>, rest: string)
    requires IsType(kind) && IsTitle(title)
    ensures var line := HeaderLine(kind, title);
      Search(line + rest) == Some((0, Header(kind, title, |line| - 1))) &&
      RemoveHeader(line + rest) == rest
  {
    var line := HeaderLine(kind, title);
    var s := line + rest;
    var h := Header(kind, title, |line| - 1);
    HeaderLineAt(kind, title, rest);
    assert StartAt(s, 0) == Some(h);
    assert Search(s) == Some((0, h));
    assert s[|line|..] == rest;
  }

  /** The header line at the start of a block is matched as written. */
  lemma HeaderLineAt(kind: string, title: Option<string>, rest: string)
    requires IsType(kind) && IsTitle(title)
    ensures var line := HeaderLine(kind, title);
      HeaderAt(line + rest, 0) == Some(Header(kind, title, |line| - 1))
  {
    if title.Some? {
      TitledLineAt(kind, title.value, rest);
    } else {
      UntitledLineAt(kind, rest);
    }
  }

  lemma TitledLineAt(kind: string, t: string, rest: string)
    requires IsType(kind) && '"' !in t && '\n' !in t
    ensures var line := HeaderLine(kind, Some(t));
      |line| == 8 + |kind| + |t| && HeaderAt(line + rest, 0) == Some(Header(kind, Some(t), |line| - 1))
  {
    var line := HeaderLine(kind, Some(t));
    var s := line + rest;
    var g := 4 + |kind|;
    assert s[..4] == "!!! " && s[4..g] == kind by {
      assert s[..g] == line[..g];
    }
    assert s[g] == ' ' && s[g + 1] == '"' && s[g + 2..g + 2 + |t|] == t && s[g + 2 + |t|] == '"' by {
      assert s[..g + 3 + |t|] == line[..g + 3 + |t|];
      assert line[g..g + 3 + |t|] == " \"" + t + "\"";
    }
    TitledHeaderAt(s, kind, t);
  }

  lemma UntitledLineAt(kind: string, rest: string)
    requires IsType(kind)
    ensures var line := HeaderLine(kind, None);
      |line| == 5 + |kind| && HeaderAt(line + rest, 0) == Some(Header(kind, None, |line| - 1))
  {
    var line := HeaderLine(kind, None);
    var s := line + rest;
    var g := 4 + |kind|;
    assert s[..4] == "!!! " && s[4..g] == kind by {
      assert s[..g] == line[..g];
    }
    assert s[g] == '\n' by { assert line[g] == '\n'; }
    UntitledHeaderAt(s, kind);
  }

  lemma UntitledHeaderAt(s: string, kind: string)
    requires IsType(kind)
    requires |s| > 4 + |kind| && s[..4] == "!!! " && s[4..4 + |kind|] == kind && s[4 + |kind|] == '\n'
    ensures HeaderAt(s, 0) == Some(Header(kind, None, 4 + |kind|))
  {
    assert OccursAt(s, "!!!", 0) by { assert s[0..3] == s[..4][..3]; }
    assert s[3] == s[..4][3];
    KindRun(s, 4, kind);
  }

  lemma TitledHeaderAt(s: string, kind: string, title: string)
    requires IsType(kind) && '"' !in title && '\n' !in title
    requires |s| > 7 + |kind| + |title| && s[..4] == "!!! " && s[4..4 + |kind|] == kind
    requires s[4 + |kind|] == ' ' && s[5 + |kind|] == '"'
    requires s[6 + |kind|..6 + |kind| + |title|] == title && s[6 + |kind| + |title|] == '"'
    ensures HeaderAt(s, 0) == Some(Header(kind, Some(title), 7 + |kind| + |title|))
  {
    assert OccursAt(s, "!!!", 0) by { assert s[0..3] == s[..4][..3]; }
    assert s[3] == s[..4][3];
    var g := 4 + |kind|;
    assert TypeRunEnd(s, 4) == g by { KindRun(s, 4, kind); }
    TitleRun(s, g + 2, title);
  }

  /** The greedy run from `b` is exactly `kind` when a non-type character
      follows it. */
  lemma KindRun(s: string, b: nat, kind: string)
    requires IsType(kind) && b + |kind| < |s| && s[b..b + |kind|] == kind && !IsTypeChar(s[b + |kind|])
    ensures TypeRunEnd(s, b) == b + |kind|
    decreases |kind|
  {
    assert s[b] == kind[0];
    if |kind| > 1 {
      assert s[b + 1..b + 1 + |kind[1..]|] == kind[1..];
      KindRun(s, b + 1, kind[1..]);
    }
  }

  /** The lazy title group from `j` stops at the first quote. */
  lemma TitleRun(s: string, j: nat, title: string)
    requires j + |title| < |s| && s[j..j + |title|] == title && s[j + |title|] == '"'
    requires '"' !in title && '\n' !in title
    ensures ClosingQuote(s, j) == Some(j + |title|)
    decreases |title|
  {
    if title != [] {
      assert s[j] == title[0];
      assert s[j + 1..j + 1 + |title[1..]|] == title[1..];
      TitleRun(s, j + 1, title[1..]);
    }
  }

  /** What `run` makes of a block whose header was found. */
  lemma RunFound(block: string, p: nat, h: Header, detab: string -> string)
    requires Search(block) == Some((p, h))
    ensures Run(block, detab)
      == Some(Notice(TypeClass(Lower(h.kind)), TypeAndTitle(h).1, Flatten(detab(RemoveHeader(block)))))
  {
  }

  /** `!!! Type` opens a notification whose status is the capitalised
      type, whose class comes from the lower-cased type, and whose body is
      the rest of the block. */
  lemma RunUntitled(kind: string, rest: string, detab: string -> string)
    requires IsType(kind)
    ensures Run(HeaderLine(kind, None) + rest, detab)
      == Some(Notice(TypeClass(Lower(kind)), Some(Capitalize(Lower(kind))), Flatten(detab(rest))))
  {
    var s := HeaderLine(kind, None) + rest;
    HeaderRoundTrip(kind, None, rest);
    RunFound(s, 0, Header(kind, None, |HeaderLine(kind, None)| - 1), detab);
  }

  /** `!!! Type ""` opens a notification without a status line. */
  lemma RunBlankTitle(kind: string, rest: string, detab: string -> string)
    requires IsType(kind)
    ensures Run(HeaderLine(kind, Some("")) + rest, detab)
      == Some(Notice(TypeClass(Lower(kind)), None, Flatten(detab(rest))))
  {
    var s := HeaderLine(kind, Some("")) + rest;
    HeaderRoundTrip(kind, Some(""), rest);
    RunFound(s, 0, Header(kind, Some(""), |HeaderLine(kind, Some(""))| - 1), detab);
  }
}
