/**
 Python string operations the builder relies on, over `string` (= `seq<char>`).
 Character classes follow Python under the ASCII assumption: `\w` is
 `[A-Za-z0-9_]`, and only ASCII letters are cased.
 */
module Text {

  // ---------------------------------------------------------------------------
  // Character classes
  // ---------------------------------------------------------------------------

  predicate IsUpperChar(c: char) { 'A' <= c <= 'Z' }

  predicate IsLowerChar(c: char) { 'a' <= c <= 'z' }

  predicate IsDigitChar(c: char) { '0' <= c <= '9' }

  /** Python's `\w` (ASCII). */
  predicate IsWordChar(c: char) {
    IsUpperChar(c) || IsLowerChar(c) || IsDigitChar(c) || c == '_'
  }

  /** A character of the class `[^ "']`: not a space or a quote. */
  predicate LinkChar(c: char) {
    c != ' ' && c != '"' && c != '\''
  }

  /** Python's `str.isspace` restricted to ASCII: tab, newline, vertical tab,
      form feed, carriage return, the four separators 0x1c-0x1f, and space. */
  predicate IsSpaceChar(c: char) {
    (9 <= c as int <= 13) || (28 <= c as int <= 31) || c == ' '
  }

  function ToLowerChar(c: char): (r: char)
    ensures !IsUpperChar(r)
    ensures IsUpperChar(c) ==> IsLowerChar(r) && r as int == c as int + 32
    ensures !IsUpperChar(c) ==> r == c
  {
    if IsUpperChar(c) then (c as int + 32) as char else c
  }

  function ToUpperChar(c: char): (r: char)
    ensures !IsLowerChar(r)
    ensures IsLowerChar(c) ==> IsUpperChar(r) && r as int + 32 == c as int
    ensures !IsLowerChar(c) ==> r == c
  {
    if IsLowerChar(c) then (c as int - 32) as char else c
  }

  /** `str.lower()` */
  function Lower(s: string): (r: string)
    ensures |r| == |s|
    ensures forall i :: 0 <= i < |s| ==> r[i] == ToLowerChar(s[i])
  {
    if s == [] then [] else [ToLowerChar(s[0])] + Lower(s[1..])
  }

  /** `str.capitalize()`: first character upper case, the rest lower case. */
  function Capitalize(s: string): (r: string)
    ensures |r| == |s|
    ensures |s| > 0 ==> r[0] == ToUpperChar(s[0])
    ensures forall i :: 1 <= i < |s| ==> r[i] == ToLowerChar(s[i])
  {
    if s == [] then [] else [ToUpperChar(s[0])] + Lower(s[1..])
  }

  /** `str.isupper()`: at least one cased character and no lower-case one. */
  predicate IsUpperString(s: string) {
    (exists i :: 0 <= i < |s| && IsUpperChar(s[i])) &&
    (forall i :: 0 <= i < |s| ==> !IsLowerChar(s[i]))
  }

  // ---------------------------------------------------------------------------
  // Prefixes, suffixes and occurrences
  // ---------------------------------------------------------------------------

  predicate StartsWith(s: string, p: string) {
    |p| <= |s| && s[..|p|] == p
  }

  predicate EndsWith(s: string, p: string) {
    |p| <= |s| && s[|s| - |p|..] == p
  }

  /** `p` occurs in `s` starting at index `i`. */
  predicate OccursAt(s: string, p: string, i: int) {
    0 <= i && i + |p| <= |s| && s[i..i + |p|] == p
  }

  /** Python's `p in s`. */
  predicate Contains(s: string, p: string) {
    exists i :: 0 <= i <= |s| - |p| && OccursAt(s, p, i)
  }

  // ---------------------------------------------------------------------------
  // Stripping
  // ---------------------------------------------------------------------------

  predicate AllChar(s: string, c: char) {
    forall i :: 0 <= i < |s| ==> s[i] == c
  }

  /** `s.lstrip(c)` for a single character `c`. */
  function LStripChar(s: string, c: char): (r: string)
    ensures |r| <= |s| && r == s[|s| - |r|..]
    ensures AllChar(s[..|s| - |r|], c)
    ensures r == [] || r[0] != c
  {
    if s != [] && s[0] == c then LStripChar(s[1..], c) else s
  }

  /** `s.rstrip(c)` for a single character `c`. */
  function RStripChar(s: string, c: char): (r: string)
    ensures |r| <= |s| && r == s[..|r|]
    ensures AllChar(s[|r|..], c)
    ensures r == [] || r[|r| - 1] != c
  {
    if s != [] && s[|s| - 1] == c then
      var r := RStripChar(s[..|s| - 1], c);
      RStripStep(s, c, r);
      r
    else s
  }

  /** Stripping one more `c` from the end keeps `r` a prefix followed only
      by `c`s. */
  lemma RStripStep(s: string, c: char, r: string)
    requires s != [] && s[|s| - 1] == c
    requires |r| <= |s| - 1 && r == s[..|s| - 1][..|r|] && AllChar(s[..|s| - 1][|r|..], c)
    ensures r == s[..|r|] && AllChar(s[|r|..], c)
  {
    assert s[..|s| - 1][..|r|] == s[..|r|];
    assert s[|r|..] == s[..|s| - 1][|r|..] + [c];
  }

  /** `s.strip(c)` for a single character `c`. */
  function StripChar(s: string, c: char): string {
    RStripChar(LStripChar(s, c), c)
  }

  /** Stripping twice strips nothing more. */
  lemma StripIdempotent(s: string, c: char)
    ensures StripChar(StripChar(s, c), c) == StripChar(s, c)
  {
    var l := LStripChar(s, c);
    var t := RStripChar(l, c);
    if t != [] {
      assert t[0] == l[0];
      assert LStripChar(t, c) == t;
    }
  }

  function LStripSpace(s: string): (r: string)
    ensures |r| <= |s| && r == s[|s| - |r|..]
    ensures forall i :: 0 <= i < |s| - |r| ==> IsSpaceChar(s[i])
    ensures r == [] || !IsSpaceChar(r[0])
  {
    if s != [] && IsSpaceChar(s[0]) then LStripSpace(s[1..]) else s
  }

  function RStripSpace(s: string): (r: string)
    ensures |r| <= |s| && r == s[..|r|]
    ensures forall i :: |r| <= i < |s| ==> IsSpaceChar(s[i])
    ensures r == [] || !IsSpaceChar(r[|r| - 1])
  {
    if s != [] && IsSpaceChar(s[|s| - 1]) then RStripSpace(s[..|s| - 1]) else s
  }

  /** `str.strip()` with no argument: the largest slice of `s` that neither
      starts nor ends with whitespace, everything cut off being whitespace. */
  function StripSpace(s: string): (r: string)
    ensures exists i, j :: (0 <= i <= j <= |s| && r == s[i..j] &&
      (forall k :: 0 <= k < i ==> IsSpaceChar(s[k])) &&
      (forall k :: j <= k < |s| ==> IsSpaceChar(s[k])))
    ensures r == [] || (!IsSpaceChar(r[0]) && !IsSpaceChar(r[|r| - 1]))
  {
    var l := LStripSpace(s);
    var r := RStripSpace(l);
    assert r == s[|s| - |l|..|s| - |l| + |r|];
    r
  }

  // ---------------------------------------------------------------------------
  // str.replace
  // ---------------------------------------------------------------------------

  /** Python's `s.replace(pat, rep)`: every leftmost, non-overlapping
      occurrence of `pat` is replaced; an empty `pat` inserts `rep` before
      every character and at the end. */
  function Replace(s: string, pat: string, rep: string): string
    decreases |s|
  {
    if pat == [] then
      (if s == [] then rep else rep + [s[0]] + Replace(s[1..], pat, rep))
    else if |s| < |pat| then s
    else if s[..|pat|] == pat then rep + Replace(s[|pat|..], pat, rep)
    else [s[0]] + Replace(s[1..], pat, rep)
  }

  /** `str.replace` of a single character works one character at a time. */
  lemma ReplaceCharStep(s: string, c: char, rep: string)
    requires s != []
    ensures Replace(s, [c], rep) == (if s[0] == c then rep else [s[0]]) + Replace(s[1..], [c], rep)
  {
    assert s[..1] == [s[0]];
  }

  /** ... so it distributes over concatenation. */
  lemma {:induction false} ReplaceCharAppend(x: string, y: string, c: char, rep: string)
    ensures Replace(x + y, [c], rep) == Replace(x, [c], rep) + Replace(y, [c], rep)
    decreases |x|
  {
    if x == [] {
      assert x + y == y;
    } else {
      assert (x + y)[0] == x[0] && (x + y)[1..] == x[1..] + y;
      ReplaceCharStep(x + y, c, rep);
      ReplaceCharStep(x, c, rep);
      ReplaceCharAppend(x[1..], y, c, rep);
    }
  }

  /** A text with one occurrence of `p`, whose first character does not
      come before it: only that occurrence is replaced. */
  lemma ReplaceOnce(a: string, p: string, b: string, r: string)
    requires p != [] && p[0] !in a && !Contains(b, p)
    ensures Replace(a + p + b, p, r) == a + r + b
  {
    var s := a + p + b;
    forall i | 0 <= i < |a| ensures !OccursAt(s, p, i) {
      assert s[i] == a[i] && a[i] in a;
      if i + |p| <= |s| {
        assert s[i..i + |p|][0] == s[i];
      }
    }
    ReplaceKeepsPrefix(s, p, r, |a|);
    assert s[..|a|] == a && s[|a|..] == p + b;
    ReplaceAtStart(p + b, p, r);
    assert (p + b)[|p|..] == b;
    ReplaceAbsent(b, p, r);
  }

  /** A text without a (non-empty) `pat` is left unchanged by `Replace`. */
  lemma {:induction false} ReplaceAbsent(s: string, pat: string, rep: string)
    requires pat != []
    requires !Contains(s, pat)
    ensures Replace(s, pat, rep) == s
    decreases |s|
  {
    if |s| < |pat| {
    } else {
      assert OccursAt(s, pat, 0) == (s[..|pat|] == pat);
      assert s[..|pat|] != pat;
      forall i | OccursAt(s[1..], pat, i)
        ensures false
      {
        assert s[1..][i..i + |pat|] == s[i + 1..i + 1 + |pat|];
        assert OccursAt(s, pat, i + 1);
      }
      ReplaceAbsent(s[1..], pat, rep);
    }
  }

  /** `a` and `b` disagree at some index both of them have. */
  predicate Clash(a: string, b: string) {
    exists k :: 0 <= k < |a| && k < |b| && a[k] != b[k]
  }

  /** Every occurrence of `q` in `s` is also an occurrence of `p`. */
  predicate OnlyWithin(s: string, q: string, p: string) {
    forall m :: 0 <= m <= |s| - |q| && OccursAt(s, q, m) ==> OccursAt(s, p, m)
  }

  /** Replacing `p` by `r` can never create an occurrence of `q`, provided `r`
      cannot overlap `q` from either side, and the text has no `q` except where
      it also has `p` (with `q == p`: `Replace` leaves no `p` behind). */
  lemma {:induction false} ReplaceCreatesNo(s: string, p: string, r: string, q: string)
    requires p != [] && q != []
    requires forall j :: 0 <= j < |r| ==> Clash(r[j..], q)
    requires forall j :: 0 < j < |q| ==> Clash(q[j..], r)
    requires OnlyWithin(s, q, p)
    ensures !Contains(Replace(s, p, r), q)
    decreases |s|
  {
    if |s| < |p| {
      forall m | 0 <= m <= |s| - |q| ensures !OccursAt(s, q, m) {
        assert !OccursAt(s, p, m);
      }
    } else if s[..|p|] == p {
      OnlyWithinSuffix(s, q, p, |p|);
      ReplaceCreatesNo(s[|p|..], p, r, q);
      NoneAfterReplacement(r, Replace(s[|p|..], p, r), q);
    } else {
      OnlyWithinSuffix(s, q, p, 1);
      ReplaceCreatesNo(s[1..], p, r, q);
      ReplaceNotAtStart(s, p, r);
      ReplacePrefixWindow(s, p, r, q);
      NoneAfterFirst(Replace(s, p, r), q);
    }
  }

  /** A replacement text that clashes with `q` wherever `q` could start in it
      adds no occurrence of `q` in front of a text free of `q`. */
  lemma NoneAfterReplacement(r: string, rest: string, q: string)
    requires forall j :: 0 <= j < |r| ==> Clash(r[j..], q)
    requires !Contains(rest, q)
    ensures !Contains(r + rest, q)
  {
    var out := r + rest;
    forall m | 0 <= m <= |out| - |q| ensures !OccursAt(out, q, m) {
      if m >= |r| {
        assert out[m..m + |q|] == rest[m - |r|..m - |r| + |q|];
        assert !OccursAt(rest, q, m - |r|);
      } else {
        var k :| 0 <= k < |r[m..]| && k < |q| && r[m..][k] != q[k];
        assert out[m..m + |q|][k] == r[m + k];
      }
    }
  }

  /** A text free of `q` from index 1 on, with no `q` at index 0, is free of
      `q`. */
  lemma NoneAfterFirst(out: string, q: string)
    requires out != [] && !Contains(out[1..], q) && !OccursAt(out, q, 0)
    ensures !Contains(out, q)
  {
    forall m | 1 <= m <= |out| - |q| ensures !OccursAt(out, q, m) {
      var t := out[1..];
      assert 0 <= m - 1 <= |t| - |q|;
      assert !OccursAt(t, q, m - 1);
      var a, b := out[m..m + |q|], t[m - 1..m - 1 + |q|];
      forall i | 0 <= i < |q| ensures a[i] == b[i] {
        assert t[m - 1 + i] == out[m + i];
      }
      assert a == b;
    }
  }

  /** Helper of `ReplaceCreatesNo`: the case where `s` does not start with `p`
      and the occurrence of `q` would start at index 0. */
  lemma {:induction false} ReplacePrefixWindow(s: string, p: string, r: string, q: string)
    requires p != [] && q != [] && |s| >= |p| && s[..|p|] != p
    requires forall j :: 0 < j < |q| ==> Clash(q[j..], r)
    requires OnlyWithin(s, q, p)
    ensures !OccursAt(Replace(s, p, r), q, 0)
  {
    var t := s[1..];
    ReplaceNotAtStart(s, p, r);
    assert !OccursAt(s, p, 0);
    assert !OccursAt(s, q, 0);
    var w := if |q| - 1 <= |t| then |q| - 1 else |t|;
    var m := FirstOccurrence(t, p, w);
    if m < w {
      // an occurrence of p inside the window puts r where q would continue
      PrefixWindowHit(t, p, r, q, m, s[0]);
    } else {
      ReplaceKeepsPrefix(t, p, r, w);
      var out := [s[0]] + t[..w] + Replace(t[w..], p, r);
      assert Replace(s, p, r) == out;
      if w == |t| && |t| < |q| - 1 {
        ReplaceShort(t[w..], p, r);
        assert |out| < |q|;
      } else {
        assert w == |q| - 1;
        assert out[..|q|] == [s[0]] + t[..w];
        assert s[..|q|] == [s[0]] + t[..w];
      }
    }
  }

  lemma ReplaceNotAtStart(s: string, p: string, r: string)
    requires p != [] && |s| >= |p| && s[..|p|] != p
    ensures Replace(s, p, r) == [s[0]] + Replace(s[1..], p, r)
  {
  }

  lemma PrefixWindowHit(t: string, p: string, r: string, q: string, m: nat, c: char)
    requires p != [] && m < |q| - 1 && m <= |t|
    requires forall j :: 0 < j < |q| ==> Clash(q[j..], r)
    requires OccursAt(t, p, m)
    requires forall i :: 0 <= i < m ==> !OccursAt(t, p, i)
    ensures !OccursAt([c] + Replace(t, p, r), q, 0)
  {
    ReplaceKeepsPrefix(t, p, r, m);
    var u := t[m..];
    assert u[..|p|] == p;
    var rest := Replace(u, p, r);
    ReplaceAtStart(u, p, r);
    var out := [c] + t[..m] + rest;
    assert [c] + Replace(t, p, r) == out;
    var j := m + 1;
    assert Clash(q[j..], r);
    var k :| 0 <= k < |q[j..]| && k < |r| && q[j..][k] != r[k];
    assert out[j + k] == rest[k] == r[k];
    assert q[j + k] != out[j + k];
  }

  lemma ReplaceAtStart(u: string, p: string, r: string)
    requires p != [] && |p| <= |u| && u[..|p|] == p
    ensures Replace(u, p, r) == r + Replace(u[|p|..], p, r)
  {
  }

  /** The least `m < w` at which `p` occurs in `t`, or `w` when none does. */
  function FirstOccurrence(t: string, p: string, w: nat): (m: nat)
    requires w <= |t|
    ensures m <= w
    ensures m < w ==> OccursAt(t, p, m)
    ensures forall i :: 0 <= i < m ==> !OccursAt(t, p, i)
  {
    if w == 0 then 0
    else
      var m := FirstOccurrence(t, p, w - 1);
      if m < w - 1 then m
      else if OccursAt(t, p, w - 1) then w - 1
      else w
  }

  /** Up to the first occurrence of `p`, `Replace` copies the text unchanged. */
  lemma {:induction false} ReplaceKeepsPrefix(t: string, p: string, r: string, m: nat)
    requires p != [] && m <= |t|
    requires forall i :: 0 <= i < m ==> !OccursAt(t, p, i)
    ensures Replace(t, p, r) == t[..m] + Replace(t[m..], p, r)
    decreases m
  {
    if m > 0 {
      if |t| < |p| {
        ReplaceShort(t, p, r);
        ReplaceShort(t[m..], p, r);
        assert t[..m] + t[m..] == t;
      } else {
        assert !OccursAt(t, p, 0);
        ReplaceNotAtStart(t, p, r);
        NoOccurrenceShifted(t, p, m);
        ReplaceKeepsPrefix(t[1..], p, r, m - 1);
        assert t[1..][m - 1..] == t[m..];
        PrefixRegroup(t, m, Replace(t, p, r), Replace(t[1..], p, r), Replace(t[m..], p, r));
      }
    }
  }

  /** Concatenation regrouped, stated once for proofs over long strings. */
  lemma Regroup2(a: string, b: string, c: string)
    ensures a + (b + c) == a + b + c
  {
  }

  lemma Regroup3(d: string, a: string, b: string, c: string)
    ensures d + (a + b + c) == d + a + b + c
  {
  }

  lemma PrefixRegroup(t: string, m: nat, x: string, y: string, z: string)
    requires 0 < m <= |t|
    requires x == [t[0]] + y && y == t[1..][..m - 1] + z
    ensures x == t[..m] + z
  {
    assert [t[0]] + t[1..][..m - 1] == t[..m];
  }

  lemma NoOccurrenceShifted(t: string, p: string, m: nat)
    requires 0 < m <= |t|
    requires forall i :: 0 <= i < m ==> !OccursAt(t, p, i)
    ensures forall i :: 0 <= i < m - 1 ==> !OccursAt(t[1..], p, i)
  {
    forall i | 0 <= i < m - 1 ensures !OccursAt(t[1..], p, i) {
      assert !OccursAt(t, p, i + 1);
      if i + |p| <= |t| - 1 {
        assert t[1..][i..i + |p|] == t[i + 1..i + 1 + |p|];
      }
    }
  }

  lemma ReplaceShort(t: string, p: string, r: string)
    requires p != [] && |t| < |p|
    ensures Replace(t, p, r) == t
  {
  }

  lemma {:induction false} OnlyWithinSuffix(s: string, q: string, p: string, d: nat)
    requires d <= |s|
    requires OnlyWithin(s, q, p)
    ensures OnlyWithin(s[d..], q, p)
  {
    forall m | OccursAt(s[d..], q, m) ensures OccursAt(s[d..], p, m) {
      assert s[d..][m..m + |q|] == s[d + m..d + m + |q|];
      assert OccursAt(s, q, d + m);
      assert OccursAt(s, p, d + m);
      assert s[d..][m..m + |p|] == s[d + m..d + m + |p|];
    }
  }

  // ---------------------------------------------------------------------------
  // Python's string ordering
  // ---------------------------------------------------------------------------

  /** Python's `a < b` on strings: lexicographic by code point, a proper
      prefix being smaller. */
  predicate Less(a: string, b: string) {
    if a == [] then b != []
    else if b == [] then false
    else if a[0] != b[0] then a[0] < b[0]
    else Less(a[1..], b[1..])
  }

  lemma {:induction false} LessIrreflexive(a: string)
    ensures !Less(a, a)
  {
    if a != [] {
      LessIrreflexive(a[1..]);
    }
  }

  lemma {:induction false} LessTransitive(a: string, b: string, c: string)
    requires Less(a, b) && Less(b, c)
    ensures Less(a, c)
  {
    if a != [] && b != [] && c != [] && a[0] == b[0] && b[0] == c[0] {
      LessTransitive(a[1..], b[1..], c[1..]);
    }
  }

  lemma {:induction false} LessAsymmetric(a: string, b: string)
    ensures !(Less(a, b) && Less(b, a))
  {
    if a != [] && b != [] && a[0] == b[0] {
      LessAsymmetric(a[1..], b[1..]);
    }
  }

  /** "Not greater" is transitive: Python's `sorted` relies on this. */
  lemma NotLessTransitive(a: string, b: string, c: string)
    requires !Less(b, a) && !Less(c, b)
    ensures !Less(c, a)
  {
    LessTotal(a, b);
    LessTotal(b, c);
    if a != b && b != c {
      LessTransitive(a, b, c);
      LessAsymmetric(a, c);
    }
  }

  lemma {:induction false} LessTotal(a: string, b: string)
    ensures Less(a, b) || a == b || Less(b, a)
  {
    if a != [] && b != [] && a[0] == b[0] {
      LessTotal(a[1..], b[1..]);
      if a[1..] == b[1..] {
        assert a == [a[0]] + a[1..] && b == [b[0]] + b[1..];
      }
    }
  }

  /** A proper prefix sorts first. */
  lemma {:induction false} PrefixIsLess(a: string, b: string)
    requires |a| < |b| && b[..|a|] == a
    ensures Less(a, b)
  {
    if a != [] {
      assert a[0] == b[0];
      assert b[1..][..|a[1..]|] == a[1..];
      PrefixIsLess(a[1..], b[1..]);
    }
  }
}
