/**
 * The two heading helpers of `WikiConverter`: `clean_title`, which removes
 * `<...>` tags with the lazy regular expression `<.*?>` and trims whitespace,
 * and `create_anchor`, which turns a heading into a link anchor with
 * `re.sub(r'[^a-zA-Z0-9-]+', '-', text.lower()).strip('-')`.
 */
module Headings {
  import opened Wrappers
  import opened Strings

  // ---------------------------------------------------------------- clean_title

  /** Where the lazy `.*?>` of `<.*?>` stops when the `<` stood just before
      index `k`: the first `>` at or after `k`, unless a newline (which `.`
      does not match) or the end of the string comes first. */
  function TagEnd(s: string, k: nat): (r: Option<nat>)
    requires k <= |s|
    ensures r.Some? ==> (k <= r.value < |s| && s[r.value] == '>'
      && forall m :: k <= m < r.value ==> s[m] != '\n' && s[m] != '>')
    ensures r.None? ==> forall j :: k <= j < |s| && s[j] == '>' ==> NewlineIn(s, k, j)
    decreases |s| - k
  {
    if k == |s| || s[k] == '\n' then None
    else if s[k] == '>' then Some(k)
    else TagEnd(s, k + 1)
  }

  /** Some newline sits at an index in `[lo, hi)`. */
  predicate NewlineIn(s: string, lo: int, hi: int)
  {
    exists m :: lo <= m < hi && 0 <= m < |s| && s[m] == '\n'
  }

  /** `re.sub(r'<.*?>', '', s)`: scanning left to right, every `<` that has a
      `>` after it on the same line starts a tag, and the shortest such tag is
      deleted; any other character is kept. */
  function StripTags(s: string): string
    decreases |s|
  {
    if s == [] then ""
    else if s[0] == '<' && TagEnd(s, 1).Some? then StripTags(s[TagEnd(s, 1).value + 1..])
    else [s[0]] + StripTags(s[1..])
  }

  /** `clean_title`: delete tags, then `strip()`. */
  function CleanTitle(title: string): string
  {
    Strip(StripTags(title), Whitespace)
  }

  /** No `<` is followed by a `>` on the same line: the regular expression has
      nothing left to match. */
  ghost predicate NoTag(r: string)
  {
    forall i, j :: 0 <= i < j < |r| && r[i] == '<' && r[j] == '>' ==> NewlineIn(r, i, j)
  }

  /** Every `>` of `s` comes after some newline of `s`. */
  ghost predicate ClosersAfterNewline(s: string)
  {
    forall j :: 0 <= j < |s| && s[j] == '>' ==> NewlineIn(s, 0, j)
  }

  lemma NoTagSlice(s: string, lo: nat, hi: nat)
    requires NoTag(s) && lo <= hi <= |s|
    ensures NoTag(s[lo..hi])
  {
    var t := s[lo..hi];
    forall i, j | 0 <= i < j < |t| && t[i] == '<' && t[j] == '>' ensures NewlineIn(t, i, j) {
      assert s[lo + i] == '<' && s[lo + j] == '>';
      var m :| lo + i <= m < lo + j && s[m] == '\n';
      assert t[m - lo] == '\n';
    }
  }

  lemma NoTagCons(c: char, t: string)
    requires NoTag(t)
    requires c == '<' ==> ClosersAfterNewline(t)
    ensures NoTag([c] + t)
  {
    var r := [c] + t;
    forall i, j | 0 <= i < j < |r| && r[i] == '<' && r[j] == '>' ensures NewlineIn(r, i, j) {
      assert t[j - 1] == '>';
      if i == 0 {
        var m :| 0 <= m < j - 1 && t[m] == '\n';
        assert r[m + 1] == '\n';
      } else {
        assert t[i - 1] == '<';
        var m :| i - 1 <= m < j - 1 && t[m] == '\n';
        assert r[m + 1] == '\n';
      }
    }
  }

  lemma ClosersTail(s: string)
    requires s != [] && s[0] != '\n' && ClosersAfterNewline(s)
    ensures ClosersAfterNewline(s[1..])
  {
    var t := s[1..];
    forall j | 0 <= j < |t| && t[j] == '>' ensures NewlineIn(t, 0, j) {
      assert s[j + 1] == '>';
      var m :| 0 <= m < j + 1 && s[m] == '\n';
      assert t[m - 1] == '\n';
    }
  }

  lemma ClosersCons(c: char, t: string)
    requires c != '>' && ClosersAfterNewline(t)
    ensures ClosersAfterNewline([c] + t)
  {
    var r := [c] + t;
    forall j | 0 <= j < |r| && r[j] == '>' ensures NewlineIn(r, 0, j) {
      assert t[j - 1] == '>';
      var m :| 0 <= m < j - 1 && t[m] == '\n';
      assert r[m + 1] == '\n';
    }
  }

  /** When a `<` opens no tag, every later `>` is on a later line. */
  lemma UnclosedOpen(s: string)
    requires s != [] && TagEnd(s, 1).None?
    ensures ClosersAfterNewline(s[1..])
  {
    var t := s[1..];
    forall j | 0 <= j < |t| && t[j] == '>' ensures NewlineIn(t, 0, j) {
      assert s[j + 1] == '>';
      var m :| 1 <= m < j + 1 && s[m] == '\n';
      assert t[m - 1] == '\n';
    }
  }

  lemma {:induction false} StripTagsKeepsClosersAfterNewline(s: string)
    requires ClosersAfterNewline(s)
    ensures ClosersAfterNewline(StripTags(s))
    decreases |s|
  {
    if s == [] {
    } else if s[0] == '\n' {
      var r := StripTags(s);
      assert r == [s[0]] + StripTags(s[1..]);
      forall j | 0 <= j < |r| && r[j] == '>' ensures NewlineIn(r, 0, j) {
        assert r[0] == '\n';
      }
    } else {
      assert s[0] != '>' by { assert !NewlineIn(s, 0, 0); }
      assert TagEnd(s, 1).Some? ==> NewlineIn(s, 0, TagEnd(s, 1).value);
      assert StripTags(s) == [s[0]] + StripTags(s[1..]);
      ClosersTail(s);
      StripTagsKeepsClosersAfterNewline(s[1..]);
      ClosersCons(s[0], StripTags(s[1..]));
    }
  }

  /** After `StripTags` no tag is left: every remaining `<` has no `>` after it
      on its line. */
  lemma {:induction false} StripTagsLeavesNoTag(s: string)
    ensures NoTag(StripTags(s))
    decreases |s|
  {
    if s == [] {
    } else if s[0] == '<' && TagEnd(s, 1).Some? {
      StripTagsLeavesNoTag(s[TagEnd(s, 1).value + 1..]);
    } else {
      var t := s[1..];
      StripTagsLeavesNoTag(t);
      assert StripTags(s) == [s[0]] + StripTags(t);
      if s[0] == '<' {
        UnclosedOpen(s);
        StripTagsKeepsClosersAfterNewline(t);
      }
      NoTagCons(s[0], StripTags(t));
    }
  }

  /** A string with no tag left is not changed by `StripTags`. */
  lemma {:induction false} StripTagsFixesNoTag(s: string)
    requires NoTag(s)
    ensures StripTags(s) == s
    decreases |s|
  {
    if s != [] {
      NoTagSlice(s, 1, |s|);
      assert s[0] == '<' && TagEnd(s, 1).Some? ==> NewlineIn(s, 0, TagEnd(s, 1).value);
      StripTagsFixesNoTag(s[1..]);
    }
  }

  /** A title without `<` has no tag to remove. */
  lemma {:induction false} StripTagsWithoutOpen(s: string)
    requires '<' !in s
    ensures StripTags(s) == s
    decreases |s|
  {
    if s != [] {
      assert s[0] in s;
      assert forall c :: c in s[1..] ==> c in s;
      StripTagsWithoutOpen(s[1..]);
    }
  }

  lemma NoTagStrip(t: string, chars: set<char>)
    requires NoTag(t)
    ensures NoTag(Strip(t, chars))
  {
    var r := Strip(t, chars);
    var lo := StripStart(t, chars, 0);
    StripSlice(t, chars);
    assert 0 <= lo <= lo + |r| <= |t|;
    assert r == t[lo..lo + |r|];
    NoTagSlice(t, lo, lo + |r|);
  }

  /** `clean_title` leaves no tag behind. */
  lemma CleanTitleNoTag(title: string)
    ensures NoTag(CleanTitle(title))
  {
    StripTagsLeavesNoTag(title);
    NoTagStrip(StripTags(title), Whitespace);
  }

  /** `clean_title` leaves no whitespace at either end. */
  lemma CleanTitleTrimmed(title: string)
    ensures var r := CleanTitle(title); r == [] || (r[0] !in Whitespace && r[|r| - 1] !in Whitespace)
  {
    StripEnds(StripTags(title), Whitespace);
  }

  /** A title without `<` is only trimmed. */
  lemma CleanTitleOnlyTrims(title: string)
    requires '<' !in title
    ensures CleanTitle(title) == Strip(title, Whitespace)
  {
    StripTagsWithoutOpen(title);
  }

  /** Cleaning a clean title changes nothing. */
  lemma CleanTitleIdempotent(title: string)
    ensures CleanTitle(CleanTitle(title)) == CleanTitle(title)
  {
    var r := CleanTitle(title);
    CleanTitleNoTag(title);
    CleanTitleTrimmed(title);
    StripTagsFixesNoTag(r);
    StripUnchanged(r, Whitespace);
  }

  // -------------------------------------------------------------- create_anchor

  /** A member of the character class `[a-zA-Z0-9-]`. */
  predicate IsAnchorChar(c: char)
  {
    'a' <= c <= 'z' || 'A' <= c <= 'Z' || '0' <= c <= '9' || c == '-'
  }

  /** A character an anchor may hold: `[a-z0-9-]`. */
  predicate IsSlugChar(c: char)
  {
    'a' <= c <= 'z' || '0' <= c <= '9' || c == '-'
  }

  /** `re.sub(r'[^a-zA-Z0-9-]+', '-', s)`: the last character of each maximal
      run outside the class is replaced by `-` and the rest of the run is
      dropped. */
  function CollapseRuns(s: string): (r: string)
    ensures forall i :: 0 <= i < |r| ==> IsAnchorChar(r[i]) && (r[i] == '-' || r[i] in s)
    decreases |s|
  {
    if s == [] then ""
    else if IsAnchorChar(s[0]) then [s[0]] + CollapseRuns(s[1..])
    else if |s| > 1 && !IsAnchorChar(s[1]) then CollapseRuns(s[1..])
    else "-" + CollapseRuns(s[1..])
  }

  /** `create_anchor` */
  function CreateAnchor(text: string): string
  {
    Strip(CollapseRuns(Lower(text)), {'-'})
  }

  /** Each maximal run of characters outside `[a-zA-Z0-9-]` becomes exactly one
      `-`, and the characters inside the class are kept as they are. */
  lemma {:induction false} CollapseRunsRun(kept: string, run: string, rest: string)
    requires forall i :: 0 <= i < |kept| ==> IsAnchorChar(kept[i])
    requires run != [] && forall i :: 0 <= i < |run| ==> !IsAnchorChar(run[i])
    requires rest == [] || IsAnchorChar(rest[0])
    ensures CollapseRuns(kept + run + rest) == kept + "-" + CollapseRuns(rest)
    decreases |kept| + |run|
  {
    var s := kept + run + rest;
    if kept != [] {
      assert s[1..] == kept[1..] + run + rest;
      CollapseRunsRun(kept[1..], run, rest);
    } else if |run| > 1 {
      assert s[1..] == [] + run[1..] + rest;
      assert s[1] == run[1];
      CollapseRunsRun([], run[1..], rest);
    } else {
      assert s[1..] == rest;
    }
  }

  /** Text already inside the class `[a-zA-Z0-9-]` passes through unchanged. */
  lemma {:induction false} CollapseRunsKeepsAnchorText(s: string)
    requires forall i :: 0 <= i < |s| ==> IsAnchorChar(s[i])
    ensures CollapseRuns(s) == s
    decreases |s|
  {
    if s != [] {
      CollapseRunsKeepsAnchorText(s[1..]);
    }
  }

  /** After lowering and collapsing runs, only `a-z`, `0-9` and `-` remain. */
  lemma CollapsedIsSlug(text: string)
    ensures var c := CollapseRuns(Lower(text)); forall i :: 0 <= i < |c| ==> IsSlugChar(c[i])
  {
    var low := Lower(text);
    var c := CollapseRuns(low);
    forall i | 0 <= i < |c| ensures IsSlugChar(c[i]) {
      if c[i] != '-' {
        var k :| 0 <= k < |low| && low[k] == c[i];
        assert low[k] == LowerChar(text[k]);
      }
    }
  }

  /** An anchor holds only `a-z`, `0-9` and `-`, and neither begins nor ends
      with `-`. */
  lemma AnchorShape(text: string)
    ensures var r := CreateAnchor(text);
      (forall i :: 0 <= i < |r| ==> IsSlugChar(r[i])) && (r == [] || (r[0] != '-' && r[|r| - 1] != '-'))
  {
    var dash: set<char> := {'-'};
    var c := CollapseRuns(Lower(text));
    var r := Strip(c, dash);
    assert CreateAnchor(text) == r;
    assert r == [] || (r[0] != '-' && r[|r| - 1] != '-') by {
      StripEnds(c, dash);
    }
    forall i | 0 <= i < |r| ensures IsSlugChar(r[i]) {
      StripFrom(c, dash);
      CollapsedIsSlug(text);
      assert r[i] in c;
    }
  }

  /** Making an anchor out of an anchor gives it back. */
  lemma AnchorIdempotent(text: string)
    ensures CreateAnchor(CreateAnchor(text)) == CreateAnchor(text)
  {
    var r := CreateAnchor(text);
    AnchorShape(text);
    assert Lower(r) == r;
    CollapseRunsKeepsAnchorText(r);
    StripUnchanged(r, {'-'});
  }

  /** Existing dashes are kept next to the dashes that replace runs. */
  lemma AnchorKeepsDashes()
    ensures CreateAnchor("a - b") == "a---b"
  {
    assert Lower("a - b") == "a - b";
    assert CollapseRuns("a - b") == "a---b" by {
      var b := "b";
      CollapseRunsKeepsAnchorText(b);
      var t := "-" + " " + b;
      CollapseRunsRun("-", " ", b);
      var s := "a" + " " + t;
      CollapseRunsRun("a", " ", t);
      assert s == "a - b";
    }
    StripUnchanged("a---b", {'-'});
  }
}
