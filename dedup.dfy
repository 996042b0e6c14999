/**
 * Structural deduplication of the converted blocks: the blocks are cut into
 * sections at each heading, sections are grouped by their stripped heading,
 * groups come in the order their heading first appears, and repeated
 * sections within a group are dropped.
 */
module Dedup {
  import opened Strings

  /** A block is a heading exactly when it starts with `#`. */
  predicate IsHeading(item: string)
  {
    |item| > 0 && item[0] == '#'
  }

  /** A section: the stripped text of its heading block, and the heading
      block joined with the blocks up to the next heading. */
  datatype Section = Section(key: string, text: string)

  /** The first index from `j` on that holds a heading, or the end. */
  function RunEnd(items: seq<string>, j: nat): (r: nat)
    requires j <= |items|
    ensures j <= r <= |items|
    ensures forall k :: j <= k < r ==> !IsHeading(items[k])
    ensures r == |items| || IsHeading(items[r])
    decreases |items| - j
  {
    if j == |items| || IsHeading(items[j]) then j else RunEnd(items, j + 1)
  }

  /** The sections of a list of blocks, in order; blocks before the first
      heading belong to no section. */
  function Sections(items: seq<string>): seq<Section>
    decreases |items|
  {
    if items == [] then []
    else if !IsHeading(items[0]) then Sections(items[1..])
    else
      var e := RunEnd(items, 1);
      [Section(Strip(items[0], Whitespace), Concat(items[..e]))] + Sections(items[e..])
  }

  // ------------------------------------------------------- lists and groups

  /** `list(dict.fromkeys(xs))`: the first occurrence of each element, in order. */
  function Distinct(xs: seq<string>): (r: seq<string>)
    ensures |r| <= |xs|
    ensures forall x :: x in r <==> x in xs
    ensures forall i, j :: 0 <= i < j < |r| ==> r[i] != r[j]
  {
    if xs == [] then []
    else
      var d := Distinct(xs[..|xs| - 1]);
      assert forall x :: x in xs <==> x in xs[..|xs| - 1] || x == xs[|xs| - 1];
      if xs[|xs| - 1] in d then d else d + [xs[|xs| - 1]]
  }

  /** The position of the first occurrence of `x` in `xs`. */
  function FirstIndex(xs: seq<string>, x: string): (k: nat)
    requires x in xs
    ensures k < |xs| && xs[k] == x
    ensures forall j :: 0 <= j < k ==> xs[j] != x
  {
    if xs[0] == x then 0 else 1 + FirstIndex(xs[1..], x)
  }

  /** Appending leaves the first occurrence of an element already present where it was. */
  lemma FirstIndexSnoc(xs: seq<string>, last: string, y: string)
    requires y in xs
    ensures FirstIndex(xs + [last], y) == FirstIndex(xs, y)
  {
    assert forall k :: 0 <= k < |xs| ==> (xs + [last])[k] == xs[k];
  }

  /** The elements of `r`, all taken from `xs`, come in the order of their
      first occurrences in `xs`. */
  predicate InFirstOrder(xs: seq<string>, r: seq<string>)
    requires forall x :: x in r ==> x in xs
  {
    forall i, j :: 0 <= i < j < |r| ==> FirstIndex(xs, r[i]) < FirstIndex(xs, r[j])
  }

  /** `dict.fromkeys` keeps insertion order: what `Distinct` keeps comes in
      the order of the first occurrences in the input. */
  lemma {:induction false} DistinctKeepsFirstOrder(xs: seq<string>)
    ensures InFirstOrder(xs, Distinct(xs))
  {
    if xs != [] {
      var init, last := xs[..|xs| - 1], xs[|xs| - 1];
      assert xs == init + [last];
      DistinctKeepsFirstOrder(init);
      var d, r := Distinct(init), Distinct(xs);
      assert r == if last in d then d else d + [last];
      forall i, j | 0 <= i < j < |r|
        ensures FirstIndex(xs, r[i]) < FirstIndex(xs, r[j])
      {
        assert r[i] == d[i] && d[i] in init;
        FirstIndexSnoc(init, last, d[i]);
        if j < |d| {
          assert r[j] == d[j] && d[j] in init;
          assert FirstIndex(init, d[i]) < FirstIndex(init, d[j]);
          FirstIndexSnoc(init, last, d[j]);
        } else {
          assert r[j] == last && last !in init;
          FirstIndexOfNew(init, last);
        }
      }
    }
  }

  /** An element not present before is first met at the end. */
  lemma FirstIndexOfNew(xs: seq<string>, last: string)
    requires last !in xs
    ensures FirstIndex(xs + [last], last) == |xs|
  {
    assert forall k :: 0 <= k < |xs| ==> (xs + [last])[k] == xs[k];
  }

  function Keys(secs: seq<Section>): (r: seq<string>)
    ensures |r| == |secs|
  {
    seq(|secs|, i requires 0 <= i < |secs| => secs[i].key)
  }

  /** The texts of the sections under heading `k`, in order. */
  function Group(secs: seq<Section>, k: string): seq<string>
  {
    if secs == [] then []
    else
      var last := secs[|secs| - 1];
      Group(secs[..|secs| - 1], k) + (if last.key == k then [last.text] else [])
  }

  /** Each group of `ks` in turn, without repeated texts. */
  function DedupGroups(secs: seq<Section>, ks: seq<string>): seq<string>
  {
    if ks == [] then []
    else DedupGroups(secs, ks[..|ks| - 1]) + Distinct(Group(secs, ks[|ks| - 1]))
  }

  /** What `remove_structural_duplicates` returns. */
  function Deduplicated(items: seq<string>): seq<string>
  {
    var secs := Sections(items);
    DedupGroups(secs, Distinct(Keys(secs)))
  }

  // ------------------------------------------------------------ the method

  /** The dictionary of sections by heading, with its key order, holds the
      groups of the sections closed so far. */
  ghost predicate Grouped(sections: map<string, seq<string>>, order: seq<string>, done: seq<Section>)
  {
    order == Distinct(Keys(done))
    && (forall k :: k in sections <==> k in order)
    && (forall k :: k in sections ==> sections[k] == Group(done, k))
  }

  /** After the blocks before `i`: either no heading has been met and no
      section closed, or the open section starts at the heading `h`, and the
      sections closed so far followed by those from `h` on are all the sections. */
  ghost predicate Scanned(content: seq<string>, i: nat, h: nat, heading: string, section: seq<string>, done: seq<Section>)
  {
    i <= |content|
    && if heading == "" then
      done == [] && forall k :: 0 <= k < i ==> !IsHeading(content[k])
    else
      h < i && IsHeading(content[h]) && (forall k :: h < k < i ==> !IsHeading(content[k]))
      && heading == Strip(content[h], Whitespace) && section == content[h..i]
      && Sections(content) == done + Sections(content[h..])
  }

  /** `remove_structural_duplicates`: the sections are collected into a
      dictionary of lists by heading, then each list is added to the result
      without its repeats, in the dictionary's order. */
  method RemoveStructuralDuplicates(content: seq<string>) returns (result: seq<string>)
    ensures result == Deduplicated(content)
  {
    var sections, order := CollectSections(content);
    ghost var secs := Sections(content);
    result := [];
    for j := 0 to |order|
      invariant result == DedupGroups(secs, order[..j])
    {
      assert order[j] in sections;
      var unique := Distinct(sections[order[j]]);
      DedupGroupsSnoc(secs, order, j);
      result := result + unique;
    }
    assert order[..|order|] == order;
  }

  /** One more key adds its group, without repeats, at the end. */
  lemma DedupGroupsSnoc(secs: seq<Section>, ks: seq<string>, j: nat)
    requires j < |ks|
    ensures DedupGroups(secs, ks[..j + 1]) == DedupGroups(secs, ks[..j]) + Distinct(Group(secs, ks[j]))
  {
    var p := ks[..j + 1];
    assert p[..j] == ks[..j] && p[j] == ks[j];
  }

  /** The first loop of `remove_structural_duplicates`: every section, closed at
      the next heading or at the end, is appended to the `defaultdict` under
      its stripped heading; `order` is the dictionary's key order. */
  method CollectSections(content: seq<string>) returns (sections: map<string, seq<string>>, order: seq<string>)
    ensures Grouped(sections, order, Sections(content))
  {
    sections, order := map[], [];
    var currentSection: seq<string> := [];
    var currentHeading: string := "";
    ghost var done: seq<Section> := [];
    ghost var h: nat := 0;
    for i := 0 to |content|
      invariant Grouped(sections, order, done)
      invariant Scanned(content, i, h, currentHeading, currentSection, done)
    {
      var item := content[i];
      if StartsWith(item, "#") {
        if currentHeading != "" {
          var text := Concat(currentSection);
          ScanNextHeading(content, i, h, currentHeading, currentSection, done);
          sections, order := AppendSection(sections, order, currentHeading, text, done);
          done := done + [Section(currentHeading, text)];
        } else {
          ScanFirstHeading(content, i, h, currentSection);
        }
        currentHeading := Strip(item, Whitespace);
        currentSection := [item];
        h := i;
      } else {
        ScanBlock(content, i, h, currentHeading, currentSection, done);
        currentSection := currentSection + [item];
      }
    }
    ScanEnd(content, h, currentHeading, currentSection, done);
    if currentHeading != "" {
      sections, order := AppendSection(sections, order, currentHeading, Concat(currentSection), done);
    }
  }

  lemma ScanBlock(content: seq<string>, i: nat, h: nat, heading: string, section: seq<string>, done: seq<Section>)
    requires Scanned(content, i, h, heading, section, done)
    requires i < |content| && !IsHeading(content[i])
    ensures Scanned(content, i + 1, h, heading, section + [content[i]], done)
  {
    if heading != "" {
      assert content[h..i + 1] == content[h..i] + [content[i]];
      assert forall k :: h < k < i + 1 ==> !IsHeading(content[k]);
    } else {
      assert forall k :: 0 <= k < i + 1 ==> !IsHeading(content[k]);
    }
  }

  lemma ScanFirstHeading(content: seq<string>, i: nat, h: nat, section: seq<string>)
    requires Scanned(content, i, h, "", section, [])
    requires i < |content| && IsHeading(content[i])
    ensures Scanned(content, i + 1, i, Strip(content[i], Whitespace), [content[i]], [])
  {
    SectionsSkip(content, i);
    HeadingKeyNonEmpty(content[i]);
    assert content[i..i + 1] == [content[i]];
  }

  lemma ScanNextHeading(content: seq<string>, i: nat, h: nat, heading: string, section: seq<string>, done: seq<Section>)
    requires Scanned(content, i, h, heading, section, done) && heading != ""
    requires i < |content| && IsHeading(content[i])
    ensures Scanned(content, i + 1, i, Strip(content[i], Whitespace), [content[i]], done + [Section(heading, Concat(section))])
  {
    var closed := Section(heading, Concat(section));
    assert Sections(content[h..]) == [closed] + Sections(content[i..]) by {
      SectionsStep(content, h, i);
    }
    assert Sections(content) == (done + [closed]) + Sections(content[i..]);
    HeadingKeyNonEmpty(content[i]);
    assert content[i..i + 1] == [content[i]];
  }

  lemma ScanEnd(content: seq<string>, h: nat, heading: string, section: seq<string>, done: seq<Section>)
    requires Scanned(content, |content|, h, heading, section, done)
    ensures heading != "" ==> Sections(content) == done + [Section(heading, Concat(section))]
    ensures heading == "" ==> Sections(content) == done
  {
    if heading != "" {
      SectionsStep(content, h, |content|);
      assert content[|content|..] == [];
    } else {
      SectionsSkip(content, |content|);
      assert content[|content|..] == [];
    }
  }

  /** `sections[key].append(text)` on the `defaultdict`, whose key order is
      `order`: the dictionary keeps holding the groups, now with one more
      section closed. */
  method AppendSection(sections: map<string, seq<string>>, order: seq<string>, key: string, text: string,
                       ghost done: seq<Section>)
    returns (sections': map<string, seq<string>>, order': seq<string>)
    requires Grouped(sections, order, done)
    ensures Grouped(sections', order', done + [Section(key, text)])
  {
    if key in sections {
      GroupedAddExisting(sections, order, done, key, text);
      sections' := sections[key := sections[key] + [text]];
      order' := order;
    } else {
      GroupedAddNew(sections, order, done, key, text);
      sections' := sections[key := [text]];
      order' := order + [key];
    }
  }

  lemma KeysSnoc(done: seq<Section>, key: string, text: string)
    ensures var done' := done + [Section(key, text)];
      done'[..|done'| - 1] == done && Keys(done')[..|done|] == Keys(done) && Keys(done')[|done|] == key
  {
  }

  lemma GroupedAddExisting(sections: map<string, seq<string>>, order: seq<string>, done: seq<Section>, key: string, text: string)
    requires Grouped(sections, order, done)
    requires key in sections
    ensures Grouped(sections[key := sections[key] + [text]], order, done + [Section(key, text)])
  {
    KeysSnoc(done, key, text);
  }

  lemma GroupedAddNew(sections: map<string, seq<string>>, order: seq<string>, done: seq<Section>, key: string, text: string)
    requires Grouped(sections, order, done)
    requires key !in sections
    ensures Grouped(sections[key := [text]], order + [key], done + [Section(key, text)])
  {
    KeysSnoc(done, key, text);
    GroupOfAbsent(done, key);
  }

  /** A heading without sections has an empty group. */
  lemma GroupOfAbsent(secs: seq<Section>, k: string)
    requires k !in Distinct(Keys(secs))
    ensures Group(secs, k) == []
  {
    assert forall j :: 0 <= j < |secs| ==> secs[j].key == Keys(secs)[j];
    if Group(secs, k) != [] {
      GroupMembers(secs, k, Group(secs, k)[0]);
    }
  }

  /** A heading block keeps its `#` when stripped, so its key is never empty. */
  lemma HeadingKeyNonEmpty(item: string)
    requires IsHeading(item)
    ensures Strip(item, Whitespace) != ""
  {
    StripSlice(item, Whitespace);
    assert item[0] == '#';
  }

  /** Blocks before the first heading start no section. */
  lemma {:induction false} SectionsSkip(items: seq<string>, i: nat)
    requires i <= |items|
    requires forall k :: 0 <= k < i ==> !IsHeading(items[k])
    ensures Sections(items) == Sections(items[i..])
  {
    if i > 0 {
      SectionsSkip(items[1..], i - 1);
      assert items[1..][i - 1..] == items[i..];
    }
  }

  /** A heading at `h` with no heading before `i`, where `i` is the next heading
      or the end, opens the section made of the blocks `h` to `i`. */
  lemma SectionsStep(items: seq<string>, h: nat, i: nat)
    requires h < i <= |items|
    requires IsHeading(items[h])
    requires forall k :: h < k < i ==> !IsHeading(items[k])
    requires i == |items| || IsHeading(items[i])
    ensures Sections(items[h..]) == [Section(Strip(items[h], Whitespace), Concat(items[h..i]))] + Sections(items[i..])
  {
    var t := items[h..];
    var e := RunEnd(t, 1);
    assert forall k :: 0 <= k < |t| ==> t[k] == items[h + k];
    assert e == i - h;
    assert t[..e] == items[h..i];
    assert t[e..] == items[i..];
  }

  // ------------------------------------------------------------- properties

  /** Sections split at headings: text before a heading does not reach past it. */
  lemma {:induction false} SectionsAppend(a: seq<string>, b: seq<string>)
    requires b == [] || IsHeading(b[0])
    ensures Sections(a + b) == Sections(a) + Sections(b)
    decreases |a|
  {
    if a == [] {
      assert a + b == b;
    } else if !IsHeading(a[0]) {
      assert (a + b)[1..] == a[1..] + b;
      SectionsAppend(a[1..], b);
    } else {
      var ab := a + b;
      var e := RunEnd(a, 1);
      RunEndAppend(a, b);
      assert ab[..e] == a[..e];
      assert ab[e..] == a[e..] + b;
      SectionsAppend(a[e..], b);
    }
  }

  lemma RunEndAppend(a: seq<string>, b: seq<string>)
    requires a != []
    requires b == [] || IsHeading(b[0])
    ensures RunEnd(a + b, 1) == RunEnd(a, 1)
  {
    var ab := a + b;
    assert forall k :: 0 <= k < |a| ==> ab[k] == a[k];
    assert |b| > 0 ==> ab[|a|] == b[0];
  }

  /** The text of a section starts with its heading block, so with `#`. */
  lemma {:induction false} SectionsHeaded(items: seq<string>)
    ensures forall s :: s in Sections(items) ==> IsHeading(s.text)
    decreases |items|
  {
    if items != [] {
      if !IsHeading(items[0]) {
        SectionsHeaded(items[1..]);
      } else {
        var e := RunEnd(items, 1);
        SectionsHeaded(items[e..]);
        var text := Concat(items[..e]);
        assert items[..e][1..] == items[1..e];
        assert text == items[0] + Concat(items[1..e]);
        assert text[..1] == items[0][..1];
      }
    }
  }

  /** With no heading at all there is no output. */
  lemma NoHeadingNoOutput(items: seq<string>)
    requires forall i :: 0 <= i < |items| ==> !IsHeading(items[i])
    ensures Deduplicated(items) == []
  {
    SectionsSkip(items, |items|);
    assert items[|items|..] == [];
  }

  lemma {:induction false} GroupMembers(secs: seq<Section>, k: string, x: string)
    ensures x in Group(secs, k) <==> Section(k, x) in secs
  {
    if secs != [] {
      GroupMembers(secs[..|secs| - 1], k, x);
      assert secs == secs[..|secs| - 1] + [secs[|secs| - 1]];
    }
  }

  lemma {:induction false} DedupGroupsMembers(secs: seq<Section>, ks: seq<string>, x: string)
    ensures x in DedupGroups(secs, ks) <==> exists i :: 0 <= i < |ks| && Section(ks[i], x) in secs
  {
    if ks != [] {
      var init, last := ks[..|ks| - 1], ks[|ks| - 1];
      assert x in DedupGroups(secs, ks) <==> x in DedupGroups(secs, init) || x in Group(secs, last);
      DedupGroupsMembers(secs, init, x);
      GroupMembers(secs, last, x);
      if x in DedupGroups(secs, init) {
        var i :| 0 <= i < |init| && Section(init[i], x) in secs;
        assert ks[i] == init[i];
      }
      if exists i :: 0 <= i < |ks| && Section(ks[i], x) in secs {
        var i :| 0 <= i < |ks| && Section(ks[i], x) in secs;
        if i < |ks| - 1 {
          assert init[i] == ks[i];
        }
      }
    }
  }

  /** Nothing but repeats is lost: the output holds exactly the texts of the
      sections, and each of them starts with `#`. */
  lemma OutputsAreSectionTexts(items: seq<string>, x: string)
    ensures x in Deduplicated(items) <==> exists s :: s in Sections(items) && s.text == x
    ensures x in Deduplicated(items) ==> IsHeading(x)
  {
    var secs := Sections(items);
    var ks := Distinct(Keys(secs));
    DedupGroupsMembers(secs, ks, x);
    SectionsHeaded(items);
    if exists s :: s in secs && s.text == x {
      var s :| s in secs && s.text == x;
      var j :| 0 <= j < |secs| && secs[j] == s;
      assert s.key == Keys(secs)[j];
      assert s.key in ks;
      var i :| 0 <= i < |ks| && ks[i] == s.key;
    }
  }

  // --------------------------------------------------------- repeated input

  /** Appending elements already present changes no first occurrence. */
  lemma {:induction false} DistinctAbsorbs(xs: seq<string>, ys: seq<string>)
    requires forall y :: y in ys ==> y in xs
    ensures Distinct(xs + ys) == Distinct(xs)
    decreases |ys|
  {
    if ys != [] {
      var init := ys[..|ys| - 1];
      DistinctAbsorbs(xs, init);
      assert (xs + ys)[..|xs + ys| - 1] == xs + init;
      assert ys[|ys| - 1] in ys;
    } else {
      assert xs + ys == xs;
    }
  }

  lemma {:induction false} GroupAppend(a: seq<Section>, b: seq<Section>, k: string)
    ensures Group(a + b, k) == Group(a, k) + Group(b, k)
    decreases |b|
  {
    if b == [] {
      assert a + b == a;
    } else {
      GroupAppend(a, b[..|b| - 1], k);
      assert (a + b)[..|a + b| - 1] == a + b[..|b| - 1];
    }
  }

  lemma KeysAppend(a: seq<Section>, b: seq<Section>)
    ensures Keys(a + b) == Keys(a) + Keys(b)
  {
  }

  lemma {:induction false} DedupGroupsTwice(secs: seq<Section>, ks: seq<string>)
    ensures DedupGroups(secs + secs, ks) == DedupGroups(secs, ks)
  {
    if ks != [] {
      DedupGroupsTwice(secs, ks[..|ks| - 1]);
      var g := Group(secs, ks[|ks| - 1]);
      GroupAppend(secs, secs, ks[|ks| - 1]);
      DistinctAbsorbs(g, g);
    }
  }

  /** Content that starts with a heading and is given twice in a row comes out
      as if it had been given once. */
  lemma RepeatedContent(items: seq<string>)
    requires items != [] && IsHeading(items[0])
    ensures Deduplicated(items + items) == Deduplicated(items)
  {
    var secs := Sections(items);
    SectionsAppend(items, items);
    KeysAppend(secs, secs);
    DistinctAbsorbs(Keys(secs), Keys(secs));
    DedupGroupsTwice(secs, Distinct(Keys(secs)));
  }

  // ----------------------------------------------------------------- order

  /** A heading followed by one other block is one section. */
  lemma PairSection(a: string, x: string)
    requires IsHeading(a) && !IsHeading(x)
    ensures Sections([a, x]) == [Section(Strip(a, Whitespace), a + x)]
  {
    var items := [a, x];
    assert RunEnd(items, 1) == 2;
    assert items[..2] == items;
    assert items[2..] == [];
    assert [a, x][1..] == [x];
    assert Concat([x]) == x + Concat([]);
    assert Concat(items) == a + x;
    assert Sections([]) == [];
  }

  /** The sections of the blocks `a x b y a z` for headings `a`, `b`. */
  lemma ExampleSections(a: string, x: string, b: string, y: string, z: string)
    requires IsHeading(a) && IsHeading(b) && !IsHeading(x) && !IsHeading(y) && !IsHeading(z)
    ensures Sections([a, x] + [b, y] + [a, z]) ==
      [Section(Strip(a, Whitespace), a + x), Section(Strip(b, Whitespace), b + y), Section(Strip(a, Whitespace), a + z)]
  {
    var p1, p2, p3 := [a, x], [b, y], [a, z];
    var s1 := Section(Strip(a, Whitespace), a + x);
    var s2 := Section(Strip(b, Whitespace), b + y);
    var s3 := Section(Strip(a, Whitespace), a + z);
    assert Sections(p1 + p2) == [s1, s2] by {
      PairSection(a, x);
      PairSection(b, y);
      assert p2[0] == b;
      SectionsAppend(p1, p2);
    }
    assert Sections(p1 + p2 + p3) == [s1, s2] + [s3] by {
      PairSection(a, z);
      assert p3[0] == a;
      SectionsAppend(p1 + p2, p3);
    }
  }

  lemma DistinctABA(p: string, q: string)
    requires p != q
    ensures Distinct([p, q, p]) == [p, q]
    ensures Distinct([p, q]) == [p, q]
  {
    assert [p, q, p][..2] == [p, q];
    assert [p, q][..1] == [p];
    assert Distinct([p]) == [p] by {
      assert [p][..0] == [];
    }
  }

  lemma GroupsABA(ka: string, kb: string, s1: string, s2: string, s3: string)
    requires ka != kb
    ensures Group([Section(ka, s1), Section(kb, s2), Section(ka, s3)], ka) == [s1, s3]
    ensures Group([Section(ka, s1), Section(kb, s2), Section(ka, s3)], kb) == [s2]
  {
    var one := [Section(ka, s1)];
    var two := one + [Section(kb, s2)];
    var three := two + [Section(ka, s3)];
    assert one[..0] == [];
    assert Group([], ka) == [] && Group([], kb) == [];
    assert Group(one, ka) == Group([], ka) + [s1];
    assert Group(one, kb) == Group([], kb) + [];
    assert two[..1] == one;
    assert Group(two, ka) == [s1] && Group(two, kb) == [s2];
    assert three[..2] == two;
    assert three == [Section(ka, s1), Section(kb, s2), Section(ka, s3)];
  }

  lemma DistinctOne(p: string)
    ensures Distinct([p]) == [p]
  {
    assert [p][..0] == [];
  }

  lemma DedupGroupsPair(secs: seq<Section>, p: string, q: string)
    ensures DedupGroups(secs, [p, q]) == Distinct(Group(secs, p)) + Distinct(Group(secs, q))
  {
    var ks := [p, q];
    var g1, g2 := Distinct(Group(secs, p)), Distinct(Group(secs, q));
    assert DedupGroups(secs, ks[..1]) == g1 by {
      DedupGroupsSnoc(secs, ks, 0);
      assert ks[..0] == [] && ks[0] == p;
      assert DedupGroups(secs, []) == [];
    }
    assert DedupGroups(secs, ks) == g1 + g2 by {
      DedupGroupsSnoc(secs, ks, 1);
      assert ks[..2] == ks && ks[1] == q;
    }
  }

  /** Sections under `ka`, `kb`, `ka` come out as the two `ka` texts
      without repeats, followed by the `kb` text. */
  lemma DedupABA(ka: string, kb: string, s1: string, s2: string, s3: string)
    requires ka != kb
    ensures var secs := [Section(ka, s1), Section(kb, s2), Section(ka, s3)];
      DedupGroups(secs, Distinct(Keys(secs))) == Distinct([s1, s3]) + [s2]
  {
    var secs := [Section(ka, s1), Section(kb, s2), Section(ka, s3)];
    assert Keys(secs) == [ka, kb, ka];
    DistinctABA(ka, kb);
    GroupsABA(ka, kb, s1, s2, s3);
    DedupGroupsPair(secs, ka, kb);
    DistinctOne(s2);
  }

  lemma DistinctPair(p: string, q: string)
    ensures Distinct([p, q]) == if p == q then [p] else [p, q]
  {
    assert [p, q][..1] == [p];
    DistinctOne(p);
  }

  /** Under two different headings `a` and `b`, a later section under `a`
      is moved up next to the first one, ahead of the section under `b`;
      it is dropped when it repeats the first one. */
  lemma LaterSectionMovesUp(a: string, x: string, b: string, y: string, z: string)
    requires IsHeading(a) && IsHeading(b) && !IsHeading(x) && !IsHeading(y) && !IsHeading(z)
    requires Strip(a, Whitespace) != Strip(b, Whitespace)
    ensures x != z ==> Deduplicated([a, x] + [b, y] + [a, z]) == [a + x, a + z, b + y]
    ensures x == z ==> Deduplicated([a, x] + [b, y] + [a, z]) == [a + x, b + y]
  {
    var items := [a, x] + [b, y] + [a, z];
    assert Deduplicated(items) == Distinct([a + x, a + z]) + [b + y] by {
      var ka, kb := Strip(a, Whitespace), Strip(b, Whitespace);
      ExampleSections(a, x, b, y, z);
      DedupOfABA(items, ka, kb, a + x, b + y, a + z);
    }
    if x != z {
      assert a + x != a + z by {
        assert (a + x)[|a|..] == x;
        assert (a + z)[|a|..] == z;
      }
      assert Distinct([a + x, a + z]) == [a + x, a + z] by {
        DistinctPair(a + x, a + z);
      }
      assert [a + x, a + z] + [b + y] == [a + x, a + z, b + y];
    } else {
      assert Distinct([a + x, a + z]) == [a + x] by {
        DistinctPair(a + x, a + z);
      }
      assert [a + x] + [b + y] == [a + x, b + y];
    }
  }

  /** Blocks whose sections fall under `ka`, `kb`, `ka` deduplicate to the two
      `ka` texts without repeats, then the `kb` text. */
  lemma DedupOfABA(items: seq<string>, ka: string, kb: string, s1: string, s2: string, s3: string)
    requires ka != kb
    requires Sections(items) == [Section(ka, s1), Section(kb, s2), Section(ka, s3)]
    ensures Deduplicated(items) == Distinct([s1, s3]) + [s2]
  {
    DedupABA(ka, kb, s1, s2, s3);
  }

  /** Deduplication compares whole sections, not single blocks: a block
      repeated inside one section is kept both times. */
  lemma RepeatInsideSectionKept(a: string, x: string)
    requires IsHeading(a) && !IsHeading(x)
    ensures Deduplicated([a, x, x]) == [a + x + x]
  {
    var items := [a, x, x];
    assert Concat(items) == a + x + x by {
      assert items[1..] == [x, x];
      assert [x, x][1..] == [x];
      assert Concat([x]) == x + Concat([]);
    }
    assert Sections(items) == [Section(Strip(a, Whitespace), a + x + x)] by {
      SectionsStep(items, 0, 3);
      assert items[0..] == items && items[0..3] == items && items[3..] == [];
      assert Sections([]) == [];
    }
    OneSection(Strip(a, Whitespace), a + x + x);
  }

  /** A single section comes out as its text. */
  lemma OneSection(key: string, text: string)
    ensures var secs := [Section(key, text)]; DedupGroups(secs, Distinct(Keys(secs))) == [text]
  {
    var secs := [Section(key, text)];
    assert Keys(secs) == [key];
    DistinctOne(key);
    assert secs[..0] == [];
    assert Group(secs, key) == [text];
    DistinctOne(text);
    assert [key][..0] == [];
  }
}
