/**
 * `wiki_to_markdown`: the page's tree, without edit-section spans, is walked
 * in document order; every paragraph, heading, list and `div` met becomes a
 * Markdown block (nested ones too), the blocks are deduplicated by section,
 * and the table of contents of all headings met is put in front.
 */
module Converter {
  import opened Wrappers
  import opened Strings
  import opened Html
  import opened Headings
  import opened Inline
  import opened Toc
  import opened Dedup

  const HeadingNames: set<string> := {"h1", "h2", "h3", "h4", "h5", "h6"}

  /** The tags the converter visits. */
  const BlockNames: set<string> := HeadingNames + {"p", "ul", "ol", "div"}

  /** `name` is one of `h1` … `h6`. */
  predicate IsHeadingName(name: string)
  {
    |name| == 2 && name[0] == 'h' && '1' <= name[1] <= '6'
  }

  lemma HeadingNameIff(name: string)
    ensures name in HeadingNames <==> IsHeadingName(name)
  {
    if IsHeadingName(name) {
      assert name == ['h', name[1]];
    }
  }

  /** The digit of `h1` … `h6`. */
  function Level(name: string): (r: int)
    requires IsHeadingName(name)
    ensures 1 <= r <= 6
  {
    name[1] as int - '0' as int
  }

  /** A heading's title: its text, cleaned. */
  function HeadingTitle(el: Node): string
  {
    CleanTitle(GetText(el))
  }

  /** The table-of-contents entry a heading adds. */
  function HeadingEntry(el: Node): TocItem
    requires el.Elem? && IsHeadingName(el.name)
  {
    var title := HeadingTitle(el);
    TocItem(Level(el.name), title, CreateAnchor(title))
  }

  /** An `<li>` whose `.string` contains "contents" in any ASCII case. */
  predicate IsContentsItem(li: Node)
  {
    IsTag(li, "li") && StringOf(li).Some? && Contains(Lower(StringOf(li).value), "contents")
  }

  /** `element.find('li', text=re.compile('contents', re.IGNORECASE))` finds something. */
  predicate HasContentsItem(el: Node)
    requires el.Elem?
  {
    var lis := FindAll(el.children, {"li"});
    exists i :: 0 <= i < |lis| && IsContentsItem(lis[i])
  }

  /** `element.find_all('li', recursive=False)`: the `<li>` children. */
  function ItemChildren(cs: seq<Node>): (r: seq<Node>)
    ensures |r| <= |cs|
    ensures forall i :: 0 <= i < |r| ==> IsTag(r[i], "li")
    ensures forall n :: n in r <==> n in cs && IsTag(n, "li")
  {
    if cs == [] then []
    else (if IsTag(cs[0], "li") then [cs[0]] else []) + ItemChildren(cs[1..])
  }

  /** The `<li>` children are the children the name filter keeps for `{"li"}`,
      in the same order. */
  lemma {:induction false} ItemChildrenIsNamed(cs: seq<Node>)
    ensures ItemChildren(cs) == Named(cs, {"li"})
  {
    if cs != [] {
      ItemChildrenIsNamed(cs[1..]);
    }
  }

  function BulletLines(lis: seq<Node>): seq<string>
    requires forall i :: 0 <= i < |lis| ==> lis[i].Elem?
  {
    seq(|lis|, i requires 0 <= i < |lis| => "* " + ListItemMarkdown(lis[i]) + "\n")
  }

  function NumberedLines(lis: seq<Node>): seq<string>
    requires forall i :: 0 <= i < |lis| ==> lis[i].Elem?
  {
    seq(|lis|, i requires 0 <= i < |lis| => NatToString(i + 1) + ". " + ListItemMarkdown(lis[i]) + "\n")
  }

  /** The Markdown block of one visited element. */
  function Block(el: Node): string
    requires el.Elem?
  {
    if IsHeadingName(el.name) then Repeat("#", Level(el.name)) + " " + HeadingTitle(el) + "\n\n"
    else if el.name == "p" then ParagraphMarkdown(el)
    else if el.name == "ul" then
      if HasContentsItem(el) then "" else Concat(BulletLines(ItemChildren(el.children))) + "\n"
    else if el.name == "ol" then Concat(NumberedLines(ItemChildren(el.children))) + "\n"
    else GetText(el)
  }

  function Blocks(els: seq<Node>): seq<string>
    requires forall i :: 0 <= i < |els| ==> els[i].Elem?
  {
    seq(|els|, i requires 0 <= i < |els| => Block(els[i]))
  }

  /** The entry an element adds to the table of contents: one for a heading,
      none otherwise. */
  function EntryOf(el: Node): seq<TocItem>
  {
    if el.Elem? && IsHeadingName(el.name) then [HeadingEntry(el)] else []
  }

  /** The entries of the headings among `els`, in order. */
  function Entries(els: seq<Node>): seq<TocItem>
  {
    if els == [] then [] else EntryOf(els[0]) + Entries(els[1..])
  }

  /** The elements visited, in document order. */
  function Elements(doc: seq<Node>): seq<Node>
  {
    FindAll(RemoveEditSections(doc), BlockNames)
  }

  /** What `wiki_to_markdown` returns for a page with top-level nodes `doc`. */
  function WikiMarkdown(doc: seq<Node>): string
  {
    var els := Elements(doc);
    FindAllFound(RemoveEditSections(doc), BlockNames);
    "## Table of Contents\n\n" + TocText(Entries(els)) + Concat(Deduplicated(Blocks(els)))
  }

  // ------------------------------------------------------------- the methods

  /** `process_element`: the element's block, and the entry it adds to the
      table of contents when it is a heading. */
  method ProcessElement(el: Node) returns (md: string, entry: Option<TocItem>)
    requires el.Elem?
    ensures md == Block(el)
    ensures entry == if IsHeadingName(el.name) then Some(HeadingEntry(el)) else None
  {
    entry := None;
    if IsHeadingName(el.name) {
      var level := el.name[1] as int - '0' as int;
      var title := CleanTitle(GetText(el));
      var anchor := CreateAnchor(title);
      assert TocItem(level, title, anchor) == HeadingEntry(el);
      entry := Some(TocItem(level, title, anchor));
      md := Repeat("#", level) + " " + title + "\n\n";
    } else if el.name == "p" {
      md := ProcessParagraph(el);
    } else if el.name == "ul" {
      if HasContentsItem(el) {
        md := "";
      } else {
        md := BulletList(ItemChildren(el.children));
      }
    } else if el.name == "ol" {
      md := NumberedList(ItemChildren(el.children));
    } else {
      md := GetText(el);
    }
  }

  /** The `<ul>` case: one `* ` line per item, then an empty line. */
  method BulletList(lis: seq<Node>) returns (md: string)
    requires forall i :: 0 <= i < |lis| ==> lis[i].Elem?
    ensures md == Concat(BulletLines(lis)) + "\n"
  {
    var lines: seq<string> := [];
    for i := 0 to |lis|
      invariant lines == BulletLines(lis[..i])
    {
      var item := ProcessListItem(lis[i]);
      lines := lines + ["* " + item + "\n"];
    }
    assert lis[..|lis|] == lis;
    md := Concat(lines) + "\n";
  }

  /** The `<ol>` case: lines numbered from 1, then an empty line. */
  method NumberedList(lis: seq<Node>) returns (md: string)
    requires forall i :: 0 <= i < |lis| ==> lis[i].Elem?
    ensures md == Concat(NumberedLines(lis)) + "\n"
  {
    var lines: seq<string> := [];
    for i := 0 to |lis|
      invariant lines == NumberedLines(lis[..i])
    {
      var item := ProcessListItem(lis[i]);
      lines := lines + [NatToString(i + 1) + ". " + item + "\n"];
    }
    assert lis[..|lis|] == lis;
    md := Concat(lines) + "\n";
  }

  /** `wiki_to_markdown` on a page already parsed into the top-level nodes `doc`. */
  method WikiToMarkdown(doc: seq<Node>) returns (md: string)
    ensures md == WikiMarkdown(doc)
  {
    var soup := RemoveEditSections(doc);
    var elements := FindAll(soup, BlockNames);
    FindAllFound(soup, BlockNames);
    var markdownContent, tocItems := ProcessElements(elements);
    markdownContent := RemoveStructuralDuplicates(markdownContent);
    var toc := GenerateToc(tocItems);
    markdownContent := ["## Table of Contents\n\n" + toc] + markdownContent;
    md := Concat(markdownContent);
  }

  /** The loop of `wiki_to_markdown` over the visited elements: their blocks,
      and the entries of the headings among them, in order. */
  method ProcessElements(elements: seq<Node>) returns (markdownContent: seq<string>, tocItems: seq<TocItem>)
    requires forall i :: 0 <= i < |elements| ==> elements[i].Elem?
    ensures markdownContent == Blocks(elements)
    ensures tocItems == Entries(elements)
  {
    markdownContent, tocItems := [], [];
    for i := 0 to |elements|
      invariant markdownContent == Blocks(elements[..i])
      invariant tocItems == Entries(elements[..i])
    {
      var block, entry := ProcessElement(elements[i]);
      markdownContent := markdownContent + [block];
      if entry.Some? {
        tocItems := tocItems + [entry.value];
      }
      PrefixStep(elements, i);
    }
    assert elements[..|elements|] == elements;
  }

  /** One more element adds its block, and its entry when it is a heading. */
  lemma PrefixStep(elements: seq<Node>, i: nat)
    requires forall i :: 0 <= i < |elements| ==> elements[i].Elem?
    requires i < |elements|
    ensures Blocks(elements[..i + 1]) == Blocks(elements[..i]) + [Block(elements[i])]
    ensures Entries(elements[..i + 1]) == Entries(elements[..i]) + EntryOf(elements[i])
  {
    assert elements[..i + 1] == elements[..i] + [elements[i]];
    BlocksSnoc(elements[..i], elements[i]);
    EntriesAppend(elements[..i], [elements[i]]);
    EntriesOne(elements[i]);
  }

  // -------------------------------------------------------------- properties

  /** Every element `find_all` returns is a tag with one of the names asked for. */
  lemma FindAllFound(ns: seq<Node>, names: set<string>)
    ensures forall i :: 0 <= i < |FindAll(ns, names)| ==> FindAll(ns, names)[i].Elem? && FindAll(ns, names)[i].name in names
  {
    FindAllIsNamedTags(ns, names);
    NamedFound(Tags(ns), names);
  }

  lemma {:induction false} NamedFound(ts: seq<Node>, names: set<string>)
    ensures forall i :: 0 <= i < |Named(ts, names)| ==> Named(ts, names)[i].Elem? && Named(ts, names)[i].name in names
  {
    if ts != [] {
      NamedFound(ts[1..], names);
    }
  }

  lemma BlocksSnoc(els: seq<Node>, el: Node)
    requires forall i :: 0 <= i < |els| ==> els[i].Elem?
    requires el.Elem?
    ensures Blocks(els + [el]) == Blocks(els) + [Block(el)]
  {
    var l, r := Blocks(els + [el]), Blocks(els) + [Block(el)];
    assert |l| == |r|;
    forall k | 0 <= k < |l|
      ensures l[k] == r[k]
    {
      if k < |els| {
        assert (els + [el])[k] == els[k];
      }
    }
  }

  lemma EntriesOne(el: Node)
    ensures Entries([el]) == EntryOf(el)
  {
    assert [el][0] == el && [el][1..] == [];
    assert Entries([el]) == EntryOf(el) + Entries([]);
  }

  lemma {:induction false} EntriesAppend(a: seq<Node>, b: seq<Node>)
    ensures Entries(a + b) == Entries(a) + Entries(b)
  {
    if a == [] {
      assert a + b == b;
    } else {
      assert (a + b)[0] == a[0] && (a + b)[1..] == a[1..] + b;
      EntriesAppend(a[1..], b);
      assert Entries(a + b) == EntryOf(a[0]) + Entries(a[1..] + b);
    }
  }

  /** Keeping the heading names of a search for more names is a search for the headings. */
  lemma {:induction false} NamedNarrow(ts: seq<Node>, wide: set<string>, narrow: set<string>)
    requires narrow <= wide
    ensures Named(Named(ts, wide), narrow) == Named(ts, narrow)
  {
    if ts != [] {
      NamedNarrow(ts[1..], wide, narrow);
      var t := ts[0];
      var m := if t.Elem? && t.name in wide then [t] else [];
      NamedAppend(m, Named(ts[1..], wide), narrow);
      assert Named(m, narrow) == (if t.Elem? && t.name in narrow then [t] else []) by {
        if m != [] {
          assert Named(m, narrow) == (if t.name in narrow then [t] else []) + Named([], narrow);
        }
      }
    }
  }

  /** The entries of the headings among `els` are the entries of the headings
      found by a search for headings alone. */
  lemma {:induction false} EntriesOfHeadings(els: seq<Node>)
    ensures Entries(els) == Entries(Named(els, HeadingNames))
  {
    if els != [] {
      EntriesOfHeadings(els[1..]);
      var t := els[0];
      var m := if t.Elem? && t.name in HeadingNames then [t] else [];
      if t.Elem? {
        HeadingNameIff(t.name);
      }
      EntriesAppend(m, Named(els[1..], HeadingNames));
      if m != [] {
        assert Entries(m) == [HeadingEntry(t)] + Entries([]);
      }
    }
  }

  /** The table of contents has an entry for every heading of the page, in
      document order, whatever deduplication later drops: it is made from
      exactly the headings a search for `h1` … `h6` finds. */
  lemma TocListsEveryHeading(doc: seq<Node>)
    ensures Entries(Elements(doc)) == Entries(FindAll(RemoveEditSections(doc), HeadingNames))
  {
    var soup := RemoveEditSections(doc);
    FindAllIsNamedTags(soup, BlockNames);
    FindAllIsNamedTags(soup, HeadingNames);
    EntriesOfHeadings(Elements(doc));
    NamedNarrow(Tags(soup), BlockNames, HeadingNames);
    EntriesOfHeadings(FindAll(soup, HeadingNames));
    NamedTwice(Tags(soup), HeadingNames);
  }

  /** The page's Markdown opens with the "Table of Contents" heading followed
      by the table of contents of every heading found in the page. */
  lemma MarkdownOpensWithToc(doc: seq<Node>)
    ensures StartsWith(WikiMarkdown(doc),
      "## Table of Contents\n\n" + TocText(Entries(FindAll(RemoveEditSections(doc), HeadingNames))))
  {
    TocListsEveryHeading(doc);
    var head := "## Table of Contents\n\n" + TocText(Entries(Elements(doc)));
    assert WikiMarkdown(doc)[..|head|] == head;
  }

  lemma NamedTwice(ts: seq<Node>, names: set<string>)
    ensures Named(Named(ts, names), names) == Named(ts, names)
  {
    NamedNarrow(ts, names, names);
  }

  /** A heading `hN` becomes a block of exactly `N` `#` characters, a space and
      the cleaned title, so deduplication sees it as a heading. */
  lemma HeadingBlock(el: Node)
    requires el.Elem? && IsHeadingName(el.name)
    ensures var b := Block(el); var n := Level(el.name);
      |b| > n && b[..n] == Repeat("#", n) && b[n] == ' ' && IsHeading(b)
      && b[n + 1..] == HeadingTitle(el) + "\n\n"
  {
    var n := Level(el.name);
    HeadingLineShape(n, HeadingTitle(el));
  }

  /** The shape of a heading line: `n` hashes, a space, the title, a blank line. */
  lemma HeadingLineShape(n: nat, title: string)
    requires n >= 1
    ensures var b := Repeat("#", n) + " " + title + "\n\n";
      |b| > n && b[..n] == Repeat("#", n) && b[n] == ' ' && IsHeading(b)
      && b[n + 1..] == title + "\n\n"
  {
    var r := Repeat("#", n);
    var b := r + " " + title + "\n\n";
    assert b[..n] == r;
    assert b[n + 1..] == title + "\n\n";
    assert b[0] == '#';
  }

  /** `<ol>` items are numbered from 1: the first line starts with `1. `. */
  lemma OrderedListStartsAtOne(el: Node)
    requires el.Elem? && el.name == "ol" && ItemChildren(el.children) != []
    ensures var b := Block(el); |b| >= 3 && b[..3] == "1. "
  {
    var lis := ItemChildren(el.children);
    var lines := NumberedLines(lis);
    assert Block(el) == Concat(lines) + "\n" by {
      assert !IsHeadingName(el.name);
    }
    assert lines[0][..3] == "1. " by {
      assert NatToString(1) == "1";
      assert lines[0] == "1" + ". " + ListItemMarkdown(lis[0]) + "\n";
    }
    assert Concat(lines) == lines[0] + Concat(lines[1..]);
  }

  /** A `<div>` holding a paragraph is visited, and so is the paragraph, right
      after it: the page's text can appear twice. */
  lemma NestedParagraphVisited(divAttrs: seq<Attr>, pAttrs: seq<Attr>, cs: seq<Node>)
    requires NoEditSections(cs)
    ensures var p := Elem("p", pAttrs, cs); var d := Elem("div", divAttrs, [p]);
      Elements([d]) == [d, p] + FindAll(cs, BlockNames)
  {
    var p := Elem("p", pAttrs, cs);
    var d := Elem("div", divAttrs, [p]);
    assert RemoveEditSections([p]) == [p] by {
      RemoveEditSectionsKeepsClean(cs);
      assert !IsEditSection(p) by {
        assert p.name != "span";
      }
      assert RemoveEditSections([p]) == [RemoveEditSectionsIn(p)] + RemoveEditSections([]);
    }
    assert RemoveEditSections([d]) == [d] by {
      assert !IsEditSection(d) by {
        assert d.name != "span";
      }
      assert RemoveEditSections([d]) == [RemoveEditSectionsIn(d)] + RemoveEditSections([]);
    }
    assert FindAll([p], BlockNames) == [p] + FindAll(cs, BlockNames) + FindAll([], BlockNames);
    assert FindAll([d], BlockNames) == [d] + FindAll([p], BlockNames) + FindAll([], BlockNames);
  }

  /** A `<ul>` with an item reading "Contents" is the page's own table of
      contents and is dropped. */
  lemma ContentsListDropped(ulAttrs: seq<Attr>, liAttrs: seq<Attr>, before: seq<Node>, after: seq<Node>)
    ensures var li := Elem("li", liAttrs, [Text("Contents")]);
      Block(Elem("ul", ulAttrs, before + [li] + after)) == ""
  {
    var li := Elem("li", liAttrs, [Text("Contents")]);
    var cs := before + [li] + after;
    assert Lower("Contents") == "contents";
    assert OccursAt("contents", "contents", 0);
    assert IsContentsItem(li);
    FindAllAppend(before + [li], after, {"li"});
    FindAllAppend(before, [li], {"li"});
    assert FindAll([li], {"li"}) == [li] + FindAll([Text("Contents")], {"li"}) + FindAll([], {"li"});
    var lis := FindAll(cs, {"li"});
    assert lis[|FindAll(before, {"li"})|] == li;
  }
}
