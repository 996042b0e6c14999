# wiki2confluence, modelled in Dafny

wiki2confluence moves a MediaWiki site into Confluence. This project models
its two pieces of real logic and proves what they promise.

- **The Markdown converter.** `WikiConverter.wiki_to_markdown` works on a page's HTML. It does the following:
  - drops the `mw-editsection` spans;
  - visits every `p`, `h1`…`h6`, `ul`, `ol` and `div` in document order, nested ones included;
  - turns each one into a Markdown block;
  - cuts the blocks into sections at every heading block;
  - keeps each section once per heading, grouped by the order in which headings first appear;
  - puts a table of contents of every heading in front.

  The helpers are modelled too: `clean_title`, `create_anchor`, `process_paragraph`, `process_list_item` and `generate_toc`.
- **The directory mapper.** It has these parts:
  - `WikiStructure` is a tree of `WikiPage` records, with `add_page` and a pre-order `get_page`.
  - `DirectoryMapper` walks the wiki's link graph depth first, with a shared `visited` set, and files every page it can fetch under the page whose links led to it.
  - The two `sanitize_filename` functions turn page titles into file names.
  - `print_structure` is the indented listing of the tree.

Files and modules:

| file | module | models |
|---|---|---|
| `wrappers.dfy` | `Wrappers` | `Option` |
| `strings.dfy` | `Strings` | `''.join`, `str * n`, `startswith`, `in`, `replace`, `lower` (ASCII), `strip`, `str(n)` |
| `html.dfy` | `Html` | the parsed HTML tree; `get`, `get_text`, `.string`, `str(tag)`, `find_all`, `decompose` of edit-section spans |
| `headings.dfy` | `Headings` | `clean_title`, `create_anchor` |
| `inline.dfy` | `Inline` | `process_paragraph`, `process_list_item` |
| `toc.dfy` | `Toc` | `generate_toc` |
| `dedup.dfy` | `Dedup` | `remove_structural_duplicates` |
| `converter.dfy` | `Converter` | `process_element`, `wiki_to_markdown` |
| `models.dfy` | `PageTree` | `WikiPage`, `WikiStructure` |
| `mapper.dfy` | `Mapper` | `DirectoryMapper` |
| `filenames.dfy` | `FileSystemHandler` | `FileSystemHandler.sanitize_filename` |
| `utils.dfy` | `Utils` | `utils.sanitize_filename`, `print_structure` |

How the model is built:

- **Converter.** Each loop of the converter is a `method`, and each method is proved equal to a function on the same inputs. For example, `Dedup.RemoveStructuralDuplicates` returns `Dedup.Deduplicated(content)`. The lemmas then state what those functions promise.
- **Page tree.** Python objects and references become an arena:
  - every `WikiPage` ever created is an entry of `WikiStructure.nodes`;
  - a page's `children` and the structure's `pages` hold indices into it;
  - a page is always created before anything is filed under it, so every child index is larger than its parent's index. This is `PageTree.Ordered`. It makes the tree acyclic and gives the pre-order walks their termination measure.
- **Mapper.** The network fetch is the map `site`:
  - a title in the map fetches successfully, with its content and its links in order;
  - any other title fails to fetch.

  The ghost log `fetched` records every title fetched. The loop of `_map_page` over a page's links is the method `MapLinks`, which calls `MapPage` for each link. The mapper terminates on any link graph, cyclic or not: each call of `MapLinks` starts with a strictly larger `visited` set among the finitely many titles `site` knows, and `MapPage` is measured by the same set.

  A run of `map_wiki_structure` fetches exactly the titles reachable from the start page by following links (`Mapper.Reachable`), and each reachable title the site serves becomes a page.

## Model

| member | source | states |
|---|---|---|
| Headings.TagEnd | wiki2confluence/wiki_converter.py:9 | the lazy `<.*?>` match from an opening `<`: the first `>` with no newline before it, or none when every later `>` has a newline before it |
| Headings.StripTagsLeavesNoTag | wiki2confluence/wiki_converter.py:9 | after the substitution no `<`…`>` span without a newline is left |
| Headings.StripTagsFixesNoTag | wiki2confluence/wiki_converter.py:9 | text with no such span is unchanged by the substitution |
| Headings.StripTagsWithoutOpen | wiki2confluence/wiki_converter.py:9 | text without `<` is unchanged by the substitution |
| Headings.StripTagsKeepsClosersAfterNewline | wiki2confluence/wiki_converter.py:9 | removing spans keeps every unmatched `>` separated from a `<` by a newline |
| Headings.CleanTitleNoTag | wiki2confluence/wiki_converter.py:7-12 | a cleaned title holds no `<`…`>` span without a newline |
| Headings.CleanTitleTrimmed | wiki2confluence/wiki_converter.py:7-12 | a cleaned title neither begins nor ends with whitespace |
| Headings.CleanTitleOnlyTrims | wiki2confluence/wiki_converter.py:7-12 | a title without `<` is only stripped of surrounding whitespace |
| Headings.CleanTitleIdempotent | wiki2confluence/wiki_converter.py:7-12 | cleaning a cleaned title changes nothing |
| Headings.CollapseRuns | wiki2confluence/wiki_converter.py:17 | every character left is a letter, digit or `-`, and is either `-` or taken from the input |
| Headings.CollapseRunsRun | wiki2confluence/wiki_converter.py:17 | a maximal run of characters outside `[a-zA-Z0-9-]` becomes exactly one `-` |
| Headings.CollapseRunsKeepsAnchorText | wiki2confluence/wiki_converter.py:17 | text made only of letters, digits and `-` passes unchanged |
| Headings.CollapsedIsSlug | wiki2confluence/wiki_converter.py:17 | after lowering, only `a-z`, `0-9` and `-` remain |
| Headings.AnchorShape | wiki2confluence/wiki_converter.py:15-17 | an anchor holds only `a-z`, `0-9` and `-`, and neither begins nor ends with `-` |
| Headings.AnchorIdempotent | wiki2confluence/wiki_converter.py:15-17 | the anchor of an anchor is the anchor itself |
| Headings.AnchorKeepsDashes | wiki2confluence/wiki_converter.py:17 | existing dashes are kept: `"a - b"` gives `"a---b"` |
| Inline.ProcessParagraph | wiki2confluence/wiki_converter.py:64-80 | the loop gives one piece per child, in order, joined, then `"\n\n"` |
| Inline.ProcessListItem | wiki2confluence/wiki_converter.py:83-95 | the loop gives one piece per child, in order, joined, with no terminator |
| Inline.LinkFormIff | wiki2confluence/wiki_converter.py:67-73 | an `<a>` is written `[text](href)` exactly when its `href` (missing counts as `''`) starts with `http` |
| Inline.PlainChildrenGiveText | wiki2confluence/wiki_converter.py:78-79 | children that are neither links nor images contribute their markup; for plain text that is the text itself |
| Inline.ParagraphIsListItemWithoutImages | wiki2confluence/wiki_converter.py:64-95 | without `<img>` children, a paragraph's pieces and a list item's pieces agree |
| Inline.ParagraphAppend | wiki2confluence/wiki_converter.py:66-80 | a paragraph's pieces are the pieces of its children, one after the other |
| Inline.ParagraphEndsWithBlankLine | wiki2confluence/wiki_converter.py:80 | a paragraph's Markdown ends with `"\n\n"` |
| Html.GetAttr | wiki2confluence/wiki_converter.py:68 | `get(key, default)` returns the default exactly when no attribute is named `key`, and otherwise the value of the last attribute with that name |
| Html.FindAllIsNamedTags | wiki2confluence/wiki_converter.py:51 | `find_all` is the pre-order list of all tags, filtered by name |
| Html.FindAllAppend | wiki2confluence/wiki_converter.py:51 | `find_all` over two runs of nodes is the result for the first, then for the second |
| Html.RemoveEditSectionsLeavesNone | wiki2confluence/wiki_converter.py:24-25 | after the removal no `span` with class `mw-editsection` remains anywhere in the tree |
| Html.RemoveEditSectionsKeepsClean | wiki2confluence/wiki_converter.py:24-25 | a tree without such spans is left as it is |
| Toc.GenerateToc | wiki2confluence/wiki_converter.py:98-104 | the loop gives the lines of the listed entries, then `"\n"` |
| Toc.TocLinesAreListedEntries | wiki2confluence/wiki_converter.py:100-103 | one line per entry whose lowered title is not `contents`, in input order, each `"  "*(level-1) + "- [title](#anchor)\n"` |
| Toc.TocOfUnlisted | wiki2confluence/wiki_converter.py:98-104 | with no listed entry, including no entry at all, the table is just `"\n"` |
| Toc.ListedIff | wiki2confluence/wiki_converter.py:101 | an entry is left out exactly when its title, lowered, is the eight letters `contents` |
| Toc.TocLinesAppend | wiki2confluence/wiki_converter.py:100-103 | the table of a concatenation is the tables of the parts in order |
| Strings.Repeat | wiki2confluence/wiki_converter.py:102 | `"  " * n` has `n` times the length of the string, and none when `n <= 0`, and holds only its characters |
| Strings.NatToString | wiki2confluence/wiki_converter.py:46 | the printed number is at least one character, all decimal digits, with a leading `0` only for zero |
| Strings.NatToStringValue | wiki2confluence/wiki_converter.py:46 | the digits of `str(n)` read back as `n` |
| Strings.StripEnds | wiki2confluence/wiki_converter.py:11 | what `strip` keeps neither begins nor ends with a stripped character |
| Strings.StripIdempotent | wiki2confluence/wiki_converter.py:116 | stripping twice is stripping once, so a heading key is its own key |
| Dedup.RunEnd | wiki2confluence/wiki_converter.py:112-119 | a section runs up to the next block starting with `#`, or the end |
| Dedup.Distinct | wiki2confluence/wiki_converter.py:128 | `dict.fromkeys` keeps the same elements, each once, at most as many as given |
| Dedup.DistinctKeepsFirstOrder | wiki2confluence/wiki_converter.py:128 | what `dict.fromkeys` keeps comes in the order of each element's first occurrence in the input |
| Dedup.CollectSections | wiki2confluence/wiki_converter.py:108-123 | the first loop fills the dictionary with every section's text under its stripped heading, keys in `Distinct` order, which is first-appearance order (`Dedup.DistinctKeepsFirstOrder`) |
| Dedup.RemoveStructuralDuplicates | wiki2confluence/wiki_converter.py:107-131 | the result is each heading's group in key order, without repeats |
| Dedup.ScanNextHeading | wiki2confluence/wiki_converter.py:113-117 | a heading closes the open section and opens its own |
| Dedup.ScanEnd | wiki2confluence/wiki_converter.py:121-123 | at the end the open section, if any, is the last section |
| Dedup.HeadingKeyNonEmpty | wiki2confluence/wiki_converter.py:114-116 | a stripped heading is never empty, so `current_heading` is truthy once a heading is met |
| Dedup.SectionsSkip | wiki2confluence/wiki_converter.py:112-119 | blocks before the first heading belong to no section |
| Dedup.SectionsHeaded | wiki2confluence/wiki_converter.py:113-117 | every section text starts with its heading block |
| Dedup.NoHeadingNoOutput | wiki2confluence/wiki_converter.py:112-131 | input with no heading block yields an empty list |
| Dedup.OutputsAreSectionTexts | wiki2confluence/wiki_converter.py:125-131 | a string is in the result exactly when it is the text of some section, and it starts with `#` |
| Dedup.RepeatedContent | wiki2confluence/wiki_converter.py:107-131 | content given twice over, starting with a heading, deduplicates to the content given once |
| Dedup.SectionsAppend | wiki2confluence/wiki_converter.py:112-123 | the sections of blocks cut before a heading are the sections of each part, in order |
| Dedup.DedupGroupsMembers | wiki2confluence/wiki_converter.py:127-129 | a text is in the extended list exactly when some section under one of the visited keys has it |
| Dedup.DedupGroupsTwice | wiki2confluence/wiki_converter.py:127-129 | every section given twice over leaves the deduplicated groups unchanged |
| Dedup.ExampleSections | wiki2confluence/wiki_converter.py:112-123 | the blocks `a x b y a z`, `a` and `b` headings, make the three sections `a+x`, `b+y`, `a+z` |
| Dedup.LaterSectionMovesUp | wiki2confluence/wiki_converter.py:125-131 | for `a x b y a z`, the second `a` section moves up beside the first, ahead of `b`, and is dropped when it repeats the first |
| Dedup.RepeatInsideSectionKept | wiki2confluence/wiki_converter.py:112-128 | a block repeated within one section is kept both times: whole sections are compared |
| Converter.HeadingNameIff | wiki2confluence/wiki_converter.py:31 | the names `h1`…`h6` are exactly `h` followed by a digit 1 to 6 |
| Converter.Level | wiki2confluence/wiki_converter.py:32 | a heading's level is between 1 and 6 |
| Converter.ItemChildren | wiki2confluence/wiki_converter.py:43 | `find_all('li', recursive=False)` keeps a node if and only if it is an `li` child; that it keeps them in order is `Converter.ItemChildrenIsNamed` |
| Converter.ItemChildrenIsNamed | wiki2confluence/wiki_converter.py:43 | the `li` children are exactly what the name filter `Html.Named` keeps for `{"li"}`, in the same order |
| Converter.ProcessElement | wiki2confluence/wiki_converter.py:30-48 | the dispatch gives the element's block, and a table-of-contents entry exactly for headings |
| Converter.BulletList | wiki2confluence/wiki_converter.py:43-44 | one `* item\n` line per `li` child, then `"\n"` |
| Converter.NumberedList | wiki2confluence/wiki_converter.py:46 | one `n. item\n` line per `li` child, numbered from 1, then `"\n"` |
| Converter.ProcessElements | wiki2confluence/wiki_converter.py:51-52 | the loop gives one block per visited element, in order, and the entries of the headings among them |
| Converter.WikiToMarkdown | wiki2confluence/wiki_converter.py:20-61 | the result is the contents heading, the table, then the deduplicated blocks joined |
| Converter.MarkdownOpensWithToc | wiki2confluence/wiki_converter.py:58-61 | the output starts with `"## Table of Contents\n\n"` and the table of every heading in the page |
| Converter.TocListsEveryHeading | wiki2confluence/wiki_converter.py:51-58 | the table is built from every heading, in document order, whatever deduplication later drops |
| Converter.HeadingBlock | wiki2confluence/wiki_converter.py:36 | `hN` gives exactly `N` `#` characters, a space, the cleaned title and `"\n\n"`, so it starts a section |
| Converter.OrderedListStartsAtOne | wiki2confluence/wiki_converter.py:46 | an `<ol>` with items starts with `1. ` |
| Converter.ContentsListDropped | wiki2confluence/wiki_converter.py:39-42 | a `<ul>` with an `li` reading "Contents" gives `""` |
| Converter.NestedParagraphVisited | wiki2confluence/wiki_converter.py:51 | a `<div>` and the `<p>` inside it are both visited, the `div` first |
| PageTree.WikiStructure.constructor | wiki2confluence/directory_mapper/models.py:7-9 | a new structure has no pages |
| PageTree.WikiStructure.NewPage | wiki2confluence/directory_mapper/models.py:1-5 | a new page has its title, its content and no children; nothing else changes |
| PageTree.WikiStructure.AddPage | wiki2confluence/directory_mapper/models.py:11-15 | without a parent the page is the last root and no node changes; with one it is the parent's last child and the roots stay |
| PageTree.WikiStructure.GetPage | wiki2confluence/directory_mapper/models.py:17-18 | the first page in pre-order with the title; a page with that title; `None` exactly when no root or descendant has it; the structure is not changed |
| PageTree.WikiStructure.FindPage | wiki2confluence/directory_mapper/models.py:20-27 | the first match along the pre-order walk of the given pages |
| PageTree.Walk | wiki2confluence/directory_mapper/models.py:20-27 | the pre-order walk meets only existing pages, at indices from `lo` on; that it meets every given page is `PageTree.RootsVisited` |
| PageTree.FirstHit | wiki2confluence/directory_mapper/models.py:21-23 | no page before the returned position has the title, and the one at it does |
| PageTree.FoundAppend | wiki2confluence/directory_mapper/models.py:21-27 | a search along two walks answers from the first when it can, else from the second |
| PageTree.FoundAtPage | wiki2confluence/directory_mapper/models.py:22-23 | a page is tested before its children |
| PageTree.FoundBelowPage | wiki2confluence/directory_mapper/models.py:24-26 | a match in a page's subtree beats every later sibling |
| PageTree.NotFoundThroughPage | wiki2confluence/directory_mapper/models.py:21-26 | no match at a page or below moves the search to the next sibling |
| PageTree.WalkAppend | wiki2confluence/directory_mapper/models.py:21 | the walk of two runs of pages is their walks one after the other |
| PageTree.RootAddedIsFound | wiki2confluence/directory_mapper/models.py:11-18 | a root added with a title no page had is what `get_page` then finds |
| PageTree.RootsVisited | wiki2confluence/directory_mapper/models.py:20-23 | every root is visited, at the roots' depth |
| Mapper.DirectoryMapper.constructor | wiki2confluence/directory_mapper/mapper.py:6-10 | the mapper starts with an empty structure of its own |
| Mapper.DirectoryMapper.MapWikiStructure | wiki2confluence/directory_mapper/mapper.py:12-18 | the start page is fetched first; no title is fetched twice; the titles fetched are exactly those reachable from the start page through links; every reachable title the site serves becomes a new page; earlier pages stay; a fetchable start page is one more root; new pages carry fetched titles and content and hang under earlier new pages that link to them |
| Mapper.DirectoryMapper.MapPage | wiki2confluence/directory_mapper/mapper.py:20-37 | a visited title changes nothing; otherwise it is marked visited and fetched once; a failed fetch adds nothing; a fetched page is added under `parent` with its content, and exactly the newly visited titles the site has become new pages, each once; every link of every newly visited page the site serves is visited (`Closed`), and every newly visited title is reachable from `title` (`Reached`) |
| Mapper.DirectoryMapper.MapLinks | wiki2confluence/directory_mapper/mapper.py:36-37 | after the loop every link of the fetched page is visited, the titles visited on the way are closed under links and reached from the page, and the pages they added are filed below it, each under an earlier new page whose links name it (`Mapper.Progress` at the last link) |
| Mapper.LinkMapped | wiki2confluence/directory_mapper/mapper.py:36-37 | mapping one more link keeps the loop's state (`Mapper.Progress`) and adds that link to the visited links |
| Mapper.ClosedStep | wiki2confluence/directory_mapper/mapper.py:36-37 | the titles visited while mapping one link are closed under links and reached from the page through that link |
| Mapper.ClosedFinish | wiki2confluence/directory_mapper/mapper.py:36-37 | once all its links are visited, the fetched page itself is closed under links |
| Mapper.ClosedHoldsPath | wiki2confluence/directory_mapper/mapper.py:16-17 | a visited set closed under links that holds the start of a chain of links holds its end |
| Mapper.VisitedAreReachable | wiki2confluence/directory_mapper/mapper.py:16-17 | a visited set that starts at `start`, is closed under links and is reached from `start` is exactly the set of titles reachable from `start` |
| Mapper.Started | wiki2confluence/directory_mapper/mapper.py:33-34 | creating and filing the fetched page adds exactly that page, titled as fetched |
| Mapper.Step | wiki2confluence/directory_mapper/mapper.py:36-37 | after each link is mapped, every earlier page is kept and every new page is still fresh and linked |
| Mapper.LoggedOne | wiki2confluence/directory_mapper/mapper.py:27-28 | fetching an unvisited title adds it once to the log and to `visited` |
| Mapper.LoggedTrans | wiki2confluence/directory_mapper/mapper.py:36-37 | titles fetched in two stretches are fetched once over both |
| FileSystemHandler.DropInvalid | wiki2confluence/directory_mapper/file_system_handler.py:8-9 | no refused character is left, and the result is no longer than the input |
| FileSystemHandler.DropInvalidCounts | wiki2confluence/directory_mapper/file_system_handler.py:8-9 | every accepted character is kept as often as it occurs, refused ones never |
| FileSystemHandler.DropInvalidAppend | wiki2confluence/directory_mapper/file_system_handler.py:9 | deletion works piece by piece, so kept characters keep their order |
| FileSystemHandler.Underscored | wiki2confluence/directory_mapper/file_system_handler.py:11 | `replace(' ', '_')`: each space becomes `_`, every other character stays where it was, same length |
| FileSystemHandler.SanitizeFilename | wiki2confluence/directory_mapper/file_system_handler.py:6-13 | at most 255 characters, none of the nine characters Windows refuses, no space |
| FileSystemHandler.SanitizeValid | wiki2confluence/directory_mapper/file_system_handler.py:8-13 | an acceptable name of at most 255 characters comes back unchanged |
| FileSystemHandler.SanitizeIdempotent | wiki2confluence/directory_mapper/file_system_handler.py:8-13 | sanitising twice equals sanitising once |
| FileSystemHandler.SanitizeIgnoresTail | wiki2confluence/directory_mapper/file_system_handler.py:13 | once 255 characters are kept, whatever follows is cut off |
| Strings.ReplaceOneChar | wiki2confluence/directory_mapper/utils.py:23 | `str.replace` with a one-character pattern and replacement maps each character on its own, keeping the length |
| Strings.ReplaceAbsent | wiki2confluence/directory_mapper/utils.py:23 | text in which the pattern does not occur comes back unchanged |
| Utils.Underscored | wiki2confluence/directory_mapper/utils.py:22-23 | every listed character becomes `_`, the rest stays, same length |
| Utils.SanitizeFilename | wiki2confluence/directory_mapper/utils.py:17-25 | the loop replaces the nine characters in turn, then dots and spaces are trimmed |
| Utils.SanitizedHasNoReplaced | wiki2confluence/directory_mapper/utils.py:22-23 | the result holds none of the nine replaced characters |
| Utils.SanitizedEnds | wiki2confluence/directory_mapper/utils.py:25 | the result is no longer than the input and neither begins nor ends with `.` or space |
| Utils.SanitizedIdempotent | wiki2confluence/directory_mapper/utils.py:22-25 | sanitising twice equals sanitising once |
| Utils.PrintLinesFollowWalk | wiki2confluence/directory_mapper/utils.py:3-6 | one line per page in pre-order, the `k`-th being `"  "*depth + "- " + title` of the `k`-th page met, with roots at the given level |

## Left out

- HTML parsing is not modelled. The converter starts from an already-parsed tree (`Html.Node`), as `BeautifulSoup(html_content, 'html.parser')` would build it. Comments and doctype nodes are not represented. A tag may list an attribute twice; `get` then answers with the last value, as `html.parser` keeps the last one.
- `str(child)` is modelled after BeautifulSoup's minimal formatter: text escapes `&`, `<` and `>`, attribute values are quoted, and empty void tags are written as `<br/>`. The model differs from the library in two ways. BeautifulSoup keeps a tag's attributes in a dictionary, so an attribute listed twice is written once, with its last value, at its first position; `Html.TagMarkup` writes it twice. BeautifulSoup also re-joins a multi-valued attribute such as `class` with single spaces; the model keeps it as one string, as it appears in the page.
- Text inside `<script>`, `<style>`, `<template>`, `<rt>` and `<rp>` is not told apart from other text. BeautifulSoup (4.10 and later) gives such text its own string kinds. `get_text()` skips those kinds by default, while `Html.GetText` includes all text. So a heading title (wiki_converter.py:33), link text (wiki_converter.py:69, 88) or the text of an unlisted element (wiki_converter.py:48) that contains such a tag comes out differently; an example is a MediaWiki TemplateStyles `<style>` inside a `div`. For the same reason `str(child)` writes the text of `<script>` and `<style>` unescaped, while `Html.TagMarkup` escapes all text.
- `lower()` is modelled on ASCII letters only. Other characters are left as they are. The same holds for the contents-list test: `re.IGNORECASE` at wiki_converter.py:41 matches by Unicode case folding (for example `ſ` matches `s`), while `Converter.IsContentsItem` compares after the ASCII-only `Lower`.
- `save_to_markdown` is not modelled: it writes a file and prints.
- `_get_page_info` is not modelled: it makes an HTTP request and parses JSON. It is replaced by the map `site`, where a missing title is a failed fetch.
- The `WikiAPI` object built in the `DirectoryMapper` constructor is not modelled, and neither are `api_url` and `verify_ssl`. As written, the constructor cannot finish: directory_mapper/mapper.py:10 passes `verify_ssl=` to `WikiAPI`, whose `__init__` (wiki_api.py:4) takes only `api_url`, so the call raises `TypeError`. `Mapper.DirectoryMapper.constructor` models what the constructor evidently means to do: an empty structure.
- Python's recursion limit (1000 frames by default) is not modelled. `_map_page` (mapper.py:36-37), `_find_page` (models.py:24-26) and `print_structure` (utils.py:3-6) recurse once per level of depth, so on a chain of links or pages about 1000 deep the source raises `RecursionError`. The model has no such limit and maps, finds and lists everything.
- `FileSystemHandler.create_directory_structure`, `_create_page_file` and `utils.verify_structure` are not modelled: they write to or walk the file system.
- `print_structure` returns its lines instead of printing them.
- The command-line scripts, the page collector and the Confluence client are not modelled: they are plumbing around the network and the file system.
- Mapper.DirectoryMapper.MapPage: `visited` is returned to the caller instead of being one set mutated in place. The effect is the same: each call receives the set its predecessor left.
- Mapper.DirectoryMapper.MapPage: the contract says each new page hangs under an earlier new page whose links name it. It does not say that this page is the first such page in depth-first order. It does not state the order of a page's children either.
- Mapper.DirectoryMapper.MapWikiStructure: the same weakening as `MapPage` for where each page is filed.
- Mapper.DirectoryMapper.MapLinks: the same weakening as `MapPage` for where each page is filed. The contract says each page added while the links are mapped hangs under an earlier new page whose links name it. It does not say that the page for each link becomes the next child of the fetched page, in link order, as mapper.py:36-37 does.
- PageTree.WikiStructure.AddPage: requires the parent to have been created before the page (a smaller index). The source accepts any pair of pages, but its only caller, the mapper, always files a new page under an older one.
- The source's `if current_heading:` test is modelled with `""` for `None`. This is exact because a stripped heading is never empty (`Dedup.HeadingKeyNonEmpty`).
- Structural deduplication follows the code: it compares whole sections (a heading block joined with the blocks up to the next heading), not single blocks. Two identical paragraphs under one heading are both kept (`Dedup.RepeatInsideSectionKept`).
