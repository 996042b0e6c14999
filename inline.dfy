/**
 * Rendering the children of a `<p>` and of an `<li>` as inline Markdown:
 * links, images and everything else as its markup.
 */
module Inline {
  import opened Strings
  import opened Html

  /** An `<a>`: a Markdown link when its `href` (missing counts as empty)
      starts with `http`, its bare text otherwise. */
  function LinkPiece(a: Node): string
    requires a.Elem?
  {
    var href := GetAttr(a.attrs, "href", "");
    if StartsWith(href, "http") then "[" + GetText(a) + "](" + href + ")" else GetText(a)
  }

  /** An `<img>`: a Markdown image from `alt` and `src`, missing ones empty. */
  function ImagePiece(img: Node): string
    requires img.Elem?
  {
    "![" + GetAttr(img.attrs, "alt", "") + "](" + GetAttr(img.attrs, "src", "") + ")"
  }

  /** What one child of a paragraph contributes. */
  function ParagraphPiece(c: Node): string
  {
    if IsTag(c, "a") then LinkPiece(c)
    else if IsTag(c, "img") then ImagePiece(c)
    else Markup(c)
  }

  /** What one child of a list item contributes: images are not special. */
  function ListItemPiece(c: Node): string
  {
    if IsTag(c, "a") then LinkPiece(c) else Markup(c)
  }

  function ParagraphPieces(cs: seq<Node>): (r: seq<string>)
    ensures |r| == |cs|
  {
    seq(|cs|, i requires 0 <= i < |cs| => ParagraphPiece(cs[i]))
  }

  function ListItemPieces(cs: seq<Node>): (r: seq<string>)
    ensures |r| == |cs|
  {
    seq(|cs|, i requires 0 <= i < |cs| => ListItemPiece(cs[i]))
  }

  /** The Markdown of a paragraph: its pieces, then a blank line. */
  function ParagraphMarkdown(p: Node): string
    requires p.Elem?
  {
    Concat(ParagraphPieces(p.children)) + "\n\n"
  }

  /** The Markdown of a list item: its pieces, with no terminator. */
  function ListItemMarkdown(li: Node): string
    requires li.Elem?
  {
    Concat(ListItemPieces(li.children))
  }

  /** `process_paragraph`: one piece per child, in order, joined, then a blank line. */
  method ProcessParagraph(p: Node) returns (md: string)
    requires p.Elem?
    ensures md == ParagraphMarkdown(p)
  {
    var content: seq<string> := [];
    for i := 0 to |p.children|
      invariant content == ParagraphPieces(p.children[..i])
    {
      var child := p.children[i];
      var piece;
      if IsTag(child, "a") {
        var href := GetAttr(child.attrs, "href", "");
        var text := GetText(child);
        if StartsWith(href, "http") {
          piece := "[" + text + "](" + href + ")";
        } else {
          piece := text;
        }
      } else if IsTag(child, "img") {
        var src := GetAttr(child.attrs, "src", "");
        var alt := GetAttr(child.attrs, "alt", "");
        piece := "![" + alt + "](" + src + ")";
      } else {
        piece := Markup(child);
      }
      assert p.children[..i + 1] == p.children[..i] + [child];
      content := content + [piece];
    }
    assert p.children[..|p.children|] == p.children;
    md := Concat(content) + "\n\n";
  }

  /** `process_list_item`: one piece per child, in order, joined. */
  method ProcessListItem(li: Node) returns (md: string)
    requires li.Elem?
    ensures md == ListItemMarkdown(li)
  {
    var content: seq<string> := [];
    for i := 0 to |li.children|
      invariant content == ListItemPieces(li.children[..i])
    {
      var child := li.children[i];
      var piece;
      if IsTag(child, "a") {
        var href := GetAttr(child.attrs, "href", "");
        var text := GetText(child);
        if StartsWith(href, "http") {
          piece := "[" + text + "](" + href + ")";
        } else {
          piece := text;
        }
      } else {
        piece := Markup(child);
      }
      assert li.children[..i + 1] == li.children[..i] + [child];
      content := content + [piece];
    }
    assert li.children[..|li.children|] == li.children;
    md := Concat(content);
  }

  /** A link is written in link form exactly when its `href` starts with `http`. */
  lemma LinkFormIff(a: Node)
    requires a.Elem?
    ensures var href := GetAttr(a.attrs, "href", "");
      LinkPiece(a) == "[" + GetText(a) + "](" + href + ")" <==> StartsWith(href, "http")
  {
    var href := GetAttr(a.attrs, "href", "");
    if !StartsWith(href, "http") {
      assert |LinkPiece(a)| < |"[" + GetText(a) + "](" + href + ")"|;
    }
  }

  /** No child is a link to `http…` or an image, and every child that is a
      tag is a link: the Markdown is then exactly the text of the children. */
  predicate PlainChild(c: Node)
  {
    c.Text? || (IsTag(c, "a") && !StartsWith(GetAttr(c.attrs, "href", ""), "http"))
  }

  lemma {:induction false} PlainChildrenGiveText(cs: seq<Node>)
    requires forall i :: 0 <= i < |cs| ==> PlainChild(cs[i])
    ensures Concat(ParagraphPieces(cs)) == TextOf(cs)
    ensures Concat(ListItemPieces(cs)) == TextOf(cs)
  {
    if cs != [] {
      PlainChildrenGiveText(cs[1..]);
      assert ParagraphPieces(cs)[1..] == ParagraphPieces(cs[1..]);
      assert ListItemPieces(cs)[1..] == ListItemPieces(cs[1..]);
    }
  }

  /** A paragraph without images renders as the list item with the same
      children, followed by a blank line. */
  lemma {:induction false} ParagraphIsListItemWithoutImages(cs: seq<Node>)
    requires forall i :: 0 <= i < |cs| ==> !IsTag(cs[i], "img")
    ensures Concat(ParagraphPieces(cs)) == Concat(ListItemPieces(cs))
  {
    if cs != [] {
      ParagraphIsListItemWithoutImages(cs[1..]);
      assert ParagraphPieces(cs)[1..] == ParagraphPieces(cs[1..]);
      assert ListItemPieces(cs)[1..] == ListItemPieces(cs[1..]);
    }
  }

  /** Children are rendered one after another: the pieces of two runs of
      children are the pieces of the first run, then those of the second. */
  lemma ParagraphAppend(a: seq<Node>, b: seq<Node>)
    ensures Concat(ParagraphPieces(a + b)) == Concat(ParagraphPieces(a)) + Concat(ParagraphPieces(b))
  {
    var pa, pb, p := ParagraphPieces(a), ParagraphPieces(b), ParagraphPieces(a + b);
    assert forall i :: 0 <= i < |a| ==> p[i] == pa[i] by {
      assert forall i :: 0 <= i < |a| ==> (a + b)[i] == a[i];
    }
    assert forall i :: |a| <= i < |a| + |b| ==> p[i] == pb[i - |a|] by {
      assert forall i :: |a| <= i < |a| + |b| ==> (a + b)[i] == b[i - |a|];
    }
    assert p == pa + pb;
    ConcatAppend(ParagraphPieces(a), ParagraphPieces(b));
  }

  /** A paragraph's Markdown always ends with a blank line, whatever its children. */
  lemma ParagraphEndsWithBlankLine(p: Node)
    requires p.Elem?
    ensures var md := ParagraphMarkdown(p); |md| >= 2 && md[|md| - 2..] == "\n\n"
  {
  }
}
