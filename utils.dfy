/**
 * The mapper's helpers: `sanitize_filename`, which replaces the characters
 * most file systems refuse and trims dots and spaces from both ends, and
 * `print_structure`, the indented listing of a page tree.
 */
module Utils {
  import opened Strings
  import opened PageTree

  /** The characters replaced by an underscore, in the order they are replaced. */
  const Replaced: seq<char> := ['/', '\\', ':', '*', '?', '"', '<', '>', '|']

  /** The characters trimmed from both ends. */
  const Trimmed: set<char> := {'.', ' '}

  /** The input with every character of `bad` written as an underscore: the
      replacement is character for character, so the length is kept. */
  function Underscored(s: string, bad: seq<char>): (r: string)
    ensures |r| == |s|
    ensures forall i :: 0 <= i < |s| ==> (s[i] in bad ==> r[i] == '_') && (s[i] !in bad ==> r[i] == s[i])
  {
    seq(|s|, i requires 0 <= i < |s| => if s[i] in bad then '_' else s[i])
  }

  /** What `sanitize_filename` returns. */
  function Sanitized(filename: string): string
  {
    Strip(Underscored(filename, Replaced), Trimmed)
  }

  /** `sanitize_filename`: each character of `Replaced` in turn is replaced
      throughout, then dots and spaces are trimmed from both ends. */
  method SanitizeFilename(filename: string) returns (r: string)
    ensures r == Sanitized(filename)
  {
    var name := filename;
    for k := 0 to |Replaced|
      invariant name == Underscored(filename, Replaced[..k])
    {
      var c := Replaced[k];
      assert Replaced[..k + 1] == Replaced[..k] + [c];
      ReplaceOneChar(name, c, '_');
      name := Replace(name, [c], "_");
    }
    assert Replaced[..|Replaced|] == Replaced;
    r := Strip(name, Trimmed);
  }

  /** The result holds none of the replaced characters. */
  lemma SanitizedHasNoReplaced(filename: string)
    ensures var r := Sanitized(filename); forall i :: 0 <= i < |r| ==> r[i] !in Replaced
  {
    var u := Underscored(filename, Replaced);
    assert forall i :: 0 <= i < |u| ==> u[i] !in Replaced;
    StripKeeps(u, Trimmed, set c | c in Replaced);
  }

  /** The result neither begins nor ends with a dot or a space, and is no longer
      than the input. */
  lemma SanitizedEnds(filename: string)
    ensures var r := Sanitized(filename);
      |r| <= |filename| && (r == [] || (r[0] !in Trimmed && r[|r| - 1] !in Trimmed))
  {
    StripSlice(Underscored(filename, Replaced), Trimmed);
  }

  /** Sanitising a sanitised name changes nothing. */
  lemma SanitizedIdempotent(filename: string)
    ensures Sanitized(Sanitized(filename)) == Sanitized(filename)
  {
    var r := Sanitized(filename);
    SanitizedHasNoReplaced(filename);
    assert Underscored(r, Replaced) == r;
    StripIdempotent(Underscored(filename, Replaced), Trimmed);
  }

  /** `print_structure(pages, level)`: one line per page, in pre-order, two
      spaces of indent per level below the roots' level. */
  function PrintLines(nodes: seq<PageNode>, ids: seq<PageId>, lo: nat, level: nat): seq<string>
    decreases |nodes| - lo, |ids|
  {
    if ids == [] then []
    else
      var page := ids[0];
      if lo <= page < |nodes| then
        [Repeat("  ", level) + "- " + nodes[page].title]
        + PrintLines(nodes, nodes[page].children, page + 1, level + 1)
        + PrintLines(nodes, ids[1..], lo, level)
      else PrintLines(nodes, ids[1..], lo, level)
  }

  /** The line printed for a page met at some depth. */
  function Line(nodes: seq<PageNode>, v: Visit): string
    requires v.id < |nodes|
  {
    Repeat("  ", v.depth) + "- " + nodes[v.id].title
  }

  /** Lines that match two walks, after the line of one page, match that page
      followed by the two walks. */
  lemma LinesOfParts(nodes: seq<PageNode>, v: Visit, w1: seq<Visit>, w2: seq<Visit>, l1: seq<string>, l2: seq<string>)
    requires v.id < |nodes|
    requires |l1| == |w1| && forall k :: 0 <= k < |w1| ==> w1[k].id < |nodes| && l1[k] == Line(nodes, w1[k])
    requires |l2| == |w2| && forall k :: 0 <= k < |w2| ==> w2[k].id < |nodes| && l2[k] == Line(nodes, w2[k])
    ensures var w := [v] + w1 + w2; var lines := [Line(nodes, v)] + l1 + l2;
      |lines| == |w| && forall k :: 0 <= k < |w| ==> w[k].id < |nodes| && lines[k] == Line(nodes, w[k])
  {
    var w := [v] + w1 + w2;
    var lines := [Line(nodes, v)] + l1 + l2;
    forall k | 0 <= k < |w|
      ensures w[k].id < |nodes| && lines[k] == Line(nodes, w[k])
    {
      if 1 <= k < 1 + |w1| {
        assert w[k] == w1[k - 1] && lines[k] == l1[k - 1];
      } else if k >= 1 + |w1| {
        assert w[k] == w2[k - 1 - |w1|] && lines[k] == l2[k - 1 - |w1|];
      }
    }
  }

  /** The listing has exactly one line per page met on the pre-order walk, and
      its `k`-th line is the line of the `k`-th page met, at that page's depth. */
  lemma {:induction false} PrintLinesFollowWalk(nodes: seq<PageNode>, ids: seq<PageId>, lo: nat, level: nat)
    requires Ordered(nodes) && Within(ids, lo, |nodes|)
    ensures var w := Walk(nodes, ids, lo, level); var lines := PrintLines(nodes, ids, lo, level);
      |lines| == |w| && forall k :: 0 <= k < |w| ==> lines[k] == Line(nodes, w[k])
    decreases |nodes| - lo, |ids|
  {
    if ids != [] {
      var page := ids[0];
      assert page < |nodes|;
      var w1 := Walk(nodes, nodes[page].children, page + 1, level + 1);
      var w2 := Walk(nodes, ids[1..], lo, level);
      var l1 := PrintLines(nodes, nodes[page].children, page + 1, level + 1);
      var l2 := PrintLines(nodes, ids[1..], lo, level);
      assert Walk(nodes, ids, lo, level) == [Visit(page, level)] + w1 + w2;
      assert PrintLines(nodes, ids, lo, level) == [Line(nodes, Visit(page, level))] + l1 + l2;
      PrintLinesFollowWalk(nodes, nodes[page].children, page + 1, level + 1);
      PrintLinesFollowWalk(nodes, ids[1..], lo, level);
      LinesOfParts(nodes, Visit(page, level), w1, w2, l1, l2);
    }
  }
}
