/**
 * The page tree built by the directory mapper: `WikiPage` records filed
 * either as roots of a `WikiStructure` or under a parent page.
 *
 * Every page object ever created lives in the structure's `nodes`, addressed
 * by its index; a page's `children` and the structure's `pages` hold indices.
 * A parent is always created before the pages filed under it, so every child
 * index is greater than its parent's: the tree cannot contain a cycle.
 */
module PageTree {
  import opened Wrappers

  type PageId = nat

  /** A `WikiPage`: its title, its content and the pages filed under it. */
  datatype PageNode = PageNode(title: string, content: string, children: seq<PageId>)

  /** One step of a pre-order walk: the page met and its depth. */
  datatype Visit = Visit(id: PageId, depth: nat)

  predicate Within(ids: seq<PageId>, lo: nat, hi: nat)
  {
    forall k :: 0 <= k < |ids| ==> lo <= ids[k] < hi
  }

  /** Children point forward, to pages that exist. */
  predicate Ordered(nodes: seq<PageNode>)
  {
    forall i :: 0 <= i < |nodes| ==> Within(nodes[i].children, i + 1, |nodes|)
  }

  /** The pre-order walk from the pages `ids`: each page, then the walk of its
      children one level deeper, then the walk of the later pages. In a valid
      structure every index lies between `lo` and `|nodes|`; the walk passes
      over any other index, so that it is defined for every input. */
  function Walk(nodes: seq<PageNode>, ids: seq<PageId>, lo: nat, depth: nat): (w: seq<Visit>)
    ensures forall j :: 0 <= j < |w| ==> lo <= w[j].id < |nodes|
    decreases |nodes| - lo, |ids|
  {
    if ids == [] then []
    else
      var id := ids[0];
      if lo <= id < |nodes| then
        [Visit(id, depth)] + Walk(nodes, nodes[id].children, id + 1, depth + 1) + Walk(nodes, ids[1..], lo, depth)
      else Walk(nodes, ids[1..], lo, depth)
  }

  /** The visit `v` meets a page titled `title`. */
  predicate Titled(nodes: seq<PageNode>, v: Visit, title: string)
  {
    v.id < |nodes| && nodes[v.id].title == title
  }

  /** The position of the first visit to a page titled `title`, or `|w|` if none. */
  function FirstHit(nodes: seq<PageNode>, w: seq<Visit>, title: string): (k: nat)
    ensures k <= |w|
    ensures forall j :: 0 <= j < k ==> !Titled(nodes, w[j], title)
    ensures k < |w| ==> Titled(nodes, w[k], title)
  {
    if w == [] then 0
    else if Titled(nodes, w[0], title) then 0
    else 1 + FirstHit(nodes, w[1..], title)
  }

  /** The answer of a search for `title` along the walk `w`. */
  function Found(nodes: seq<PageNode>, w: seq<Visit>, title: string): Option<PageId>
  {
    var k := FirstHit(nodes, w, title);
    if k < |w| then Some(w[k].id) else None
  }

  class WikiStructure {
    /** Every page object, by index. */
    var nodes: seq<PageNode>
    /** The root pages, in the order they were added. */
    var pages: seq<PageId>

    ghost predicate Valid()
      reads this
    {
      Ordered(nodes) && Within(pages, 0, |nodes|)
    }

    /** A new structure has no pages. */
    constructor()
      ensures nodes == [] && pages == []
      ensures Valid()
    {
      nodes := [];
      pages := [];
    }

    /** `WikiPage(title, content)`: a new page with no children, filed nowhere yet. */
    method NewPage(title: string, content: string) returns (id: PageId)
      requires Valid()
      modifies this
      ensures id == old(|nodes|)
      ensures nodes == old(nodes) + [PageNode(title, content, [])]
      ensures pages == old(pages)
      ensures Valid()
    {
      id := |nodes|;
      nodes := nodes + [PageNode(title, content, [])];
      assert forall i :: 0 <= i < |old(nodes)| ==> nodes[i] == old(nodes)[i];
    }

    /** `add_page`: without a parent the page becomes the last root; with one
        it becomes the parent's last child, and the roots stay as they were. */
    method AddPage(page: PageId, parent: Option<PageId>)
      requires Valid()
      requires page < |nodes|
      requires parent.Some? ==> parent.value < page
      modifies this
      ensures parent.None? ==> nodes == old(nodes) && pages == old(pages) + [page]
      ensures parent.Some? ==>
        pages == old(pages) &&
        nodes == old(nodes)[parent.value := old(nodes)[parent.value].(children := old(nodes)[parent.value].children + [page])]
      ensures Valid()
    {
      if parent.Some? {
        var p := parent.value;
        nodes := nodes[p := nodes[p].(children := nodes[p].children + [page])];
      } else {
        pages := pages + [page];
      }
    }

    /** The pages of the structure, in pre-order, with their depths. */
    function Preorder(): seq<Visit>
      reads this
      requires Valid()
    {
      Walk(nodes, pages, 0, 0)
    }

    /** `get_page`: the first page titled `title` in pre-order; `None` exactly
        when no root or descendant has that title. The structure is not changed. */
    method GetPage(title: string) returns (r: Option<PageId>)
      requires Valid()
      ensures r == Found(nodes, Preorder(), title)
      ensures r.Some? ==> r.value < |nodes| && nodes[r.value].title == title
      ensures r.None? <==> forall j :: 0 <= j < |Preorder()| ==> nodes[Preorder()[j].id].title != title
    {
      r := FindPage(pages, 0, 0, title);
    }

    /** `_find_page`: each page is tested before its children, and a page's
        whole subtree before the pages after it. */
    method FindPage(ids: seq<PageId>, ghost lo: nat, ghost depth: nat, title: string) returns (r: Option<PageId>)
      requires Valid() && Within(ids, lo, |nodes|)
      ensures r == Found(nodes, Walk(nodes, ids, lo, depth), title)
      decreases |nodes| - lo
    {
      for i := 0 to |ids|
        invariant Found(nodes, Walk(nodes, ids[..i], lo, depth), title).None?
      {
        var page := ids[i];
        if nodes[page].title == title {
          FoundAtPage(nodes, ids, i, lo, depth, title);
          return Some(page);
        }
        var found := FindPage(nodes[page].children, page + 1, depth + 1, title);
        if found.Some? {
          FoundBelowPage(nodes, ids, i, lo, depth, title);
          return found;
        }
        NotFoundThroughPage(nodes, ids, i, lo, depth, title);
      }
      assert ids[..|ids|] == ids;
      r := None;
    }
  }

  /** The walk of two runs of pages is the walk of the first, then of the second. */
  lemma {:induction false} WalkAppend(nodes: seq<PageNode>, a: seq<PageId>, b: seq<PageId>, lo: nat, depth: nat)
    ensures Walk(nodes, a + b, lo, depth) == Walk(nodes, a, lo, depth) + Walk(nodes, b, lo, depth)
    decreases |a|
  {
    if a == [] {
      assert a + b == b;
    } else {
      var ab := a + b;
      assert ab[0] == a[0] && ab[1..] == a[1..] + b;
      WalkAppend(nodes, a[1..], b, lo, depth);
    }
  }

  /** A search along a concatenation answers from the first part if it can,
      and from the second part otherwise. */
  lemma FoundAppend(nodes: seq<PageNode>, a: seq<Visit>, b: seq<Visit>, title: string)
    ensures Found(nodes, a + b, title) ==
      if Found(nodes, a, title).Some? then Found(nodes, a, title) else Found(nodes, b, title)
  {
    FirstHitAppend(nodes, a, b, title);
    var k := FirstHit(nodes, a, title);
    if k < |a| {
      assert (a + b)[k] == a[k];
    } else {
      var m := FirstHit(nodes, b, title);
      if m < |b| {
        assert (a + b)[|a| + m] == b[m];
      }
    }
  }

  /** The search meets the `i`-th page with the title sought, nothing earlier
      having matched: the answer is that page. */
  lemma FoundAtPage(nodes: seq<PageNode>, ids: seq<PageId>, i: nat, lo: nat, depth: nat, title: string)
    requires Ordered(nodes) && Within(ids, lo, |nodes|) && i < |ids|
    requires Found(nodes, Walk(nodes, ids[..i], lo, depth), title).None?
    requires nodes[ids[i]].title == title
    ensures Found(nodes, Walk(nodes, ids, lo, depth), title) == Some(ids[i])
  {
    WalkSplit(nodes, ids, i, lo, depth);
    var rest := [Visit(ids[i], depth)]
      + Walk(nodes, nodes[ids[i]].children, ids[i] + 1, depth + 1) + Walk(nodes, ids[i + 1..], lo, depth);
    FoundAppend(nodes, Walk(nodes, ids[..i], lo, depth), rest, title);
  }

  /** The search passes the `i`-th page, whose title is not the one sought,
      and finds a page in its subtree: that page is the answer. */
  lemma FoundBelowPage(nodes: seq<PageNode>, ids: seq<PageId>, i: nat, lo: nat, depth: nat, title: string)
    requires Ordered(nodes) && Within(ids, lo, |nodes|) && i < |ids|
    requires Found(nodes, Walk(nodes, ids[..i], lo, depth), title).None?
    requires nodes[ids[i]].title != title
    requires Found(nodes, Walk(nodes, nodes[ids[i]].children, ids[i] + 1, depth + 1), title).Some?
    ensures Found(nodes, Walk(nodes, ids, lo, depth), title)
      == Found(nodes, Walk(nodes, nodes[ids[i]].children, ids[i] + 1, depth + 1), title)
  {
    WalkSplit(nodes, ids, i, lo, depth);
    FoundInside(nodes, Walk(nodes, ids[..i], lo, depth), Visit(ids[i], depth),
      Walk(nodes, nodes[ids[i]].children, ids[i] + 1, depth + 1), Walk(nodes, ids[i + 1..], lo, depth), title);
  }

  /** The search passes the `i`-th page and its whole subtree without a match:
      nothing up to and including that page matches. */
  lemma NotFoundThroughPage(nodes: seq<PageNode>, ids: seq<PageId>, i: nat, lo: nat, depth: nat, title: string)
    requires Ordered(nodes) && Within(ids, lo, |nodes|) && i < |ids|
    requires Found(nodes, Walk(nodes, ids[..i], lo, depth), title).None?
    requires nodes[ids[i]].title != title
    requires Found(nodes, Walk(nodes, nodes[ids[i]].children, ids[i] + 1, depth + 1), title).None?
    ensures Found(nodes, Walk(nodes, ids[..i + 1], lo, depth), title).None?
  {
    var page := ids[i];
    var before := Walk(nodes, ids[..i], lo, depth);
    var below := Walk(nodes, nodes[page].children, page + 1, depth + 1);
    assert Walk(nodes, ids[..i + 1], lo, depth) == before + ([Visit(page, depth)] + below) by {
      assert ids[..i + 1] == ids[..i] + [page];
      WalkAppend(nodes, ids[..i], [page], lo, depth);
      WalkOne(nodes, page, lo, depth);
    }
    NotFoundAcross(nodes, before, Visit(page, depth), below, title);
  }

  /** A search past a part without a match and a visit to another title
      answers from the part after them, if that part has the title. */
  lemma FoundInside(nodes: seq<PageNode>, before: seq<Visit>, v: Visit, below: seq<Visit>, after: seq<Visit>, title: string)
    requires Found(nodes, before, title).None? && !Titled(nodes, v, title)
    requires Found(nodes, below, title).Some?
    ensures Found(nodes, before + ([v] + below + after), title) == Found(nodes, below, title)
  {
    FoundAppend(nodes, [v], below, title);
    FoundAppend(nodes, [v] + below, after, title);
    FoundAppend(nodes, before, [v] + below + after, title);
  }

  /** Three parts without a match make a whole without a match. */
  lemma NotFoundAcross(nodes: seq<PageNode>, before: seq<Visit>, v: Visit, below: seq<Visit>, title: string)
    requires Found(nodes, before, title).None? && !Titled(nodes, v, title)
    requires Found(nodes, below, title).None?
    ensures Found(nodes, before + ([v] + below), title).None?
  {
    FoundAppend(nodes, [v], below, title);
    FoundAppend(nodes, before, [v] + below, title);
  }

  /** The walk from a single page: the page, then its subtree. */
  lemma WalkOne(nodes: seq<PageNode>, page: PageId, lo: nat, depth: nat)
    requires Ordered(nodes) && lo <= page < |nodes|
    ensures Within([page], lo, |nodes|)
    ensures Walk(nodes, [page], lo, depth) == [Visit(page, depth)] + Walk(nodes, nodes[page].children, page + 1, depth + 1)
  {
    assert [page][1..] == [];
  }

  /** The walk split at the `i`-th page: the pages before it, the page, its
      subtree, the pages after it. */
  lemma WalkSplit(nodes: seq<PageNode>, ids: seq<PageId>, i: nat, lo: nat, depth: nat)
    requires Ordered(nodes) && Within(ids, lo, |nodes|) && i < |ids|
    ensures Walk(nodes, ids, lo, depth) == Walk(nodes, ids[..i], lo, depth) + ([Visit(ids[i], depth)]
      + Walk(nodes, nodes[ids[i]].children, ids[i] + 1, depth + 1) + Walk(nodes, ids[i + 1..], lo, depth))
  {
    assert ids == ids[..i] + ids[i..];
    WalkAppend(nodes, ids[..i], ids[i..], lo, depth);
    assert ids[i..][1..] == ids[i + 1..];
  }

  /** Searching a concatenation: the first hit in the first part if there is
      one, else the first hit in the second part. */
  lemma {:induction false} FirstHitAppend(nodes: seq<PageNode>, a: seq<Visit>, b: seq<Visit>, title: string)
    ensures FirstHit(nodes, a + b, title) ==
      if FirstHit(nodes, a, title) < |a| then FirstHit(nodes, a, title) else |a| + FirstHit(nodes, b, title)
  {
    if a != [] {
      assert (a + b)[0] == a[0];
      assert (a + b)[1..] == a[1..] + b;
      FirstHitAppend(nodes, a[1..], b, title);
    } else {
      assert a + b == b;
    }
  }

  /** A page added as the last root is found by its title when no page already
      in the structure carries that title. */
  lemma RootAddedIsFound(nodes: seq<PageNode>, pages: seq<PageId>, page: PageId)
    requires Ordered(nodes) && Within(pages, 0, |nodes|) && page < |nodes|
    requires forall j :: 0 <= j < |Walk(nodes, pages, 0, 0)| ==> nodes[Walk(nodes, pages, 0, 0)[j].id].title != nodes[page].title
    ensures Within(pages + [page], 0, |nodes|)
    ensures Found(nodes, Walk(nodes, pages + [page], 0, 0), nodes[page].title) == Some(page)
  {
    var title := nodes[page].title;
    var w := Walk(nodes, pages, 0, 0);
    var v := Walk(nodes, [page], 0, 0);
    assert Walk(nodes, pages + [page], 0, 0) == w + v by {
      WalkAppend(nodes, pages, [page], 0, 0);
    }
    assert Found(nodes, v, title) == Some(page) by {
      WalkOne(nodes, page, 0, 0);
      assert Titled(nodes, v[0], title);
    }
    assert Found(nodes, w, title).None?;
    FoundAppend(nodes, w, v, title);
  }

  /** Every page the walk starts from is met at the starting depth. */
  lemma {:induction false} RootsVisited(nodes: seq<PageNode>, pages: seq<PageId>, lo: nat, depth: nat)
    requires Ordered(nodes) && Within(pages, lo, |nodes|)
    ensures forall k :: 0 <= k < |pages| ==> Visit(pages[k], depth) in Walk(nodes, pages, lo, depth)
  {
    if pages != [] {
      RootsVisited(nodes, pages[1..], lo, depth);
      forall k | 0 <= k < |pages|
        ensures Visit(pages[k], depth) in Walk(nodes, pages, lo, depth)
      {
        if k > 0 {
          assert pages[1..][k - 1] == pages[k];
        }
      }
    }
  }
}
