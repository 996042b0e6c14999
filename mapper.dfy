/**
 * The directory mapper: a depth-first walk over the wiki's link graph that
 * files every page it can fetch under the page that linked to it.
 *
 * Fetching a page over the network is replaced by the map `site`: a title the
 * map holds is fetched successfully with the content and links stored there;
 * any other title fails to fetch.
 */
module Mapper {
  import opened Wrappers
  import opened PageTree

  /** What a successful fetch gives: the page's wikitext and, in order, the
      titles it links to. */
  datatype PageInfo = PageInfo(content: string, subpages: seq<string>)

  function Elems(s: seq<string>): set<string>
  {
    set x | x in s
  }

  predicate NoDup(s: seq<string>)
  {
    forall i, j :: 0 <= i < j < |s| ==> s[i] != s[j]
  }

  /** The fetch log grew from `f0` to `f1` by titles fetched once each, none of
      them visited before, and the visited set grew by exactly those titles. */
  ghost predicate Logged(f0: seq<string>, f1: seq<string>, v0: set<string>, v1: set<string>)
  {
    |f0| <= |f1| && f1[..|f0|] == f0 && NoDup(f1[|f0|..])
    && (forall k :: |f0| <= k < |f1| ==> f1[k] !in v0)
    && v1 == v0 + Elems(f1[|f0|..])
  }

  /** Pages that existed before keep their title, content and children, except
      that the page `anchor` may have gained children, all of them new pages. */
  ghost predicate Kept(n0: seq<PageNode>, n1: seq<PageNode>, anchor: Option<PageId>)
  {
    |n0| <= |n1| &&
    forall i :: 0 <= i < |n0| ==>
      n1[i].title == n0[i].title && n1[i].content == n0[i].content &&
      if anchor == Some(i) then
        n0[i].children <= n1[i].children
        && forall k :: |n0[i].children| <= k < |n1[i].children| ==> n1[i].children[k] >= |n0|
      else n1[i].children == n0[i].children
  }

  /** The new pages carry titles from `titles` that the site knows, each title
      on one new page only, with the content the site gave for it; and every
      title in `titles` that the site knows is on a new page. */
  ghost predicate Fresh(n0: seq<PageNode>, n1: seq<PageNode>, titles: set<string>, site: map<string, PageInfo>)
  {
    |n0| <= |n1|
    && (forall i :: |n0| <= i < |n1| ==>
          n1[i].title in titles && n1[i].title in site && n1[i].content == site[n1[i].title].content)
    && (forall i, j :: |n0| <= i < j < |n1| ==> n1[i].title != n1[j].title)
    && (forall t :: t in titles && t in site ==> exists i :: |n0| <= i < |n1| && n1[i].title == t)
  }

  /** Each new page's children are pages its own links name, and each new page
      after the first is a child of an earlier new page. */
  ghost predicate Linked(n0: seq<PageNode>, n1: seq<PageNode>, site: map<string, PageInfo>)
  {
    (forall i, k :: |n0| <= i < |n1| && 0 <= k < |n1[i].children| ==>
       n1[i].children[k] < |n1| && n1[i].title in site
       && n1[n1[i].children[k]].title in site[n1[i].title].subpages)
    && (forall i :: |n0| < i < |n1| ==> HasParent(n0, n1, i))
  }

  /** Page `i` is a child of a new page that comes before it. */
  ghost predicate HasParent(n0: seq<PageNode>, n1: seq<PageNode>, i: int)
  {
    exists j :: |n0| <= j < i && j < |n1| && i in n1[j].children
  }

  /** A chain of links through the site: each title but the last is served by
      the site and links to the next one. */
  ghost predicate Path(site: map<string, PageInfo>, p: seq<string>)
    decreases |p|
  {
    |p| > 0 && (|p| == 1 || (p[0] in site && p[1] in site[p[0]].subpages && Path(site, p[1..])))
  }

  /** `to` can be reached from `from` by following links (in zero or more steps). */
  ghost predicate Reachable(site: map<string, PageInfo>, from: string, to: string)
  {
    exists p :: Path(site, p) && p[0] == from && p[|p| - 1] == to
  }

  /** Every title visited since `v0` that the site serves has all its links
      visited by `v1`. */
  ghost predicate Closed(site: map<string, PageInfo>, v0: set<string>, v1: set<string>)
  {
    forall t, k :: t in v1 && t !in v0 && t in site && 0 <= k < |site[t].subpages| ==> site[t].subpages[k] in v1
  }

  /** Every title visited since `v0` can be reached from `from`. */
  ghost predicate Reached(site: map<string, PageInfo>, from: string, v0: set<string>, v1: set<string>)
  {
    forall t :: t in v1 && t !in v0 ==> Reachable(site, from, t)
  }

  class DirectoryMapper {
    /** The pages the site serves, standing for the network. */
    const site: map<string, PageInfo>
    /** The structure being built; it is created once and never replaced. */
    const structure: WikiStructure
    /** Every title fetched so far, in order. */
    ghost var fetched: seq<string>

    constructor(site: map<string, PageInfo>)
      ensures this.site == site && fetched == []
      ensures fresh(structure) && structure.nodes == [] && structure.pages == [] && structure.Valid()
    {
      this.site := site;
      structure := new WikiStructure();
      fetched := [];
    }

    /** `map_wiki_structure`: map everything reachable from `startPage`, starting
        from an empty visited set. Pages already in the structure stay as they
        are; the start page, when it can be fetched, becomes one more root. */
    method MapWikiStructure(startPage: string := "Main Page") returns (s: WikiStructure)
      requires structure.Valid()
      modifies this, structure
      ensures s == structure && structure.Valid()
      ensures |fetched| > |old(fetched)| && fetched[..|old(fetched)|] == old(fetched)
      ensures fetched[|old(fetched)|] == startPage && NoDup(fetched[|old(fetched)|..])
      ensures Kept(old(structure.nodes), structure.nodes, None)
      ensures Fresh(old(structure.nodes), structure.nodes, Elems(fetched[|old(fetched)|..]), site)
      ensures Linked(old(structure.nodes), structure.nodes, site)
      ensures startPage in site ==>
        |structure.nodes| > |old(structure.nodes)| && structure.nodes[|old(structure.nodes)|].title == startPage
      ensures structure.pages == old(structure.pages) + (if startPage in site then [|old(structure.nodes)|] else [])
      ensures forall t :: t in Elems(fetched[|old(fetched)|..]) <==> Reachable(site, startPage, t)
      ensures forall t :: Reachable(site, startPage, t) && t in site ==>
        exists i :: |old(structure.nodes)| <= i < |structure.nodes| && structure.nodes[i].title == t
    {
      var visited := MapPage(startPage, {}, None);
      VisitedAreReachable(site, startPage, visited);
      s := structure;
    }

    /** `_map_page`: a title already visited is skipped; otherwise it is marked
        visited and fetched; a failed fetch ends there; a fetched page is filed
        under `parent` (or as a root) and its links are mapped in order, each
        under the new page, with the visited set shared along the way. */
    method MapPage(title: string, visited: set<string>, parent: Option<PageId>) returns (visited': set<string>)
      requires structure.Valid()
      requires parent.Some? ==> parent.value < |structure.nodes|
      modifies this, structure
      decreases site.Keys - visited, 1
      ensures structure.Valid()
      ensures Logged(old(fetched), fetched, visited, visited')
      ensures Kept(old(structure.nodes), structure.nodes, parent)
      ensures Fresh(old(structure.nodes), structure.nodes, visited' - visited, site)
      ensures Linked(old(structure.nodes), structure.nodes, site)
      ensures title in visited ==> visited' == visited && structure.nodes == old(structure.nodes)
      ensures title !in visited ==> title in visited' && fetched[|old(fetched)|] == title
      ensures title !in visited && title !in site ==>
        visited' == visited + {title} && structure.nodes == old(structure.nodes)
      ensures title !in visited && title in site ==>
        |structure.nodes| > |old(structure.nodes)| && structure.nodes[|old(structure.nodes)|].title == title
        && (parent.Some? ==>
              structure.nodes[parent.value].children
              == old(structure.nodes)[parent.value].children + [|old(structure.nodes)|])
      ensures structure.pages ==
        if parent.None? && title !in visited && title in site then old(structure.pages) + [|old(structure.nodes)|]
        else old(structure.pages)
      ensures Closed(site, visited, visited') && Reached(site, title, visited, visited')
    {
      if title in visited {
        visited' := visited;
        Unchanged(structure.nodes, fetched, visited, site, parent);
        return;
      }
      LoggedOne(fetched, title, visited);
      visited' := visited + {title};
      fetched := fetched + [title];
      if title !in site {
        Unchanged(structure.nodes, fetched, visited', site, parent);
        ReachedSelf(site, title, visited);
        return;
      }
      var info := site[title];
      ghost var n0 := structure.nodes;
      assert n0 == old(structure.nodes);
      var current := structure.NewPage(title, info.content);
      structure.AddPage(current, parent);
      Started(n0, structure.nodes, title, site, parent);
      ReachedSelf(site, title, visited);
      assert visited' - visited == {title};
      visited' := MapLinks(title, current, parent, n0, old(fetched), visited, visited');
    }

    /** The loop of `_map_page` over the links of the page just fetched:
        `current` is the new page for `title`, and each link is mapped in
        order under it, with the visited set passed along. The clauses
        relate the state to the one before `title` was visited (`n0`, `f0`,
        `visited`), as in `MapPage`. */
    method MapLinks(title: string, current: PageId, parent: Option<PageId>,
                    ghost n0: seq<PageNode>, ghost f0: seq<string>, ghost visited: set<string>, v: set<string>)
      returns (visited': set<string>)
      requires structure.Valid() && title in site && v == visited + {title}
      requires Progress(site, title, 0, current, parent, n0, f0, visited, structure.nodes, fetched, v)
      modifies this, structure
      decreases site.Keys - v, 2
      ensures structure.Valid() && v <= visited' && structure.pages == old(structure.pages)
      ensures Progress(site, title, |site[title].subpages|, current, parent, n0, f0, visited, structure.nodes, fetched, visited')
      ensures Closed(site, visited, visited')
    {
      var links := site[title].subpages;
      visited' := v;
      for i := 0 to |links|
        invariant structure.Valid() && v <= visited' && structure.pages == old(structure.pages)
        invariant Progress(site, title, i, current, parent, n0, f0, visited, structure.nodes, fetched, visited')
      {
        ghost var nB, fB, vB := structure.nodes, fetched, visited';
        visited' := MapPage(links[i], visited', Some(current));
        LinkMapped(site, title, i, current, parent, n0, f0, visited, nB, fB, vB, structure.nodes, fetched, visited');
      }
      ClosedFinish(site, title, links, visited, visited');
    }
  }

  /** Where the loop over the links of `title` stands after `i` links: the
      state `n, f, w` relates to the one before `title` was visited (`n0`,
      `f0`, `visited`) as `MapPage` promises, `current` is the page filed for
      `title`, the first `i` links are visited, and every title visited since
      is closed under links (except `title` itself) and reached from `title`. */
  ghost predicate Progress(site: map<string, PageInfo>, title: string, i: nat, current: PageId, parent: Option<PageId>,
                           n0: seq<PageNode>, f0: seq<string>, visited: set<string>,
                           n: seq<PageNode>, f: seq<string>, w: set<string>)
  {
    title in site && i <= |site[title].subpages| && title !in visited && visited + {title} <= w
    && (parent.Some? ==> parent.value < |n0|)
    && Logged(f0, f, visited, w) && |f| > |f0| && f[|f0|] == title
    && Kept(n0, n, parent) && Fresh(n0, n, w - visited, site) && Linked(n0, n, site)
    && current == |n0| < |n| && n[current].title == title
    && (parent.Some? ==> n[parent.value].children == n0[parent.value].children + [current])
    && (forall k :: 0 <= k < i ==> site[title].subpages[k] in w)
    && Closed(site, visited + {title}, w) && Reached(site, title, visited, w)
  }

  /** One link of the page `title` mapped by `MapPage`, from the state
      `nB, fB, vB` to `n2, f2, v2`: the loop's relations to the state before
      `title` was visited (`n0`, `f0`, `visited`) carry over to the next link. */
  lemma LinkMapped(site: map<string, PageInfo>, title: string, i: nat, current: PageId, parent: Option<PageId>,
                   n0: seq<PageNode>, f0: seq<string>, visited: set<string>,
                   nB: seq<PageNode>, fB: seq<string>, vB: set<string>,
                   n2: seq<PageNode>, f2: seq<string>, v2: set<string>)
    requires Progress(site, title, i, current, parent, n0, f0, visited, nB, fB, vB)
    requires i < |site[title].subpages|
    // what `MapPage(link, vB, Some(current))` promises for the link `i`
    requires var link := site[title].subpages[i];
      && Logged(fB, f2, vB, v2)
      && Kept(nB, n2, Some(current)) && Fresh(nB, n2, v2 - vB, site) && Linked(nB, n2, site)
      && (link in vB ==> v2 == vB && n2 == nB)
      && (link !in vB ==> link in v2)
      && (link !in vB && link !in site ==> n2 == nB)
      && (link !in vB && link in site ==>
            |n2| > |nB| && n2[|nB|].title == link && n2[current].children == nB[current].children + [|nB|])
      && Closed(site, vB, v2) && Reached(site, link, vB, v2)
    ensures vB <= v2
    ensures Progress(site, title, i + 1, current, parent, n0, f0, visited, n2, f2, v2)
  {
    var links, link := site[title].subpages, site[title].subpages[i];
    assert vB <= v2 by {
      assert v2 == vB + Elems(f2[|fB|..]);
    }
    assert n2 == nB || (|n2| > |nB| && n2[|nB|].title == link && n2[current].children == nB[current].children + [|nB|]);
    Step(n0, nB, n2, current, parent, visited, vB, v2, link, site);
    LoggedTrans(f0, fB, f2, visited, vB, v2);
    assert f2[..|fB|] == fB;
    ClosedStep(site, title, links, i, visited, vB, v2);
  }

  /** A title just visited is reached from itself, by the empty chain. */
  lemma ReachedSelf(site: map<string, PageInfo>, title: string, v: set<string>)
    ensures Reached(site, title, v, v + {title})
  {
    assert Path(site, [title]);
  }

  /** A chain from a link of `title` becomes a chain from `title`. */
  lemma PathCons(site: map<string, PageInfo>, title: string, p: seq<string>)
    requires title in site && Path(site, p) && p[0] in site[title].subpages
    ensures Path(site, [title] + p)
  {
    assert ([title] + p)[1..] == p;
  }

  /** The link `links[i]` of `title` has been mapped from `v1` to `v2`: the
      links so far are visited, and every title visited since is closed and
      reached from `title`. */
  lemma ClosedStep(site: map<string, PageInfo>, title: string, links: seq<string>, i: nat,
                   v0: set<string>, v1: set<string>, v2: set<string>)
    requires title in site && links == site[title].subpages && i < |links|
    requires v0 + {title} <= v1 <= v2 && links[i] in v2
    requires forall k :: 0 <= k < i ==> links[k] in v1
    requires Closed(site, v0 + {title}, v1) && Reached(site, title, v0, v1)
    requires Closed(site, v1, v2) && Reached(site, links[i], v1, v2)
    ensures forall k :: 0 <= k < i + 1 ==> links[k] in v2
    ensures Closed(site, v0 + {title}, v2) && Reached(site, title, v0, v2)
  {
    forall t | t in v2 && t !in v0 && t !in v1
      ensures Reachable(site, title, t)
    {
      assert Reachable(site, links[i], t);
      var p :| Path(site, p) && p[0] == links[i] && p[|p| - 1] == t;
      PathCons(site, title, p);
      assert ([title] + p)[|[title] + p| - 1] == t;
    }
  }

  /** Once every link of `title` is mapped, `title` itself is closed too. */
  lemma ClosedFinish(site: map<string, PageInfo>, title: string, links: seq<string>, v0: set<string>, v1: set<string>)
    requires title in site && links == site[title].subpages
    requires forall k :: 0 <= k < |links| ==> links[k] in v1
    requires Closed(site, v0 + {title}, v1)
    ensures Closed(site, v0, v1)
  {
  }

  /** A set that holds `p[0]` and is closed under the site's links holds the
      end of the chain `p`. */
  lemma {:induction false} ClosedHoldsPath(site: map<string, PageInfo>, v: set<string>, p: seq<string>)
    requires Path(site, p) && p[0] in v && Closed(site, {}, v)
    ensures p[|p| - 1] in v
    decreases |p|
  {
    if |p| > 1 {
      var k :| 0 <= k < |site[p[0]].subpages| && site[p[0]].subpages[k] == p[1];
      ClosedHoldsPath(site, v, p[1..]);
    }
  }

  /** The titles visited from nothing, starting at `start`, are exactly the
      titles reachable from `start`. */
  lemma VisitedAreReachable(site: map<string, PageInfo>, start: string, v: set<string>)
    requires start in v && Closed(site, {}, v) && Reached(site, start, {}, v)
    ensures forall t :: t in v <==> Reachable(site, start, t)
  {
    forall t | Reachable(site, start, t)
      ensures t in v
    {
      var p :| Path(site, p) && p[0] == start && p[|p| - 1] == t;
      ClosedHoldsPath(site, v, p);
    }
  }

  /** Nothing was added: every relation holds between a state and itself, and
      a title that failed to fetch adds no page. */
  lemma Unchanged(n: seq<PageNode>, f: seq<string>, v: set<string>, site: map<string, PageInfo>, anchor: Option<PageId>)
    ensures Kept(n, n, anchor) && Linked(n, n, site) && Fresh(n, n, {}, site)
    ensures forall t :: t !in site ==> Fresh(n, n, {t}, site)
    ensures Logged(f, f, v, v)
  {
    assert f[|f|..] == [];
  }

  /** One more title fetched, not visited before. */
  lemma LoggedOne(f: seq<string>, t: string, v: set<string>)
    requires t !in v
    ensures Logged(f, f + [t], v, v + {t}) && (f + [t])[|f|] == t
  {
    assert (f + [t])[..|f|] == f;
    assert (f + [t])[|f|..] == [t];
  }

  /** The state right after the fetched page was created and filed. */
  lemma Started(n0: seq<PageNode>, n1: seq<PageNode>, title: string, site: map<string, PageInfo>, parent: Option<PageId>)
    requires title in site
    requires parent.Some? ==> parent.value < |n0|
    requires var made := n0 + [PageNode(title, site[title].content, [])];
      if parent.Some? then n1 == made[parent.value := made[parent.value].(children := made[parent.value].children + [|n0|])]
      else n1 == made
    ensures Kept(n0, n1, parent) && Fresh(n0, n1, {title}, site) && Linked(n0, n1, site)
    ensures |n1| == |n0| + 1 && n1[|n0|].title == title
  {
    assert n1[|n0|] == PageNode(title, site[title].content, []);
    assert forall i :: 0 <= i < |n0| && parent != Some(i) ==> n1[i] == n0[i];
  }

  /** Chaining two stretches of the fetch log. */
  lemma LoggedTrans(f0: seq<string>, f1: seq<string>, f2: seq<string>, v0: set<string>, v1: set<string>, v2: set<string>)
    requires Logged(f0, f1, v0, v1) && Logged(f1, f2, v1, v2)
    ensures Logged(f0, f2, v0, v2)
  {
    var a, b := f1[|f0|..], f2[|f1|..];
    assert f2[|f0|..] == a + b;
    assert f2[..|f0|] == f1[..|f0|];
    assert Elems(a + b) == Elems(a) + Elems(b);
    forall i, j | 0 <= i < j < |a + b|
      ensures (a + b)[i] != (a + b)[j]
    {
      if i < |a| && j >= |a| {
        assert (a + b)[i] in Elems(a);
        assert (a + b)[j] == b[j - |a|] == f2[|f1| + j - |a|];
      }
    }
  }

  /** One link of a fetched page mapped: the relations between the state
      before the page and the current state carry over. */
  lemma Step(n0: seq<PageNode>, n1: seq<PageNode>, n2: seq<PageNode>, c: PageId, parent: Option<PageId>,
             v0: set<string>, v1: set<string>, v2: set<string>, link: string, site: map<string, PageInfo>)
    requires |n0| == c < |n1| && n1[c].title in site && link in site[n1[c].title].subpages
    requires Kept(n0, n1, parent) && Fresh(n0, n1, v1 - v0, site) && Linked(n0, n1, site)
    requires parent.Some? ==> parent.value < |n0|
    requires v0 <= v1 <= v2
    requires Kept(n1, n2, Some(c)) && Fresh(n1, n2, v2 - v1, site) && Linked(n1, n2, site)
    requires n2 == n1 || (|n2| > |n1| && n2[|n1|].title == link && n2[c].children == n1[c].children + [|n1|])
    ensures Kept(n0, n2, parent) && Fresh(n0, n2, v2 - v0, site) && Linked(n0, n2, site)
    ensures c < |n2| && n2[c].title == n1[c].title
    ensures parent.Some? ==> n2[parent.value].children == n1[parent.value].children
  {
    KeptTrans(n0, n1, n2, parent, c);
    assert (v1 - v0) + (v2 - v1) == v2 - v0;
    FreshTrans(n0, n1, n2, v1 - v0, v2 - v1, site, c);
    LinkedChildren(n0, n1, n2, c, link, site);
    LinkedParents(n0, n1, n2, c, site);
  }

  lemma KeptTrans(n0: seq<PageNode>, n1: seq<PageNode>, n2: seq<PageNode>, anchor: Option<PageId>, c: PageId)
    requires Kept(n0, n1, anchor) && Kept(n1, n2, Some(c)) && |n0| <= c
    ensures Kept(n0, n2, anchor)
  {
    forall i | 0 <= i < |n0| && anchor == Some(i)
      ensures n0[i].children <= n2[i].children
      ensures forall k :: |n0[i].children| <= k < |n2[i].children| ==> n2[i].children[k] >= |n0|
    {
      assert n2[i].children == n1[i].children;
    }
  }

  lemma FreshTrans(n0: seq<PageNode>, n1: seq<PageNode>, n2: seq<PageNode>, s1: set<string>, s2: set<string>,
                   site: map<string, PageInfo>, c: PageId)
    requires Fresh(n0, n1, s1, site) && Fresh(n1, n2, s2, site) && Kept(n1, n2, Some(c)) && s1 !! s2
    ensures Fresh(n0, n2, s1 + s2, site)
  {
    forall t | t in s1 + s2 && t in site
      ensures exists i :: |n0| <= i < |n2| && n2[i].title == t
    {
      if t in s1 {
        var i :| |n0| <= i < |n1| && n1[i].title == t;
        assert n2[i].title == t;
      }
    }
  }

  /** The children of new pages stay pages their links name. */
  lemma LinkedChildren(n0: seq<PageNode>, n1: seq<PageNode>, n2: seq<PageNode>, c: PageId, link: string,
                       site: map<string, PageInfo>)
    requires |n0| <= c < |n1| && n1[c].title in site && link in site[n1[c].title].subpages
    requires Linked(n0, n1, site) && Linked(n1, n2, site) && Kept(n1, n2, Some(c))
    requires n2 == n1 || (|n2| > |n1| && n2[|n1|].title == link && n2[c].children == n1[c].children + [|n1|])
    ensures forall i, k :: |n0| <= i < |n2| && 0 <= k < |n2[i].children| ==>
       n2[i].children[k] < |n2| && n2[i].title in site
       && n2[n2[i].children[k]].title in site[n2[i].title].subpages
  {
    forall i, k | |n0| <= i < |n1| && 0 <= k < |n2[i].children|
      ensures n2[i].children[k] < |n2| && n2[i].title in site
        && n2[n2[i].children[k]].title in site[n2[i].title].subpages
    {
      if k < |n1[i].children| {
        assert n2[i].children[k] == n1[i].children[k];
      }
    }
  }

  /** Every new page after the first still hangs under an earlier new page. */
  lemma LinkedParents(n0: seq<PageNode>, n1: seq<PageNode>, n2: seq<PageNode>, c: PageId, site: map<string, PageInfo>)
    requires |n0| <= c < |n1|
    requires Linked(n0, n1, site) && Linked(n1, n2, site) && Kept(n1, n2, Some(c))
    requires n2 == n1 || (|n2| > |n1| && n2[c].children == n1[c].children + [|n1|])
    ensures forall i :: |n0| < i < |n2| ==> HasParent(n0, n2, i)
  {
    forall i | |n0| < i < |n2|
      ensures HasParent(n0, n2, i)
    {
      if i < |n1| {
        assert HasParent(n0, n1, i);
        var j :| |n0| <= j < i && j < |n1| && i in n1[j].children;
        assert n1[j].children <= n2[j].children;
      } else if i == |n1| {
        assert i in n2[c].children;
      } else {
        assert HasParent(n1, n2, i);
        var j :| |n1| <= j < i && j < |n2| && i in n2[j].children;
      }
    }
  }
}
