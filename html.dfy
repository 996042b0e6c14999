/**
 * The parsed HTML tree the converter works on, standing for the tree that
 * BeautifulSoup's `html.parser` builds, with the few tree queries the converter
 * uses: `get`, `get_text()`, `.string`, `str()`, `find_all` and `decompose`.
 */
module Html {
  import opened Wrappers
  import opened Strings

  /** One attribute, as the parser's attribute dictionary holds it. */
  datatype Attr = Attr(key: string, value: string)

  /** A text node (`NavigableString`) or a tag with its attributes, in the
      parser's order, and its children. */
  datatype Node =
    | Text(text: string)
    | Elem(name: string, attrs: seq<Attr>, children: seq<Node>)

  /** `child.name == name`: a text node has no name. */
  predicate IsTag(n: Node, name: string)
  {
    n.Elem? && n.name == name
  }

  /** `tag.get(key, default)`. A tag written with the same attribute twice
      keeps the last value, so the search runs from the end. */
  function GetAttr(attrs: seq<Attr>, key: string, default: string): (r: string)
    ensures (forall i :: 0 <= i < |attrs| ==> attrs[i].key != key) ==> r == default
    ensures (exists i :: 0 <= i < |attrs| && attrs[i].key == key) ==>
      exists i :: 0 <= i < |attrs| && attrs[i].key == key && r == attrs[i].value
        && forall j :: i < j < |attrs| ==> attrs[j].key != key
  {
    if attrs == [] then default
    else if attrs[|attrs| - 1].key == key then attrs[|attrs| - 1].value
    else GetAttr(attrs[..|attrs| - 1], key, default)
  }

  // ------------------------------------------------------------------ get_text

  /** `get_text()`: the text of every text node below `n`, in document order. */
  function GetText(n: Node): string
    decreases n, 1
  {
    match n
    case Text(s) => s
    case Elem(_, _, children) => TextOf(children)
  }

  function TextOf(ns: seq<Node>): string
    decreases ns, 0
  {
    if ns == [] then "" else GetText(ns[0]) + TextOf(ns[1..])
  }

  /** `.string`: the text of a tag whose only child is a text node, or, when
      its only child is a tag, that tag's `.string`; `None` otherwise. */
  function StringOf(n: Node): Option<string>
  {
    match n
    case Text(s) => Some(s)
    case Elem(_, _, children) => if |children| == 1 then StringOf(children[0]) else None
  }

  // ----------------------------------------------------------------------- str

  /** Tags that `html.parser` never gives children and `str()` writes as `<br/>`. */
  const VoidElements: set<string> := {
    "area", "base", "br", "col", "embed", "hr", "img", "input", "keygen",
    "link", "menuitem", "meta", "param", "source", "track", "wbr",
    "basefont", "bgsound", "command", "frame", "image", "isindex",
    "nextid", "spacer"
  }

  /** The "minimal" output formatter: `&`, `<` and `>` become entities. */
  function Escape(s: string): string
  {
    if s == [] then "" else EscapeChar(s[0]) + Escape(s[1..])
  }

  function EscapeChar(c: char): string
  {
    if c == '&' then "&amp;" else if c == '<' then "&lt;" else if c == '>' then "&gt;" else [c]
  }

  /** `s.replace('"', '&quot;')` */
  function QuoteEntities(s: string): string
  {
    if s == [] then "" else (if s[0] == '"' then "&quot;" else [s[0]]) + QuoteEntities(s[1..])
  }

  /** An attribute value in quotes: double quotes, or single quotes when the
      value holds a double quote but no single quote, or double quotes with
      `&quot;` when it holds both. */
  function QuotedValue(v: string): string
  {
    var e := Escape(v);
    if '"' in e then
      if '\'' in e then "\"" + QuoteEntities(e) + "\"" else "'" + e + "'"
    else "\"" + e + "\""
  }

  function AttrsMarkup(attrs: seq<Attr>): string
  {
    if attrs == [] then ""
    else " " + attrs[0].key + "=" + QuotedValue(attrs[0].value) + AttrsMarkup(attrs[1..])
  }

  /** `str(node)`: a text node is its text as it stands; a tag is written out
      as markup. */
  function Markup(n: Node): string
  {
    match n
    case Text(s) => s
    case Elem(_, _, _) => TagMarkup(n)
  }

  /** The markup of a node inside a tag, where text is escaped. */
  function TagMarkup(n: Node): string
    decreases n, 1
  {
    match n
    case Text(s) => Escape(s)
    case Elem(name, attrs, children) =>
      if name in VoidElements && children == [] then "<" + name + AttrsMarkup(attrs) + "/>"
      else "<" + name + AttrsMarkup(attrs) + ">" + ChildrenMarkup(children) + "</" + name + ">"
  }

  function ChildrenMarkup(ns: seq<Node>): string
    decreases ns, 0
  {
    if ns == [] then "" else TagMarkup(ns[0]) + ChildrenMarkup(ns[1..])
  }

  // ------------------------------------------------------------------ find_all

  /** `find_all(names)` on a tag with these children: every tag below them whose
      name is one of `names`, a tag before its descendants and an earlier
      sibling's subtree before a later sibling. */
  function FindAll(ns: seq<Node>, names: set<string>): seq<Node>
    decreases ns
  {
    if ns == [] then []
    else
      var n := ns[0];
      (if n.Elem? && n.name in names then [n] else [])
      + (if n.Elem? then FindAll(n.children, names) else [])
      + FindAll(ns[1..], names)
  }

  /** Every tag below `ns`, in document (pre-)order. */
  function Tags(ns: seq<Node>): seq<Node>
    decreases ns
  {
    if ns == [] then []
    else if ns[0].Elem? then [ns[0]] + Tags(ns[0].children) + Tags(ns[1..])
    else Tags(ns[1..])
  }

  /** The tags of `ts` whose name is in `names`, in their order. */
  function Named(ts: seq<Node>, names: set<string>): seq<Node>
  {
    if ts == [] then []
    else (if ts[0].Elem? && ts[0].name in names then [ts[0]] else []) + Named(ts[1..], names)
  }

  lemma {:induction false} NamedAppend(a: seq<Node>, b: seq<Node>, names: set<string>)
    ensures Named(a + b, names) == Named(a, names) + Named(b, names)
  {
    if a != [] {
      assert (a + b)[1..] == a[1..] + b;
      NamedAppend(a[1..], b, names);
    } else {
      assert a + b == b;
    }
  }

  /** `find_all` is a filter of the pre-order walk: nested matches are found
      too, each after the tag that contains it. */
  lemma {:induction false} FindAllIsNamedTags(ns: seq<Node>, names: set<string>)
    ensures FindAll(ns, names) == Named(Tags(ns), names)
    decreases ns
  {
    if ns != [] {
      var n := ns[0];
      FindAllIsNamedTags(ns[1..], names);
      if n.Elem? {
        FindAllIsNamedTags(n.children, names);
        FindAllTagStep(ns, names);
      }
    }
  }

  lemma FindAllTagStep(ns: seq<Node>, names: set<string>)
    requires ns != [] && ns[0].Elem?
    requires FindAll(ns[0].children, names) == Named(Tags(ns[0].children), names)
    requires FindAll(ns[1..], names) == Named(Tags(ns[1..]), names)
    ensures FindAll(ns, names) == Named(Tags(ns), names)
  {
    var n := ns[0];
    var head := if n.name in names then [n] else [];
    var inner, later := Tags(n.children), Tags(ns[1..]);
    assert Tags(ns) == [n] + (inner + later) by {
      TagsElem(ns);
    }
    assert Named([n] + (inner + later), names) == head + Named(inner + later, names) by {
      NamedCons(n, inner + later, names);
    }
    assert Named(inner + later, names) == Named(inner, names) + Named(later, names) by {
      NamedAppend(inner, later, names);
    }
    assert FindAll(ns, names) == head + FindAll(n.children, names) + FindAll(ns[1..], names);
  }

  lemma TagsElem(ns: seq<Node>)
    requires ns != [] && ns[0].Elem?
    ensures Tags(ns) == [ns[0]] + (Tags(ns[0].children) + Tags(ns[1..]))
  {
  }

  lemma NamedCons(n: Node, ts: seq<Node>, names: set<string>)
    ensures Named([n] + ts, names) == (if n.Elem? && n.name in names then [n] else []) + Named(ts, names)
  {
    assert ([n] + ts)[1..] == ts;
  }

  lemma {:induction false} FindAllAppend(a: seq<Node>, b: seq<Node>, names: set<string>)
    ensures FindAll(a + b, names) == FindAll(a, names) + FindAll(b, names)
  {
    if a == [] {
      assert a + b == b;
    } else {
      assert (a + b)[0] == a[0];
      assert (a + b)[1..] == a[1..] + b;
      FindAllAppend(a[1..], b, names);
    }
  }

  // ------------------------------------------------------ mw-editsection spans

  /** `c` is one of the whitespace-separated words of the attribute value `v`. */
  predicate HasWord(v: string, c: string)
  {
    exists i :: 0 <= i <= |v| - |c| && OccursAt(v, c, i)
      && (i == 0 || v[i - 1] in Whitespace) && (i + |c| == |v| || v[i + |c|] in Whitespace)
  }

  /** `find_all('span', class_='mw-editsection')` matches this node. */
  predicate IsEditSection(n: Node)
  {
    n.Elem? && n.name == "span" && HasWord(GetAttr(n.attrs, "class", ""), "mw-editsection")
  }

  /** The forest after `decompose()` of every edit-section span. */
  function RemoveEditSections(ns: seq<Node>): seq<Node>
    decreases ns, 0
  {
    if ns == [] then []
    else (if IsEditSection(ns[0]) then [] else [RemoveEditSectionsIn(ns[0])]) + RemoveEditSections(ns[1..])
  }

  function RemoveEditSectionsIn(n: Node): Node
    decreases n, 1
  {
    match n
    case Text(_) => n
    case Elem(name, attrs, children) => Elem(name, attrs, RemoveEditSections(children))
  }

  /** No edit-section span anywhere in the forest. */
  ghost predicate NoEditSections(ns: seq<Node>)
    decreases ns
  {
    forall i :: 0 <= i < |ns| ==> !IsEditSection(ns[i]) && (ns[i].Elem? ==> NoEditSections(ns[i].children))
  }

  /** After the removal no edit-section span is left at any depth. */
  lemma {:induction false} RemoveEditSectionsLeavesNone(ns: seq<Node>)
    ensures NoEditSections(RemoveEditSections(ns))
    decreases ns
  {
    if ns != [] {
      RemoveEditSectionsLeavesNone(ns[1..]);
      var n := ns[0];
      if n.Elem? {
        RemoveEditSectionsLeavesNone(n.children);
      }
      var r := RemoveEditSections(ns);
      var head := if IsEditSection(n) then [] else [RemoveEditSectionsIn(n)];
      assert r == head + RemoveEditSections(ns[1..]);
      forall i | 0 <= i < |r| ensures !IsEditSection(r[i]) && (r[i].Elem? ==> NoEditSections(r[i].children)) {
        if i >= |head| {
          assert r[i] == RemoveEditSections(ns[1..])[i - |head|];
        }
      }
    }
  }

  /** A forest without edit-section spans is left as it is. */
  lemma {:induction false} RemoveEditSectionsKeepsClean(ns: seq<Node>)
    requires NoEditSections(ns)
    ensures RemoveEditSections(ns) == ns
    decreases ns
  {
    if ns != [] {
      assert NoEditSections(ns[1..]) by {
        forall i | 0 <= i < |ns| - 1 ensures !IsEditSection(ns[1..][i]) && (ns[1..][i].Elem? ==> NoEditSections(ns[1..][i].children)) {
          assert ns[1..][i] == ns[i + 1];
        }
      }
      RemoveEditSectionsKeepsClean(ns[1..]);
      if ns[0].Elem? {
        RemoveEditSectionsKeepsClean(ns[0].children);
      }
    }
  }
}
