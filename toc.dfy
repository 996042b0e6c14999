/**
 * The table of contents built from the headings met during conversion.
 */
module Toc {
  import opened Strings

  /** A heading met during conversion: its level (1 to 6), cleaned title and anchor. */
  datatype TocItem = TocItem(level: int, title: string, anchor: string)

  /** Entries titled "Contents" (in any ASCII case) are left out of the table. */
  predicate Listed(item: TocItem)
  {
    Lower(item.title) != "contents"
  }

  /** The line of one entry: two spaces per level below 1, then a link to the anchor. */
  function TocLine(item: TocItem): string
  {
    Repeat("  ", item.level - 1) + "- [" + item.title + "](#" + item.anchor + ")\n"
  }

  /** The line of one entry if it is listed, none otherwise. */
  function TocPiece(item: TocItem): (r: seq<string>)
    ensures |r| <= 1
  {
    if Listed(item) then [TocLine(item)] else []
  }

  /** The lines of the listed entries, in their order. */
  function TocLines(items: seq<TocItem>): (r: seq<string>)
    ensures |r| <= |items|
  {
    if items == [] then [] else TocPiece(items[0]) + TocLines(items[1..])
  }

  /** The whole table: its lines, then an empty line. */
  function TocText(items: seq<TocItem>): string
  {
    Concat(TocLines(items)) + "\n"
  }

  /** `generate_toc` */
  method GenerateToc(items: seq<TocItem>) returns (toc: string)
    ensures toc == TocText(items)
  {
    var lines: seq<string> := [];
    for i := 0 to |items|
      invariant lines == TocLines(items[..i])
    {
      var item := items[i];
      assert TocLines(items[..i + 1]) == TocLines(items[..i]) + TocPiece(item) by {
        TocLinesAppend(items[..i], [item]);
        assert items[..i + 1] == items[..i] + [item];
        assert [item][1..] == [];
      }
      if Lower(item.title) != "contents" {
        var indent := Repeat("  ", item.level - 1);
        lines := lines + [indent + "- [" + item.title + "](#" + item.anchor + ")\n"];
      }
    }
    assert items[..|items|] == items;
    toc := Concat(lines) + "\n";
  }

  /** The table of a concatenation is the tables of the parts, one after the other. */
  lemma {:induction false} TocLinesAppend(a: seq<TocItem>, b: seq<TocItem>)
    ensures TocLines(a + b) == TocLines(a) + TocLines(b)
    decreases |a|
  {
    if a == [] {
      assert a + b == b;
    } else {
      assert (a + b)[0] == a[0];
      assert (a + b)[1..] == a[1..] + b;
      TocLinesAppend(a[1..], b);
      assert TocLines(a + b) == TocPiece(a[0]) + TocLines(a[1..] + b);
    }
  }

  /** How many entries are listed. */
  function CountListed(items: seq<TocItem>): nat
  {
    if items == [] then 0 else (if Listed(items[0]) then 1 else 0) + CountListed(items[1..])
  }

  /** There is one line per listed entry, and the `k`-th line is the line of
      the `k`-th listed entry. */
  lemma {:induction false} TocLinesAreListedEntries(items: seq<TocItem>)
    ensures |TocLines(items)| == CountListed(items)
    ensures forall k :: 0 <= k < |items| && Listed(items[k]) ==>
      CountListed(items[..k]) < |TocLines(items)| && TocLines(items)[CountListed(items[..k])] == TocLine(items[k])
  {
    if items != [] {
      var rest, head := items[1..], TocPiece(items[0]);
      var lines := TocLines(items);
      TocLinesAreListedEntries(rest);
      assert lines == head + TocLines(rest);
      assert |head| == if Listed(items[0]) then 1 else 0;
      forall k | 0 <= k < |items| && Listed(items[k])
        ensures CountListed(items[..k]) < |lines| && lines[CountListed(items[..k])] == TocLine(items[k])
      {
        if k == 0 {
          assert items[..k] == [];
        } else {
          var c := CountListed(rest[..k - 1]);
          assert CountListed(items[..k]) == |head| + c by {
            assert items[..k][0] == items[0];
            assert items[..k][1..] == rest[..k - 1];
          }
          assert rest[k - 1] == items[k];
          assert lines[|head| + c] == TocLines(rest)[c];
        }
      }
    }
  }

  /** Without listed entries the table is a lone empty line. */
  lemma {:induction false} TocOfUnlisted(items: seq<TocItem>)
    requires forall i :: 0 <= i < |items| ==> !Listed(items[i])
    ensures TocLines(items) == []
    ensures TocText(items) == "\n"
  {
    if items != [] {
      TocOfUnlisted(items[1..]);
    }
  }

  /** An entry is listed unless its title is "contents" up to ASCII case. */
  lemma ListedIff(item: TocItem)
    ensures !Listed(item) <==> |item.title| == 8 && forall i :: 0 <= i < 8 ==> LowerChar(item.title[i]) == "contents"[i]
  {
    if |item.title| == 8 && forall i :: 0 <= i < 8 ==> LowerChar(item.title[i]) == "contents"[i] {
      assert Lower(item.title) == "contents";
    }
  }
}
