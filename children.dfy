/** Appending string children to an element, on the document alone: the
    part of `renderElement` over strings that involves no subscription. */
module Children {
  import opened Common
  import opened Values
  import opened Dom

  /** `ele` and its children are below `next`: what a well-formed document
      guarantees about them. */
  ghost predicate KidsBelowNext(d: Doc, ele: nat)
  {
    ele in d.nodes && ele < d.next &&
    forall j :: 0 <= j < |Kids(d.nodes[ele])| ==> Kids(d.nodes[ele])[j] < d.next
  }

  /** The document after a string child was rendered and appended: the
      unused empty fragment, then the text node, appended to `ele`. */
  function AppendedText(d: Doc, ele: nat, s: string): Doc
  {
    AppendChild(WithText(d, s), ele, d.next + 1)
  }

  /** The document once the unused fragment and the text node exist. */
  function WithText(d: Doc, s: string): (r: Doc)
    ensures r == Create(Create(d, FragmentNode([])).0, TextNode(s)).0
  {
    Doc(d.nodes[d.next := FragmentNode([])][d.next + 1 := TextNode(s)], d.next + 2)
  }

  /** The appended text node holds the string, and `next` has grown by two. */
  lemma TextChildNode(d: Doc, ele: nat, s: string)
    requires ele in d.nodes
    ensures var r := AppendedText(d, ele, s);
      r.next == d.next + 2 && d.next + 1 in r.nodes && r.nodes[d.next + 1] == TextNode(s)
  {
    var d1 := WithText(d, s);
    InsertKeepsLeaf(d1, ele, d.next + 1, None, d.next + 1);
  }

  /** Appending a string child leaves every existing leaf as it was. */
  lemma TextChildKeepsLeaf(d: Doc, ele: nat, s: string, y: nat)
    requires y in d.nodes && y < d.next && !IsParent(d.nodes[y])
    ensures var r := AppendedText(d, ele, s);
      y in r.nodes && r.nodes[y] == d.nodes[y]
  {
    var d1 := WithText(d, s);
    assert d1.nodes[y] == d.nodes[y];
    InsertKeepsLeaf(d1, ele, d.next + 1, None, y);
  }

  /** `n` string children appended to `ele` one after the other, as
      `AppendedText` appends one: the reference the renderer is compared
      with. */
  function AppendTexts(d: Doc, ele: nat, kids: seq<Value>, n: nat): Doc
    requires n <= |kids| && forall j :: 0 <= j < |kids| ==> kids[j].Str?
    decreases n
  {
    if n == 0 then d else AppendedText(AppendTexts(d, ele, kids, n - 1), ele, kids[n - 1].s)
  }

  /** `r` is `d` with a text node holding `s` appended to `ele`: the node
      is new (numbered `d.next + 1`, after the unused fragment), it follows
      the element's earlier children, and no existing leaf changed. */
  ghost predicate TextAppended(d: Doc, r: Doc, ele: nat, s: string)
  {
    ele in d.nodes && ele in r.nodes && IsParent(r.nodes[ele]) && r.next == d.next + 2 &&
    Kids(r.nodes[ele]) == Kids(d.nodes[ele]) + [d.next + 1] &&
    d.next + 1 in r.nodes && r.nodes[d.next + 1] == TextNode(s) &&
    forall y :: y in d.nodes && y < d.next && !IsParent(d.nodes[y]) ==> y in r.nodes && r.nodes[y] == d.nodes[y]
  }

  /** What appending a string child does to a document in which `ele` and
      its children are below `next`; the same then holds afterwards, so
      the next child can be appended the same way. */
  lemma AppendedTextFacts(d: Doc, ele: nat, s: string)
    requires KidsBelowNext(d, ele) && IsParent(d.nodes[ele])
    ensures TextAppended(d, AppendedText(d, ele, s), ele, s)
    ensures KidsBelowNext(AppendedText(d, ele, s), ele)
  {
    assert d.next + 1 !in Kids(d.nodes[ele]) by {
      var ks := Kids(d.nodes[ele]);
      forall j | 0 <= j < |ks|
        ensures ks[j] != d.next + 1
      {
      }
    }
    var d1 := WithText(d, s);
    assert d1.nodes[ele] == d.nodes[ele];
    AppendDetached(d1, ele, d.next + 1);
    TextChildNode(d, ele, s);
    forall y | y in d.nodes && y < d.next && !IsParent(d.nodes[y])
      ensures y in AppendedText(d, ele, s).nodes && AppendedText(d, ele, s).nodes[y] == d.nodes[y]
    {
      TextChildKeepsLeaf(d, ele, s, y);
    }
    var r := AppendedText(d, ele, s);
    forall j | 0 <= j < |Kids(r.nodes[ele])|
      ensures Kids(r.nodes[ele])[j] < r.next
    {
      if j < |Kids(d.nodes[ele])| {
        assert Kids(r.nodes[ele])[j] == Kids(d.nodes[ele])[j];
      }
    }
  }
}
