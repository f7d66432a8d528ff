/** What `createNode`, its subscriptions, `handleProps` and `jsxDEV` do,
    stated over the functions of module `Runtime`. */
module Behaviour {
  import opened Common
  import opened Values
  import opened Dom
  import opened Runtime
  import opened Children
  import State

  // ---------------------------------------------------------------------
  // createNode
  // ---------------------------------------------------------------------

  /** A string or a number, including `0` and `""`, becomes a new text node
      holding its text; no subscription is made. */
  lemma RenderText(c: Ctx, v: Value, ele: nat, fuel: nat, eval: nat -> Outcome)
    requires Valid(c.doc) && fuel > 0 && (v.Str? || v.Num?)
    ensures var r := Render(c, v, ele, fuel, eval);
      Valid(r.0.doc) && r.1 !in c.doc.nodes && r.1 == c.doc.next + 1 && Detached(r.0.doc, r.1) &&
      r.0.doc.nodes == c.doc.nodes[c.doc.next := FragmentNode([])][r.1 := TextNode(if v.Str? then v.s else NumberText(v.n))] &&
      r.0.bindings == c.bindings && r.0.computeds == c.computeds
  {
    var (d0, frag) := Create(c.doc, FragmentNode([]));
    CreateFacts(c.doc, FragmentNode([]));
    CreateFacts(d0, TextNode(ToJsString(v)));
  }

  /** An element is returned as it is; the document only gains the unused
      empty fragment. */
  lemma RenderElementAsIs(c: Ctx, v: Value, ele: nat, fuel: nat, eval: nat -> Outcome)
    requires fuel > 0 && v.Host? && v.ref in c.doc.nodes && c.doc.nodes[v.ref].ElementNode?
    ensures var r := Render(c, v, ele, fuel, eval);
      r.1 == v.ref && r.0 == c.(doc := Create(c.doc, FragmentNode([])).0)
  {
  }

  /** `null`, `undefined`, `false`, a reactive function that throws, any
      value of an unhandled type, and any value once the nesting bound is
      spent, render as the new empty fragment, with no subscription. */
  lemma RenderEmpty(c: Ctx, v: Value, ele: nat, fuel: nat, eval: nat -> Outcome)
    requires fuel == 0 || v == Undefined || v == Null || v == Bool(false) ||
             v == Bool(true) || v == Record || (v.Function? && !v.tagged) ||
             (v.Host? && !(v.ref in c.doc.nodes && c.doc.nodes[v.ref].ElementNode?)) ||
             (State.IsReactiveFunction(v) && eval(v.fn) == Throws)
    ensures var r := Render(c, v, ele, fuel, eval);
      var created := Create(c.doc, FragmentNode([]));
      r == (c.(doc := created.0), created.1) && r.0.doc.nodes[r.1] == FragmentNode([])
  {
    var (d0, frag) := Create(c.doc, FragmentNode([]));
    if fuel > 0 && v.Host? {
      assert !(v.ref in d0.nodes && d0.nodes[v.ref].ElementNode?);
    }
  }

  /** The first half of `Bracket`: the start marker goes in front. */
  lemma BracketStart(d: Doc, f: nat)
    requires Valid(d) && f in d.nodes && d.nodes[f].FragmentNode?
    ensures var cs := Kids(d.nodes[f]);
      var (d1, s) := Create(d, CommentNode("fragment-start"));
      var d2 := Insert(d1, f, s, if cs == [] then None else Some(cs[0]));
      s == d.next && d2.next == d.next + 1 && f in d2.nodes && d2.nodes[f].FragmentNode? &&
      Kids(d2.nodes[f]) == [s] + cs && s in d2.nodes && d2.nodes[s] == CommentNode("fragment-start") &&
      f < d2.next && d2.next !in Kids(d2.nodes[f])
  {
    var cs := Kids(d.nodes[f]);
    var (d1, s) := Create(d, CommentNode("fragment-start"));
    forall x | x in cs
      ensures x < d.next
    {
      assert x in d.nodes;
    }
    PrependDetached(d1, f, s);
    InsertKeepsLeaf(d1, f, s, if cs == [] then None else Some(cs[0]), s);
  }

  /** The second half of `Bracket`: the end marker goes last. */
  lemma BracketEnd(d2: Doc, f: nat, s: nat)
    requires f in d2.nodes && d2.nodes[f].FragmentNode? && f < d2.next && d2.next !in Kids(d2.nodes[f])
    requires s in d2.nodes && d2.nodes[s].CommentNode? && s < d2.next
    ensures var (d3, e) := Create(d2, CommentNode("fragment-end"));
      var r := AppendChild(d3, f, e);
      e == d2.next && f in r.nodes && r.nodes[f].FragmentNode? && Kids(r.nodes[f]) == Kids(d2.nodes[f]) + [e] &&
      s in r.nodes && r.nodes[s] == d2.nodes[s] && e in r.nodes && r.nodes[e] == CommentNode("fragment-end")
  {
    var (d3, e) := Create(d2, CommentNode("fragment-end"));
    assert d3.nodes[f] == d2.nodes[f];
    AppendDetached(d3, f, e);
    InsertKeepsLeaf(d3, f, e, None, s);
    InsertKeepsLeaf(d3, f, e, None, e);
  }

  /** Bracketing a fragment puts a new "fragment-start" comment before its
      children and a new "fragment-end" comment after them. */
  lemma BracketShape(d: Doc, f: nat)
    requires Valid(d) && f in d.nodes && d.nodes[f].FragmentNode?
    ensures var (r, e) := Bracket(d, f);
      var start := d.next;
      start !in d.nodes && e == start + 1 && e !in d.nodes &&
      f in r.nodes && r.nodes[f].FragmentNode? && Kids(r.nodes[f]) == [start] + Kids(d.nodes[f]) + [e] &&
      start in r.nodes && r.nodes[start] == CommentNode("fragment-start") &&
      e in r.nodes && r.nodes[e] == CommentNode("fragment-end")
  {
    var cs := Kids(d.nodes[f]);
    var (d1, s) := Create(d, CommentNode("fragment-start"));
    var d2 := Insert(d1, f, s, if cs == [] then None else Some(cs[0]));
    BracketStart(d, f);
    BracketEnd(d2, f, s);
  }

  /** An array renders as the fragment made for it. */
  lemma RenderListFragment(c: Ctx, v: Value, ele: nat, fuel: nat, eval: nat -> Outcome)
    requires Valid(c.doc) && fuel > 0 && v.List?
    ensures var r := Render(c, v, ele, fuel, eval);
      r.1 == c.doc.next && r.1 in r.0.doc.nodes && r.0.doc.nodes[r.1].FragmentNode?
  {
    var (d0, frag) := Create(c.doc, FragmentNode([]));
    CreateFacts(c.doc, FragmentNode([]));
    var c0 := c.(doc := d0);
    assert Classify(d0, v) == AsList;
    assert Render(c, v, ele, fuel, eval) == RenderList(c0, frag, v, ele, fuel, eval);
    RenderItemsFacts(c0, v, |v.items|, ele, fuel, eval);
    var (c1, xs) := RenderItems(c0, v, |v.items|, ele, fuel, eval);
    assert frag in c1.doc.nodes && c1.doc.nodes[frag].FragmentNode?;
    AppendAllFacts(c1.doc, frag, xs);
  }

  /** Every item is a string or a number. */
  predicate TextItems(items: seq<Value>)
  {
    forall k :: 0 <= k < |items| ==> items[k].Str? || items[k].Num?
  }

  /** `xs` are the nodes numbered `base`, `base + 2`, ... and the one at
      position `k` holds the text of `items[k]`. */
  ghost predicate TextsInOrder(d: Doc, xs: seq<nat>, base: nat, items: seq<Value>)
  {
    |xs| == |items| &&
    forall k :: 0 <= k < |xs| ==> xs[k] == base + 2 * k && HoldsText(d, xs[k], ToJsString(items[k]))
  }

  /** `r` is `c` after rendering `items`, all strings or numbers: an
      unused fragment and then a text node per item, the text nodes `xs`
      in item order, and no existing node or subscription changed. */
  ghost predicate TextItemsRendered(c: Ctx, r: Ctx, xs: seq<nat>, items: seq<Value>)
  {
    Valid(r.doc) && r.doc.next == c.doc.next + 2 * |items| &&
    r.bindings == c.bindings && r.computeds == c.computeds &&
    (forall x :: x in c.doc.nodes ==> x in r.doc.nodes && r.doc.nodes[x] == c.doc.nodes[x]) &&
    TextsInOrder(r.doc, xs, c.doc.next + 1, items)
  }

  /** One more string or number item rendered after the others. */
  lemma TextItemStep(c: Ctx, c1: Ctx, xs: seq<nat>, items: seq<Value>, v: Value, ele: nat, fuel: nat, eval: nat -> Outcome)
    requires Valid(c.doc) && fuel > 0 && (v.Str? || v.Num?) && TextItemsRendered(c, c1, xs, items)
    ensures var r := Render(c1, v, ele, fuel, eval);
      TextItemsRendered(c, r.0, xs + [r.1], items + [v])
  {
    RenderText(c1, v, ele, fuel, eval);
    var (c2, x) := Render(c1, v, ele, fuel, eval);
    forall y | y in c1.doc.nodes
      ensures y in c2.doc.nodes && c2.doc.nodes[y] == c1.doc.nodes[y]
    {
      assert y < c1.doc.next;
    }
    forall k | 0 <= k < |xs| + 1
      ensures (xs + [x])[k] == c.doc.next + 1 + 2 * k && HoldsText(c2.doc, (xs + [x])[k], ToJsString((items + [v])[k]))
    {
      if k < |xs| {
        assert HoldsText(c1.doc, xs[k], ToJsString(items[k]));
      }
    }
  }

  /** Rendering the first `n` items of an array of strings and numbers
      makes, per item, an unused fragment and then a text node; the text
      nodes come back in item order, and no existing node changes. */
  lemma {:induction false} RenderTextItems(c: Ctx, list: Value, n: nat, ele: nat, fuel: nat, eval: nat -> Outcome)
    requires Valid(c.doc) && fuel > 0 && list.List? && n <= |list.items| && TextItems(list.items)
    ensures var r := RenderItems(c, list, n, ele, fuel, eval);
      TextItemsRendered(c, r.0, r.1, list.items[..n])
  {
    if n == 0 {
      assert TextsInOrder(c.doc, [], c.doc.next + 1, list.items[..0]);
    } else {
      RenderTextItems(c, list, n - 1, ele, fuel, eval);
      var (c1, xs) := RenderItems(c, list, n - 1, ele, fuel, eval);
      TextItemStep(c, c1, xs, list.items[..n - 1], list.items[n - 1], ele, fuel, eval);
      assert list.items[..n - 1] + [list.items[n - 1]] == list.items[..n];
    }
  }

  /** `r` is `d` with `xs` appended to the children of `p`; the keys stay
      and no leaf changes. */
  ghost predicate LeavesAppended(d: Doc, r: Doc, p: nat, xs: seq<nat>)
  {
    p in d.nodes && r.nodes.Keys == d.nodes.Keys && IsParent(r.nodes[p]) && SameKind(d.nodes[p], r.nodes[p]) &&
    Kids(r.nodes[p]) == Kids(d.nodes[p]) + xs &&
    forall x :: x in d.nodes && !IsParent(d.nodes[x]) ==> r.nodes[x] == d.nodes[x]
  }

  /** One more leaf, not yet among the children, appended after them. */
  lemma AppendLeafStep(d: Doc, d1: Doc, p: nat, ys: seq<nat>, last: nat)
    requires LeavesAppended(d, d1, p, ys)
    requires last in d.nodes && d.nodes[last].TextNode? && last !in Kids(d.nodes[p]) && last !in ys
    ensures LeavesAppended(d, AppendChild(d1, p, last), p, ys + [last])
  {
    AppendDetached(d1, p, last);
    forall x | x in d.nodes && !IsParent(d.nodes[x])
      ensures AppendChild(d1, p, last).nodes[x] == d.nodes[x]
    {
      InsertKeepsLeaf(d1, p, last, None, x);
    }
  }

  /** Without its last element a duplicate-free sequence stays so, and
      does not hold that element. */
  lemma DistinctLast(xs: seq<nat>)
    requires Distinct(xs) && xs != []
    ensures Distinct(xs[..|xs| - 1]) && xs[|xs| - 1] !in xs[..|xs| - 1]
  {
    var ys := xs[..|xs| - 1];
    forall i | 0 <= i < |ys|
      ensures ys[i] != xs[|xs| - 1]
    {
      assert ys[i] == xs[i];
    }
  }

  /** Appending distinct text nodes none of which is already a child of
      `p` puts them after its children in that order; no leaf changes. */
  lemma {:induction false} AppendLeaves(d: Doc, p: nat, xs: seq<nat>)
    requires p in d.nodes && IsParent(d.nodes[p])
    requires Distinct(xs)
    requires forall x :: x in xs ==> x in d.nodes && d.nodes[x].TextNode? && x !in Kids(d.nodes[p])
    ensures LeavesAppended(d, AppendAll(d, p, xs), p, xs)
    decreases |xs|
  {
    if xs == [] {
      assert Kids(d.nodes[p]) + xs == Kids(d.nodes[p]);
    } else {
      var ys := xs[..|xs| - 1];
      var last := xs[|xs| - 1];
      assert xs == ys + [last];
      DistinctLast(xs);
      AppendLeaves(d, p, ys);
      AppendLeafStep(d, AppendAll(d, p, ys), p, ys, last);
    }
  }

  /** The text nodes of an array are distinct existing text nodes. */
  lemma TextsInOrderLeaves(d: Doc, xs: seq<nat>, base: nat, items: seq<Value>)
    requires TextsInOrder(d, xs, base, items)
    ensures Distinct(xs) && forall x :: x in xs ==> x in d.nodes && d.nodes[x].TextNode?
  {
    forall x | x in xs
      ensures x in d.nodes && d.nodes[x].TextNode?
    {
      var k :| 0 <= k < |xs| && xs[k] == x;
      assert HoldsText(d, xs[k], ToJsString(items[k]));
    }
  }

  /** Once the text nodes of an array are appended to its empty fragment
      they are the fragment's children, in the same order. */
  lemma TextsStayInOrder(d: Doc, r: Doc, f: nat, xs: seq<nat>, base: nat, items: seq<Value>)
    requires f in d.nodes && d.nodes[f] == FragmentNode([]) && TextsInOrder(d, xs, base, items)
    requires LeavesAppended(d, r, f, xs)
    ensures f in r.nodes && r.nodes[f].FragmentNode? && TextsInOrder(r, Kids(r.nodes[f]), base, items)
  {
    assert Kids(r.nodes[f]) == xs;
    forall k | 0 <= k < |xs|
      ensures HoldsText(r, xs[k], ToJsString(items[k]))
    {
      assert HoldsText(d, xs[k], ToJsString(items[k]));
    }
  }

  /** An array of strings and numbers renders as its fragment holding one
      new text node per item, in item order, each with the item's text;
      item `k`'s text node is numbered `c.doc.next + 2 * k + 2`, after the
      array's fragment and the item's own unused fragment. No subscription
      is made. */
  lemma RenderTextList(c: Ctx, v: Value, ele: nat, fuel: nat, eval: nat -> Outcome)
    requires Valid(c.doc) && fuel > 0 && v.List? && TextItems(v.items)
    ensures var r := Render(c, v, ele, fuel, eval);
      r.1 == c.doc.next && r.1 in r.0.doc.nodes && r.0.doc.nodes[r.1].FragmentNode? &&
      TextsInOrder(r.0.doc, Kids(r.0.doc.nodes[r.1]), c.doc.next + 2, v.items) &&
      r.0.bindings == c.bindings && r.0.computeds == c.computeds
  {
    var (d0, frag) := Create(c.doc, FragmentNode([]));
    CreateFacts(c.doc, FragmentNode([]));
    var c0 := c.(doc := d0);
    assert Classify(d0, v) == AsList;
    assert Render(c, v, ele, fuel, eval) == RenderList(c0, frag, v, ele, fuel, eval);
    RenderTextItems(c0, v, |v.items|, ele, fuel, eval);
    var (c1, xs) := RenderItems(c0, v, |v.items|, ele, fuel, eval);
    assert v.items[..|v.items|] == v.items;
    TextsInOrderLeaves(c1.doc, xs, c.doc.next + 2, v.items);
    AppendLeaves(c1.doc, frag, xs);
    TextsStayInOrder(c1.doc, AppendAll(c1.doc, frag, xs), frag, xs, c.doc.next + 2, v.items);
  }

  /** A reactive function whose value is a string or a number: a new
      computed cell, a new text node with the value's text, and a
      subscription that patches that text. */
  lemma ComputedText(c: Ctx, v: Value, x: Value, ele: nat, fuel: nat, eval: nat -> Outcome)
    requires Valid(c.doc) && fuel > 1 && State.IsReactiveFunction(v) && eval(v.fn) == Returns(x)
    requires x.Str? || x.Num?
    ensures var r := Render(c, v, ele, fuel, eval);
      r.1 in r.0.doc.nodes && r.0.doc.nodes[r.1] == TextNode(ToJsString(x)) &&
      r.0.computeds == c.computeds + 1 &&
      r.0.bindings == c.bindings + [Binding(ComputedCell(v.fn, c.computeds), TextPatch(r.1))]
  {
    var (d0, frag) := Create(c.doc, FragmentNode([]));
    CreateFacts(c.doc, FragmentNode([]));
    var c0 := c.(doc := d0);
    assert Classify(d0, v) == AsComputed;
    assert Render(c, v, ele, fuel, eval) == RenderComputed(c0, v.fn, x, ele, fuel - 1, eval);
    var c1 := c0.(computeds := c.computeds + 1);
    RenderText(c1, x, ele, fuel - 1, eval);
    var (c2, t) := Render(c1, x, ele, fuel - 1, eval);
    assert RenderComputed(c0, v.fn, x, ele, fuel - 1, eval) == Attach(c2, ComputedCell(v.fn, c.computeds), t, ele, true);
  }

  /** The subscription to a fragment with markers: the fragment's nodes are
      bracketed, and the subscription remembers them and the end marker. */
  lemma AttachFragment(c: Ctx, src: Source, cur: nat, ele: nat)
    requires cur in c.doc.nodes && c.doc.nodes[cur].FragmentNode?
    ensures Attach(c, src, cur, ele, true).1 == cur
    ensures Attach(c, src, cur, ele, true).0.computeds == c.computeds
    ensures Attach(c, src, cur, ele, true).0.bindings ==
      c.bindings + [Binding(src, RegionPatch(ele, Kids(c.doc.nodes[cur]), c.doc.next + 1))]
    ensures Attach(c, src, cur, ele, true).0.doc == Bracket(c.doc, cur).0
  {
  }

  /** A reactive function that returns `x` renders `x` with one more
      computed cell and subscribes to that cell. */
  lemma ComputedRendersResult(c: Ctx, v: Value, x: Value, ele: nat, fuel: nat, eval: nat -> Outcome)
    requires fuel > 1 && State.IsReactiveFunction(v) && eval(v.fn) == Returns(x)
    ensures Render(c, v, ele, fuel, eval) ==
      RenderComputed(c.(doc := Create(c.doc, FragmentNode([])).0), v.fn, x, ele, fuel - 1, eval)
  {
    assert Classify(Create(c.doc, FragmentNode([])).0, v) == AsComputed;
  }

  /** A state cell whose value is a string or a number: a new text node and
      a subscription that patches its text. */
  lemma StateText(c: Ctx, v: Value, ele: nat, fuel: nat, eval: nat -> Outcome)
    requires Valid(c.doc) && fuel > 0 && State.IsReactiveState(v) && (v.current.Str? || v.current.Num?)
    ensures var r := Render(c, v, ele, fuel, eval);
      r.1 in r.0.doc.nodes && r.0.doc.nodes[r.1] == TextNode(ToJsString(v.current)) &&
      r.0.bindings == c.bindings + [Binding(v.source, TextPatch(r.1))]
  {
    var (d0, frag) := Create(c.doc, FragmentNode([]));
    CreateFacts(c.doc, FragmentNode([]));
    var c0 := c.(doc := d0);
    assert Classify(d0, v) == AsState;
    assert Render(c, v, ele, fuel, eval) == RenderState(c0, v.source, v.current, ele, fuel, eval);
    RenderText(c0, v.current, ele, fuel, eval);
    var (c1, t) := Render(c0, v.current, ele, fuel, eval);
    assert RenderState(c0, v.source, v.current, ele, fuel, eval) == Attach(c1, v.source, t, ele, false);
  }

  /** A state cell whose value is an array gets no markers: its fragment is
      remembered, in the last subscription, as the node to replace. */
  lemma StateFragment(c: Ctx, v: Value, ele: nat, fuel: nat, eval: nat -> Outcome)
    requires Valid(c.doc) && fuel > 0 && State.IsReactiveState(v) && v.current.List?
    ensures var r := Render(c, v, ele, fuel, eval);
      r.1 in r.0.doc.nodes && r.0.doc.nodes[r.1].FragmentNode? &&
      |r.0.bindings| > |c.bindings| &&
      r.0.bindings[|r.0.bindings| - 1] == Binding(v.source, ReplacePatch(ele, r.1))
  {
    var (d0, frag) := Create(c.doc, FragmentNode([]));
    CreateFacts(c.doc, FragmentNode([]));
    var c0 := c.(doc := d0);
    assert Classify(d0, v) == AsState;
    assert Render(c, v, ele, fuel, eval) == RenderState(c0, v.source, v.current, ele, fuel, eval);
    RenderListFragment(c0, v.current, ele, fuel, eval);
    var (c1, cur) := Render(c0, v.current, ele, fuel, eval);
    assert RenderState(c0, v.source, v.current, ele, fuel, eval) == Attach(c1, v.source, cur, ele, false);
  }

  // ---------------------------------------------------------------------
  // The subscriptions
  // ---------------------------------------------------------------------

  /** A text subscription sets the text of its node to `String(value)`
      and changes nothing else. */
  lemma ApplyText(c: Ctx, i: nat, v: Value, fuel: nat, eval: nat -> Outcome)
    requires i < |c.bindings| && c.bindings[i].patch.TextPatch?
    requires c.bindings[i].patch.node in c.doc.nodes && c.doc.nodes[c.bindings[i].patch.node].TextNode?
    ensures var n := c.bindings[i].patch.node;
      var r := Apply(c, i, v, fuel, eval);
      !r.1 && r.0.bindings == c.bindings && r.0.computeds == c.computeds &&
      r.0.doc.nodes == c.doc.nodes[n := TextNode(ToJsString(v))]
  {
  }

  /** An attribute subscription sets its attribute to `String(value)` and
      changes nothing else. */
  lemma ApplyAttribute(c: Ctx, i: nat, v: Value, fuel: nat, eval: nat -> Outcome)
    requires i < |c.bindings| && c.bindings[i].patch.AttributePatch?
    requires c.bindings[i].patch.ele in c.doc.nodes && c.doc.nodes[c.bindings[i].patch.ele].ElementNode?
    ensures var e := c.bindings[i].patch.ele;
      var r := Apply(c, i, v, fuel, eval);
      !r.1 && r.0.bindings == c.bindings && r.0.computeds == c.computeds &&
      r.0.doc.nodes[e].attributes == c.doc.nodes[e].attributes[c.bindings[i].patch.key := ToJsString(v)]
  {
  }

  /** A replace subscription, once the new value is rendered as a single
      node `n` without a parent: `n` stands where the current node stood
      in its parent, the rest of the parent's children keep their order,
      and `n` becomes the current node. */
  lemma ReplaceRenderedPlaces(c: Ctx, i: nat, src: Source, ele: nat, cur: nat, n: nat, p: nat)
    requires Valid(c.doc) && i < |c.bindings|
    requires n in c.doc.nodes && Detached(c.doc, n) && !c.doc.nodes[n].FragmentNode? && cur != n
    requires cur in c.doc.nodes && !c.doc.nodes[cur].FragmentNode? && p in c.doc.nodes && cur in Kids(c.doc.nodes[p])
    ensures var cs := Kids(c.doc.nodes[p]);
      var k := IndexOf(cs, cur);
      var r := ReplaceRendered(c, i, src, ele, cur, n);
      p in r.doc.nodes && Kids(r.doc.nodes[p]) == cs[..k] + [n] + cs[k + 1..] &&
      n in r.doc.nodes && (!IsParent(c.doc.nodes[n]) ==> r.doc.nodes[n] == c.doc.nodes[n]) &&
      r.bindings == c.bindings[i := Binding(src, ReplacePatch(ele, n))] && r.computeds == c.computeds
  {
    ReplaceByDetached(c.doc, p, cur, n);
    if !IsParent(c.doc.nodes[n]) {
      ReplaceKeepsLeaf(c.doc, cur, n, n);
    }
  }

  /** As written, a replace subscription whose current node is a fragment
      (a state cell whose value was an array) never takes effect: the new
      value is still rendered, with every node, cell and subscription that
      creates, but the fragment has no `replaceWith`, the error is
      swallowed, nothing is replaced, and the subscription keeps the
      fragment, which is no longer in the page. */
  lemma ReplaceOnFragment(c: Ctx, i: nat, v: Value, fuel: nat, eval: nat -> Outcome)
    requires Valid(c.doc) && i < |c.bindings| && c.bindings[i].patch.ReplacePatch?
    requires c.bindings[i].patch.current in c.doc.nodes && c.doc.nodes[c.bindings[i].patch.current].FragmentNode?
    ensures var r := Apply(c, i, v, fuel, eval);
      !r.1 && r.0 == Render(c, v, c.bindings[i].patch.ele, fuel, eval).0 &&
      |r.0.bindings| > i && r.0.bindings[i] == c.bindings[i] &&
      c.bindings[i].patch.current in r.0.doc.nodes && r.0.doc.nodes[c.bindings[i].patch.current].FragmentNode?
  {
    RenderFacts(c, v, c.bindings[i].patch.ele, fuel, eval);
  }

  /** A region subscription, once the new value is rendered as `n`, when
      the end marker is still a child of the element: `insertBefore`
      succeeds (`Dom.InsertPlacesBefore` says the moved nodes stand, in
      order, right before the end marker), and the subscription remembers
      the child nodes `n` had before the insertion. */
  lemma InsertRenderedPlaces(c: Ctx, i: nat, src: Source, ele: nat, end: nat, n: nat)
    requires i < |c.bindings| && ele in c.doc.nodes && IsParent(c.doc.nodes[ele]) && end in Kids(c.doc.nodes[ele])
    ensures InsertRendered(c, i, src, ele, end, n) ==
      (Ctx(Insert(c.doc, ele, n, Some(end)), c.bindings[i := Binding(src, RegionPatch(ele, RecordedAsWritten(c.doc, n), end))], c.computeds), false)
  {
    InsertRecordingPlaces(c, i, src, ele, end, n, RecordedAsWritten(c.doc, n));
  }

  /** The shared step of both region insertions, whatever they remember. */
  lemma InsertRecordingPlaces(c: Ctx, i: nat, src: Source, ele: nat, end: nat, n: nat, nodes: seq<nat>)
    requires i < |c.bindings| && ele in c.doc.nodes && IsParent(c.doc.nodes[ele]) && end in Kids(c.doc.nodes[ele])
    ensures InsertRecording(c, i, src, ele, end, n, nodes) ==
      (Ctx(Insert(c.doc, ele, n, Some(end)), c.bindings[i := Binding(src, RegionPatch(ele, nodes, end))], c.computeds), false)
  {
    var c1 := c.(bindings := c.bindings[i := Binding(src, RegionPatch(ele, nodes, end))]);
    assert InsertBefore(c1.doc, ele, n, Some(end)) == Some(Insert(c.doc, ele, n, Some(end)));
  }

  /** A region subscription whose end marker is no longer a child of the
      element: `insertBefore` throws, after the child nodes of `n` are
      remembered, and the document is left as the rendering left it. */
  lemma InsertRenderedThrows(c: Ctx, i: nat, src: Source, ele: nat, end: nat, n: nat)
    requires i < |c.bindings| && !(ele in c.doc.nodes && IsParent(c.doc.nodes[ele]) && end in Kids(c.doc.nodes[ele]))
    ensures var r := InsertRendered(c, i, src, ele, end, n);
      r.1 && r.0.doc == c.doc && r.0.bindings == c.bindings[i := Binding(src, RegionPatch(ele, RecordedAsWritten(c.doc, n), end))]
  {
  }

  /** When the new rendering is a fragment, its child nodes are exactly the
      nodes the insertion moves, so the region patch as written and the
      corrected one agree. */
  lemma InsertRenderedFragment(c: Ctx, i: nat, src: Source, ele: nat, end: nat, n: nat)
    requires i < |c.bindings| && n in c.doc.nodes && c.doc.nodes[n].FragmentNode?
    ensures InsertRendered(c, i, src, ele, end, n) == InsertRenderedCorrected(c, i, src, ele, end, n)
    ensures RecordedAsWritten(c.doc, n) == Recorded(c.doc, n)
  {
  }

  /** Node `t` is a text node holding `s`. */
  predicate HoldsText(d: Doc, t: nat, s: string)
  {
    t in d.nodes && d.nodes[t] == TextNode(s)
  }

  /** A child in a well-formed document exists. */
  lemma ChildExists(d: Doc, k: nat, x: nat)
    requires Valid(d) && k in d.nodes && x in Kids(d.nodes[k])
    ensures x in d.nodes && x < d.next
  {
  }

  /** Region update `r` of subscription `i` inserted a new text node
      `c.doc.next + 1` holding `s`: the update did not throw, the document
      stays well formed, the subscription now remembers no node, the text
      node stands immediately before the end marker among the children of
      the element, and so is every child the update did not remove; every
      remembered node of the page has no parent; no text node or comment
      changes. */
  ghost predicate TextInserted(c: Ctx, i: nat, r: (Ctx, bool), s: string)
    requires i < |c.bindings| && c.bindings[i].patch.RegionPatch? && c.bindings[i].patch.ele in c.doc.nodes
  {
    var p := c.bindings[i].patch;
    var t := c.doc.next + 1;
    !r.1 && Valid(r.0.doc) && t !in c.doc.nodes && HoldsText(r.0.doc, t, s) &&
    r.0.bindings == c.bindings[i := Binding(c.bindings[i].source, RegionPatch(p.ele, [], p.end))] &&
    p.ele in r.0.doc.nodes && IsParent(r.0.doc.nodes[p.ele]) &&
    t in Kids(r.0.doc.nodes[p.ele]) && p.end in Kids(r.0.doc.nodes[p.ele]) &&
    JustBefore(Kids(r.0.doc.nodes[p.ele]), t, p.end) &&
    (forall x :: x in p.nodes && x in c.doc.nodes ==> Detached(r.0.doc, x)) &&
    (forall x :: x in Kids(c.doc.nodes[p.ele]) && x !in p.nodes ==> x in Kids(r.0.doc.nodes[p.ele])) &&
    (forall x :: x in c.doc.nodes && !IsParent(c.doc.nodes[x]) ==> x in r.0.doc.nodes && r.0.doc.nodes[x] == c.doc.nodes[x])
  }

  /** A region subscription whose end marker is still in place receives a
      string or a number: the remembered nodes are removed, a text node is
      inserted, and, as written, the subscription remembers no node, since
      a text node has no children. Every other child of the element stays,
      and no text node or comment changes. */
  lemma RegionTextStep(c: Ctx, i: nat, v: Value, fuel: nat, eval: nat -> Outcome)
    requires Valid(c.doc) && i < |c.bindings| && c.bindings[i].patch.RegionPatch?
    requires var p := c.bindings[i].patch;
      p.ele in c.doc.nodes && IsParent(c.doc.nodes[p.ele]) && p.end in Kids(c.doc.nodes[p.ele]) && p.end !in p.nodes
    requires fuel > 0 && (v.Str? || v.Num?)
    ensures TextInserted(c, i, Apply(c, i, v, fuel, eval), ToJsString(v))
  {
    var rendered := ApplyRegion(c, i, v, fuel, eval);
    RegionTextRendered(c, i, v, fuel, eval);
    RegionTextInsert(c, i, ToJsString(v), rendered.0, rendered.1);
  }

  /** The rendering half of `RegionTextStep`: after the removal, a string
      or number renders as an unused fragment and a new text node. */
  lemma RegionTextRendered(c: Ctx, i: nat, v: Value, fuel: nat, eval: nat -> Outcome)
    requires Valid(c.doc) && i < |c.bindings| && c.bindings[i].patch.RegionPatch?
    requires fuel > 0 && (v.Str? || v.Num?)
    ensures var p := c.bindings[i].patch;
      var d0 := DetachAll(c.doc, p.nodes);
      var rendered := Render(c.(doc := d0), v, p.ele, fuel, eval);
      Valid(rendered.0.doc) && rendered.1 == c.doc.next + 1 && rendered.0.bindings == c.bindings &&
      rendered.0.doc.nodes == d0.nodes[d0.next := FragmentNode([])][rendered.1 := TextNode(ToJsString(v))]
  {
    var p := c.bindings[i].patch;
    DetachAllFacts(c.doc, p.nodes);
    RenderText(c.(doc := DetachAll(c.doc, p.nodes)), v, p.ele, fuel, eval);
  }

  /** The insertion half of `RegionTextStep`: `c1` is `c` with the
      remembered nodes removed and the text node `t` created. */
  lemma RegionTextInsert(c: Ctx, i: nat, s: string, c1: Ctx, t: nat)
    requires Valid(c.doc) && i < |c.bindings| && c.bindings[i].patch.RegionPatch?
    requires var p := c.bindings[i].patch;
      p.ele in c.doc.nodes && IsParent(c.doc.nodes[p.ele]) && p.end in Kids(c.doc.nodes[p.ele]) && p.end !in p.nodes
    requires var d0 := DetachAll(c.doc, c.bindings[i].patch.nodes);
      Valid(c1.doc) && t == c.doc.next + 1 && c1.bindings == c.bindings &&
      c1.doc.nodes == d0.nodes[d0.next := FragmentNode([])][t := TextNode(s)]
    ensures TextInserted(c, i, InsertRendered(c1, i, c.bindings[i].source, c.bindings[i].patch.ele, c.bindings[i].patch.end, t), s)
  {
    var p := c.bindings[i].patch;
    var ele, end, src := p.ele, p.end, c.bindings[i].source;
    assert t !in c.doc.nodes;
    assert end in Kids(c1.doc.nodes[ele]) && end != t by {
      ChildExists(c.doc, ele, end);
      assert ele < c.doc.next;
    }
    InsertTextBefore(c1, i, src, ele, end, t);
    RemovedStripped(c.doc, p.nodes, c1.doc, t, s);
    RemovedDetached(c.doc, p.nodes, c1.doc, t, s);
    TextPlacedInserted(c, i, s, c1, t, InsertRendered(c1, i, src, ele, end, t));
  }

  /** What `InsertTextBefore` states about `c1` gives what `TextInserted`
      states about `c`. */
  lemma TextPlacedInserted(c: Ctx, i: nat, s: string, c1: Ctx, t: nat, r: (Ctx, bool))
    requires Valid(c.doc) && i < |c.bindings| && c.bindings[i].patch.RegionPatch?
    requires var p := c.bindings[i].patch;
      p.ele in c.doc.nodes && IsParent(c.doc.nodes[p.ele]) && p.end in Kids(c.doc.nodes[p.ele]) && p.end !in p.nodes
    requires var p := c.bindings[i].patch;
      t == c.doc.next + 1 && c1.bindings == c.bindings && HoldsText(c1.doc, t, s) &&
      (forall x :: x in c.doc.nodes ==> x in c1.doc.nodes && c1.doc.nodes[x] == Strip(c.doc.nodes[x], p.nodes)) &&
      (forall x :: x in p.nodes ==> Detached(c1.doc, x))
    requires TextPlaced(c1, r, i, c.bindings[i].source, c.bindings[i].patch.ele, c.bindings[i].patch.end, t)
    ensures TextInserted(c, i, r, s)
  {
    var p := c.bindings[i].patch;
    var ele := p.ele;
    assert t !in c.doc.nodes;
    forall x | x in p.nodes && x in c.doc.nodes
      ensures Detached(r.0.doc, x)
    {
      assert Detached(c1.doc, x) && x != t;
    }
    forall x | x in Kids(c.doc.nodes[ele]) && x !in p.nodes
      ensures x in Kids(r.0.doc.nodes[ele])
    {
      ChildExists(c.doc, ele, x);
      assert x in Kids(c1.doc.nodes[ele]);
    }
    forall x | x in c.doc.nodes && !IsParent(c.doc.nodes[x])
      ensures r.0.doc.nodes[x] == c.doc.nodes[x]
    {
      assert c1.doc.nodes[x] == c.doc.nodes[x];
    }
  }

  /** Every node that existed before the removal has only lost the removed
      nodes from its children, once a new empty fragment and a new text
      node are created. */
  lemma RemovedStripped(d: Doc, gone: seq<nat>, d1: Doc, t: nat, s: string)
    requires Valid(d) && t == d.next + 1
    requires var d0 := DetachAll(d, gone);
      d1.nodes == d0.nodes[d0.next := FragmentNode([])][t := TextNode(s)]
    ensures forall x :: x in d.nodes ==> x in d1.nodes && d1.nodes[x] == Strip(d.nodes[x], gone)
  {
    forall x | x in d.nodes
      ensures x in d1.nodes && d1.nodes[x] == Strip(d.nodes[x], gone)
    {
      assert x < d.next;
    }
  }

  /** The removed nodes have no parent once a new empty fragment and a new
      text node are created. */
  lemma RemovedDetached(d: Doc, gone: seq<nat>, d1: Doc, t: nat, s: string)
    requires var d0 := DetachAll(d, gone);
      d1.nodes == d0.nodes[d0.next := FragmentNode([])][t := TextNode(s)]
    ensures forall x :: x in gone ==> Detached(d1, x)
  {
    var d0 := DetachAll(d, gone);
    DetachAllDetaches(d, gone);
    forall x, k | x in gone && k in d1.nodes
      ensures x !in Kids(d1.nodes[k])
    {
      if k != t && k != d0.next {
        assert d1.nodes[k] == d0.nodes[k];
      }
    }
  }

  /** A region subscription's callback removes the remembered nodes,
      renders the new value in the emptied document, and inserts the
      rendering; `rendered` is what the rendering gives. */
  lemma ApplyRegion(c: Ctx, i: nat, v: Value, fuel: nat, eval: nat -> Outcome) returns (rendered: (Ctx, nat))
    requires i < |c.bindings| && c.bindings[i].patch.RegionPatch?
    ensures var p := c.bindings[i].patch;
      rendered == Render(c.(doc := DetachAll(c.doc, p.nodes)), v, p.ele, fuel, eval) &&
      Apply(c, i, v, fuel, eval) == InsertRendered(rendered.0, i, c.bindings[i].source, p.ele, p.end, rendered.1)
  {
    var p := c.bindings[i].patch;
    rendered := Render(c.(doc := DetachAll(c.doc, p.nodes)), v, p.ele, fuel, eval);
  }

  /** `r` is `c` after the text node `t` was inserted before the child
      `end` of `ele` without a throw: the subscription remembers no node,
      the document stays well formed with the same nodes, `t` stands
      immediately before `end`, every other child of `ele` stays, no other
      parentless node gains a parent and no leaf changes. */
  ghost predicate TextPlaced(c: Ctx, r: (Ctx, bool), i: nat, src: Source, ele: nat, end: nat, t: nat)
    requires i < |c.bindings| && ele in c.doc.nodes
  {
    !r.1 && Valid(r.0.doc) && r.0.doc.nodes.Keys == c.doc.nodes.Keys && r.0.doc.next == c.doc.next &&
    r.0.bindings == c.bindings[i := Binding(src, RegionPatch(ele, [], end))] &&
    IsParent(r.0.doc.nodes[ele]) && t in Kids(r.0.doc.nodes[ele]) &&
    JustBefore(Kids(r.0.doc.nodes[ele]), t, end) &&
    (forall x :: Detached(c.doc, x) && x != t ==> Detached(r.0.doc, x)) &&
    (forall x :: x in Kids(c.doc.nodes[ele]) && x != t ==> x in Kids(r.0.doc.nodes[ele])) &&
    (forall x :: x in c.doc.nodes && !IsParent(c.doc.nodes[x]) ==> r.0.doc.nodes[x] == c.doc.nodes[x])
  }

  /** The insertion half of `RegionTextStep`, once the text node `t` is
      rendered. */
  lemma InsertTextBefore(c: Ctx, i: nat, src: Source, ele: nat, end: nat, t: nat)
    requires Valid(c.doc) && i < |c.bindings| && t in c.doc.nodes && c.doc.nodes[t].TextNode?
    requires ele in c.doc.nodes && IsParent(c.doc.nodes[ele]) && end in Kids(c.doc.nodes[ele]) && end != t
    ensures TextPlaced(c, InsertRendered(c, i, src, ele, end, t), i, src, ele, end, t)
  {
    InsertRenderedPlaces(c, i, src, ele, end, t);
    InsertTextFacts(c.doc, ele, t, end);
    InsertTextJustBefore(c.doc, ele, t, end);
    InsertLeafKeepsDetached(c.doc, ele, t, Some(end));
  }

  /** The region patch as written, run twice with strings: the text node
      the first update inserts is not remembered, so the second update
      leaves it in the element, holding the old text, beside the new one. */
  lemma RegionKeepsStaleText(c: Ctx, i: nat, v1: Value, v2: Value, fuel: nat, eval: nat -> Outcome)
    requires Valid(c.doc) && i < |c.bindings| && c.bindings[i].patch.RegionPatch?
    requires var p := c.bindings[i].patch;
      p.ele in c.doc.nodes && IsParent(c.doc.nodes[p.ele]) && p.end in Kids(c.doc.nodes[p.ele]) && p.end !in p.nodes
    requires fuel > 0 && (v1.Str? || v1.Num?) && (v2.Str? || v2.Num?)
    ensures var r1 := Apply(c, i, v1, fuel, eval);
      !r1.1 && i < |r1.0.bindings| &&
      BothTexts(c, i, r1, Apply(r1.0, i, v2, fuel, eval), ToJsString(v1), ToJsString(v2))
  {
    var p := c.bindings[i].patch;
    RegionTextStep(c, i, v1, fuel, eval);
    var r1 := Apply(c, i, v1, fuel, eval);
    RegionTextStep(r1.0, i, v2, fuel, eval);
    StaleTextKept(c, i, r1, Apply(r1.0, i, v2, fuel, eval), ToJsString(v1), ToJsString(v2));
  }

  /** After the updates `r1` and then `r2` of region subscription `i`,
      the second did not throw, and the element holds two distinct text
      nodes: `c.doc.next + 1`, holding `s1`, and `r1.0.doc.next + 1`,
      holding `s2`. */
  ghost predicate BothTexts(c: Ctx, i: nat, r1: (Ctx, bool), r2: (Ctx, bool), s1: string, s2: string)
    requires i < |c.bindings| && c.bindings[i].patch.RegionPatch?
  {
    var ele, t, u := c.bindings[i].patch.ele, c.doc.next + 1, r1.0.doc.next + 1;
    !r2.1 && t != u && ele in r2.0.doc.nodes &&
    t in Kids(r2.0.doc.nodes[ele]) && HoldsText(r2.0.doc, t, s1) &&
    u in Kids(r2.0.doc.nodes[ele]) && HoldsText(r2.0.doc, u, s2)
  }

  /** Two region updates that each inserted a text node: the first text
      node is still in the element, beside the second. */
  lemma StaleTextKept(c: Ctx, i: nat, r1: (Ctx, bool), r2: (Ctx, bool), s1: string, s2: string)
    requires i < |c.bindings| && c.bindings[i].patch.RegionPatch? && c.bindings[i].patch.ele in c.doc.nodes
    requires TextInserted(c, i, r1, s1)
    requires TextInserted(r1.0, i, r2, s2)
    ensures BothTexts(c, i, r1, r2, s1, s2)
  {
    var t := c.doc.next + 1;
    assert t in r1.0.doc.nodes && !IsParent(r1.0.doc.nodes[t]);
  }

  /** The nodes `rec` stand, in order, right before `end` among the
      children of `ele` (from position `j`), and removing them, as the next
      update does, takes every one of them out of the page. */
  ghost predicate StandsBefore(d: Doc, ele: nat, rec: seq<nat>, end: nat, j: nat)
  {
    ele in d.nodes &&
    var ks := Kids(d.nodes[ele]);
    j + |rec| < |ks| && ks[j..j + |rec|] == rec && ks[j + |rec|] == end &&
    forall x :: x in rec ==> Detached(DetachAll(d, rec), x)
  }

  /** Inserting `n` before `end`: the nodes that move are the ones that
      then stand before `end`. */
  lemma InsertStandsBefore(d: Doc, ele: nat, n: nat, end: nat) returns (j: nat)
    requires ele in d.nodes && IsParent(d.nodes[ele]) && end in Kids(d.nodes[ele])
    requires n in d.nodes && end !in Moved(d, n)
    ensures StandsBefore(Insert(d, ele, n, Some(end)), ele, Moved(d, n), end, j)
  {
    j := InsertPlacesBefore(d, ele, n, end);
    DetachAllDetaches(Insert(d, ele, n, Some(end)), Moved(d, n));
  }

  /** Remembering what the insertion puts between the markers: the
      remembered nodes are exactly the nodes the insertion moves, they
      stand right before the end marker, and the next update, which
      removes the remembered nodes, takes every one of them out of the
      page. */
  lemma RecordedRemoved(c: Ctx, i: nat, src: Source, ele: nat, end: nat, n: nat) returns (j: nat)
    requires i < |c.bindings| && ele in c.doc.nodes && IsParent(c.doc.nodes[ele]) && end in Kids(c.doc.nodes[ele])
    requires n in c.doc.nodes && end !in Moved(c.doc, n)
    ensures var r := InsertRenderedCorrected(c, i, src, ele, end, n);
      !r.1 && r.0.bindings[i] == Binding(src, RegionPatch(ele, Moved(c.doc, n), end)) &&
      StandsBefore(r.0.doc, ele, Moved(c.doc, n), end, j)
  {
    assert InsertRenderedCorrected(c, i, src, ele, end, n) == InsertRecording(c, i, src, ele, end, n, Moved(c.doc, n));
    InsertRecordingPlaces(c, i, src, ele, end, n, Moved(c.doc, n));
    j := InsertStandsBefore(c.doc, ele, n, end);
  }

  // ---------------------------------------------------------------------
  // handleProps
  // ---------------------------------------------------------------------

  /** A plain value under a key that does not start with "on": the
      attribute is set to its string form; nothing is subscribed. */
  lemma PropPlain(c: Ctx, ele: nat, p: Prop, eval: nat -> Outcome)
    requires !State.IsReactiveFunction(p.value) && !State.IsReactiveState(p.value) && !IsEventKey(p.key)
    requires ele in c.doc.nodes && c.doc.nodes[ele].ElementNode?
    ensures var r := PropStep(c, ele, p, eval);
      !r.1 && r.0.bindings == c.bindings && r.0.computeds == c.computeds &&
      r.0.doc.nodes == c.doc.nodes[ele := c.doc.nodes[ele].(attributes := c.doc.nodes[ele].attributes[p.key := ToJsString(p.value)])]
  {
  }

  /** A state cell: the attribute is set to the string form of its value,
      and an attribute subscription to the cell is added. */
  lemma PropState(c: Ctx, ele: nat, p: Prop, eval: nat -> Outcome)
    requires State.IsReactiveState(p.value) && !IsEventKey(p.key)
    requires ele in c.doc.nodes && c.doc.nodes[ele].ElementNode?
    ensures var r := PropStep(c, ele, p, eval);
      !r.1 && r.0.bindings == c.bindings + [Binding(p.value.source, AttributePatch(ele, p.key))] &&
      r.0.computeds == c.computeds &&
      r.0.doc.nodes[ele].attributes == c.doc.nodes[ele].attributes[p.key := ToJsString(p.value.current)]
  {
  }

  /** A reactive function: it becomes a new computed cell whose value sets
      the attribute, with an attribute subscription to that cell; when it
      throws, the step throws and nothing changes. */
  lemma PropComputed(c: Ctx, ele: nat, p: Prop, eval: nat -> Outcome)
    requires State.IsReactiveFunction(p.value) && !IsEventKey(p.key)
    requires ele in c.doc.nodes && c.doc.nodes[ele].ElementNode?
    ensures var r := PropStep(c, ele, p, eval);
      match eval(p.value.fn)
      case Throws => r == (c, true)
      case Returns(x) =>
        !r.1 && r.0.computeds == c.computeds + 1 &&
        r.0.bindings == c.bindings + [Binding(ComputedCell(p.value.fn, c.computeds), AttributePatch(ele, p.key))] &&
        r.0.doc.nodes[ele].attributes == c.doc.nodes[ele].attributes[p.key := ToJsString(x)]
  {
  }

  /** A key starting with "on" and a plain callable value: a listener for
      the lower-cased rest of the key is added, and the attribute is set to
      the function's string form as well. */
  lemma PropListener(c: Ctx, ele: nat, p: Prop, eval: nat -> Outcome)
    requires IsEventKey(p.key) && p.value.Function? && !p.value.tagged
    requires ele in c.doc.nodes && c.doc.nodes[ele].ElementNode?
    ensures var r := PropStep(c, ele, p, eval);
      var n := c.doc.nodes[ele];
      !r.1 && r.0.bindings == c.bindings && r.0.computeds == c.computeds &&
      r.0.doc.nodes == c.doc.nodes[ele := n.(listeners := SetAdd(n.listeners, Listener(EventName(p.key), p.value)),
                                              attributes := n.attributes[p.key := ToJsString(p.value)])]
  {
  }

  /** A key starting with "on" and a string, number or boolean value:
      `addEventListener` throws, which stops the props. */
  lemma PropRefused(c: Ctx, ele: nat, p: Prop, eval: nat -> Outcome)
    requires IsEventKey(p.key) && RefusedListener(p.value)
    ensures PropStep(c, ele, p, eval) == (c, true)
  {
  }

  // ---------------------------------------------------------------------
  // jsxDEV
  // ---------------------------------------------------------------------

  /** A falsy element type: the children are returned as they are. */
  lemma JsxFalsy(c: Ctx, element: Value, children: Value, props: seq<Prop>, fuel: nat,
                 eval: nat -> Outcome, call: (nat, seq<Prop>) -> Outcome)
    requires Falsy(element)
    ensures Jsx(c, element, children, props, fuel, eval, call) == (c, Returns(children))
  {
  }

  /** A function element type is a component: its result is returned and
      nothing is created. */
  lemma JsxComponent(c: Ctx, element: Value, children: Value, props: seq<Prop>, fuel: nat,
                     eval: nat -> Outcome, call: (nat, seq<Prop>) -> Outcome)
    requires element.Function?
    ensures Jsx(c, element, children, props, fuel, eval, call) == (c, call(element.fn, props))
  {
  }

  /** Any other element type names a new element, created with its tag
      and nothing else before the props are handled; the element is
      returned exactly when no prop threw, after its children, a lone child
      taken as a list of one, are rendered into it in order. */
  lemma JsxElement(c: Ctx, element: Value, children: Value, props: seq<Prop>, fuel: nat,
                   eval: nat -> Outcome, call: (nat, seq<Prop>) -> Outcome)
    requires !Falsy(element) && !element.Function?
    ensures var r := Jsx(c, element, children, props, fuel, eval, call);
      var created := Create(c.doc, ElementNode(ToJsString(element), map[], [], []));
      var applied := ApplyProps(c.(doc := created.0), created.1, props, |props|, eval);
      var kids := if children.List? then children.items else [children];
      created.1 == c.doc.next &&
      created.0.nodes == c.doc.nodes[c.doc.next := ElementNode(ToJsString(element), map[], [], [])] &&
      (applied.1 ==> r == (applied.0, Throws)) &&
      (!applied.1 ==> r == (RenderChildren(applied.0, c.doc.next, kids, |kids|, fuel, eval), Returns(Host(c.doc.next))))
  {
  }

  /** `renderElement` of a string child only changes the document, and
      changes it as above. */
  lemma RenderChildText(c: Ctx, ele: nat, v: Value, fuel: nat, eval: nat -> Outcome)
    requires fuel > 0 && v.Str?
    ensures RenderChild(c, ele, v, fuel, eval) == c.(doc := AppendedText(c.doc, ele, v.s))
  {
    var d0 := Create(c.doc, FragmentNode([])).0;
    var (d1, t) := Create(d0, TextNode(v.s));
    assert Render(c, v, ele, fuel, eval) == (c.(doc := d1), t);
  }

  /** `renderElement` over string children does what `AppendTexts` does,
      and changes no subscription. */
  lemma {:induction false} RenderChildrenTexts(c: Ctx, ele: nat, kids: seq<Value>, n: nat, fuel: nat, eval: nat -> Outcome)
    requires fuel > 0 && n <= |kids| && forall j :: 0 <= j < |kids| ==> kids[j].Str?
    ensures RenderChildren(c, ele, kids, n, fuel, eval) == c.(doc := AppendTexts(c.doc, ele, kids, n))
    decreases n
  {
    if n > 0 {
      RenderChildrenTexts(c, ele, kids, n - 1, fuel, eval);
      RenderChildText(RenderChildren(c, ele, kids, n - 1, fuel, eval), ele, kids[n - 1], fuel, eval);
    }
  }

  /** One string child: `renderElement` appends a new text node holding
      the string after the element's earlier children, keeps every leaf,
      and changes no subscription. */
  lemma StringChild(c: Ctx, ele: nat, v: Value, fuel: nat, eval: nat -> Outcome)
    requires KidsBelowNext(c.doc, ele) && IsParent(c.doc.nodes[ele]) && fuel > 0 && v.Str?
    ensures var r := RenderChild(c, ele, v, fuel, eval);
      TextAppended(c.doc, r.doc, ele, v.s) && KidsBelowNext(r.doc, ele) &&
      r.bindings == c.bindings && r.computeds == c.computeds
  {
    RenderChildText(c, ele, v, fuel, eval);
    AppendedTextFacts(c.doc, ele, v.s);
  }
}
