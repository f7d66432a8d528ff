/** The JSX runtime of pulse/ (jsx-dev-runtime.ts): `createNode` turns a
    value into a host node and keeps reactive values live by subscribing a
    patch to them; `handleProps` sets attributes and listeners; `jsxDEV`
    builds an element and renders its children into it.

    A `Renderer` holds the document, every subscription made so far (the
    patch a source runs when it reports a new value) and the number of
    computed cells it created. Evaluating a reactive function is the input
    `eval`: it returns a value or throws. */
module Runtime {
  import opened Common
  import opened Values
  import opened Dom
  import State

  /** What a call into code outside the model did. */
  datatype Outcome = Returns(value: Value) | Throws

  /** The branches of `createNode`. */
  datatype Kind = AsElement | AsComputed | AsText | AsState | AsList | AsFalsy | AsUnhandled

  /** Which branch `createNode` takes for `v`: the first whose test holds,
      in the order the source tests them. A `0` or an empty string is
      rendered as text although it is falsy. */
  function Classify(d: Doc, v: Value): (k: Kind)
    ensures k == AsElement <==> v.Host? && v.ref in d.nodes && d.nodes[v.ref].ElementNode?
    ensures k == AsComputed <==> State.IsReactiveFunction(v)
    ensures k == AsText <==> v.Str? || v.Num?
    ensures k == AsState <==> State.IsReactiveState(v)
    ensures k == AsList <==> v.List?
    ensures k == AsFalsy <==> v == Undefined || v == Null || v == Bool(false)
    ensures k == AsUnhandled <==>
      (v == Bool(true) || v == Record || (v.Function? && !v.tagged) ||
       (v.Host? && !(v.ref in d.nodes && d.nodes[v.ref].ElementNode?)))
  {
    if v.Host? && v.ref in d.nodes && d.nodes[v.ref].ElementNode? then AsElement
    else if State.IsReactiveFunction(v) then AsComputed
    else if v.Str? || v.Num? then AsText
    else if State.IsReactiveState(v) then AsState
    else if v.List? then AsList
    else if Falsy(v) then AsFalsy
    else AsUnhandled
  }

  /** What a subscription does to the document when its source reports a
      new value. */
  datatype Patch =
      /** Sets the text of `node`. */
    | TextPatch(node: nat)
      /** Replaces the `nodes` standing before the `end` marker in `ele`. */
    | RegionPatch(ele: nat, nodes: seq<nat>, end: nat)
      /** Replaces `current` with a rendering of the new value. */
    | ReplacePatch(ele: nat, current: nat)
      /** Sets the attribute `key` of `ele`. */
    | AttributePatch(ele: nat, key: string)

  /** A subscription: the reactive source and the patch it runs. */
  datatype Binding = Binding(source: Source, patch: Patch)

  /** Everything rendering reads and changes. */
  datatype Ctx = Ctx(doc: Doc, bindings: seq<Binding>, computeds: nat)

  /** `r` is a later state of `c`: the document only grew, subscriptions
      were only added, and so were computed cells. */
  ghost predicate Grows(c: Ctx, r: Ctx)
  {
    Extends(c.doc, r.doc) && c.bindings <= r.bindings && c.computeds <= r.computeds
  }

  lemma GrowsTransitive(a: Ctx, b: Ctx, c: Ctx)
    requires Grows(a, b) && Grows(b, c)
    ensures Grows(a, c)
  {
    ExtendsTransitive(a.doc, b.doc, c.doc);
  }

  // ---------------------------------------------------------------------
  // createNode
  // ---------------------------------------------------------------------

  /** `createNode(v, ele)`, with `fuel` bounding how deeply reactive
      functions may nest: the node for `v`, and the new state. The
      fragment is created first, whatever `v` is. */
  function Render(c: Ctx, v: Value, ele: nat, fuel: nat, eval: nat -> Outcome): (r: (Ctx, nat))
    ensures |c.bindings| <= |r.0.bindings|
    decreases fuel, v, 2
  {
    var (d0, frag) := Create(c.doc, FragmentNode([]));
    if fuel == 0 then (c.(doc := d0), frag) else Dispatch(c.(doc := d0), frag, v, ele, fuel, eval)
  }

  /** The branches of `createNode` once the fragment `frag` exists. */
  function Dispatch(c: Ctx, frag: nat, v: Value, ele: nat, fuel: nat, eval: nat -> Outcome): (r: (Ctx, nat))
    requires fuel > 0
    ensures |c.bindings| <= |r.0.bindings|
    decreases fuel, v, 1
  {
    match Classify(c.doc, v)
    case AsElement => (c, v.ref)
    case AsComputed =>
      (match eval(v.fn)
       case Throws => (c, frag)
       case Returns(x) => RenderComputed(c, v.fn, x, ele, fuel - 1, eval))
    case AsText =>
      var (d1, t) := Create(c.doc, TextNode(ToJsString(v)));
      (c.(doc := d1), t)
    case AsState => RenderState(c, v.source, v.current, ele, fuel, eval)
    case AsList => RenderList(c, frag, v, ele, fuel, eval)
    case AsFalsy => (c, frag)
    case AsUnhandled => (c, frag)
  }

  /** A reactive function `fn` that returned `x`: a new computed cell,
      `x` rendered, and the subscription to the cell. */
  function RenderComputed(c: Ctx, fn: nat, x: Value, ele: nat, fuel: nat, eval: nat -> Outcome): (r: (Ctx, nat))
    ensures |c.bindings| <= |r.0.bindings|
    decreases fuel, x, 3
  {
    var (c1, cur) := Render(c.(computeds := c.computeds + 1), x, ele, fuel, eval);
    Attach(c1, ComputedCell(fn, c.computeds), cur, ele, true)
  }

  /** `RenderComputed` is a new cell number, then `Render`, then `Attach`. */
  lemma RenderComputedSteps(c: Ctx, fn: nat, x: Value, ele: nat, fuel: nat, eval: nat -> Outcome)
    ensures var rendered := Render(c.(computeds := c.computeds + 1), x, ele, fuel, eval);
      RenderComputed(c, fn, x, ele, fuel, eval) == Attach(rendered.0, ComputedCell(fn, c.computeds), rendered.1, ele, true)
  {
  }

  /** A state cell whose value is `current`: the value rendered, and the
      subscription to the cell. */
  function RenderState(c: Ctx, src: Source, current: Value, ele: nat, fuel: nat, eval: nat -> Outcome): (r: (Ctx, nat))
    ensures |c.bindings| <= |r.0.bindings|
    decreases fuel, current, 3
  {
    var (c1, cur) := Render(c, current, ele, fuel, eval);
    Attach(c1, src, cur, ele, false)
  }

  /** A list: its items rendered in order and appended to `frag`. */
  function RenderList(c: Ctx, frag: nat, list: Value, ele: nat, fuel: nat, eval: nat -> Outcome): (r: (Ctx, nat))
    requires list.List?
    ensures |c.bindings| <= |r.0.bindings|
    decreases fuel, list, 0, |list.items| + 1
  {
    var (c1, xs) := RenderItems(c, list, |list.items|, ele, fuel, eval);
    (c1.(doc := AppendAll(c1.doc, frag, xs)), frag)
  }

  /** `list.items.slice(0, n).map(child => createNode(child, ele))`. */
  function RenderItems(c: Ctx, list: Value, n: nat, ele: nat, fuel: nat, eval: nat -> Outcome): (r: (Ctx, seq<nat>))
    requires list.List? && n <= |list.items|
    ensures |c.bindings| <= |r.0.bindings| && |r.1| == n
    decreases fuel, list, 0, n
  {
    if n == 0 then (c, [])
    else
      var (c1, xs) := RenderItems(c, list, n - 1, ele, fuel, eval);
      var (c2, x) := Render(c1, list.items[n - 1], ele, fuel, eval);
      (c2, xs + [x])
  }

  /** `p.append(...xs)`. */
  function AppendAll(d: Doc, p: nat, xs: seq<nat>): (r: Doc)
    decreases |xs|
  {
    if xs == [] then d else AppendChild(AppendAll(d, p, xs[..|xs| - 1]), p, xs[|xs| - 1])
  }

  /** Puts a "fragment-start" comment before the children of the fragment
      `f` and a "fragment-end" comment after them; `r.1` is the end marker. */
  function Bracket(d: Doc, f: nat): (r: (Doc, nat))
    requires f in d.nodes
    ensures r.1 == d.next + 1
  {
    var nodes := Kids(d.nodes[f]);
    var (d1, s) := Create(d, CommentNode("fragment-start"));
    var d2 := Insert(d1, f, s, if nodes == [] then None else Some(nodes[0]));
    var (d3, e) := Create(d2, CommentNode("fragment-end"));
    (AppendChild(d3, f, e), e)
  }

  /** The subscription `createNode` makes after rendering a reactive value
      as `cur`: a text node has its text patched; a fragment of a reactive
      function (`markers`) is bracketed by two comments and the nodes
      between them are patched; anything else is replaced. */
  function Attach(c: Ctx, src: Source, cur: nat, ele: nat, markers: bool): (r: (Ctx, nat))
    ensures |r.0.bindings| == |c.bindings| + 1
  {
    if cur in c.doc.nodes && c.doc.nodes[cur].TextNode? then
      (c.(bindings := c.bindings + [Binding(src, TextPatch(cur))]), cur)
    else if markers && cur in c.doc.nodes && c.doc.nodes[cur].FragmentNode? then
      var b := Bracket(c.doc, cur);
      (Ctx(b.0, c.bindings + [Binding(src, RegionPatch(ele, Kids(c.doc.nodes[cur]), b.1))], c.computeds), cur)
    else (c.(bindings := c.bindings + [Binding(src, ReplacePatch(ele, cur))]), cur)
  }

  // ---------------------------------------------------------------------
  // The subscription callbacks
  // ---------------------------------------------------------------------

  /** The nodes a region patch remembers after rendering `n`, taken before
      the insertion: the child nodes of `n` itself, which are the nodes
      the insertion puts between the markers only when `n` is a fragment. */
  function RecordedAsWritten(d: Doc, n: nat): seq<nat>
  {
    if n in d.nodes then Kids(d.nodes[n]) else []
  }

  /** What the region patch should remember instead: the nodes the
      insertion puts between the markers. */
  function Recorded(d: Doc, n: nat): seq<nat>
  {
    Moved(d, n)
  }

  /** Binding `i` receives the new value `v`: the new state, and whether the
      callback threw. */
  function Apply(c: Ctx, i: nat, v: Value, fuel: nat, eval: nat -> Outcome): (r: (Ctx, bool))
    requires i < |c.bindings|
  {
    var b := c.bindings[i];
    match b.patch
    case TextPatch(n) => (c.(doc := SetText(c.doc, n, ToJsString(v))), false)
    case AttributePatch(e, key) => (c.(doc := SetAttribute(c.doc, e, key, ToJsString(v))), false)
    case ReplacePatch(ele, cur) => (ReplaceStep(c, i, ele, cur, v, fuel, eval), false)
    case RegionPatch(ele, nodes, end) => RegionStep(c, i, ele, nodes, end, v, fuel, eval)
  }

  /** The replace patch: render the new value, then put it in place. */
  function ReplaceStep(c: Ctx, i: nat, ele: nat, cur: nat, v: Value, fuel: nat, eval: nat -> Outcome): (r: Ctx)
    requires i < |c.bindings|
  {
    var rendered := Render(c, v, ele, fuel, eval);
    ReplaceRendered(rendered.0, i, c.bindings[i].source, ele, cur, rendered.1)
  }

  /** The replace patch once the new value is rendered as `n`: `n` is put
      where the current node is and remembered as the current node. A
      fragment has no `replaceWith`: the `TypeError` is caught, and the
      current node stays. */
  function ReplaceRendered(c: Ctx, i: nat, src: Source, ele: nat, cur: nat, n: nat): (r: Ctx)
    requires i < |c.bindings|
  {
    if cur in c.doc.nodes && c.doc.nodes[cur].FragmentNode? then c
    else Ctx(ReplaceWith(c.doc, cur, n), c.bindings[i := Binding(src, ReplacePatch(ele, n))], c.computeds)
  }

  /** The region patch: remove the remembered nodes, render the new value,
      then put it before the end marker; `true` when the insertion threw. */
  function RegionStep(c: Ctx, i: nat, ele: nat, nodes: seq<nat>, end: nat, v: Value, fuel: nat, eval: nat -> Outcome): (r: (Ctx, bool))
    requires i < |c.bindings|
  {
    var rendered := Render(c.(doc := DetachAll(c.doc, nodes)), v, ele, fuel, eval);
    InsertRendered(rendered.0, i, c.bindings[i].source, ele, end, rendered.1)
  }

  /** The region patch once the new value is rendered as `n`: remember
      the child nodes of `n`, and insert `n` before the end marker; `true`
      when the insertion threw. */
  function InsertRendered(c: Ctx, i: nat, src: Source, ele: nat, end: nat, n: nat): (r: (Ctx, bool))
    requires i < |c.bindings|
  {
    InsertRecording(c, i, src, ele, end, n, RecordedAsWritten(c.doc, n))
  }

  /** The same step remembering what the insertion puts between the
      markers, so that the next update removes all of it. */
  function InsertRenderedCorrected(c: Ctx, i: nat, src: Source, ele: nat, end: nat, n: nat): (r: (Ctx, bool))
    requires i < |c.bindings|
  {
    InsertRecording(c, i, src, ele, end, n, Recorded(c.doc, n))
  }

  /** Binding `i` remembers `nodes`, then `n` goes before the end marker. */
  function InsertRecording(c: Ctx, i: nat, src: Source, ele: nat, end: nat, n: nat, nodes: seq<nat>): (r: (Ctx, bool))
    requires i < |c.bindings|
  {
    var c1 := c.(bindings := c.bindings[i := Binding(src, RegionPatch(ele, nodes, end))]);
    match InsertBefore(c1.doc, ele, n, Some(end))
    case None => (c1, true)
    case Some(d) => (c1.(doc := d), false)
  }

  // ---------------------------------------------------------------------
  // handleProps and jsxDEV
  // ---------------------------------------------------------------------

  /** One entry of a props object. */
  datatype Prop = Prop(key: string, value: Value)

  predicate IsEventKey(key: string)
  {
    |key| >= 2 && key[..2] == "on"
  }

  const Upper := "ABCDEFGHIJKLMNOPQRSTUVWXYZ"
  const Lower := "abcdefghijklmnopqrstuvwxyz"

  /** `toLowerCase` of one character: an upper-case ASCII letter becomes
      the lower-case letter at the same place in the alphabet. */
  function LowerChar(ch: char): (r: char)
    ensures forall k :: 0 <= k < |Upper| && ch == Upper[k] ==> r == Lower[k]
    ensures 'A' <= ch <= 'Z' ==> 'a' <= r <= 'z'
    ensures !('A' <= ch <= 'Z') ==> r == ch
  {
    if 'A' <= ch <= 'Z' then (ch as int + 32) as char else ch
  }

  /** `key.slice(2).toLowerCase()`, for ASCII letters. */
  function EventName(key: string): (r: string)
    requires IsEventKey(key)
    ensures |r| == |key| - 2
    ensures forall i :: 0 <= i < |r| ==> r[i] == LowerChar(key[i + 2])
  {
    seq(|key| - 2, i requires 0 <= i < |key| - 2 => LowerChar(key[i + 2]))
  }

  /** The event name of `onClick` is `click`. */
  lemma EventNameClick()
    ensures EventName("onClick") == "click"
  {
    assert LowerChar('C') == 'c' by {
      assert Upper[2] == 'C';
    }
  }

  /** One prop of `handleProps`: a reactive function becomes a computed
      cell; a reactive value is unwrapped and its attribute subscribed; an
      `on…` key adds a listener; the attribute is always set. `true` when a
      step threw, which stops the remaining props. */
  function PropStep(c: Ctx, ele: nat, p: Prop, eval: nat -> Outcome): (r: (Ctx, bool))
  {
    var lifted: Option<(Ctx, Value)> :=
      if State.IsReactiveFunction(p.value) then
        match eval(p.value.fn)
        case Throws => None
        case Returns(x) => Some((c.(computeds := c.computeds + 1), Cell(ComputedCell(p.value.fn, c.computeds), x)))
      else Some((c, p.value));
    match lifted
    case None => (c, true)
    case Some(cv) =>
      var (c1, v1) := cv;
      var c2 :=
        if State.IsReactiveState(v1) then c1.(bindings := c1.bindings + [Binding(v1.source, AttributePatch(ele, p.key))])
        else c1;
      var v := if State.IsReactiveState(v1) then v1.current else v1;
      var listened := if IsEventKey(p.key) then AddListener(c2.doc, ele, EventName(p.key), v) else Some(c2.doc);
      match listened
      case None => (c2, true)
      case Some(d) => (c2.(doc := SetAttribute(d, ele, p.key, ToJsString(v))), false)
  }

  /** `handleProps` over the first `n` props. */
  function ApplyProps(c: Ctx, ele: nat, props: seq<Prop>, n: nat, eval: nat -> Outcome): (r: (Ctx, bool))
    requires n <= |props|
    decreases n
  {
    if n == 0 then (c, false)
    else
      var (c1, threw) := ApplyProps(c, ele, props, n - 1, eval);
      if threw then (c1, true) else PropStep(c1, ele, props[n - 1], eval)
  }

  /** `renderElement(child, ele)`: the child rendered and appended. */
  function RenderChild(c: Ctx, ele: nat, child: Value, fuel: nat, eval: nat -> Outcome): (r: Ctx)
  {
    var (c1, x) := Render(c, child, ele, fuel, eval);
    c1.(doc := AppendChild(c1.doc, ele, x))
  }

  /** `renderElement` over the first `n` children. */
  function RenderChildren(c: Ctx, ele: nat, kids: seq<Value>, n: nat, fuel: nat, eval: nat -> Outcome): (r: Ctx)
    requires n <= |kids|
    decreases n
  {
    if n == 0 then c else RenderChild(RenderChildren(c, ele, kids, n - 1, fuel, eval), ele, kids[n - 1], fuel, eval)
  }

  /** The children of a JSX element as a list. */
  function ChildList(children: Value): seq<Value>
  {
    if children.List? then children.items else [children]
  }

  /** `jsxDEV(element, { children, ...props })`; `call` is what calling a
      component function does. */
  function Jsx(c: Ctx, element: Value, children: Value, props: seq<Prop>, fuel: nat,
               eval: nat -> Outcome, call: (nat, seq<Prop>) -> Outcome): (r: (Ctx, Outcome))
  {
    if Falsy(element) then (c, Returns(children))
    else if element.Function? then (c, call(element.fn, props))
    else
      var (d1, ele) := Create(c.doc, ElementNode(ToJsString(element), map[], [], []));
      var (c2, threw) := ApplyProps(c.(doc := d1), ele, props, |props|, eval);
      if threw then (c2, Throws)
      else
        var kids := ChildList(children);
        (RenderChildren(c2, ele, kids, |kids|, fuel, eval), Returns(Host(ele)))
  }

  // ---------------------------------------------------------------------
  // The renderer
  // ---------------------------------------------------------------------

  /** The document, the subscriptions and the computed cells made so far;
      each method is the source function of the same name, proved to do
      what the function above it specifies. */
  class Renderer {
    var doc: Doc
    var bindings: seq<Binding>
    var computeds: nat

    constructor()
      ensures Ctx(doc, bindings, computeds) == Ctx(Doc(map[], 0), [], 0) && Valid(doc)
    {
      doc := Doc(map[], 0);
      bindings := [];
      computeds := 0;
    }

    /** `createNode(v, ele)`. */
    method CreateNode(v: Value, ele: nat, fuel: nat, eval: nat -> Outcome) returns (node: nat)
      modifies this
      ensures (Ctx(doc, bindings, computeds), node) == Render(old(Ctx(doc, bindings, computeds)), v, ele, fuel, eval)
      decreases fuel, v, 2
    {
      var created := Create(doc, FragmentNode([]));
      doc := created.0;
      node := created.1;
      if fuel > 0 {
        node := CreateFor(node, v, ele, fuel, eval);
      }
    }

    /** The branches of `createNode` once the fragment `frag` exists. */
    method CreateFor(frag: nat, v: Value, ele: nat, fuel: nat, eval: nat -> Outcome) returns (node: nat)
      requires fuel > 0
      modifies this
      ensures (Ctx(doc, bindings, computeds), node) == Dispatch(old(Ctx(doc, bindings, computeds)), frag, v, ele, fuel, eval)
      decreases fuel, v, 1
    {
      match Classify(doc, v)
      case AsElement =>
        node := v.ref;
      case AsComputed =>
        match eval(v.fn) {
          case Throws =>
            node := frag;
          case Returns(x) =>
            node := CreateComputed(v.fn, x, ele, fuel - 1, eval);
        }
      case AsText =>
        var text := Create(doc, TextNode(ToJsString(v)));
        doc := text.0;
        node := text.1;
      case AsState =>
        node := CreateState(v.source, v.current, ele, fuel, eval);
      case AsList =>
        node := CreateList(frag, v, ele, fuel, eval);
      case AsFalsy =>
        node := frag;
      case AsUnhandled =>
        node := frag;
    }

    method CreateComputed(fn: nat, x: Value, ele: nat, fuel: nat, eval: nat -> Outcome) returns (node: nat)
      modifies this
      ensures (Ctx(doc, bindings, computeds), node) == RenderComputed(old(Ctx(doc, bindings, computeds)), fn, x, ele, fuel, eval)
      decreases fuel, x, 3
    {
      ghost var c0 := Ctx(doc, bindings, computeds);
      var instance := computeds;
      computeds := computeds + 1;
      ghost var c1 := Ctx(doc, bindings, computeds);
      assert c1 == c0.(computeds := c0.computeds + 1);
      var cur := CreateNode(x, ele, fuel, eval);
      RenderComputedSteps(c0, fn, x, ele, fuel, eval);
      node := Subscribe(ComputedCell(fn, instance), cur, ele, true);
    }

    method CreateState(src: Source, current: Value, ele: nat, fuel: nat, eval: nat -> Outcome) returns (node: nat)
      modifies this
      ensures (Ctx(doc, bindings, computeds), node) == RenderState(old(Ctx(doc, bindings, computeds)), src, current, ele, fuel, eval)
      decreases fuel, current, 3
    {
      var cur := CreateNode(current, ele, fuel, eval);
      node := Subscribe(src, cur, ele, false);
    }

    method CreateList(frag: nat, list: Value, ele: nat, fuel: nat, eval: nat -> Outcome) returns (node: nat)
      requires list.List?
      modifies this
      ensures (Ctx(doc, bindings, computeds), node) == RenderList(old(Ctx(doc, bindings, computeds)), frag, list, ele, fuel, eval)
      decreases fuel, list, 0, |list.items| + 1
    {
      var xs := CreateItems(list, ele, fuel, eval);
      AppendNodes(frag, xs);
      node := frag;
    }

    /** `list.map(child => createNode(child, ele))`. */
    method CreateItems(list: Value, ele: nat, fuel: nat, eval: nat -> Outcome) returns (xs: seq<nat>)
      requires list.List?
      modifies this
      ensures (Ctx(doc, bindings, computeds), xs) == RenderItems(old(Ctx(doc, bindings, computeds)), list, |list.items|, ele, fuel, eval)
      decreases fuel, list, 0, |list.items|
    {
      xs := [];
      var i := 0;
      while i < |list.items|
        invariant 0 <= i <= |list.items|
        invariant (Ctx(doc, bindings, computeds), xs) == RenderItems(old(Ctx(doc, bindings, computeds)), list, i, ele, fuel, eval)
      {
        var x := CreateNode(list.items[i], ele, fuel, eval);
        xs := xs + [x];
        i := i + 1;
      }
    }

    /** `p.append(...xs)`, one node after the other. */
    method AppendNodes(p: nat, xs: seq<nat>)
      modifies this`doc
      ensures doc == AppendAll(old(doc), p, xs)
    {
      var i := 0;
      while i < |xs|
        invariant 0 <= i <= |xs|
        invariant doc == AppendAll(old(doc), p, xs[..i])
      {
        assert xs[..i + 1][..i] == xs[..i];
        doc := AppendChild(doc, p, xs[i]);
        i := i + 1;
      }
      assert xs[..|xs|] == xs;
    }

    /** The subscription after rendering a reactive value as `cur`. */
    method Subscribe(src: Source, cur: nat, ele: nat, markers: bool) returns (node: nat)
      modifies this`doc, this`bindings
      ensures (Ctx(doc, bindings, computeds), node) == Attach(old(Ctx(doc, bindings, computeds)), src, cur, ele, markers)
    {
      if cur in doc.nodes && doc.nodes[cur].TextNode? {
        bindings := bindings + [Binding(src, TextPatch(cur))];
      } else if markers && cur in doc.nodes && doc.nodes[cur].FragmentNode? {
        var nodes := doc.nodes[cur].children;
        var bracketed := Bracket(doc, cur);
        doc := bracketed.0;
        bindings := bindings + [Binding(src, RegionPatch(ele, nodes, bracketed.1))];
      } else {
        bindings := bindings + [Binding(src, ReplacePatch(ele, cur))];
      }
      node := cur;
    }

    /** `nodes.forEach(node => node.remove())`. */
    method RemoveNodes(nodes: seq<nat>)
      modifies this`doc
      ensures doc == DetachAll(old(doc), nodes)
    {
      DetachNothing(doc);
      assert nodes[..0] == [];
      var i := 0;
      while i < |nodes|
        invariant 0 <= i <= |nodes|
        invariant doc == DetachAll(old(doc), nodes[..i])
      {
        DetachNext(old(doc), nodes, i);
        doc := Remove(doc, nodes[i]);
        i := i + 1;
      }
      assert nodes[..|nodes|] == nodes;
    }

    /** Subscription `i` runs with the new value `v`; `threw` when its
        callback threw. */
    method Notify(i: nat, v: Value, fuel: nat, eval: nat -> Outcome) returns (threw: bool)
      requires i < |bindings|
      modifies this
      ensures (Ctx(doc, bindings, computeds), threw) == Apply(old(Ctx(doc, bindings, computeds)), i, v, fuel, eval)
    {
      var b := bindings[i];
      threw := false;
      match b.patch
      case TextPatch(n) =>
        doc := SetText(doc, n, ToJsString(v));
      case AttributePatch(e, key) =>
        doc := SetAttribute(doc, e, key, ToJsString(v));
      case ReplacePatch(ele, cur) =>
        var n := CreateNode(v, ele, fuel, eval);
        if !(cur in doc.nodes && doc.nodes[cur].FragmentNode?) {
          doc := ReplaceWith(doc, cur, n);
          bindings := bindings[i := Binding(b.source, ReplacePatch(ele, n))];
        }
      case RegionPatch(ele, nodes, end) =>
        RemoveNodes(nodes);
        var n := CreateNode(v, ele, fuel, eval);
        bindings := bindings[i := Binding(b.source, RegionPatch(ele, RecordedAsWritten(doc, n), end))];
        match InsertBefore(doc, ele, n, Some(end))
        case None =>
          threw := true;
        case Some(d) =>
          doc := d;
    }

    /** One prop of `handleProps`; `threw` when a step threw. */
    method SetProp(ele: nat, p: Prop, eval: nat -> Outcome) returns (threw: bool)
      modifies this
      ensures (Ctx(doc, bindings, computeds), threw) == PropStep(old(Ctx(doc, bindings, computeds)), ele, p, eval)
    {
      var value := p.value;
      if State.IsReactiveFunction(value) {
        match eval(value.fn)
        case Throws =>
          return true;
        case Returns(x) =>
          value := Cell(ComputedCell(value.fn, computeds), x);
          computeds := computeds + 1;
      }
      if State.IsReactiveState(value) {
        bindings := bindings + [Binding(value.source, AttributePatch(ele, p.key))];
        value := value.current;
      }
      if IsEventKey(p.key) {
        match AddListener(doc, ele, EventName(p.key), value)
        case None =>
          return true;
        case Some(d) =>
          doc := d;
      }
      doc := SetAttribute(doc, ele, p.key, ToJsString(value));
      threw := false;
    }

    /** `handleProps(ele, props)`: the props in order, stopping at the first
        that throws. */
    method HandleProps(ele: nat, props: seq<Prop>, eval: nat -> Outcome) returns (threw: bool)
      modifies this
      ensures (Ctx(doc, bindings, computeds), threw) == ApplyProps(old(Ctx(doc, bindings, computeds)), ele, props, |props|, eval)
    {
      threw := false;
      var i := 0;
      while i < |props|
        invariant 0 <= i <= |props|
        invariant (Ctx(doc, bindings, computeds), threw) == ApplyProps(old(Ctx(doc, bindings, computeds)), ele, props, i, eval)
        invariant !threw
      {
        threw := SetProp(ele, props[i], eval);
        i := i + 1;
        if threw {
          PropsStopAtThrow(old(Ctx(doc, bindings, computeds)), ele, props, i, |props|, eval);
          return;
        }
      }
    }

    /** `renderElement(child, ele)`. */
    method RenderElement(child: Value, ele: nat, fuel: nat, eval: nat -> Outcome)
      modifies this
      ensures Ctx(doc, bindings, computeds) == RenderChild(old(Ctx(doc, bindings, computeds)), ele, child, fuel, eval)
    {
      var node := CreateNode(child, ele, fuel, eval);
      doc := AppendChild(doc, ele, node);
    }

    /** `jsxDEV(element, { children, ...props })`. */
    method JsxDev(element: Value, children: Value, props: seq<Prop>, fuel: nat,
                  eval: nat -> Outcome, call: (nat, seq<Prop>) -> Outcome) returns (r: Outcome)
      modifies this
      ensures (Ctx(doc, bindings, computeds), r) == Jsx(old(Ctx(doc, bindings, computeds)), element, children, props, fuel, eval, call)
    {
      if Falsy(element) {
        return Returns(children);
      }
      if element.Function? {
        return call(element.fn, props);
      }
      var kids := ChildList(children);
      var created := Create(doc, ElementNode(ToJsString(element), map[], [], []));
      doc := created.0;
      var ele := created.1;
      var threw := HandleProps(ele, props, eval);
      if threw {
        return Throws;
      }
      RenderElements(kids, ele, fuel, eval);
      r := Returns(Host(ele));
    }

    /** `children.forEach(child => renderElement(child, ele))`. */
    method RenderElements(kids: seq<Value>, ele: nat, fuel: nat, eval: nat -> Outcome)
      modifies this
      ensures Ctx(doc, bindings, computeds) == RenderChildren(old(Ctx(doc, bindings, computeds)), ele, kids, |kids|, fuel, eval)
    {
      var i := 0;
      while i < |kids|
        invariant 0 <= i <= |kids|
        invariant Ctx(doc, bindings, computeds) == RenderChildren(old(Ctx(doc, bindings, computeds)), ele, kids, i, fuel, eval)
      {
        RenderElement(kids[i], ele, fuel, eval);
        i := i + 1;
      }
    }
  }

  /** Once a prop threw, the later props are not handled. */
  lemma {:induction false} PropsStopAtThrow(c: Ctx, ele: nat, props: seq<Prop>, i: nat, n: nat, eval: nat -> Outcome)
    requires i <= n <= |props|
    requires ApplyProps(c, ele, props, i, eval).1
    ensures ApplyProps(c, ele, props, n, eval) == ApplyProps(c, ele, props, i, eval)
    decreases n
  {
    if n > i {
      PropsStopAtThrow(c, ele, props, i, n - 1, eval);
    }
  }

  // ---------------------------------------------------------------------
  // What rendering keeps: a well formed document that only grows
  // ---------------------------------------------------------------------

  lemma {:induction false} AppendAllFacts(d: Doc, p: nat, xs: seq<nat>)
    requires Valid(d) && forall x :: x in xs ==> x in d.nodes
    ensures Valid(AppendAll(d, p, xs)) && Extends(d, AppendAll(d, p, xs))
    decreases |xs|
  {
    if xs != [] {
      var d1 := AppendAll(d, p, xs[..|xs| - 1]);
      AppendAllFacts(d, p, xs[..|xs| - 1]);
      InsertFacts(d1, p, xs[|xs| - 1], None);
      ExtendsTransitive(d, d1, AppendAll(d, p, xs));
    }
  }

  lemma BracketFacts(d: Doc, f: nat)
    requires Valid(d) && f in d.nodes
    ensures Valid(Bracket(d, f).0) && Extends(d, Bracket(d, f).0) && Bracket(d, f).1 in Bracket(d, f).0.nodes
  {
    var nodes := Kids(d.nodes[f]);
    var (d1, s) := Create(d, CommentNode("fragment-start"));
    CreateFacts(d, CommentNode("fragment-start"));
    var at := if nodes == [] then None else Some(nodes[0]);
    var d2 := Insert(d1, f, s, at);
    InsertFacts(d1, f, s, at);
    var (d3, e) := Create(d2, CommentNode("fragment-end"));
    CreateFacts(d2, CommentNode("fragment-end"));
    InsertFacts(d3, f, e, None);
    ExtendsTransitive(d, d1, d2);
    ExtendsTransitive(d, d2, d3);
    ExtendsTransitive(d, d3, Bracket(d, f).0);
  }

  lemma AttachFacts(c: Ctx, src: Source, cur: nat, ele: nat, markers: bool)
    requires Valid(c.doc)
    ensures var r := Attach(c, src, cur, ele, markers);
      Valid(r.0.doc) && Grows(c, r.0) && r.1 == cur && r.0.computeds == c.computeds
  {
    if cur in c.doc.nodes {
      BracketFacts(c.doc, cur);
    }
  }

  /** Rendering keeps the document well formed, returns one of its nodes,
      and only adds nodes, subscriptions and computed cells. */
  lemma {:induction false} RenderFacts(c: Ctx, v: Value, ele: nat, fuel: nat, eval: nat -> Outcome)
    requires Valid(c.doc)
    ensures var r := Render(c, v, ele, fuel, eval);
      Valid(r.0.doc) && r.1 in r.0.doc.nodes && Grows(c, r.0)
    decreases fuel, v, 2
  {
    var (d0, frag) := Create(c.doc, FragmentNode([]));
    CreateFacts(c.doc, FragmentNode([]));
    if fuel > 0 {
      DispatchFacts(c.(doc := d0), frag, v, ele, fuel, eval);
      GrowsTransitive(c, c.(doc := d0), Dispatch(c.(doc := d0), frag, v, ele, fuel, eval).0);
    }
  }

  lemma {:induction false} DispatchFacts(c: Ctx, frag: nat, v: Value, ele: nat, fuel: nat, eval: nat -> Outcome)
    requires Valid(c.doc) && frag in c.doc.nodes && fuel > 0
    ensures var r := Dispatch(c, frag, v, ele, fuel, eval);
      Valid(r.0.doc) && r.1 in r.0.doc.nodes && Grows(c, r.0)
    decreases fuel, v, 1
  {
    match Classify(c.doc, v)
    case AsElement =>
    case AsComputed =>
      match eval(v.fn) {
        case Throws =>
        case Returns(x) =>
          var c1 := c.(computeds := c.computeds + 1);
          RenderFacts(c1, x, ele, fuel - 1, eval);
          var (c2, cur) := Render(c1, x, ele, fuel - 1, eval);
          AttachFacts(c2, ComputedCell(v.fn, c.computeds), cur, ele, true);
          GrowsTransitive(c, c1, c2);
          GrowsTransitive(c, c2, Attach(c2, ComputedCell(v.fn, c.computeds), cur, ele, true).0);
      }
    case AsText =>
      CreateFacts(c.doc, TextNode(ToJsString(v)));
    case AsState =>
      RenderFacts(c, v.current, ele, fuel, eval);
      var (c1, cur) := Render(c, v.current, ele, fuel, eval);
      AttachFacts(c1, v.source, cur, ele, false);
      GrowsTransitive(c, c1, Attach(c1, v.source, cur, ele, false).0);
    case AsList =>
      RenderItemsFacts(c, v, |v.items|, ele, fuel, eval);
      var (c1, xs) := RenderItems(c, v, |v.items|, ele, fuel, eval);
      AppendAllFacts(c1.doc, frag, xs);
      GrowsTransitive(c, c1, c1.(doc := AppendAll(c1.doc, frag, xs)));
    case AsFalsy =>
    case AsUnhandled =>
  }

  lemma {:induction false} RenderItemsFacts(c: Ctx, list: Value, n: nat, ele: nat, fuel: nat, eval: nat -> Outcome)
    requires Valid(c.doc) && list.List? && n <= |list.items|
    ensures var r := RenderItems(c, list, n, ele, fuel, eval);
      Valid(r.0.doc) && Grows(c, r.0) && forall x :: x in r.1 ==> x in r.0.doc.nodes
    decreases fuel, list, 0, n
  {
    if n > 0 {
      RenderItemsFacts(c, list, n - 1, ele, fuel, eval);
      var (c1, xs) := RenderItems(c, list, n - 1, ele, fuel, eval);
      RenderFacts(c1, list.items[n - 1], ele, fuel, eval);
      GrowsTransitive(c, c1, Render(c1, list.items[n - 1], ele, fuel, eval).0);
    }
  }

  /** A subscription callback keeps the document well formed, only adds
      nodes, and changes no subscription but its own, whose source stays. */
  lemma ApplyFacts(c: Ctx, i: nat, v: Value, fuel: nat, eval: nat -> Outcome)
    requires Valid(c.doc) && i < |c.bindings|
    ensures var r := Apply(c, i, v, fuel, eval);
      Valid(r.0.doc) && Extends(c.doc, r.0.doc) && |c.bindings| <= |r.0.bindings| &&
      r.0.bindings[i].source == c.bindings[i].source &&
      forall j :: 0 <= j < |c.bindings| && j != i ==> r.0.bindings[j] == c.bindings[j]
  {
    match c.bindings[i].patch
    case TextPatch(n) =>
      SetTextFacts(c.doc, n, ToJsString(v));
    case AttributePatch(e, key) =>
      SetAttributeFacts(c.doc, e, key, ToJsString(v));
    case ReplacePatch(ele, cur) =>
      ReplaceStepFacts(c, i, ele, cur, v, fuel, eval);
    case RegionPatch(ele, nodes, end) =>
      RegionStepFacts(c, i, ele, nodes, end, v, fuel, eval);
  }

  lemma ReplaceStepFacts(c: Ctx, i: nat, ele: nat, cur: nat, v: Value, fuel: nat, eval: nat -> Outcome)
    requires Valid(c.doc) && i < |c.bindings|
    ensures var r := ReplaceStep(c, i, ele, cur, v, fuel, eval);
      Valid(r.doc) && Extends(c.doc, r.doc) && |c.bindings| <= |r.bindings| &&
      r.bindings[i].source == c.bindings[i].source &&
      forall j :: 0 <= j < |c.bindings| && j != i ==> r.bindings[j] == c.bindings[j]
  {
    RenderFacts(c, v, ele, fuel, eval);
    var (c1, n) := Render(c, v, ele, fuel, eval);
    if !(cur in c1.doc.nodes && c1.doc.nodes[cur].FragmentNode?) {
      ReplaceFacts(c1.doc, cur, n);
      ExtendsTransitive(c.doc, c1.doc, ReplaceWith(c1.doc, cur, n));
    }
  }

  lemma RegionStepFacts(c: Ctx, i: nat, ele: nat, nodes: seq<nat>, end: nat, v: Value, fuel: nat, eval: nat -> Outcome)
    requires Valid(c.doc) && i < |c.bindings|
    ensures var r := RegionStep(c, i, ele, nodes, end, v, fuel, eval);
      Valid(r.0.doc) && Extends(c.doc, r.0.doc) && |c.bindings| <= |r.0.bindings| &&
      r.0.bindings[i].source == c.bindings[i].source &&
      forall j :: 0 <= j < |c.bindings| && j != i ==> r.0.bindings[j] == c.bindings[j]
  {
    var c0 := c.(doc := DetachAll(c.doc, nodes));
    DetachAllFacts(c.doc, nodes);
    RenderFacts(c0, v, ele, fuel, eval);
    var (c1, n) := Render(c0, v, ele, fuel, eval);
    ExtendsTransitive(c.doc, c0.doc, c1.doc);
    if InsertBefore(c1.doc, ele, n, Some(end)).Some? {
      InsertFacts(c1.doc, ele, n, Some(end));
      ExtendsTransitive(c.doc, c1.doc, Insert(c1.doc, ele, n, Some(end)));
    }
  }

  lemma PropStepFacts(c: Ctx, ele: nat, p: Prop, eval: nat -> Outcome)
    requires Valid(c.doc)
    ensures Valid(PropStep(c, ele, p, eval).0.doc) && Grows(c, PropStep(c, ele, p, eval).0)
  {
    var v := p.value;
    if State.IsReactiveFunction(v) && eval(v.fn).Returns? {
      v := Cell(ComputedCell(v.fn, c.computeds), eval(v.fn).value);
    }
    if State.IsReactiveState(v) {
      v := v.current;
    }
    var listened := if IsEventKey(p.key) then AddListener(c.doc, ele, EventName(p.key), v) else Some(c.doc);
    if listened.Some? {
      if IsEventKey(p.key) {
        AddListenerFacts(c.doc, ele, EventName(p.key), v);
      }
      SetAttributeFacts(listened.value, ele, p.key, ToJsString(v));
      ExtendsTransitive(c.doc, listened.value, SetAttribute(listened.value, ele, p.key, ToJsString(v)));
    }
  }

  lemma {:induction false} ApplyPropsFacts(c: Ctx, ele: nat, props: seq<Prop>, n: nat, eval: nat -> Outcome)
    requires Valid(c.doc) && n <= |props|
    ensures Valid(ApplyProps(c, ele, props, n, eval).0.doc) && Grows(c, ApplyProps(c, ele, props, n, eval).0)
    decreases n
  {
    if n > 0 {
      ApplyPropsFacts(c, ele, props, n - 1, eval);
      var (c1, threw) := ApplyProps(c, ele, props, n - 1, eval);
      if !threw {
        PropStepFacts(c1, ele, props[n - 1], eval);
        GrowsTransitive(c, c1, PropStep(c1, ele, props[n - 1], eval).0);
      }
    }
  }

  lemma {:induction false} RenderChildrenFacts(c: Ctx, ele: nat, kids: seq<Value>, n: nat, fuel: nat, eval: nat -> Outcome)
    requires Valid(c.doc) && n <= |kids|
    ensures Valid(RenderChildren(c, ele, kids, n, fuel, eval).doc) && Grows(c, RenderChildren(c, ele, kids, n, fuel, eval))
    decreases n
  {
    if n > 0 {
      RenderChildrenFacts(c, ele, kids, n - 1, fuel, eval);
      var c1 := RenderChildren(c, ele, kids, n - 1, fuel, eval);
      RenderFacts(c1, kids[n - 1], ele, fuel, eval);
      var (c2, x) := Render(c1, kids[n - 1], ele, fuel, eval);
      InsertFacts(c2.doc, ele, x, None);
      GrowsTransitive(c, c1, c2);
      GrowsTransitive(c, c2, RenderChild(c1, ele, kids[n - 1], fuel, eval));
    }
  }

  /** `jsxDEV` keeps the document well formed and only adds to the state. */
  lemma JsxFacts(c: Ctx, element: Value, children: Value, props: seq<Prop>, fuel: nat,
                 eval: nat -> Outcome, call: (nat, seq<Prop>) -> Outcome)
    requires Valid(c.doc)
    ensures var r := Jsx(c, element, children, props, fuel, eval, call);
      Valid(r.0.doc) && Grows(c, r.0)
  {
    if !Falsy(element) && !element.Function? {
      var (d1, ele) := Create(c.doc, ElementNode(ToJsString(element), map[], [], []));
      CreateFacts(c.doc, ElementNode(ToJsString(element), map[], [], []));
      var c1 := c.(doc := d1);
      ApplyPropsFacts(c1, ele, props, |props|, eval);
      var (c2, threw) := ApplyProps(c1, ele, props, |props|, eval);
      GrowsTransitive(c, c1, c2);
      if !threw {
        var kids := ChildList(children);
        RenderChildrenFacts(c2, ele, kids, |kids|, fuel, eval);
        GrowsTransitive(c, c2, RenderChildren(c2, ele, kids, |kids|, fuel, eval));
      }
    }
  }
}
