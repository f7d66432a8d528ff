/** The part of the browser document the runtime of pulse/ drives: text,
    element, comment and fragment nodes, kept in an arena keyed by node
    identity. A node's position is the children list that holds it; the
    operations below are the DOM calls the runtime makes (`createTextNode`,
    `appendChild`, `insertBefore`, `replaceWith`, `remove`, `textContent`,
    `setAttribute`, `addEventListener`), each stated on the whole arena. */
module Dom {
  import opened Common
  import opened Values

  /** One registered event listener. */
  datatype Listener = Listener(event: string, handler: Value)

  datatype HostNode =
    | TextNode(content: string)
    | ElementNode(tag: string, attributes: map<string, string>, listeners: seq<Listener>, children: seq<nat>)
    | CommentNode(data: string)
    | FragmentNode(children: seq<nat>)

  /** Nodes that can hold children. */
  predicate IsParent(n: HostNode)
  {
    n.ElementNode? || n.FragmentNode?
  }

  /** Two versions of a node are of the same kind. */
  predicate SameKind(a: HostNode, b: HostNode)
  {
    a.TextNode? == b.TextNode? && a.ElementNode? == b.ElementNode? &&
    a.CommentNode? == b.CommentNode? && a.FragmentNode? == b.FragmentNode?
  }

  /** `childNodes`, by identity. */
  function Kids(n: HostNode): seq<nat>
  {
    if IsParent(n) then n.children else []
  }

  /** The same node with its children list replaced. */
  function WithKids(n: HostNode, cs: seq<nat>): (r: HostNode)
    requires IsParent(n)
    ensures IsParent(r) && Kids(r) == cs && SameKind(n, r)
  {
    match n
    case ElementNode(tag, attributes, listeners, _) => ElementNode(tag, attributes, listeners, cs)
    case FragmentNode(_) => FragmentNode(cs)
  }

  /** The document: every node ever created, and the next free identity. */
  datatype Doc = Doc(nodes: map<nat, HostNode>, next: nat)

  /** Identities are below `next`, and children lists only name existing
      nodes, none of them a fragment (a fragment never has a parent). */
  ghost predicate Valid(d: Doc)
  {
    (forall k :: k in d.nodes ==> k < d.next) &&
    (forall k, c :: k in d.nodes && c in Kids(d.nodes[k]) ==> c in d.nodes && !d.nodes[c].FragmentNode?)
  }

  /** What a well-formed document may hold in a children list. */
  ghost predicate Placeable(d: Doc, xs: seq<nat>)
  {
    forall x :: x in xs ==> x in d.nodes && !d.nodes[x].FragmentNode?
  }

  /** What inserting moves is placeable. */
  lemma MovedPlaceable(d: Doc, c: nat)
    requires Valid(d) && c in d.nodes
    ensures Placeable(d, Moved(d, c))
  {
  }

  /** `r` is a later state of `d`: no node disappeared or changed kind. */
  ghost predicate Extends(d: Doc, r: Doc)
  {
    d.nodes.Keys <= r.nodes.Keys && d.next <= r.next &&
    forall k :: k in d.nodes ==> SameKind(d.nodes[k], r.nodes[k])
  }

  lemma ExtendsTransitive(a: Doc, b: Doc, c: Doc)
    requires Extends(a, b) && Extends(b, c)
    ensures Extends(a, c)
  {
  }

  /** No children list holds `x`: the node has no parent. */
  ghost predicate Detached(d: Doc, x: nat)
  {
    forall k :: k in d.nodes ==> x !in Kids(d.nodes[k])
  }

  /** `document.createTextNode`, `createElement`, `createComment`,
      `createDocumentFragment`: a new node under the next free identity. */
  function Create(d: Doc, n: HostNode): (r: (Doc, nat))
  {
    (Doc(d.nodes[d.next := n], d.next + 1), d.next)
  }

  /** A created node is fresh and has no parent; the document stays well
      formed. */
  lemma CreateFacts(d: Doc, n: HostNode)
    requires Valid(d) && Kids(n) == []
    ensures var r := Create(d, n);
      Valid(r.0) && r.1 !in d.nodes && r.0.nodes == d.nodes[r.1 := n] &&
      Extends(d, r.0) && Detached(r.0, r.1)
  {
  }

  /** `s` without the members of `gone`, order kept. */
  function Without(s: seq<nat>, gone: seq<nat>): (r: seq<nat>)
    ensures forall x :: x in r <==> x in s && x !in gone
    ensures |r| <= |s|
    decreases |s|
  {
    if s == [] then []
    else (if s[0] in gone then [] else [s[0]]) + Without(s[1..], gone)
  }

  /** Removing everything that is there leaves nothing. */
  lemma {:induction false} WithoutEverything(s: seq<nat>, gone: seq<nat>)
    requires forall x :: x in s ==> x in gone
    ensures Without(s, gone) == []
    decreases |s|
  {
    if s != [] {
      WithoutEverything(s[1..], gone);
    }
  }

  /** Removing nothing that is there keeps the sequence. */
  lemma {:induction false} WithoutNothing(s: seq<nat>, gone: seq<nat>)
    requires forall x :: x in s ==> x !in gone
    ensures Without(s, gone) == s
    decreases |s|
  {
    if s != [] {
      WithoutNothing(s[1..], gone);
      assert s == [s[0]] + s[1..];
    }
  }

  /** The position of the first `x` in `s`, or `|s|` when there is none. */
  function IndexOf(s: seq<nat>, x: nat): (i: nat)
    ensures i <= |s| && x !in s[..i]
    ensures i < |s| <==> x in s
    ensures i < |s| ==> s[i] == x
    decreases |s|
  {
    if s == [] then 0
    else if s[0] == x then 0
    else
      var j := IndexOf(s[1..], x);
      assert s[..j + 1] == [s[0]] + s[1..][..j];
      j + 1
  }

  /** What inserting `c` moves: a fragment moves its children, any other
      node moves itself. */
  function Moved(d: Doc, c: nat): seq<nat>
  {
    if c in d.nodes && d.nodes[c].FragmentNode? then d.nodes[c].children else [c]
  }

  /** A node with the members of `gone` taken out of its children. */
  function Strip(n: HostNode, gone: seq<nat>): (r: HostNode)
    ensures Kids(r) == Without(Kids(n), gone)
    ensures SameKind(n, r)
    ensures n.ElementNode? ==> r.attributes == n.attributes && r.listeners == n.listeners
    ensures !IsParent(n) ==> r == n
  {
    if IsParent(n) then WithKids(n, Without(Kids(n), gone)) else n
  }

  /** Every children list of `r` holds only what the same list held in `d`
      or members of `extra`, which exist: `r` is as well formed as `d`. */
  lemma KidsWithin(d: Doc, r: Doc, extra: seq<nat>)
    requires r.next == d.next && r.nodes.Keys == d.nodes.Keys
    requires forall k :: k in d.nodes ==> SameKind(d.nodes[k], r.nodes[k])
    requires forall k :: k in r.nodes ==> forall x :: x in Kids(r.nodes[k]) ==> x in Kids(d.nodes[k]) || x in extra
    ensures Valid(d) && Placeable(d, extra) ==> Valid(r)
  {
    if Valid(d) && Placeable(d, extra) {
      forall k, c | k in r.nodes && c in Kids(r.nodes[k])
        ensures c in r.nodes && !r.nodes[c].FragmentNode?
      {
        assert c in d.nodes && !d.nodes[c].FragmentNode?;
        assert SameKind(d.nodes[c], r.nodes[c]);
      }
    }
  }

  /** Giving a parent a children list of existing nodes keeps the document
      well formed. */
  lemma SetKids(d: Doc, p: nat, ks: seq<nat>)
    requires Valid(d) && p in d.nodes && IsParent(d.nodes[p])
    requires Placeable(d, ks)
    ensures var r := Doc(d.nodes[p := WithKids(d.nodes[p], ks)], d.next);
      Valid(r) && Extends(d, r) && r.nodes.Keys == d.nodes.Keys
  {
  }

  lemma SplicePlaceable(d: Doc, cs: seq<nat>, ms: seq<nat>, i: nat)
    requires Placeable(d, cs) && Placeable(d, ms) && i <= |cs|
    ensures Placeable(d, cs[..i] + ms + cs[i..])
  {
    assert forall x :: x in cs[..i] + ms + cs[i..] ==> x in cs || x in ms;
  }

  /** Removes every member of `gone` from the children list it is in. */
  function DetachAll(d: Doc, gone: seq<nat>): (r: Doc)
    ensures r.next == d.next && r.nodes.Keys == d.nodes.Keys
  {
    Doc(map k | k in d.nodes :: Strip(d.nodes[k], gone), d.next)
  }

  /** After `DetachAll` every member of `gone` is without a parent, and the
      rest of the document is as it was. */
  lemma DetachAllFacts(d: Doc, gone: seq<nat>)
    ensures var r := DetachAll(d, gone);
      (forall k :: k in d.nodes ==> r.nodes[k] == Strip(d.nodes[k], gone)) &&
      (Valid(d) ==> Valid(r)) && Extends(d, r) &&
      (forall g :: g in gone ==> Detached(r, g))
  {
    KidsWithin(d, DetachAll(d, gone), []);
  }

  /** After `DetachAll` no member of `gone` is a child of any node. */
  lemma DetachAllDetaches(d: Doc, gone: seq<nat>)
    ensures forall g :: g in gone ==> Detached(DetachAll(d, gone), g)
  {
    var r := DetachAll(d, gone);
    forall g, k | g in gone && k in r.nodes
      ensures g !in Kids(r.nodes[k])
    {
      assert r.nodes[k] == Strip(d.nodes[k], gone);
    }
  }

  /** `p.insertBefore(c, ref)` when `at` is `Some(ref)`, `p.appendChild(c)`
      when it is `None`: the moved nodes leave their places and go, in
      order, just before `ref` or at the end. A `p` that cannot have
      children is left as it is. */
  function Insert(d: Doc, p: nat, c: nat, at: Option<nat>): (r: Doc)
    ensures r.next == d.next && r.nodes.Keys == d.nodes.Keys
  {
    if p !in d.nodes || !IsParent(d.nodes[p]) then d
    else
      var ms := Moved(d, c);
      var d1 := DetachAll(d, ms);
      var cs := Kids(d1.nodes[p]);
      var i := if at.Some? then IndexOf(cs, at.value) else |cs|;
      Doc(d1.nodes[p := WithKids(d1.nodes[p], cs[..i] + ms + cs[i..])], d.next)
  }

  /** Inserting an existing node keeps the document well formed. */
  lemma InsertFacts(d: Doc, p: nat, c: nat, at: Option<nat>)
    requires Valid(d) && c in d.nodes
    ensures Valid(Insert(d, p, c, at)) && Extends(d, Insert(d, p, c, at))
  {
    if p in d.nodes && IsParent(d.nodes[p]) {
      var ms := Moved(d, c);
      var d1 := DetachAll(d, ms);
      var cs := Kids(d1.nodes[p]);
      var i := if at.Some? then IndexOf(cs, at.value) else |cs|;
      var ks := cs[..i] + ms + cs[i..];
      var r := Doc(d1.nodes[p := WithKids(d1.nodes[p], ks)], d.next);
      assert Insert(d, p, c, at) == r;
      assert Valid(d1) && Extends(d, d1) && IsParent(d1.nodes[p]) by {
        DetachAllFacts(d, ms);
      }
      assert Placeable(d1, ks) by {
        MovedPlaceable(d, c);
        assert Placeable(d1, ms);
        assert Placeable(d1, cs);
        SplicePlaceable(d1, cs, ms, i);
      }
      SetKids(d1, p, ks);
      ExtendsTransitive(d, d1, r);
    }
  }

  /** `p.appendChild(c)`. */
  function AppendChild(d: Doc, p: nat, c: nat): (r: Doc)
    ensures r.next == d.next && r.nodes.Keys == d.nodes.Keys
  {
    Insert(d, p, c, None)
  }

  /** `p.insertBefore(c, ref)`, `None` when it throws: when `p` cannot have
      children, or `ref` is not a child of `p` (`NotFoundError`); a `null`
      reference appends. */
  function InsertBefore(d: Doc, p: nat, c: nat, ref: Option<nat>): (r: Option<Doc>)
    ensures r.None? <==> p !in d.nodes || !IsParent(d.nodes[p]) || (ref.Some? && ref.value !in Kids(d.nodes[p]))
    ensures r.Some? ==> r.value == Insert(d, p, c, ref)
  {
    if p !in d.nodes || !IsParent(d.nodes[p]) then None
    else if ref.Some? && ref.value !in Kids(d.nodes[p]) then None
    else Some(Insert(d, p, c, ref))
  }

  /** `node.remove()`: a node without a parent stays as it is. */
  function Remove(d: Doc, n: nat): (r: Doc)
    ensures r.next == d.next && r.nodes.Keys == d.nodes.Keys
  {
    DetachAll(d, [n])
  }

  /** The children list of a parent of `prior` after `prior.replaceWith(n)`:
      the moved nodes stand where `prior` stood. */
  function Splice(cs: seq<nat>, prior: nat, ms: seq<nat>): (r: seq<nat>)
    ensures forall x :: x in r ==> x in cs || x in ms
  {
    var i := IndexOf(cs, prior);
    if i < |cs| then Without(cs[..i], ms) + ms + Without(cs[i + 1..], ms) else Without(cs, ms)
  }

  /** A node whose children list is spliced as `Splice` says. */
  function Resplice(n: HostNode, prior: nat, ms: seq<nat>): (r: HostNode)
    ensures Kids(r) == Splice(Kids(n), prior, ms)
    ensures IsParent(r) <==> IsParent(n)
    ensures SameKind(n, r)
    ensures n.ElementNode? ==> r.attributes == n.attributes && r.listeners == n.listeners
    ensures !IsParent(n) ==> r == n
  {
    if IsParent(n) then WithKids(n, Splice(Kids(n), prior, ms)) else n
  }

  /** The parents holding `prior`. */
  function Holders(d: Doc, prior: nat): (r: set<nat>)
    ensures r == {} <==> Detached(d, prior)
  {
    var holders := set k | k in d.nodes && prior in Kids(d.nodes[k]);
    assert holders == {} <==> Detached(d, prior) by {
      if !Detached(d, prior) {
        var k :| k in d.nodes && prior in Kids(d.nodes[k]);
        assert k in holders;
      }
    }
    holders
  }

  /** `prior.replaceWith(n)`: nothing happens when `prior` has no parent or
      is `n` itself; otherwise the nodes `n` moves leave their places and
      take the place of `prior`. */
  function ReplaceWith(d: Doc, prior: nat, n: nat): (r: Doc)
    ensures r.next == d.next && r.nodes.Keys == d.nodes.Keys
  {
    if Holders(d, prior) == {} || n == prior then d
    else Doc(map k | k in d.nodes :: Resplice(d.nodes[k], prior, Moved(d, n)), d.next)
  }

  /** Replacing keeps the document well formed; it is a no-op exactly when
      `prior` has no parent or is `n`, and otherwise splices every list. */
  lemma ReplaceFacts(d: Doc, prior: nat, n: nat)
    requires Valid(d) && n in d.nodes
    ensures var r := ReplaceWith(d, prior, n);
      Valid(r) && Extends(d, r) &&
      (Detached(d, prior) || n == prior ==> r == d) &&
      (!Detached(d, prior) && n != prior ==>
        forall k :: k in d.nodes ==> r.nodes[k] == Resplice(d.nodes[k], prior, Moved(d, n)))
  {
    if !Detached(d, prior) && n != prior {
      MovedPlaceable(d, n);
      KidsWithin(d, ReplaceWith(d, prior, n), Moved(d, n));
    }
  }

  /** `node.textContent = s` on a text node. */
  function SetText(d: Doc, n: nat, s: string): (r: Doc)
    ensures r.next == d.next && r.nodes.Keys == d.nodes.Keys
    ensures n in d.nodes && d.nodes[n].TextNode? ==> r.nodes == d.nodes[n := TextNode(s)]
  {
    if n in d.nodes && d.nodes[n].TextNode? then Doc(d.nodes[n := TextNode(s)], d.next) else d
  }

  /** `ele.setAttribute(key, value)` with the value already converted to a
      string. */
  function SetAttribute(d: Doc, e: nat, key: string, value: string): (r: Doc)
    ensures r.next == d.next && r.nodes.Keys == d.nodes.Keys
    ensures e in d.nodes && d.nodes[e].ElementNode? ==>
      r.nodes == d.nodes[e := d.nodes[e].(attributes := d.nodes[e].attributes[key := value])]
  {
    if e in d.nodes && d.nodes[e].ElementNode? then
      var n := d.nodes[e];
      Doc(d.nodes[e := n.(attributes := n.attributes[key := value])], d.next)
    else d
  }

  /** Values `addEventListener` refuses with a `TypeError`: primitives that
      are neither `null` nor `undefined`. */
  predicate RefusedListener(handler: Value)
  {
    handler.Bool? || handler.Num? || handler.Str?
  }

  /** `ele.addEventListener(event, handler)`: `None` when it throws; a
      `null` or `undefined` handler is ignored, and a listener already
      registered is not added twice. */
  function AddListener(d: Doc, e: nat, event: string, handler: Value): (r: Option<Doc>)
    ensures r.None? <==> RefusedListener(handler)
    ensures r.Some? && (handler == Null || handler == Undefined) ==> r.value == d
    ensures r.Some? ==> r.value.next == d.next && r.value.nodes.Keys == d.nodes.Keys
    ensures r.Some? && e in d.nodes && d.nodes[e].ElementNode? && handler != Null && handler != Undefined ==>
      r.value.nodes == d.nodes[e := d.nodes[e].(listeners := SetAdd(d.nodes[e].listeners, Listener(event, handler)))]
  {
    if RefusedListener(handler) then None
    else if handler == Null || handler == Undefined then Some(d)
    else if e in d.nodes && d.nodes[e].ElementNode? then
      var n := d.nodes[e];
      Some(Doc(d.nodes[e := n.(listeners := SetAdd(n.listeners, Listener(event, handler)))], d.next))
    else Some(d)
  }

  /** Editing text, attributes and listeners keeps the document well formed
      and changes no node's kind. */
  lemma SetTextFacts(d: Doc, n: nat, s: string)
    requires Valid(d)
    ensures Valid(SetText(d, n, s)) && Extends(d, SetText(d, n, s))
  {
    if n in d.nodes && d.nodes[n].TextNode? {
      KidsWithin(d, SetText(d, n, s), []);
    }
  }

  lemma SetAttributeFacts(d: Doc, e: nat, key: string, value: string)
    requires Valid(d)
    ensures Valid(SetAttribute(d, e, key, value)) && Extends(d, SetAttribute(d, e, key, value))
  {
    if e in d.nodes && d.nodes[e].ElementNode? {
      KidsWithin(d, SetAttribute(d, e, key, value), []);
    }
  }

  lemma AddListenerFacts(d: Doc, e: nat, event: string, handler: Value)
    requires Valid(d) && AddListener(d, e, event, handler).Some?
    ensures Valid(AddListener(d, e, event, handler).value) && Extends(d, AddListener(d, e, event, handler).value)
  {
    KidsWithin(d, AddListener(d, e, event, handler).value, []);
  }

  // ---------------------------------------------------------------------
  // What the tree operations guarantee
  // ---------------------------------------------------------------------

  /** Removing the members of `a` and then `x` is removing `a + [x]`. */
  lemma {:induction false} WithoutTwice(s: seq<nat>, a: seq<nat>, x: nat)
    ensures Without(Without(s, a), [x]) == Without(s, a + [x])
    decreases |s|
  {
    if s != [] {
      WithoutTwice(s[1..], a, x);
      var t := Without(s[1..], a);
      if s[0] in a {
        assert Without(s, a) == t;
        assert s[0] in a + [x];
      } else {
        assert Without(s, a) == [s[0]] + t;
        assert ([s[0]] + t)[0] == s[0] && ([s[0]] + t)[1..] == t;
      }
    }
  }

  lemma StripTwice(n: HostNode, a: seq<nat>, x: nat)
    ensures Strip(Strip(n, a), [x]) == Strip(n, a + [x])
  {
    WithoutTwice(Kids(n), a, x);
  }

  /** `nodes.forEach(n => n.remove())`, one node at a time, is `DetachAll`. */
  lemma DetachNext(d: Doc, s: seq<nat>, i: nat)
    requires i < |s|
    ensures Remove(DetachAll(d, s[..i]), s[i]) == DetachAll(d, s[..i + 1])
  {
    assert s[..i] + [s[i]] == s[..i + 1];
    DetachStep(d, s[..i], s[i]);
  }

  lemma DetachStep(d: Doc, a: seq<nat>, x: nat)
    ensures DetachAll(DetachAll(d, a), [x]) == DetachAll(d, a + [x])
  {
    var m := DetachAll(d, a);
    var l := DetachAll(m, [x]);
    var r := DetachAll(d, a + [x]);
    assert l.nodes.Keys == r.nodes.Keys;
    forall k | k in d.nodes
      ensures l.nodes[k] == r.nodes[k]
    {
      assert m.nodes[k] == Strip(d.nodes[k], a);
      assert l.nodes[k] == Strip(m.nodes[k], [x]);
      StripTwice(d.nodes[k], a, x);
    }
    assert l.nodes == r.nodes;
  }

  /** Removing nothing changes nothing. */
  lemma DetachNothing(d: Doc)
    ensures DetachAll(d, []) == d
  {
    forall k | k in d.nodes
      ensures DetachAll(d, []).nodes[k] == d.nodes[k]
    {
      var n := d.nodes[k];
      WithoutNothing(Kids(n), []);
    }
    assert DetachAll(d, []).nodes == d.nodes;
  }

  /** Inserting takes the moved nodes out of every children list other
      than the parent's. */
  lemma InsertMovesOut(d: Doc, p: nat, c: nat, at: Option<nat>)
    requires Valid(d) && p in d.nodes && IsParent(d.nodes[p]) && c in d.nodes
    ensures forall k, x :: k in d.nodes && k != p && x in Moved(d, c) ==> x !in Kids(Insert(d, p, c, at).nodes[k])
  {
    var d1 := DetachAll(d, Moved(d, c));
    assert forall k :: k in d.nodes && k != p ==> Insert(d, p, c, at).nodes[k] == d1.nodes[k];
  }

  /** Appending: the moved nodes end the parent's list, in order, after the
      parent's other children. */
  lemma AppendPlacesLast(d: Doc, p: nat, c: nat)
    requires p in d.nodes && IsParent(d.nodes[p]) && c in d.nodes
    ensures Kids(AppendChild(d, p, c).nodes[p]) == Without(Kids(d.nodes[p]), Moved(d, c)) + Moved(d, c)
  {
    var ms := Moved(d, c);
    var d1 := DetachAll(d, ms);
    var cs := Kids(d1.nodes[p]);
    assert cs[..|cs|] == cs && cs[|cs|..] == [];
  }

  /** Appending a fragment to another node leaves the fragment empty. */
  lemma AppendEmptiesFragment(d: Doc, p: nat, c: nat)
    requires Valid(d) && p in d.nodes && IsParent(d.nodes[p]) && c in d.nodes && p != c
    requires d.nodes[c].FragmentNode?
    ensures Kids(AppendChild(d, p, c).nodes[c]) == []
  {
    var fc := Kids(d.nodes[c]);
    assert AppendChild(d, p, c).nodes[c] == DetachAll(d, fc).nodes[c];
    WithoutEverything(fc, fc);
  }

  /** Inserting before a child `ref` that does not itself move: the moved
      nodes sit, in order, immediately before `ref`; `i` is where they
      start. */
  lemma InsertPlacesBefore(d: Doc, p: nat, c: nat, ref: nat) returns (i: nat)
    requires p in d.nodes && IsParent(d.nodes[p]) && c in d.nodes
    requires ref in Kids(d.nodes[p]) && ref !in Moved(d, c)
    ensures var ks := Kids(Insert(d, p, c, Some(ref)).nodes[p]);
      i + |Moved(d, c)| < |ks| && ks[i..i + |Moved(d, c)|] == Moved(d, c) && ks[i + |Moved(d, c)|] == ref
  {
    var ms := Moved(d, c);
    var cs;
    cs, i := InsertKids(d, p, c, Some(ref));
    assert ref in cs;
    var ks := cs[..i] + ms + cs[i..];
    assert ks[i..i + |ms|] == ms;
    assert ks[i + |ms|] == cs[i] == ref;
  }

  lemma SpliceDropsPrior(cs: seq<nat>, prior: nat, ms: seq<nat>)
    requires Distinct(cs) && prior in cs && prior !in ms
    ensures prior !in Splice(cs, prior, ms)
  {
    var i := IndexOf(cs, prior);
    assert prior !in cs[i + 1..] by {
      forall j | i + 1 <= j < |cs|
        ensures cs[j] != prior
      {
        assert cs[i] != cs[j];
      }
    }
  }

  /** Replacing a child of `p`: the moved nodes stand where `prior` stood,
      in order; when `p`'s list held `prior` once, it holds it no more. */
  lemma ReplacePlaces(d: Doc, p: nat, prior: nat, n: nat)
    requires Valid(d) && p in d.nodes && n in d.nodes && prior != n
    requires prior in Kids(d.nodes[p]) && prior !in Moved(d, n)
    ensures var ms := Moved(d, n);
      var cs := Kids(d.nodes[p]);
      var i := IndexOf(cs, prior);
      var ks := Kids(ReplaceWith(d, prior, n).nodes[p]);
      ks == Without(cs[..i], ms) + ms + Without(cs[i + 1..], ms) &&
      (Distinct(cs) ==> prior !in ks)
  {
    var ms := Moved(d, n);
    var cs := Kids(d.nodes[p]);
    var i := IndexOf(cs, prior);
    assert p in Holders(d, prior);
    assert ReplaceWith(d, prior, n).nodes[p] == Resplice(d.nodes[p], prior, ms);
    assert Kids(ReplaceWith(d, prior, n).nodes[p]) == Splice(cs, prior, ms);
    if Distinct(cs) {
      SpliceDropsPrior(cs, prior, ms);
    }
  }

  /** Replacing by a node that has no parent and is not a fragment: that
      node alone takes the place of `prior`, and the rest of the list stays
      in order. */
  lemma ReplaceByDetached(d: Doc, p: nat, prior: nat, n: nat)
    requires Valid(d) && p in d.nodes && n in d.nodes && prior != n
    requires prior in Kids(d.nodes[p]) && Detached(d, n) && !d.nodes[n].FragmentNode?
    ensures var cs := Kids(d.nodes[p]);
      var i := IndexOf(cs, prior);
      Kids(ReplaceWith(d, prior, n).nodes[p]) == cs[..i] + [n] + cs[i + 1..]
  {
    var cs := Kids(d.nodes[p]);
    var i := IndexOf(cs, prior);
    ReplacePlaces(d, p, prior, n);
    assert n !in cs;
    WithoutNothing(cs[..i], [n]);
    WithoutNothing(cs[i + 1..], [n]);
  }

  /** Replacing changes no node that cannot hold children. */
  lemma ReplaceKeepsLeaf(d: Doc, prior: nat, n: nat, x: nat)
    requires x in d.nodes && !IsParent(d.nodes[x])
    ensures x in ReplaceWith(d, prior, n).nodes && ReplaceWith(d, prior, n).nodes[x] == d.nodes[x]
  {
  }

  /** Inserting a node that has no parent before the first child of `p`
      (or into an empty `p`) makes it the first child. */
  lemma PrependDetached(d: Doc, p: nat, c: nat)
    requires p in d.nodes && IsParent(d.nodes[p]) && c in d.nodes && !d.nodes[c].FragmentNode?
    requires c !in Kids(d.nodes[p])
    ensures var cs := Kids(d.nodes[p]);
      var r := Insert(d, p, c, if cs == [] then None else Some(cs[0]));
      Kids(r.nodes[p]) == [c] + cs && SameKind(d.nodes[p], r.nodes[p])
  {
    if Kids(d.nodes[p]) == [] {
      AppendDetached(d, p, c);
    } else {
      InsertFirst(d, p, c);
    }
  }

  /** Inserting a node that has no parent before the first child of `p`
      puts it in front of the others. */
  lemma InsertFirst(d: Doc, p: nat, c: nat)
    requires p in d.nodes && IsParent(d.nodes[p]) && c in d.nodes && !d.nodes[c].FragmentNode?
    requires c !in Kids(d.nodes[p]) && Kids(d.nodes[p]) != []
    ensures var cs := Kids(d.nodes[p]);
      var r := Insert(d, p, c, Some(cs[0]));
      Kids(r.nodes[p]) == [c] + cs && SameKind(d.nodes[p], r.nodes[p])
  {
    var cs := Kids(d.nodes[p]);
    var d1 := DetachAll(d, [c]);
    assert Kids(d1.nodes[p]) == cs by {
      assert Kids(d1.nodes[p]) == Without(cs, [c]);
      WithoutNothing(cs, [c]);
    }
    assert cs[..0] + [c] + cs[0..] == [c] + cs;
  }

  /** Appending a node that is not yet a child of `p` and is not a
      fragment makes it the last child. */
  lemma AppendDetached(d: Doc, p: nat, c: nat)
    requires p in d.nodes && IsParent(d.nodes[p]) && c in d.nodes && !d.nodes[c].FragmentNode?
    requires c !in Kids(d.nodes[p])
    ensures Kids(AppendChild(d, p, c).nodes[p]) == Kids(d.nodes[p]) + [c]
    ensures SameKind(d.nodes[p], AppendChild(d, p, c).nodes[p])
  {
    AppendPlacesLast(d, p, c);
    WithoutNothing(Kids(d.nodes[p]), [c]);
  }

  /** The children of `p` after an insertion: those that do not move,
      with the moved nodes spliced in at position `i`. */
  lemma InsertKids(d: Doc, p: nat, c: nat, at: Option<nat>) returns (cs: seq<nat>, i: nat)
    requires p in d.nodes && IsParent(d.nodes[p])
    ensures cs == Without(Kids(d.nodes[p]), Moved(d, c)) && i <= |cs|
    ensures at.Some? ==> i == IndexOf(cs, at.value)
    ensures Kids(Insert(d, p, c, at).nodes[p]) == cs[..i] + Moved(d, c) + cs[i..]
  {
    var ms := Moved(d, c);
    var d1 := DetachAll(d, ms);
    assert d1.nodes[p] == Strip(d.nodes[p], ms);
    cs := Kids(d1.nodes[p]);
    i := if at.Some? then IndexOf(cs, at.value) else |cs|;
    assert Insert(d, p, c, at).nodes[p] == WithKids(d1.nodes[p], cs[..i] + ms + cs[i..]);
  }

  /** Splicing `ms` into `cs` keeps every member of `cs`. */
  lemma InConcat(cs: seq<nat>, i: nat, ms: seq<nat>, x: nat)
    requires i <= |cs| && x in cs
    ensures x in cs[..i] + ms + cs[i..]
  {
    assert cs == cs[..i] + cs[i..];
  }

  /** Inserting keeps every child of `p` that does not move. */
  lemma InsertKeepsSibling(d: Doc, p: nat, c: nat, at: Option<nat>, x: nat)
    requires p in d.nodes && IsParent(d.nodes[p]) && x in Kids(d.nodes[p]) && x !in Moved(d, c)
    ensures x in Kids(Insert(d, p, c, at).nodes[p])
  {
    var cs, i := InsertKids(d, p, c, at);
    assert x in cs;
    InConcat(cs, i, Moved(d, c), x);
  }

  /** `a` stands immediately before `b` in the list `ks`. */
  predicate JustBefore(ks: seq<nat>, a: nat, b: nat)
  {
    exists j :: 0 <= j && j + 1 < |ks| && ks[j] == a && ks[j + 1] == b
  }

  /** After an insertion a node's children are ones it had before or
      nodes that moved. */
  lemma InsertKidsFrom(d: Doc, p: nat, c: nat, at: Option<nat>, k: nat, x: nat)
    requires k in d.nodes && x in Kids(Insert(d, p, c, at).nodes[k])
    ensures x in Kids(d.nodes[k]) || x in Moved(d, c)
  {
    if p in d.nodes && IsParent(d.nodes[p]) {
      if k == p {
        var cs, i := InsertKids(d, p, c, at);
        assert x in cs[..i] || x in Moved(d, c) || x in cs[i..];
      } else {
        assert Insert(d, p, c, at).nodes[k] == DetachAll(d, Moved(d, c)).nodes[k];
        assert DetachAll(d, Moved(d, c)).nodes[k] == Strip(d.nodes[k], Moved(d, c));
      }
    }
  }

  /** A node without a parent that does not move still has none after an
      insertion. */
  lemma InsertKeepsDetached(d: Doc, p: nat, c: nat, at: Option<nat>, x: nat)
    requires Detached(d, x) && x !in Moved(d, c)
    ensures Detached(Insert(d, p, c, at), x)
  {
    var r := Insert(d, p, c, at);
    forall k | k in r.nodes
      ensures x !in Kids(r.nodes[k])
    {
      if x in Kids(r.nodes[k]) {
        InsertKidsFrom(d, p, c, at, k, x);
      }
    }
  }

  /** Inserting a text node `t` before a child `ref` of `p`: `t` stands
      immediately before `ref`. */
  lemma InsertTextJustBefore(d: Doc, p: nat, t: nat, ref: nat)
    requires p in d.nodes && IsParent(d.nodes[p]) && t in d.nodes && d.nodes[t].TextNode?
    requires ref in Kids(d.nodes[p]) && ref != t
    ensures JustBefore(Kids(Insert(d, p, t, Some(ref)).nodes[p]), t, ref)
  {
    var cs, i := InsertKids(d, p, t, Some(ref));
    assert ref !in Moved(d, t);
    SplicedJustBefore(Kids(Insert(d, p, t, Some(ref)).nodes[p]), cs, i, Moved(d, t), t, ref);
  }

  /** `a` spliced in just before position `i` of `cs`, where `b` stands,
      stands immediately before `b`. */
  lemma SplicedJustBefore(ks: seq<nat>, cs: seq<nat>, i: nat, ms: seq<nat>, a: nat, b: nat)
    requires ms == [a] && i <= |cs| && ks == cs[..i] + ms + cs[i..]
    requires i == IndexOf(cs, b) && b in cs
    ensures JustBefore(ks, a, b)
  {
    assert ks[i] == a && ks[i + 1] == cs[i] == b;
  }

  /** Inserting a node that is not a fragment leaves every other node
      without a parent without one. */
  lemma InsertLeafKeepsDetached(d: Doc, p: nat, t: nat, at: Option<nat>)
    requires t in d.nodes && !d.nodes[t].FragmentNode?
    ensures forall x :: Detached(d, x) && x != t ==> Detached(Insert(d, p, t, at), x)
  {
    assert Moved(d, t) == [t];
    forall x | Detached(d, x) && x != t
      ensures Detached(Insert(d, p, t, at), x)
    {
      InsertKeepsDetached(d, p, t, at, x);
    }
  }

  /** Inserting a text node before a child `ref` of `p`: the document
      stays well formed, the text node becomes a child of `p`, every other
      child of `p` stays, and no node that cannot hold children changes. */
  lemma InsertTextFacts(d: Doc, p: nat, t: nat, ref: nat)
    requires Valid(d) && p in d.nodes && IsParent(d.nodes[p]) && t in d.nodes && d.nodes[t].TextNode?
    requires ref in Kids(d.nodes[p]) && ref != t
    ensures var r := Insert(d, p, t, Some(ref));
      Valid(r) && r.nodes.Keys == d.nodes.Keys && r.next == d.next &&
      IsParent(r.nodes[p]) && t in Kids(r.nodes[p]) &&
      (forall x :: x in Kids(d.nodes[p]) && x != t ==> x in Kids(r.nodes[p])) &&
      (forall x :: x in d.nodes && !IsParent(d.nodes[x]) ==> r.nodes[x] == d.nodes[x])
  {
    var r := Insert(d, p, t, Some(ref));
    assert Moved(d, t) == [t];
    assert t in Kids(r.nodes[p]) by {
      var j := InsertPlacesBefore(d, p, t, ref);
      assert Kids(r.nodes[p])[j..j + 1] == [t];
    }
    InsertFacts(d, p, t, Some(ref));
    forall x | x in Kids(d.nodes[p]) && x != t
      ensures x in Kids(r.nodes[p])
    {
      InsertKeepsSibling(d, p, t, Some(ref), x);
    }
    forall x | x in d.nodes && !IsParent(d.nodes[x])
      ensures r.nodes[x] == d.nodes[x]
    {
      InsertKeepsLeaf(d, p, t, Some(ref), x);
    }
  }

  /** Inserting changes no node that cannot hold children. */
  lemma InsertKeepsLeaf(d: Doc, p: nat, c: nat, at: Option<nat>, x: nat)
    requires x in d.nodes && !IsParent(d.nodes[x])
    ensures Insert(d, p, c, at).nodes[x] == d.nodes[x]
  {
    if p in d.nodes && IsParent(d.nodes[p]) {
      assert DetachAll(d, Moved(d, c)).nodes[x] == Strip(d.nodes[x], Moved(d, c));
    }
  }
}
