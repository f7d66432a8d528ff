/** The reactivity-lifting rewrite of pulse/transform.ts, on an abstract
    syntax tree. Parsing, printing and the TSX-to-JS lowering are done by
    other libraries and are not part of this model: the rewrite takes the
    parser's error list and program body, and returns the rewritten body.

    An AST value is what the parser hands out: objects (a node is an object
    whose `type` is a non-empty string, held here in `kind`), arrays, and
    primitives. */
module Transform {
  import opened Common

  datatype Ast =
    | Object(kind: string, fields: seq<Field>)
    | Array(items: seq<Ast>)
    | Str(s: string)
    | Num(n: int)
    | Bool(b: bool)
    | Null

  /** One own property of an object, in `Object.entries` order. */
  datatype Field = Field(key: string, value: Ast)

  const Container := "JSXExpressionContainer"
  const Arrow := "ArrowFunctionExpression"

  /** An object with a truthy `type`: the only values `traverse` visits. */
  predicate Typed(v: Ast)
  {
    v.Object? && v.kind != ""
  }

  /** Keys `traverse` never descends into. */
  predicate Skipped(key: string)
  {
    key == "parent" || key == "loc"
  }

  // ---------------------------------------------------------------------
  // Property access

  /** The position of the first field named `key`, or `|fields|`. */
  function KeyIndex(fields: seq<Field>, key: string): (i: nat)
    ensures i <= |fields|
    ensures i < |fields| ==> fields[i].key == key
    ensures forall j :: 0 <= j < i ==> fields[j].key != key
    decreases |fields|
  {
    if fields == [] then 0
    else if fields[0].key == key then 0
    else 1 + KeyIndex(fields[1..], key)
  }

  /** `obj[key]`, with `None` for a missing property. */
  function Lookup(fields: seq<Field>, key: string): Option<Ast>
  {
    var i := KeyIndex(fields, key);
    if i < |fields| then Some(fields[i].value) else None
  }

  /** Two field lists with the same keys, position by position, find a key
      at the same position. */
  lemma SameKeysSameIndex(fs: seq<Field>, gs: seq<Field>, key: string)
    requires |fs| == |gs| && forall i :: 0 <= i < |fs| ==> fs[i].key == gs[i].key
    ensures KeyIndex(fs, key) == KeyIndex(gs, key)
  {
    var a, b := KeyIndex(fs, key), KeyIndex(gs, key);
    assert a < |fs| ==> gs[a].key == key;
    assert b < |gs| ==> fs[b].key == key;
  }

  /** A property found at position `i` when no earlier field has its key. */
  lemma LookupAt(fields: seq<Field>, key: string, i: nat)
    requires i < |fields| && fields[i].key == key
    requires forall j :: 0 <= j < i ==> fields[j].key != key
    ensures Lookup(fields, key) == Some(fields[i].value)
  {
    assert KeyIndex(fields, key) <= i;
  }

  // ---------------------------------------------------------------------
  // The wrapper

  /** `isReactiveWrapper`: a `CallExpression` whose callee is the
      identifier `reactive`. */
  predicate IsReactiveWrapper(v: Ast)
  {
    v.Object? && v.kind == "CallExpression" &&
    var callee := Lookup(v.fields, "callee");
    callee.Some? && callee.value.Object? && callee.value.kind == "Identifier" &&
    Lookup(callee.value.fields, "name") == Some(Str("reactive"))
  }

  function Identifier(name: string): Ast
  {
    Object("Identifier", [Field("name", Str(name))])
  }

  /** The node the rewrite puts in place of `body`: `reactive(() => body)`. */
  function ReactiveCall(body: Ast): (r: Ast)
    ensures IsReactiveWrapper(r)
  {
    Object("CallExpression", [
      Field("callee", Identifier("reactive")),
      Field("arguments", Array([
        Object(Arrow, [
          Field("params", Array([])),
          Field("body", body),
          Field("async", Bool(false)),
          Field("expression", Bool(true))])]))])
  }

  /** The expression kinds the rewrite lifts. */
  predicate Wrappable(v: Ast)
  {
    v.Object? && v.kind in {"MemberExpression", "CallExpression", "ConditionalExpression"}
  }

  /** `wrapAstNode(node, wrapper)`: only the arrow wrapper is known; a
      reactive wrapper is returned as it is. */
  function WrapAstNode(node: Ast, wrapper: string): (r: Option<Ast>)
    ensures r.None? <==> wrapper != Arrow
    ensures wrapper == Arrow && IsReactiveWrapper(node) ==> r == Some(node)
    ensures wrapper == Arrow && !IsReactiveWrapper(node) ==>
      r.Some? && r.value.Object? && r.value.kind == Arrow && !IsReactiveWrapper(r.value) &&
      Lookup(r.value.fields, "body") == Some(node) &&
      Lookup(r.value.fields, "params") == Some(Array([])) &&
      Lookup(r.value.fields, "expression") == Some(Bool(true)) &&
      Lookup(r.value.fields, "async") == Some(Bool(false))
  {
    if wrapper != Arrow then None
    else if IsReactiveWrapper(node) then Some(node)
    else
      var fields := [
        Field("expression", Bool(true)),
        Field("async", Bool(false)),
        Field("params", Array([])),
        Field("body", node),
        Field("id", Null),
        Field("generator", Bool(false)),
        Field("start", Num(0)),
        Field("end", Num(0)),
        Field("range", Array([Num(0), Num(0)]))];
      LookupAt(fields, "expression", 0);
      LookupAt(fields, "async", 1);
      LookupAt(fields, "params", 2);
      LookupAt(fields, "body", 3);
      Some(Object(Arrow, fields))
  }

  // ---------------------------------------------------------------------
  // The rewrite, as a function of the tree

  /** Whether the expression-container `t`, whose enclosing node is a
      reactive call exactly when `underReactive`, replaces its property
      value `v` by `reactive(() => v)`. */
  predicate Wraps(t: Ast, underReactive: bool, v: Ast)
    requires t.Object?
  {
    t.kind == Container && Wrappable(v) && !IsReactiveWrapper(v) && !underReactive
  }

  /** `traverse` applied to the node `t`, visited with a parent that is a
      reactive call exactly when `underReactive`. A container first
      replaces its liftable property values; then every property not named
      `parent` or `loc` is traversed with `t` as its parent. (Only a
      container's properties are replaced, and a container is never a
      reactive call, so whether `t` is one is the same before and after.) */
  function Process(t: Ast, underReactive: bool): (r: Ast)
    requires Typed(t)
    ensures Typed(r) && r.kind == t.kind && |r.fields| == |t.fields|
    ensures forall i :: 0 <= i < |r.fields| ==> r.fields[i].key == t.fields[i].key
    decreases t, 1
  {
    var parentFlag := IsReactiveWrapper(t);
    Object(t.kind, seq(|t.fields|, i requires 0 <= i < |t.fields| =>
      ProcessField(t, underReactive, parentFlag, t.fields[i])))
  }

  /** One property of `t` after `Process`. A replaced value is the fresh
      wrapper; traversing it reaches the original value through the
      arrow, whose parent is not a reactive call (see `DescendWrapper`). */
  function ProcessField(t: Ast, underReactive: bool, parentFlag: bool, f: Field): (r: Field)
    requires Typed(t) && f in t.fields
    ensures r.key == f.key
    decreases t, 0
  {
    if Wraps(t, underReactive, f.value) then
      Field(f.key, if Skipped(f.key) then ReactiveCall(f.value) else ReactiveCall(Process(f.value, false)))
    else if Skipped(f.key) then f
    else Field(f.key, Descend(f.value, parentFlag))
  }

  /** `traverse(value, path, parent)` on a property value: an object with a
      type is processed, an array has each typed item processed, and
      anything else is left alone. */
  function Descend(v: Ast, underReactive: bool): Ast
    decreases v, 2
  {
    match v
    case Object(kind, _) => if kind == "" then v else Process(v, underReactive)
    case Array(items) =>
      Array(seq(|items|, i requires 0 <= i < |items| =>
        if Typed(items[i]) then Process(items[i], underReactive) else items[i]))
    case _ => v
  }

  /** Traversing a freshly built wrapper changes nothing but its body, which
      is traversed as the body of an arrow. */
  lemma DescendWrapper(v: Ast, underReactive: bool)
    requires Typed(v)
    ensures Descend(ReactiveCall(v), underReactive) == ReactiveCall(Process(v, false))
  {
    var callee := Identifier("reactive");
    ProcessByFields(callee, true, callee.fields);
    var arrow := Object(Arrow, [
      Field("params", Array([])),
      Field("body", v),
      Field("async", Bool(false)),
      Field("expression", Bool(true))]);
    var arrowAfter := Object(Arrow, [
      Field("params", Array([])),
      Field("body", Process(v, false)),
      Field("async", Bool(false)),
      Field("expression", Bool(true))]);
    assert Descend(Array([]), false) == Array([]);
    ProcessByFields(arrow, true, arrowAfter.fields);
    assert Descend(Array([arrow]), true) == Array([arrowAfter]);
    var call := ReactiveCall(v);
    ProcessByFields(call, underReactive, ReactiveCall(Process(v, false)).fields);
  }

  /** `Process` field by field. */
  lemma ProcessByFields(t: Ast, underReactive: bool, fs: seq<Field>)
    requires Typed(t) && |fs| == |t.fields|
    requires forall i :: 0 <= i < |fs| ==> fs[i] == ProcessField(t, underReactive, IsReactiveWrapper(t), t.fields[i])
    ensures Process(t, underReactive) == Object(t.kind, fs)
  {
  }

  // ---------------------------------------------------------------------
  // The rewrite as the source performs it: in place, arrays from the end

  /** Nesting depth, with room in each container for the wrapper it may
      build; the measure the traversal shrinks. */
  ghost function Height(v: Ast): nat
    decreases v, 1
  {
    match v
    case Object(kind, fields) => (if kind == Container then 4 else 1) + FieldsHeight(v, |fields|)
    case Array(items) => 1 + ItemsHeight(v, |items|)
    case _ => 0
  }

  ghost function FieldsHeight(v: Ast, n: nat): (h: nat)
    requires v.Object? && n <= |v.fields|
    ensures forall i :: 0 <= i < n ==> Height(v.fields[i].value) <= h
    decreases v, 0, n
  {
    if n == 0 then 0
    else
      var rest := FieldsHeight(v, n - 1);
      var last := Height(v.fields[n - 1].value);
      if rest < last then last else rest
  }

  ghost function ItemsHeight(v: Ast, n: nat): (h: nat)
    requires v.Array? && n <= |v.items|
    ensures forall i :: 0 <= i < n ==> Height(v.items[i]) <= h
    decreases v, 0, n
  {
    if n == 0 then 0
    else
      var rest := ItemsHeight(v, n - 1);
      var last := Height(v.items[n - 1]);
      if rest < last then last else rest
  }

  lemma WrapperHeight(v: Ast)
    requires Typed(v)
    ensures Height(ReactiveCall(v)) == Height(v) + 3
  {
    var arrow := Object(Arrow, [
      Field("params", Array([])),
      Field("body", v),
      Field("async", Bool(false)),
      Field("expression", Bool(true))]);
    assert Height(Array([])) == 1;
    assert FieldsHeight(arrow, 1) == 1;
    assert FieldsHeight(arrow, 2) == Height(v);
    assert FieldsHeight(arrow, 4) == Height(v);
    assert Height(arrow) == Height(v) + 1;
    var args := Array([arrow]);
    assert ItemsHeight(args, 1) == Height(arrow);
    assert Height(args) == Height(v) + 2;
    var callee := Identifier("reactive");
    assert FieldsHeight(callee, 1) == 0;
    assert Height(callee) == 1;
    var call := ReactiveCall(v);
    assert FieldsHeight(call, 1) == 1;
    assert FieldsHeight(call, 2) == Height(v) + 2;
  }

  /** A container's property values after the replacing pass: the first
      `n` liftable values are wrapped. */
  function Replaced(t: Ast, underReactive: bool, n: nat): (fs: seq<Field>)
    requires Typed(t) && n <= |t.fields|
    ensures |fs| == |t.fields|
  {
    seq(|t.fields|, i requires 0 <= i < |t.fields| =>
      if i < n && Wraps(t, underReactive, t.fields[i].value)
      then Field(t.fields[i].key, ReactiveCall(t.fields[i].value))
      else t.fields[i])
  }

  /** `traverse` on one node, visited with a parent that is a reactive call
      exactly when `underReactive`. */
  method Traverse(t: Ast, underReactive: bool) returns (r: Ast)
    requires Typed(t)
    ensures r == Process(t, underReactive)
    decreases Height(t), 1
  {
    var fields := t.fields;
    if t.kind == Container {
      fields := ReplaceLiftable(t, underReactive);
    }
    assert fields == Replaced(t, underReactive, |t.fields|);
    var parentFlag := IsReactiveWrapper(Object(t.kind, fields));
    assert parentFlag == IsReactiveWrapper(t);
    fields := TraverseFields(t, underReactive, parentFlag, fields);
    ProcessByFields(t, underReactive, fields);
    r := Object(t.kind, fields);
  }

  /** The container's pass over `Object.keys(node)`: each liftable value not
      already a reactive call, and not under one, is replaced by a wrapper. */
  method ReplaceLiftable(t: Ast, underReactive: bool) returns (fields: seq<Field>)
    requires Typed(t) && t.kind == Container
    ensures fields == Replaced(t, underReactive, |t.fields|)
  {
    fields := t.fields;
    var i := 0;
    while i < |fields|
      invariant 0 <= i <= |t.fields|
      invariant fields == Replaced(t, underReactive, i)
    {
      var value := fields[i].value;
      if value.Object? && value.kind != "" {
        if value.kind == "MemberExpression" || value.kind == "CallExpression" || value.kind == "ConditionalExpression" {
          if !IsReactiveWrapper(value) && !underReactive {
            fields := fields[i := Field(fields[i].key, ReactiveCall(value))];
          }
        }
      }
      i := i + 1;
    }
  }

  /** The pass over `Object.entries(node)`: every property not named
      `parent` or `loc` is traversed with the node as its parent. */
  method TraverseFields(t: Ast, underReactive: bool, parentFlag: bool, replaced: seq<Field>) returns (fields: seq<Field>)
    requires Typed(t) && replaced == Replaced(t, underReactive, |t.fields|)
    requires parentFlag == IsReactiveWrapper(t)
    ensures |fields| == |t.fields|
    ensures forall k :: 0 <= k < |fields| ==> fields[k] == ProcessField(t, underReactive, parentFlag, t.fields[k])
    decreases Height(t), 0
  {
    fields := replaced;
    var j := 0;
    while j < |fields|
      invariant 0 <= j <= |fields| == |t.fields|
      invariant forall k :: 0 <= k < j ==> fields[k] == ProcessField(t, underReactive, parentFlag, t.fields[k])
      invariant forall k :: j <= k < |fields| ==> fields[k] == replaced[k]
    {
      var f := fields[j];
      if !Skipped(f.key) {
        assert Height(t.fields[j].value) <= FieldsHeight(t, |t.fields|);
        if Wraps(t, underReactive, t.fields[j].value) {
          WrapperHeight(t.fields[j].value);
          DescendWrapper(t.fields[j].value, parentFlag);
        }
        var child := TraverseValue(f.value, parentFlag);
        fields := fields[j := Field(f.key, child)];
      }
      j := j + 1;
    }
  }

  /** `traverse` on a property value. */
  method TraverseValue(v: Ast, underReactive: bool) returns (r: Ast)
    ensures r == Descend(v, underReactive)
    decreases Height(v), 2
  {
    match v {
      case Object(kind, _) =>
        if kind == "" {
          r := v;
        } else {
          r := Traverse(v, underReactive);
        }
      case Array(items) =>
        var out := items;
        var i := |items|;
        while i > 0
          invariant 0 <= i <= |items| == |out|
          invariant forall k :: 0 <= k < i ==> out[k] == items[k]
          invariant forall k :: i <= k < |items| ==>
            out[k] == if Typed(items[k]) then Process(items[k], underReactive) else items[k]
        {
          i := i - 1;
          if items[i].Object? && items[i].kind != "" {
            assert Height(items[i]) <= ItemsHeight(v, |items|);
            var item := Traverse(items[i], underReactive);
            out := out[i := item];
          }
        }
        r := Array(out);
      case _ =>
        r := v;
    }
  }

  /** `transformTsx` up to printing: the parser's errors, or the program
      body rewritten. */
  datatype Transformed = Rewritten(body: seq<Ast>) | ParseFailure(errors: seq<string>)

  /** Program body after `traverse(program, [])`: the statements have no
      parent. */
  function RewriteProgram(body: seq<Ast>): seq<Ast>
  {
    Descend(Array(body), false).items
  }

  method TransformTsx(errors: seq<string>, body: seq<Ast>) returns (r: Transformed)
    ensures errors != [] ==> r == ParseFailure(errors)
    ensures errors == [] ==> r == Rewritten(RewriteProgram(body))
  {
    if |errors| > 0 {
      return ParseFailure(errors);
    }
    var program := TraverseValue(Array(body), false);
    r := Rewritten(program.items);
  }

  // ---------------------------------------------------------------------
  // Properties

  /** The rewrite keeps a node's kind and whether it is a reactive call. */
  lemma DescendShape(v: Ast, underReactive: bool)
    ensures Descend(v, underReactive).Object? == v.Object?
    ensures v.Object? ==> Descend(v, underReactive).kind == v.kind
    ensures Descend(v, underReactive).Str? == v.Str?
    ensures v.Str? ==> Descend(v, underReactive) == v
    ensures Wrappable(Descend(v, underReactive)) == Wrappable(v)
    ensures IsReactiveWrapper(Descend(v, underReactive)) == IsReactiveWrapper(v)
    decreases v, 1
  {
    if Typed(v) {
      WrapperKept(v, underReactive);
    }
  }

  lemma WrapperKept(t: Ast, underReactive: bool)
    requires Typed(t)
    ensures IsReactiveWrapper(Process(t, underReactive)) == IsReactiveWrapper(t)
    decreases t, 0
  {
    var p := Process(t, underReactive);
    if t.kind == "CallExpression" {
      SameKeysSameIndex(t.fields, p.fields, "callee");
      var c := KeyIndex(t.fields, "callee");
      if c < |t.fields| {
        var callee := t.fields[c].value;
        assert p.fields[c] == ProcessField(t, underReactive, IsReactiveWrapper(t), t.fields[c]);
        var callee' := p.fields[c].value;
        assert callee' == Descend(callee, IsReactiveWrapper(t));
        if Typed(callee) && callee.kind == "Identifier" {
          assert callee' == Process(callee, IsReactiveWrapper(t));
          NameKept(callee, IsReactiveWrapper(t));
        }
      }
    }
  }

  /** The rewrite keeps an identifier named `reactive`, and names no other
      identifier so. */
  lemma NameKept(callee: Ast, underReactive: bool)
    requires Typed(callee) && callee.kind == "Identifier"
    ensures Lookup(Process(callee, underReactive).fields, "name") == Some(Str("reactive")) <==>
            Lookup(callee.fields, "name") == Some(Str("reactive"))
    decreases callee, 0
  {
    var cp := Process(callee, underReactive);
    SameKeysSameIndex(callee.fields, cp.fields, "name");
    var n := KeyIndex(callee.fields, "name");
    if n < |callee.fields| {
      assert cp.fields[n] == ProcessField(callee, underReactive, IsReactiveWrapper(callee), callee.fields[n]);
      DescendShape(callee.fields[n].value, IsReactiveWrapper(callee));
    }
  }

  /** A container's property after the rewrite: a liftable expression not
      under a reactive call becomes `reactive(() => e)` around the rewritten
      expression; anything else is only rewritten inside. So the value is a
      reactive call afterwards exactly when it was one already or it was
      a member, call or conditional expression not under a reactive call. */
  lemma ContainerRule(t: Ast, underReactive: bool, i: nat)
    requires Typed(t) && t.kind == Container && i < |t.fields| && !Skipped(t.fields[i].key)
    ensures var v := t.fields[i].value;
      var after := Process(t, underReactive).fields[i].value;
      (Wraps(t, underReactive, v) ==> after == ReactiveCall(Process(v, false))) &&
      (!Wraps(t, underReactive, v) ==> after == Descend(v, false)) &&
      (IsReactiveWrapper(after) <==> (Wrappable(v) && !underReactive) || IsReactiveWrapper(v))
  {
    var v := t.fields[i].value;
    assert !IsReactiveWrapper(t);
    assert Process(t, underReactive).fields[i] == ProcessField(t, underReactive, false, t.fields[i]);
    DescendShape(v, false);
  }

  /** Function and arrow expressions in a container are never wrapped. */
  lemma FunctionsNotWrapped(t: Ast, underReactive: bool, i: nat)
    requires Typed(t) && t.kind == Container && i < |t.fields| && !Skipped(t.fields[i].key)
    requires t.fields[i].value.Object? && t.fields[i].value.kind in {Arrow, "FunctionExpression"}
    ensures Process(t, underReactive).fields[i].value == Descend(t.fields[i].value, false)
    ensures !IsReactiveWrapper(Process(t, underReactive).fields[i].value)
  {
    ContainerRule(t, underReactive, i);
  }

  /** A subtree holding no expression container. */
  ghost predicate Plain(v: Ast)
    decreases v
  {
    match v
    case Object(kind, fields) => kind != Container && forall f :: f in fields ==> Plain(f.value)
    case Array(items) => forall x :: x in items ==> Plain(x)
    case _ => true
  }

  /** The rewrite leaves a subtree without containers as it is: identifiers,
      literals, template literals and binary expressions pass through. */
  lemma {:induction false} PlainUnchanged(v: Ast, underReactive: bool)
    requires Plain(v)
    ensures Descend(v, underReactive) == v
    decreases v
  {
    match v {
      case Object(kind, fields) =>
        if kind != "" {
          var flag := IsReactiveWrapper(v);
          forall i | 0 <= i < |fields|
            ensures ProcessField(v, underReactive, flag, fields[i]) == fields[i]
          {
            assert fields[i] in fields;
            PlainUnchanged(fields[i].value, flag);
          }
          assert Process(v, underReactive).fields == fields;
        }
      case Array(items) =>
        forall i | 0 <= i < |items|
          ensures Descend(v, underReactive).items[i] == items[i]
        {
          assert items[i] in items;
          PlainUnchanged(items[i], underReactive);
        }
      case _ =>
    }
  }

  /** Running the rewrite on its own output changes nothing. */
  lemma {:induction false} DescendIdempotent(v: Ast, underReactive: bool)
    ensures Descend(Descend(v, underReactive), underReactive) == Descend(v, underReactive)
    decreases v, 1
  {
    match v {
      case Object(kind, _) =>
        if kind != "" {
          ProcessIdempotent(v, underReactive);
        }
      case Array(items) =>
        var once := Descend(v, underReactive);
        forall i | 0 <= i < |items|
          ensures Descend(once, underReactive).items[i] == once.items[i]
        {
          if Typed(items[i]) {
            ProcessIdempotent(items[i], underReactive);
          }
        }
      case _ =>
    }
  }

  lemma {:induction false} ProcessIdempotent(t: Ast, underReactive: bool)
    requires Typed(t)
    ensures Process(Process(t, underReactive), underReactive) == Process(t, underReactive)
    decreases t, 0
  {
    var p := Process(t, underReactive);
    var flag := IsReactiveWrapper(t);
    WrapperKept(t, underReactive);
    forall i | 0 <= i < |t.fields|
      ensures ProcessField(p, underReactive, flag, p.fields[i]) == p.fields[i]
    {
      var f := t.fields[i];
      var v := f.value;
      assert p.fields[i] == ProcessField(t, underReactive, flag, f);
      if Wraps(t, underReactive, v) {
        if !Skipped(f.key) {
          ProcessIdempotent(v, false);
          DescendWrapper(Process(v, false), flag);
        }
      } else if !Skipped(f.key) {
        DescendShape(v, flag);
        DescendIdempotent(v, flag);
      }
    }
  }

  /** The whole program: transforming the output again gives the same
      output. */
  lemma ProgramIdempotent(body: seq<Ast>)
    ensures RewriteProgram(RewriteProgram(body)) == RewriteProgram(body)
  {
    DescendIdempotent(Array(body), false);
  }

  // ---------------------------------------------------------------------
  // Examples

  function Member(obj: string, prop: string): Ast
  {
    Object("MemberExpression", [Field("object", Identifier(obj)), Field("property", Identifier(prop))])
  }

  function Attribute(name: string, value: Ast): Ast
  {
    Object("JSXAttribute", [Field("name", Object("JSXIdentifier", [Field("name", Str(name))])), Field("value", value)])
  }

  function InContainer(e: Ast): Ast
  {
    Object(Container, [Field("expression", e)])
  }

  /** Rewriting an attribute rewrites its value only. */
  lemma AttributeRewrite(name: string, value: Ast)
    requires Typed(value)
    ensures Descend(Attribute(name, value), false) == Attribute(name, Process(value, false))
  {
    var attr := Attribute(name, value);
    var id := Object("JSXIdentifier", [Field("name", Str(name))]);
    assert Plain(id);
    PlainUnchanged(id, false);
    ProcessByFields(attr, false, Attribute(name, Process(value, false)).fields);
  }

  /** A single-expression container around a plain expression `e`: lifted
      exactly when `e` is a member, call or conditional expression. */
  lemma ContainerExample(e: Ast)
    requires Plain(e) && Typed(e) && !IsReactiveWrapper(e)
    ensures Wrappable(e) ==> Process(InContainer(e), false) == InContainer(ReactiveCall(e))
    ensures !Wrappable(e) ==> Process(InContainer(e), false) == InContainer(e)
  {
    var c := InContainer(e);
    PlainUnchanged(e, false);
    ContainerRule(c, false, 0);
    ProcessByFields(c, false, Process(c, false).fields);
  }

  /** `value={count.value}` is lifted. */
  lemma ValueAttributeLifted()
    ensures Descend(Attribute("value", InContainer(Member("count", "value"))), false)
         == Attribute("value", InContainer(ReactiveCall(Member("count", "value"))))
  {
    var member := Member("count", "value");
    assert Plain(member);
    ContainerExample(member);
    AttributeRewrite("value", InContainer(member));
  }

  /** `onInput={(e) => ...}` is left as it is. */
  lemma HandlerAttributeKept(handler: Ast)
    requires Plain(handler) && handler.Object? && handler.kind == Arrow
    ensures Descend(Attribute("onInput", InContainer(handler)), false) == Attribute("onInput", InContainer(handler))
  {
    ContainerExample(handler);
    AttributeRewrite("onInput", InContainer(handler));
  }

  /** `onClick={f(...)}` is lifted even though its name starts with `on`. */
  lemma CallHandlerLifted(args: seq<Ast>)
    requires forall x :: x in args ==> Plain(x)
    ensures var call := Object("CallExpression", [Field("callee", Identifier("f")), Field("arguments", Array(args))]);
      Descend(Attribute("onClick", InContainer(call)), false) == Attribute("onClick", InContainer(ReactiveCall(call)))
  {
    var call := Object("CallExpression", [Field("callee", Identifier("f")), Field("arguments", Array(args))]);
    assert Plain(Array(args));
    assert Plain(call);
    LookupAt(call.fields, "callee", 0);
    LookupAt(Identifier("f").fields, "name", 0);
    ContainerExample(call);
    AttributeRewrite("onClick", InContainer(call));
  }
}
