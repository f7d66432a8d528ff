/** Value-level helpers shared by the runtime modules: an optional value and
    the insertion-ordered, duplicate-free sequence that stands for a
    JavaScript `Set`. */
module Common {

  /** `undefined` or a value. */
  datatype Option<+T> = None | Some(value: T)

  /** No element occurs twice: the shape of a JavaScript `Set` kept as the
      sequence of its members in insertion order. */
  predicate Distinct<T(==)>(s: seq<T>)
  {
    forall i, j :: 0 <= i < j < |s| ==> s[i] != s[j]
  }

  /** `Set.prototype.add`: a member already present keeps its place, a new
      one goes last. */
  function SetAdd<T(==,!new)>(s: seq<T>, x: T): (r: seq<T>)
    ensures x in r
    ensures forall y :: y in r <==> y in s || y == x
    ensures s <= r && |r| <= |s| + 1
    ensures x in s ==> r == s
    ensures Distinct(s) ==> Distinct(r)
  {
    if x in s then s else s + [x]
  }

  /** `Set.prototype.delete`: removes `x` and keeps the order of the rest. */
  function SetDelete<T(==,!new)>(s: seq<T>, x: T): (r: seq<T>)
    ensures x !in r
    ensures forall y :: y != x ==> (y in r <==> y in s)
    ensures x !in s ==> r == s
    ensures Distinct(s) ==> Distinct(r) && (x in s ==> |r| == |s| - 1)
  {
    if s == [] then []
    else if s[0] == x then SetDelete(s[1..], x)
    else
      var rest := SetDelete(s[1..], x);
      assert Distinct(s) ==> s[0] !in s[1..] && s[0] !in rest;
      [s[0]] + rest
  }

  /** `xs.forEach(x => set.add(x))`: adds every element of `xs` in order. */
  function SetAddAll<T(==,!new)>(s: seq<T>, xs: seq<T>): (r: seq<T>)
    ensures forall y :: y in r <==> y in s || y in xs
    ensures s <= r
    ensures Distinct(s) ==> Distinct(r)
    decreases |xs|
  {
    if xs == [] then s
    else SetAdd(SetAddAll(s, xs[..|xs| - 1]), xs[|xs| - 1])
  }
}
