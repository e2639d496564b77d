/**
 * The JavaScript array operations the cards use on their state arrays:
 * the copy `[...a]`, the index assignment `b[i] = v` (which grows the array,
 * leaving holes, when `i` is past the end), an array of `n` equal values
 * (`[v, v, v]`, `xs.map(() => v)`) and `every(Boolean)`.
 */
module JsArray {

  /** One element of a JavaScript array: a hole (an index never assigned),
      an explicit `undefined` (what a copy reads out of a hole), or a value. */
  datatype Slot<T> = Hole | Undefined | Val(value: T)

  /** `n` elements all equal to `v`. */
  function Filled<T>(n: nat, v: T): (a: seq<Slot<T>>)
    ensures |a| == n
    ensures forall j :: 0 <= j < n ==> a[j] == Val(v)
  {
    seq(n, _ => Val(v))
  }

  predicate HoleFree<T>(a: seq<Slot<T>>) {
    forall j :: 0 <= j < |a| ==> a[j] != Hole
  }

  /** `[...a]`: the same elements, with every hole read out as `undefined`. */
  function Spread<T>(a: seq<Slot<T>>): (r: seq<Slot<T>>)
    ensures |r| == |a|
    ensures HoleFree(r)
    ensures forall j :: 0 <= j < |a| && a[j] != Hole ==> r[j] == a[j]
    ensures forall j :: 0 <= j < |a| && a[j] == Hole ==> r[j] == Undefined
  {
    seq(|a|, j requires 0 <= j < |a| => if a[j] == Hole then Undefined else a[j])
  }

  /** Copying an array without holes gives an equal array. */
  lemma SpreadHoleFree<T>(a: seq<Slot<T>>)
    requires HoleFree(a)
    ensures Spread(a) == a
  {
  }

  /** `b[i] = v` on an array `b` equal to `a`: the element at `i` becomes
      `v`; every other element is kept; when `i` is past the end the array
      grows to `i + 1` elements and the new indices before `i` are holes. */
  function Assign<T>(a: seq<Slot<T>>, i: nat, v: T): (r: seq<Slot<T>>)
    ensures |r| == if i < |a| then |a| else i + 1
    ensures r[i] == Val(v)
    ensures forall j :: 0 <= j < |a| && j != i ==> r[j] == a[j]
    ensures forall j :: |a| <= j < i ==> r[j] == Hole
  {
    if i < |a| then a[i := Val(v)] else a + seq(i - |a|, _ => Hole) + [Val(v)]
  }

  /** An assignment at an index no further than one past the end leaves no
      hole behind. */
  lemma AssignKeepsHoleFree<T>(a: seq<Slot<T>>, i: nat, v: T)
    requires HoleFree(a) && i <= |a|
    ensures HoleFree(Assign(a, i, v))
  {
  }

  /** What `Boolean(x)` makes of an element read by `every`. */
  predicate Truthy(s: Slot<bool>) {
    s == Val(true)
  }

  /** `a.every(Boolean)`: every element that is not a hole is `true`
      (`every` skips holes; `undefined` is falsy). */
  function Every(a: seq<Slot<bool>>): (b: bool)
    ensures b <==> forall j :: 0 <= j < |a| ==> a[j] == Hole || Truthy(a[j])
  {
    if a == [] then true else (a[0] == Hole || Truthy(a[0])) && Every(a[1..])
  }

  /** An array of `n` copies of one boolean passes `every(Boolean)` exactly
      when it is empty or the boolean is `true`. */
  lemma EveryFilled(n: nat, v: bool)
    ensures Every(Filled(n, v)) <==> n == 0 || v
  {
    if n > 0 {
      assert Filled(n, v)[0] == Val(v);
    }
  }
}
