/**
 The ancestor list of a jsii struct type, computed from the declared
 `__jsii_struct_bases__` metadata rather than from the host's class hierarchy.

 A struct graph maps each struct type to the bases it declares, in declaration
 order. A type that is not a key of the map declares no bases, as a type without
 the `__jsii_struct_bases__` attribute does.

 `Visit` and `VisitAll` are the reference definition of the traversal: a
 depth-first, pre-order walk that emits a type the first time it is met and
 skips every type already in `seen`.
 */
module StructBasesSpec {

  type StructGraph<T> = map<T, seq<T>>

  /** The declared bases of `s`; `[]` when `s` declares none. */
  function Bases<T>(g: StructGraph<T>, s: T): (r: seq<T>)
    ensures s !in g ==> r == []
    ensures forall i :: 0 <= i < |r| ==> r[i] in Nodes(g)
  {
    if s in g then g[s] else []
  }

  /** Every type the graph mentions, as a declaring type or as a base. */
  function Nodes<T>(g: StructGraph<T>): (r: set<T>)
  {
    g.Keys + set k, i | k in g && 0 <= i < |g[k]| :: g[k][i]
  }

  function Elems<T>(s: seq<T>): (r: set<T>)
  {
    set x | x in s
  }

  predicate NoDuplicates<T(==)>(s: seq<T>)
  {
    forall i, j :: 0 <= i < j < |s| ==> s[i] != s[j]
  }

  /** A non-empty chain of types, each one a declared base of the one before. */
  ghost predicate IsPath<T>(g: StructGraph<T>, p: seq<T>)
  {
    |p| >= 1 && forall i :: 0 <= i < |p| - 1 ==> p[i + 1] in Bases(g, p[i])
  }

  /** `b` is `a` itself or an ancestor of `a` through declared bases. */
  ghost predicate Reachable<T(!new)>(g: StructGraph<T>, a: T, b: T)
  {
    exists p :: IsPath(g, p) && p[0] == a && p[|p| - 1] == b
  }

  /** The types emitted by visiting `s` when the types in `seen` were already met. */
  function Visit<T>(g: StructGraph<T>, s: T, seen: set<T>): (r: seq<T>)
    decreases |Nodes(g) - seen|, 0, 0
    ensures r == [] <==> s in seen
    ensures r != [] ==> r[0] == s
    ensures Elems(r) !! seen
    ensures NoDuplicates(r)
  {
    if s in seen then []
    else if s !in g then [s]
    else
      CardShrinks(Nodes(g), seen, seen + {s}, s);
      var rest := VisitAll(g, g[s], seen + {s});
      [s] + rest
  }

  /** The types emitted by visiting each of `bs` in order, the subtree of one
      base finished before the next base is tried. */
  function VisitAll<T>(g: StructGraph<T>, bs: seq<T>, seen: set<T>): (r: seq<T>)
    decreases |Nodes(g) - seen|, 1, |bs|
    ensures Elems(r) !! seen
    ensures NoDuplicates(r)
  {
    if bs == [] then []
    else
      var first := Visit(g, bs[0], seen);
      CardMono(Nodes(g), seen, seen + Elems(first));
      var rest := VisitAll(g, bs[1..], seen + Elems(first));
      DisjointConcat(first, rest);
      first + rest
  }

  /** The ancestor list of `x`: `x` itself followed by its ancestors, each
      listed once. */
  function StructBases<T>(g: StructGraph<T>, x: T): (r: seq<T>)
    ensures |r| >= 1 && r[0] == x
    ensures NoDuplicates(r)
  {
    Visit(g, x, {})
  }

  // ---------------------------------------------------------------------------
  // Depth-first order, described from the types listed so far rather than by
  // following the traversal down into bases.

  datatype Option<T> = None | Some(value: T)

  /** The index of the first type of `bs` not in `done`; `|bs|` when there is none. */
  function FirstUnmet<T>(bs: seq<T>, done: set<T>): (i: nat)
    ensures i <= |bs|
    ensures forall k :: 0 <= k < i ==> bs[k] in done
    ensures i < |bs| ==> bs[i] !in done
  {
    if bs == [] || bs[0] !in done then 0 else 1 + FirstUnmet(bs[1..], done)
  }

  /** The first type of `bs`, in order, that is not in `done`. */
  function Unmet<T>(bs: seq<T>, done: set<T>): (r: Option<T>)
    ensures r.None? <==> forall k :: 0 <= k < |bs| ==> bs[k] in done
    ensures r.Some? ==> r.value !in done && r.value == bs[FirstUnmet(bs, done)]
  {
    var i := FirstUnmet(bs, done);
    if i < |bs| then Some(bs[i]) else None
  }

  /** The type a depth-first walk lists next, once it has listed `p` and met
      the types in `done`: among the types of `p` that still have an unmet
      declared base, take the latest one, and pick its first unmet base in
      declared order; when no type of `p` has one, pick the first unmet type
      of `roots`, the types the walk was started on. `None` means the walk is
      over: every root and every base of every listed type has been met. */
  function NextPick<T>(g: StructGraph<T>, roots: seq<T>, p: seq<T>, done: set<T>): (r: Option<T>)
    decreases |p|
    ensures r.Some? ==> r.value !in done
  {
    if p == [] then Unmet(roots, done)
    else
      match Unmet(Bases(g, p[|p| - 1]), done)
      case Some(b) => Some(b)
      case None => NextPick(g, roots, p[..|p| - 1], done)
  }

  lemma CardMono<T>(u: set<T>, a: set<T>, b: set<T>)
    requires a <= b
    ensures |u - b| <= |u - a|
  {
    assert u - b <= u - a;
    SubsetCard(u - b, u - a);
  }

  lemma CardShrinks<T>(u: set<T>, a: set<T>, b: set<T>, s: T)
    requires a <= b && s in u && s in b && s !in a
    ensures |u - b| < |u - a|
  {
    assert u - b <= (u - a) - {s};
    SubsetCard(u - b, (u - a) - {s});
  }

  lemma SubsetCard<T>(a: set<T>, b: set<T>)
    requires a <= b
    ensures |a| <= |b|
  {
    assert b == a + (b - a);
  }

  lemma DisjointConcat<T>(a: seq<T>, b: seq<T>)
    requires NoDuplicates(a) && NoDuplicates(b) && Elems(a) !! Elems(b)
    ensures NoDuplicates(a + b)
  {
    forall i, j | 0 <= i < j < |a + b|
      ensures (a + b)[i] != (a + b)[j]
    {
      if j >= |a| && i < |a| {
        assert (a + b)[i] in Elems(a);
        assert (a + b)[j] == b[j - |a|] && b[j - |a|] in Elems(b);
      }
    }
  }
}
