/**
 `find_struct_bases` of packages/@jsii/python-runtime/tests/test_python.py, in
 its own imperative form: a list `ret` and a set `seen` shared by a recursive
 `recurse`, which appends a type the first time it meets it and then recurses
 into each of its declared bases in order.

 The shared list and set are the fields of a `BaseCollector`. `Recurse` is
 proved against `Visit`, so everything `StructBasesProps` proves about `Visit`
 holds of the list `FindStructBases` returns.
 */
module StructBaseSearch {
  import opened StructBasesSpec
  import opened StructBasesProps

  /** The state the closure `recurse` works on. */
  class BaseCollector<T(==)> {
    const graph: StructGraph<T>
    var ret: seq<T>
    var seen: set<T>

    /** `ret` lists each type once, and `seen` holds exactly the types in `ret`. */
    ghost predicate Valid()
      reads this
    {
      NoDuplicates(ret) && seen == Elems(ret)
    }

    /** An empty list and an empty set, over the declared bases `g`. */
    constructor (g: StructGraph<T>)
      ensures graph == g && ret == [] && seen == {}
      ensures Valid()
    {
      graph := g;
      ret := [];
      seen := {};
    }

    /** Visit `s`: emit it unless it was met already, then visit each of its
        declared bases in order. A collector that lists each type once, with
        `seen` holding exactly the listed types, stays so. */
    method Recurse(s: T)
      modifies this
      decreases |Nodes(graph) - seen|
      ensures ret == old(ret) + Visit(graph, s, old(seen))
      ensures seen == old(seen) + Elems(Visit(graph, s, old(seen)))
      ensures old(Valid()) ==> Valid()
    {
      ghost var valid, ret0, seenAtStart := Valid(), ret, seen;
      if s !in seen {
        ret := ret + [s];
        seen := seen + {s};
        var bases := Bases(graph, s);
        ghost var seen0, emitted0 := seen, ret;
        assert seen0 == seenAtStart + {s} && emitted0 == ret0 + [s];
        for i := 0 to |bases|
          invariant ret == emitted0 + VisitAll(graph, bases[..i], seen0)
          invariant seen == seen0 + Elems(VisitAll(graph, bases[..i], seen0))
        {
          assert s in graph && s in Nodes(graph);
          CardShrinks(Nodes(graph), seenAtStart, seen, s);
          ghost var retBefore, seenBefore := ret, seen;
          Recurse(bases[i]);
          LoopStep(graph, bases, i, seen0, emitted0, retBefore, seenBefore, ret, seen);
        }
        VisitEmits(graph, s, seenAtStart, ret0, bases, ret, seen);
      }
      if valid {
        VisitKeepsCollectorValid(graph, s, ret0, seenAtStart);
      }
    }
  }

  /** One turn of the loop in `Recurse`: recursing into base `i` extends the
      types emitted for the first `i` bases to those for the first `i + 1`. */
  lemma LoopStep<T>(g: StructGraph<T>, bases: seq<T>, i: nat, seen0: set<T>, emitted0: seq<T>,
                    retBefore: seq<T>, seenBefore: set<T>, ret: seq<T>, seen: set<T>)
    requires i < |bases|
    requires retBefore == emitted0 + VisitAll(g, bases[..i], seen0)
    requires seenBefore == seen0 + Elems(VisitAll(g, bases[..i], seen0))
    requires ret == retBefore + Visit(g, bases[i], seenBefore)
    requires seen == seenBefore + Elems(Visit(g, bases[i], seenBefore))
    ensures ret == emitted0 + VisitAll(g, bases[..i + 1], seen0)
    ensures seen == seen0 + Elems(VisitAll(g, bases[..i + 1], seen0))
  {
    VisitAllPrefixStep(g, bases, i, seen0, seenBefore);
    AppendAssoc(emitted0, VisitAll(g, bases[..i], seen0), Visit(g, bases[i], seenBefore));
  }

  /** After the loop in `Recurse`: what was appended is the visit of `s`. */
  lemma VisitEmits<T>(g: StructGraph<T>, s: T, seenAtStart: set<T>, ret0: seq<T>, bases: seq<T>,
                      ret: seq<T>, seen: set<T>)
    requires s !in seenAtStart && bases == Bases(g, s)
    requires ret == ret0 + [s] + VisitAll(g, bases[..|bases|], seenAtStart + {s})
    requires seen == seenAtStart + {s} + Elems(VisitAll(g, bases[..|bases|], seenAtStart + {s}))
    ensures ret == ret0 + Visit(g, s, seenAtStart)
    ensures seen == seenAtStart + Elems(Visit(g, s, seenAtStart))
  {
    assert bases[..|bases|] == bases;
    VisitUnfold(g, s, seenAtStart);
    AppendAssoc(ret0, [s], VisitAll(g, bases, seenAtStart + {s}));
    ElemsConcat([s], VisitAll(g, bases, seenAtStart + {s}));
  }

  /** The ancestor list of `x` as `find_struct_bases` builds it: `x` first,
      each type once, exactly the types reachable from `x` through declared
      bases, in depth-first order with bases tried in declared order. */
  method FindStructBases<T(!new)>(g: StructGraph<T>, x: T) returns (ret: seq<T>)
    ensures ret == StructBases(g, x)
    ensures |ret| >= 1 && ret[0] == x
    ensures NoDuplicates(ret)
    ensures forall y :: y in ret <==> Reachable(g, x, y)
    ensures forall j :: 0 <= j < |ret| ==> NextPick(g, [x], ret[..j], Elems(ret[..j])) == Some(ret[j])
    ensures NextPick(g, [x], ret, Elems(ret)) == None
  {
    var collector := new BaseCollector(g);
    collector.Recurse(x);
    ret := collector.ret;
    StructBasesExact(g, x);
    StructBasesDepthFirst(g, x);
  }
}
