/**
 What the ancestor traversal promises: the start type comes first, no type is
 emitted twice, the result is exactly the set of types reachable through
 declared bases, every later type is a declared base of an earlier one, and
 the list is the depth-first order `NextPick` describes, which no other list
 follows.

 Each property is proved for `Visit` and `VisitAll` together, by induction
 along the traversal; a small lemma over plain sequences does the step for
 `[s] + rest` (a type and its bases' subtrees) and for `first + rest` (one
 base's subtree and its siblings').
 */
module StructBasesProps {
  import opened StructBasesSpec

  /** Visiting the bases `bs + [b]` is visiting `bs`, then `b` with everything
      emitted so far counted as seen: the order in which a `for` loop over the
      bases produces the types. */
  lemma {:induction false} VisitAllSnoc<T>(g: StructGraph<T>, bs: seq<T>, b: T, seen: set<T>)
    decreases |bs|
    ensures VisitAll(g, bs + [b], seen)
         == VisitAll(g, bs, seen) + Visit(g, b, seen + Elems(VisitAll(g, bs, seen)))
  {
    if bs == [] {
      assert [b][1..] == [];
      assert seen + Elems(VisitAll(g, bs, seen)) == seen;
    } else {
      var b0, tl := bs[0], bs[1..];
      assert bs == [b0] + tl;
      VisitAllSnoc(g, tl, b, seen + Elems(Visit(g, b0, seen)));
      VisitAllSnocStep(g, b0, tl, b, seen);
    }
  }

  /** The inductive step of `VisitAllSnoc`: the claim for `[b0] + tl` follows
      from the claim for `tl` once the subtree of `b0` is emitted. */
  lemma VisitAllSnocStep<T>(g: StructGraph<T>, b0: T, tl: seq<T>, b: T, seen: set<T>)
    requires var seen1 := seen + Elems(Visit(g, b0, seen));
      VisitAll(g, tl + [b], seen1)
      == VisitAll(g, tl, seen1) + Visit(g, b, seen1 + Elems(VisitAll(g, tl, seen1)))
    ensures VisitAll(g, [b0] + tl + [b], seen)
         == VisitAll(g, [b0] + tl, seen) + Visit(g, b, seen + Elems(VisitAll(g, [b0] + tl, seen)))
  {
    var first := Visit(g, b0, seen);
    var seen1 := seen + Elems(first);
    var mid := VisitAll(g, tl, seen1);
    var last := Visit(g, b, seen1 + Elems(mid));
    assert [b0] + tl + [b] == [b0] + (tl + [b]);
    VisitAllCons(g, b0, tl + [b], seen);
    VisitAllCons(g, b0, tl, seen);
    ElemsConcat(first, mid);
    var all := VisitAll(g, [b0] + tl, seen);
    assert seen + Elems(all) == seen1 + Elems(mid);
    ConcatAssoc(VisitAll(g, [b0] + tl + [b], seen), first, VisitAll(g, tl + [b], seen1), mid, last, all);
  }

  /** Visiting `[b0] + rest` finishes the subtree of `b0` before trying `rest`. */
  lemma VisitAllCons<T>(g: StructGraph<T>, b0: T, rest: seq<T>, seen: set<T>)
    ensures VisitAll(g, [b0] + rest, seen)
         == Visit(g, b0, seen) + VisitAll(g, rest, seen + Elems(Visit(g, b0, seen)))
  {
    assert ([b0] + rest)[0] == b0;
    assert ([b0] + rest)[1..] == rest;
  }

  /** One more turn of a loop over `bases`: visiting the first `i + 1` bases is
      visiting the first `i`, then base `i` with what they emitted counted as
      seen. */
  lemma VisitAllPrefixStep<T>(g: StructGraph<T>, bases: seq<T>, i: nat, seen0: set<T>, seen: set<T>)
    requires i < |bases|
    requires seen == seen0 + Elems(VisitAll(g, bases[..i], seen0))
    ensures VisitAll(g, bases[..i + 1], seen0) == VisitAll(g, bases[..i], seen0) + Visit(g, bases[i], seen)
    ensures seen + Elems(Visit(g, bases[i], seen)) == seen0 + Elems(VisitAll(g, bases[..i + 1], seen0))
  {
    assert bases[..i + 1] == bases[..i] + [bases[i]];
    VisitAllSnoc(g, bases[..i], bases[i], seen0);
    ElemsConcat(VisitAll(g, bases[..i], seen0), Visit(g, bases[i], seen));
  }

  /** Visiting a type not met yet emits it, then visits its declared bases. */
  lemma VisitUnfold<T>(g: StructGraph<T>, s: T, seen: set<T>)
    requires s !in seen
    ensures Visit(g, s, seen) == [s] + VisitAll(g, Bases(g, s), seen + {s})
  {
  }

  /** Appending what a visit emits to a list without duplicates whose types
      are exactly `seen` gives again a list without duplicates, whose types are
      exactly `seen` plus the emitted ones. */
  lemma VisitKeepsCollectorValid<T>(g: StructGraph<T>, s: T, ret: seq<T>, seen: set<T>)
    requires NoDuplicates(ret) && seen == Elems(ret)
    ensures NoDuplicates(ret + Visit(g, s, seen))
    ensures seen + Elems(Visit(g, s, seen)) == Elems(ret + Visit(g, s, seen))
  {
    DisjointConcat(ret, Visit(g, s, seen));
    ElemsConcat(ret, Visit(g, s, seen));
  }

  lemma AppendAssoc<T>(a: seq<T>, b: seq<T>, c: seq<T>)
    ensures (a + b) + c == a + (b + c)
  {
  }

  lemma ElemsConcat<T>(a: seq<T>, b: seq<T>)
    ensures Elems(a + b) == Elems(a) + Elems(b)
  {
  }

  lemma ConcatAssoc<T>(whole: seq<T>, first: seq<T>, tail: seq<T>, mid: seq<T>, last: seq<T>, front: seq<T>)
    requires whole == first + tail && tail == mid + last
    requires front == first + mid
    ensures whole == front + last
  {
  }

  // ---------------------------------------------------------------------------
  // Closure: a type is never emitted without its bases being met.

  /** Every declared base of every type in `r` is in `met`. */
  ghost predicate BasesMet<T>(g: StructGraph<T>, r: seq<T>, met: set<T>)
  {
    forall y, b :: y in r && b in Bases(g, y) ==> b in met
  }

  lemma BasesMetCons<T>(g: StructGraph<T>, s: T, rest: seq<T>, seen: set<T>)
    requires forall i :: 0 <= i < |Bases(g, s)| ==> Bases(g, s)[i] in seen + {s} + Elems(rest)
    requires BasesMet(g, rest, seen + {s} + Elems(rest))
    ensures BasesMet(g, [s] + rest, seen + Elems([s] + rest))
  {
    assert seen + Elems([s] + rest) == seen + {s} + Elems(rest);
  }

  lemma BasesMetConcat<T>(g: StructGraph<T>, bs: seq<T>, first: seq<T>, rest: seq<T>, seen: set<T>)
    requires bs != []
    requires bs[0] in seen + Elems(first)
    requires BasesMet(g, first, seen + Elems(first))
    requires forall i :: 0 <= i < |bs| - 1 ==> bs[1..][i] in seen + Elems(first) + Elems(rest)
    requires BasesMet(g, rest, seen + Elems(first) + Elems(rest))
    ensures forall i :: 0 <= i < |bs| ==> bs[i] in seen + Elems(first + rest)
    ensures BasesMet(g, first + rest, seen + Elems(first + rest))
  {
    assert seen + Elems(first + rest) == seen + Elems(first) + Elems(rest);
    forall i | 0 < i < |bs|
      ensures bs[i] in seen + Elems(first + rest)
    {
      assert bs[i] == bs[1..][i - 1];
    }
  }

  /** After visiting `s`, `s` is met and so is every declared base of every
      type the visit emitted. */
  lemma {:induction false} VisitClosed<T>(g: StructGraph<T>, s: T, seen: set<T>)
    decreases |Nodes(g) - seen|, 0, 0
    ensures s in seen + Elems(Visit(g, s, seen))
    ensures BasesMet(g, Visit(g, s, seen), seen + Elems(Visit(g, s, seen)))
  {
    if s !in seen && s in g {
      CardShrinks(Nodes(g), seen, seen + {s}, s);
      VisitAllClosed(g, g[s], seen + {s});
      BasesMetCons(g, s, VisitAll(g, g[s], seen + {s}), seen);
    }
  }

  /** After visiting the bases `bs`, each of them is met and so is every
      declared base of every type the visit emitted. */
  lemma {:induction false} VisitAllClosed<T>(g: StructGraph<T>, bs: seq<T>, seen: set<T>)
    decreases |Nodes(g) - seen|, 1, |bs|
    ensures forall i :: 0 <= i < |bs| ==> bs[i] in seen + Elems(VisitAll(g, bs, seen))
    ensures BasesMet(g, VisitAll(g, bs, seen), seen + Elems(VisitAll(g, bs, seen)))
  {
    if bs != [] {
      var first := Visit(g, bs[0], seen);
      var seen1 := seen + Elems(first);
      CardMono(Nodes(g), seen, seen1);
      VisitClosed(g, bs[0], seen);
      VisitAllClosed(g, bs[1..], seen1);
      BasesMetConcat(g, bs, first, VisitAll(g, bs[1..], seen1), seen);
    }
  }

  // ---------------------------------------------------------------------------
  // Soundness: only ancestors are emitted.

  lemma ReachableSelf<T(!new)>(g: StructGraph<T>, s: T)
    ensures Reachable(g, s, s)
  {
    assert IsPath(g, [s]);
  }

  lemma ReachableStep<T(!new)>(g: StructGraph<T>, s: T, b: T, y: T)
    requires b in Bases(g, s) && Reachable(g, b, y)
    ensures Reachable(g, s, y)
  {
    var p :| IsPath(g, p) && p[0] == b && p[|p| - 1] == y;
    var q := [s] + p;
    assert forall i :: 0 < i < |q| ==> q[i] == p[i - 1];
    assert IsPath(g, q);
  }

  /** Every type in `r` is reachable from some type of `bs`. */
  ghost predicate ReachableFromSome<T(!new)>(g: StructGraph<T>, bs: seq<T>, r: seq<T>)
  {
    forall y :: y in r ==> exists i :: 0 <= i < |bs| && Reachable(g, bs[i], y)
  }

  lemma ReachableFromSomeCons<T(!new)>(g: StructGraph<T>, s: T, rest: seq<T>)
    requires ReachableFromSome(g, Bases(g, s), rest)
    ensures ReachableFromSome(g, [s], [s] + rest)
  {
    forall y | y in [s] + rest
      ensures exists i :: 0 <= i < |[s]| && Reachable(g, [s][i], y)
    {
      if y == s {
        ReachableSelf(g, s);
      } else {
        var i :| 0 <= i < |Bases(g, s)| && Reachable(g, Bases(g, s)[i], y);
        ReachableStep(g, s, Bases(g, s)[i], y);
      }
      assert Reachable(g, [s][0], y);
    }
  }

  lemma ReachableFromSomeConcat<T(!new)>(g: StructGraph<T>, bs: seq<T>, first: seq<T>, rest: seq<T>)
    requires bs != []
    requires ReachableFromSome(g, [bs[0]], first)
    requires ReachableFromSome(g, bs[1..], rest)
    ensures ReachableFromSome(g, bs, first + rest)
  {
  }

  /** Every type emitted by visiting `s` is `s` or an ancestor of `s`. */
  lemma {:induction false} VisitSound<T(!new)>(g: StructGraph<T>, s: T, seen: set<T>)
    decreases |Nodes(g) - seen|, 0, 0
    ensures ReachableFromSome(g, [s], Visit(g, s, seen))
  {
    if s !in seen && s in g {
      CardShrinks(Nodes(g), seen, seen + {s}, s);
      VisitAllSound(g, g[s], seen + {s});
      ReachableFromSomeCons(g, s, VisitAll(g, g[s], seen + {s}));
    } else if s !in seen {
      ReachableFromSomeCons(g, s, []);
    }
  }

  /** Every type emitted by visiting the bases `bs` is one of them or an
      ancestor of one of them. */
  lemma {:induction false} VisitAllSound<T(!new)>(g: StructGraph<T>, bs: seq<T>, seen: set<T>)
    decreases |Nodes(g) - seen|, 1, |bs|
    ensures ReachableFromSome(g, bs, VisitAll(g, bs, seen))
  {
    if bs != [] {
      var first := Visit(g, bs[0], seen);
      var seen1 := seen + Elems(first);
      CardMono(Nodes(g), seen, seen1);
      VisitSound(g, bs[0], seen);
      VisitAllSound(g, bs[1..], seen1);
      ReachableFromSomeConcat(g, bs, first, VisitAll(g, bs[1..], seen1));
    }
  }

  // ---------------------------------------------------------------------------
  // Completeness and the whole promise of the ancestor list.

  /** A path that starts at a type of `r`, where `r` holds every declared base
      of its own types, never leaves `r`. */
  lemma {:induction false} PathStaysInClosed<T>(g: StructGraph<T>, r: seq<T>, p: seq<T>)
    requires IsPath(g, p) && p[0] in r
    requires BasesMet(g, r, Elems(r))
    decreases |p|
    ensures p[|p| - 1] in r
  {
    if |p| > 1 {
      var q := p[..|p| - 1];
      assert IsPath(g, q);
      PathStaysInClosed(g, r, q);
      assert q[|q| - 1] == p[|p| - 2];
      assert p[|p| - 1] in Bases(g, p[|p| - 2]);
      assert p[|p| - 1] in Elems(r);
    }
  }

  /** The ancestor list starts with `x`, holds no type twice and holds exactly
      the types reachable from `x` through declared bases, whatever diamonds or
      cycles the declared graph has. */
  lemma StructBasesExact<T(!new)>(g: StructGraph<T>, x: T)
    ensures |StructBases(g, x)| >= 1 && StructBases(g, x)[0] == x
    ensures NoDuplicates(StructBases(g, x))
    ensures forall y :: y in StructBases(g, x) <==> Reachable(g, x, y)
  {
    var r := StructBases(g, x);
    VisitSound(g, x, {});
    VisitClosed(g, x, {});
    assert {} + Elems(r) == Elems(r);
    forall y | Reachable(g, x, y)
      ensures y in r
    {
      var p :| IsPath(g, p) && p[0] == x && p[|p| - 1] == y;
      PathStaysInClosed(g, r, p);
    }
    forall y | y in r
      ensures Reachable(g, x, y)
    {
      var i :| 0 <= i < 1 && Reachable(g, [x][i], y);
    }
  }

  // ---------------------------------------------------------------------------
  // Discovery: a type is emitted only after a type that declares it as a base.

  /** The type at index `j` of `r` is one of `bs` or a declared base of a
      type before it in `r`. */
  ghost predicate DiscoveredAt<T>(g: StructGraph<T>, bs: seq<T>, r: seq<T>, j: int)
    requires 0 <= j < |r|
  {
    r[j] in bs || exists i :: 0 <= i < j && r[j] in Bases(g, r[i])
  }

  ghost predicate DiscoveredFrom<T>(g: StructGraph<T>, bs: seq<T>, r: seq<T>)
  {
    forall j :: 0 <= j < |r| ==> DiscoveredAt(g, bs, r, j)
  }

  lemma DiscoveredCons<T>(g: StructGraph<T>, s: T, rest: seq<T>)
    requires DiscoveredFrom(g, Bases(g, s), rest)
    ensures DiscoveredFrom(g, [s], [s] + rest)
  {
    var r := [s] + rest;
    forall j | 0 < j < |r|
      ensures DiscoveredAt(g, [s], r, j)
    {
      var k := j - 1;
      assert r[j] == rest[k];
      assert DiscoveredAt(g, Bases(g, s), rest, k);
      if rest[k] in Bases(g, s) {
        assert r[j] in Bases(g, r[0]);
      } else {
        var i :| 0 <= i < k && rest[k] in Bases(g, rest[i]);
        assert r[j] in Bases(g, r[i + 1]);
      }
    }
    assert DiscoveredAt(g, [s], r, 0);
  }

  lemma DiscoveredConcat<T>(g: StructGraph<T>, bs: seq<T>, first: seq<T>, rest: seq<T>)
    requires bs != []
    requires DiscoveredFrom(g, [bs[0]], first)
    requires DiscoveredFrom(g, bs[1..], rest)
    ensures DiscoveredFrom(g, bs, first + rest)
  {
    var r := first + rest;
    forall j | 0 <= j < |r|
      ensures DiscoveredAt(g, bs, r, j)
    {
      if j < |first| {
        assert r[j] == first[j];
        assert DiscoveredAt(g, [bs[0]], first, j);
        if first[j] !in [bs[0]] {
          var i :| 0 <= i < j && first[j] in Bases(g, first[i]);
          assert r[j] in Bases(g, r[i]);
        }
      } else {
        var k := j - |first|;
        assert r[j] == rest[k];
        assert DiscoveredAt(g, bs[1..], rest, k);
        if rest[k] !in bs[1..] {
          var i :| 0 <= i < k && rest[k] in Bases(g, rest[i]);
          assert r[j] in Bases(g, r[i + |first|]);
        }
      }
    }
  }

  /** Visiting `s` emits `s` first and each later type after some type
      emitted earlier that declares it as a base. */
  lemma {:induction false} VisitDiscovered<T>(g: StructGraph<T>, s: T, seen: set<T>)
    decreases |Nodes(g) - seen|, 0, 0
    ensures DiscoveredFrom(g, [s], Visit(g, s, seen))
  {
    if s !in seen && s in g {
      CardShrinks(Nodes(g), seen, seen + {s}, s);
      VisitAllDiscovered(g, g[s], seen + {s});
      DiscoveredCons(g, s, VisitAll(g, g[s], seen + {s}));
    }
  }

  lemma {:induction false} VisitAllDiscovered<T>(g: StructGraph<T>, bs: seq<T>, seen: set<T>)
    decreases |Nodes(g) - seen|, 1, |bs|
    ensures DiscoveredFrom(g, bs, VisitAll(g, bs, seen))
  {
    if bs != [] {
      var first := Visit(g, bs[0], seen);
      var seen1 := seen + Elems(first);
      CardMono(Nodes(g), seen, seen1);
      VisitDiscovered(g, bs[0], seen);
      VisitAllDiscovered(g, bs[1..], seen1);
      DiscoveredConcat(g, bs, first, VisitAll(g, bs[1..], seen1));
    }
  }

  /** In the ancestor list, every type after the start is a declared base of a
      type listed before it. */
  lemma StructBasesDiscovered<T>(g: StructGraph<T>, x: T)
    ensures forall j :: 0 < j < |StructBases(g, x)| ==>
      exists i :: 0 <= i < j && StructBases(g, x)[j] in Bases(g, StructBases(g, x)[i])
  {
    var r := StructBases(g, x);
    VisitDiscovered(g, x, {});
    forall j | 0 < j < |r|
      ensures exists i :: 0 <= i < j && r[j] in Bases(g, r[i])
    {
      assert r[j] != x;
      assert DiscoveredAt(g, [x], r, j);
    }
  }

  // ---------------------------------------------------------------------------
  // Depth-first order: at each index the list holds what `NextPick` chooses.

  /** Each type of `r` is the one `NextPick` chooses after the types before
      it, and `NextPick` has nothing left once all of `r` is listed. */
  ghost predicate DepthFirst<T>(g: StructGraph<T>, roots: seq<T>, seen: set<T>, r: seq<T>)
  {
    FollowsPicks(g, roots, seen, r) && NextPick(g, roots, r, seen + Elems(r)) == None
  }

  /** The type at index `j` of `r` is the one `NextPick` chooses after the
      types before it. */
  ghost predicate PicksAt<T>(g: StructGraph<T>, roots: seq<T>, seen: set<T>, r: seq<T>, j: int)
    requires 0 <= j < |r|
  {
    NextPick(g, roots, r[..j], seen + Elems(r[..j])) == Some(r[j])
  }

  ghost predicate FollowsPicks<T>(g: StructGraph<T>, roots: seq<T>, seen: set<T>, r: seq<T>)
  {
    forall j :: 0 <= j < |r| ==> PicksAt(g, roots, seen, r, j)
  }

  /** Once the root `s` is met, what follows `s` is picked as if the walk
      had been started on the bases of `s`. */
  lemma {:induction false} NextPickAfterRoot<T>(g: StructGraph<T>, s: T, q: seq<T>, done: set<T>)
    requires s in done
    decreases |q|
    ensures NextPick(g, [s], [s] + q, done) == NextPick(g, Bases(g, s), q, done)
  {
    if q == [] {
      assert [s] + q == [s] && [s][..0] == [];
    } else {
      var q' := q[..|q| - 1];
      assert ([s] + q)[..|[s] + q| - 1] == [s] + q';
      NextPickAfterRoot(g, s, q', done);
    }
  }

  /** A listed prefix whose bases are all met never supplies the next pick. */
  lemma {:induction false} NextPickPastClosed<T>(g: StructGraph<T>, roots: seq<T>, p: seq<T>, done: set<T>)
    requires BasesMet(g, p, done)
    decreases |p|
    ensures NextPick(g, roots, p, done) == Unmet(roots, done)
  {
    if p != [] {
      var p' := p[..|p| - 1];
      assert p[|p| - 1] in p;
      assert BasesMet(g, p', done) by {
        forall y | y in p' ensures y in p {
          var i :| 0 <= i < |p'| && p'[i] == y;
          assert p[i] == y;
        }
      }
      NextPickPastClosed(g, roots, p', done);
    }
  }

  /** After the finished subtree `first` of the met root `b0`, the pick is
      made as if the walk had been started on the remaining roots `tl`. */
  lemma {:induction false} NextPickAfterClosed<T>(g: StructGraph<T>, b0: T, tl: seq<T>, first: seq<T>, q: seq<T>, done: set<T>)
    requires b0 in done && BasesMet(g, first, done)
    decreases |q|
    ensures NextPick(g, [b0] + tl, first + q, done) == NextPick(g, tl, q, done)
  {
    if q == [] {
      assert first + q == first;
      NextPickPastClosed(g, [b0] + tl, first, done);
      assert ([b0] + tl)[1..] == tl;
    } else {
      var q' := q[..|q| - 1];
      assert (first + q)[..|first + q| - 1] == first + q';
      NextPickAfterClosed(g, b0, tl, first, q', done);
    }
  }

  /** A pick made inside the subtree of the first root is not affected by
      the roots after it. */
  lemma {:induction false} NextPickWiden<T>(g: StructGraph<T>, b0: T, tl: seq<T>, p: seq<T>, done: set<T>)
    requires NextPick(g, [b0], p, done).Some?
    decreases |p|
    ensures NextPick(g, [b0] + tl, p, done) == NextPick(g, [b0], p, done)
  {
    if p == [] {
      assert ([b0] + tl)[0] == b0;
    } else if Unmet(Bases(g, p[|p| - 1]), done).None? {
      NextPickWiden(g, b0, tl, p[..|p| - 1], done);
    }
  }

  /** The walk is over exactly when every root and every declared base of
      every listed type has been met. */
  lemma {:induction false} NextPickNone<T>(g: StructGraph<T>, roots: seq<T>, p: seq<T>, done: set<T>)
    decreases |p|
    ensures NextPick(g, roots, p, done).None? <==>
      (forall k :: 0 <= k < |roots| ==> roots[k] in done) && BasesMet(g, p, done)
  {
    if p != [] {
      var p' := p[..|p| - 1];
      var last := p[|p| - 1];
      NextPickNone(g, roots, p', done);
      assert forall y :: y in p <==> y in p' || y == last;
    }
  }

  lemma DepthFirstCons<T>(g: StructGraph<T>, s: T, w: seq<T>, seen: set<T>)
    requires s !in seen
    requires DepthFirst(g, Bases(g, s), seen + {s}, w)
    ensures DepthFirst(g, [s], seen, [s] + w)
  {
    var v := [s] + w;
    forall j | 0 <= j < |v|
      ensures PicksAt(g, [s], seen, v, j)
    {
      if j == 0 {
        RootPickAt(g, s, w, seen);
      } else {
        ConsPickAt(g, s, w, seen, j - 1);
      }
    }
    assert seen + Elems(v) == seen + {s} + Elems(w);
    NextPickAfterRoot(g, s, w, seen + {s} + Elems(w));
  }

  lemma RootPickAt<T>(g: StructGraph<T>, s: T, w: seq<T>, seen: set<T>)
    requires s !in seen
    ensures PicksAt(g, [s], seen, [s] + w, 0)
  {
    assert ([s] + w)[..0] == [] && seen + Elems([]) == seen;
  }

  lemma ConsPickAt<T>(g: StructGraph<T>, s: T, w: seq<T>, seen: set<T>, i: int)
    requires s !in seen && 0 <= i < |w|
    requires PicksAt(g, Bases(g, s), seen + {s}, w, i)
    ensures PicksAt(g, [s], seen, [s] + w, i + 1)
  {
    var p := w[..i];
    assert ([s] + w)[..i + 1] == [s] + p;
    ElemsConcat([s], p);
    assert seen + Elems([s] + p) == seen + {s} + Elems(p);
    NextPickAfterRoot(g, s, p, seen + {s} + Elems(p));
  }

  lemma DepthFirstConcat<T>(g: StructGraph<T>, bs: seq<T>, first: seq<T>, rest: seq<T>, seen: set<T>)
    requires bs != []
    requires DepthFirst(g, [bs[0]], seen, first)
    requires bs[0] in seen + Elems(first) && BasesMet(g, first, seen + Elems(first))
    requires DepthFirst(g, bs[1..], seen + Elems(first), rest)
    ensures DepthFirst(g, bs, seen, first + rest)
  {
    var r := first + rest;
    assert [bs[0]] + bs[1..] == bs;
    forall j | 0 <= j < |r|
      ensures PicksAt(g, bs, seen, r, j)
    {
      if j < |first| {
        assert PicksAt(g, [bs[0]], seen, first, j);
        assert r[..j] == first[..j] && r[j] == first[j];
        NextPickWiden(g, bs[0], bs[1..], first[..j], seen + Elems(first[..j]));
      } else {
        ConcatPickAt(g, bs, first, rest, seen, j - |first|);
      }
    }
    assert seen + Elems(r) == seen + Elems(first) + Elems(rest);
    NextPickAfterClosed(g, bs[0], bs[1..], first, rest, seen + Elems(r));
  }

  lemma ConcatPickAt<T>(g: StructGraph<T>, bs: seq<T>, first: seq<T>, rest: seq<T>, seen: set<T>, i: int)
    requires bs != [] && 0 <= i < |rest|
    requires bs[0] in seen + Elems(first) && BasesMet(g, first, seen + Elems(first))
    requires PicksAt(g, bs[1..], seen + Elems(first), rest, i)
    ensures PicksAt(g, bs, seen, first + rest, |first| + i)
  {
    var r := first + rest;
    var j := |first| + i;
    var done := seen + Elems(first) + Elems(rest[..i]);
    assert r[..j] == first + rest[..i] && r[j] == rest[i];
    assert seen + Elems(r[..j]) == done;
    assert [bs[0]] + bs[1..] == bs;
    NextPickAfterClosed(g, bs[0], bs[1..], first, rest[..i], done);
  }

  /** Visiting `s` lists exactly what a depth-first walk started on `s`
      picks, step by step, and stops when that walk is over. */
  lemma {:induction false} VisitDepthFirst<T>(g: StructGraph<T>, s: T, seen: set<T>)
    decreases |Nodes(g) - seen|, 0, 0
    ensures DepthFirst(g, [s], seen, Visit(g, s, seen))
  {
    if s in seen {
      assert seen + Elems([]) == seen;
    } else {
      VisitUnfold(g, s, seen);
      if s in g {
        CardShrinks(Nodes(g), seen, seen + {s}, s);
        VisitAllDepthFirst(g, g[s], seen + {s});
      } else {
        assert VisitAll(g, [], seen + {s}) == [];
        assert seen + {s} + Elems([]) == seen + {s};
      }
      DepthFirstCons(g, s, VisitAll(g, Bases(g, s), seen + {s}), seen);
    }
  }

  /** Visiting the bases `bs` in order lists exactly what a depth-first walk
      started on `bs` picks, and stops when that walk is over. */
  lemma {:induction false} VisitAllDepthFirst<T>(g: StructGraph<T>, bs: seq<T>, seen: set<T>)
    decreases |Nodes(g) - seen|, 1, |bs|
    ensures DepthFirst(g, bs, seen, VisitAll(g, bs, seen))
  {
    if bs == [] {
      assert seen + Elems([]) == seen;
    } else {
      var first := Visit(g, bs[0], seen);
      var seen1 := seen + Elems(first);
      CardMono(Nodes(g), seen, seen1);
      VisitDepthFirst(g, bs[0], seen);
      VisitClosed(g, bs[0], seen);
      VisitAllDepthFirst(g, bs[1..], seen1);
      DepthFirstConcat(g, bs, first, VisitAll(g, bs[1..], seen1), seen);
    }
  }

  /** The ancestor list is the depth-first order over declared bases: at each
      index it holds the first not-yet-listed base, in declared order, of the
      latest listed type that still has one (`x` itself at index 0), and it
      ends when no listed type has such a base. */
  lemma StructBasesDepthFirst<T>(g: StructGraph<T>, x: T)
    ensures forall j :: 0 <= j < |StructBases(g, x)| ==>
      NextPick(g, [x], StructBases(g, x)[..j], Elems(StructBases(g, x)[..j])) == Some(StructBases(g, x)[j])
    ensures NextPick(g, [x], StructBases(g, x), Elems(StructBases(g, x))) == None
  {
    var r := StructBases(g, x);
    VisitDepthFirst(g, x, {});
    forall j | 0 <= j < |r|
      ensures NextPick(g, [x], r[..j], Elems(r[..j])) == Some(r[j])
    {
      assert PicksAt(g, [x], {}, r, j);
      assert {} + Elems(r[..j]) == Elems(r[..j]);
    }
    assert {} + Elems(r) == Elems(r);
  }

  /** Two lists that both follow the depth-first picks from `x` agree on
      their first `n` types. */
  lemma {:induction false} PicksAgree<T>(g: StructGraph<T>, roots: seq<T>, seen: set<T>, q: seq<T>, r: seq<T>, n: nat)
    requires FollowsPicks(g, roots, seen, q) && FollowsPicks(g, roots, seen, r)
    requires n <= |q| && n <= |r|
    ensures q[..n] == r[..n]
  {
    if n > 0 {
      PicksAgree(g, roots, seen, q, r, n - 1);
      assert PicksAt(g, roots, seen, q, n - 1) && PicksAt(g, roots, seen, r, n - 1);
      assert q[..n] == q[..n - 1] + [q[n - 1]];
      assert r[..n] == r[..n - 1] + [r[n - 1]];
    }
  }

  /** A list that follows the picks has, after any shorter prefix, a next pick. */
  lemma PickAtPrefix<T>(g: StructGraph<T>, roots: seq<T>, seen: set<T>, r: seq<T>, n: nat)
    ensures n < |r| && FollowsPicks(g, roots, seen, r) ==>
      NextPick(g, roots, r[..n], seen + Elems(r[..n])) == Some(r[n])
  {
    if n < |r| && FollowsPicks(g, roots, seen, r) {
      assert PicksAt(g, roots, seen, r, n);
    }
  }

  lemma TakeAll<T>(s: seq<T>)
    ensures s[..|s|] == s
  {
  }

  /** Two lists that both follow the picks and stop when they run out are
      the same list. */
  lemma FollowersAgree<T>(g: StructGraph<T>, roots: seq<T>, seen: set<T>, q: seq<T>, r: seq<T>)
    requires DepthFirst(g, roots, seen, q) && DepthFirst(g, roots, seen, r)
    ensures q == r
  {
    var n: nat := if |q| < |r| then |q| else |r|;
    PicksAgree(g, roots, seen, q, r, n);
    TakeAll(q);
    TakeAll(r);
    if |q| != |r| {
      PickAtPrefix(g, roots, seen, q, n);
      PickAtPrefix(g, roots, seen, r, n);
      assert false;
    }
  }

  /** The depth-first description determines the ancestor list: any list
      that follows the picks from `x` and stops when they run out is it. */
  lemma DepthFirstUnique<T>(g: StructGraph<T>, x: T, q: seq<T>)
    requires forall j :: 0 <= j < |q| ==> NextPick(g, [x], q[..j], Elems(q[..j])) == Some(q[j])
    requires NextPick(g, [x], q, Elems(q)) == None
    ensures q == StructBases(g, x)
  {
    forall j | 0 <= j < |q|
      ensures PicksAt(g, [x], {}, q, j)
    {
      assert {} + Elems(q[..j]) == Elems(q[..j]);
    }
    assert {} + Elems(q) == Elems(q);
    VisitDepthFirst(g, x, {});
    FollowersAgree(g, [x], {}, q, StructBases(g, x));
  }

  // ---------------------------------------------------------------------------
  // Small cases.

  /** A type that declares no bases has itself as its only ancestor. */
  lemma NoDeclaredBases<T>(g: StructGraph<T>, x: T)
    requires Bases(g, x) == []
    ensures StructBases(g, x) == [x]
  {
    if x in g {
      assert VisitAll(g, g[x], {} + {x}) == [];
    }
  }

  /** When the start type's first declared base is a different type, that base
      immediately follows the start type. */
  lemma FirstBaseFollowsStart<T>(g: StructGraph<T>, x: T)
    requires |Bases(g, x)| > 0 && Bases(g, x)[0] != x
    ensures |StructBases(g, x)| >= 2 && StructBases(g, x)[1] == Bases(g, x)[0]
  {
    var seen := {} + {x};
    var b := g[x][0];
    var first := Visit(g, b, seen);
    assert first != [] && first[0] == b;
    assert VisitAll(g, g[x], seen) == first + VisitAll(g, g[x][1..], seen + Elems(first));
  }
}
