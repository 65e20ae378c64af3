# Struct ancestor lists of the jsii Python runtime

jsii generates Python structs as `TypedDict` classes, so Python's own method
resolution order does not show which structs a struct extends. A struct type
may carry a `__jsii_struct_bases__` attribute: the list of the structs it
declares as bases. A type without it is treated as declaring none. The Python
runtime's test module defines `find_struct_bases(x)`. It walks that metadata depth-first
from `x` and returns every struct met, each once, with `x` first. The
inheritance test checks that `DerivedStruct` yields
`["DerivedStruct", "MyFirstStruct"]`.

The model has four modules:

- `StructBasesSpec` (struct_bases_spec.dfy) holds the declared-bases graph
  (`StructGraph<T>`, a map from a struct to its ordered list of bases). A
  struct that is not a key declares no bases, as `getattr` with default `[]`
  gives. The module also holds reachability through declared bases and
  `Visit` / `VisitAll`, the reference definition of the traversal as pure
  functions. It also holds `NextPick`, a description of depth-first order
  that does not follow the traversal down into bases. Given the types
  listed so far, it looks back from the latest one: take the latest listed
  type that still has a base not yet met, and pick its first such base in
  declared order.
- `StructBasesProps` (struct_bases_props.dfy) proves what the traversal
  guarantees:
  - the start type comes first;
  - no type is listed twice;
  - the list holds exactly the types reachable from the start;
  - every later type is a declared base of a type listed before it;
  - at every index the list holds exactly what `NextPick` names, and it
    ends exactly when `NextPick` names nothing. This is depth-first order
    with bases tried in declared order. No other list has this property;
  - a type without bases yields a one-element list.
- `StructBaseSearch` (struct_bases.dfy) is `find_struct_bases` in its own
  imperative form. The closure state (`ret`, `seen`) becomes the fields of a
  `BaseCollector`, and `recurse` becomes the recursive method `Recurse` with
  its `for` loop over the bases. `Recurse` is proved equal to `Visit` on
  every call. It also keeps `seen` equal to the set of types in `ret`, which
  never lists a type twice.
- `TestPython` (test_python.dfy) holds the concrete struct pair of the
  inheritance test, plus a diamond and a cycle, with their exact lists.

Termination is proved for every graph, cyclic ones included. The measure is
the number of types the graph mentions that are not yet in `seen`.

## Model

| member | source | states |
|---|---|---|
| StructBasesSpec.Bases | packages/@jsii/python-runtime/tests/test_python.py:72 | a type without the attribute declares no bases, and every declared base is a type the graph mentions |
| StructBasesSpec.StructBases | packages/@jsii/python-runtime/tests/test_python.py:64-77 | the ancestor list of `x` is non-empty, starts with `x`, and lists no type twice |
| StructBasesSpec.Visit | packages/@jsii/python-runtime/tests/test_python.py:68-74 | visiting `s` emits nothing exactly when `s` was already seen; otherwise `s` comes first; no emitted type was seen before, and none is emitted twice |
| StructBasesSpec.VisitAll | packages/@jsii/python-runtime/tests/test_python.py:72-74 | the types emitted for a list of bases were not seen before, and none is emitted twice |
| StructBasesProps.VisitAllSnoc | packages/@jsii/python-runtime/tests/test_python.py:73-74 | the `for` loop order: visiting one more base appends that base's visit, seeded with everything emitted for the earlier bases |
| StructBasesProps.VisitKeepsCollectorValid | packages/@jsii/python-runtime/tests/test_python.py:69-71 | if `ret` has no duplicates and `seen` is the set of its types, both stay so after appending a visit |
| StructBasesProps.VisitClosed | packages/@jsii/python-runtime/tests/test_python.py:69-74 | after a visit, `s` is seen, and every declared base of every emitted type is seen |
| StructBasesProps.VisitAllClosed | packages/@jsii/python-runtime/tests/test_python.py:72-74 | after visiting a base list, every listed base and every declared base of an emitted type is seen |
| StructBasesProps.VisitSound | packages/@jsii/python-runtime/tests/test_python.py:68-74 | every type a visit of `s` emits is reachable from `s` through declared bases |
| StructBasesProps.VisitAllSound | packages/@jsii/python-runtime/tests/test_python.py:72-74 | every type emitted for a base list is reachable from one of those bases |
| StructBasesProps.PathStaysInClosed | packages/@jsii/python-runtime/tests/test_python.py:72-74 | a list closed under declared bases holds the end of every chain of bases that starts in it |
| StructBasesProps.StructBasesExact | packages/@jsii/python-runtime/tests/test_python.py:64-77 | the ancestor list of `x` starts with `x`, lists no type twice, and holds `y` if and only if `y` is reachable from `x` |
| StructBasesProps.VisitDiscovered | packages/@jsii/python-runtime/tests/test_python.py:68-74 | each type a visit emits is `s` or a declared base of a type emitted before it |
| StructBasesProps.VisitAllDiscovered | packages/@jsii/python-runtime/tests/test_python.py:72-74 | each type emitted for a base list is one of those bases or a declared base of a type emitted before it |
| StructBasesProps.StructBasesDiscovered | packages/@jsii/python-runtime/tests/test_python.py:64-77 | every type after the first in the ancestor list is a declared base of a type listed earlier |
| StructBasesProps.NextPickNone | packages/@jsii/python-runtime/tests/test_python.py:69-74 | the depth-first walk has nothing left to pick exactly when every root and every declared base of every listed type has been met |
| StructBasesProps.VisitDepthFirst | packages/@jsii/python-runtime/tests/test_python.py:68-74 | each type a visit of `s` emits is the one `NextPick` names after the types before it, and the visit ends exactly when `NextPick` names nothing |
| StructBasesProps.VisitAllDepthFirst | packages/@jsii/python-runtime/tests/test_python.py:73-74 | the same holds for visiting a list of bases: one base's subtree is finished before the next unmet base, in declared order, is tried |
| StructBasesProps.StructBasesDepthFirst | packages/@jsii/python-runtime/tests/test_python.py:64-77 | index `j` of the ancestor list holds the first base, in declared order, that is not in the first `j` entries, taken from the latest listed type that still has one (`x` at index 0); the list ends when no listed type has such a base |
| StructBasesProps.DepthFirstUnique | packages/@jsii/python-runtime/tests/test_python.py:64-77 | any list that follows `NextPick` from `x` and stops when it names nothing equals the ancestor list |
| StructBasesProps.NoDeclaredBases | packages/@jsii/python-runtime/tests/test_python.py:69-72 | a type that declares no bases yields the list holding just itself |
| StructBasesProps.FirstBaseFollowsStart | packages/@jsii/python-runtime/tests/test_python.py:72-74 | the first declared base (when it is not `x` itself) comes right after `x` |
| StructBaseSearch.BaseCollector.constructor | packages/@jsii/python-runtime/tests/test_python.py:65-66 | the collector starts with an empty list and an empty set |
| StructBaseSearch.BaseCollector.Recurse | packages/@jsii/python-runtime/tests/test_python.py:68-74 | `ret` grows by exactly the visit of `s` from the old `seen`, `seen` grows by the same types, and a collector without duplicates stays so |
| StructBaseSearch.FindStructBases | packages/@jsii/python-runtime/tests/test_python.py:64-77 | returns the ancestor list: `x` first, no type twice, exactly the types reachable from `x`, in the depth-first order `NextPick` describes |
| TestPython.DerivedStructBases | packages/@jsii/python-runtime/tests/test_python.py:22-26 | `DerivedStruct` with base `MyFirstStruct` yields `["DerivedStruct", "MyFirstStruct"]` |
| TestPython.TestInheritanceMaintained | packages/@jsii/python-runtime/tests/test_python.py:19-26 | the names collected from `find_struct_bases(DerivedStruct)` equal `["DerivedStruct", "MyFirstStruct"]` |
| TestPython.DiamondListedOnce | packages/@jsii/python-runtime/tests/test_python.py:69-74 | in a diamond, the shared ancestor is listed once, inside the first base's subtree |
| TestPython.CycleListedOnce | packages/@jsii/python-runtime/tests/test_python.py:69-71 | two structs that declare each other yield each once, and the walk ends |

## Left out

- The other tests of the module (lines 11-17, 28-38, 40-53 and 55-61) are not part of this model. They exercise the jsii kernel, runtime type checks, interface conformance and file output.
- pytest, `re` and the `jsii_calc` import are test scaffolding. `jsii_calc.DerivedStruct` and `MyFirstStruct` appear only through their declared bases.
- Python's recursion-depth limit is not modelled. `Recurse` may nest as deep as the longest chain of distinct bases.
- `getattr` looks the attribute up through the class's own inheritance chain. The model takes the map entry as the attribute value that lookup returns. A non-list attribute value is not modelled.
- Struct types are compared by equality. In `TestPython` they are identified by their `__name__` strings, so the `b.__name__` mapping at line 24 is the identity.
- Bases are an ordered list, as the code iterates them. A description of them as a set would lose the order the depth-first lemmas state.
