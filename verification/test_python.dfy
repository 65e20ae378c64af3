/**
 The expected ancestor lists of the test module: the struct pair of the
 calculator library, and the diamond and cycle shapes the `seen` set exists
 for. A struct type is identified by its class name.
 */
module TestPython {
  import opened StructBasesSpec
  import opened StructBasesProps
  import opened StructBaseSearch

  /** `DerivedStruct` declares `MyFirstStruct` as its base; `MyFirstStruct`
      declares none. */
  function CalcStructs(): (g: StructGraph<string>)
  {
    map["DerivedStruct" := ["MyFirstStruct"], "MyFirstStruct" := []]
  }

  lemma DerivedStructBases()
    ensures StructBases(CalcStructs(), "DerivedStruct") == ["DerivedStruct", "MyFirstStruct"]
  {
    var g := CalcStructs();
    var seen1 := {} + {"DerivedStruct"};
    VisitUnfold(g, "DerivedStruct", {});
    VisitUnfold(g, "MyFirstStruct", seen1);
    assert Visit(g, "MyFirstStruct", seen1) == ["MyFirstStruct"];
    VisitAllCons(g, "MyFirstStruct", [], seen1);
    assert ["MyFirstStruct"] + [] == ["MyFirstStruct"];
  }

  /** The names of the ancestors of `DerivedStruct`, as the inheritance test
      collects them. */
  method TestInheritanceMaintained() returns (baseNames: seq<string>)
    ensures baseNames == ["DerivedStruct", "MyFirstStruct"]
  {
    baseNames := FindStructBases(CalcStructs(), "DerivedStruct");
    DerivedStructBases();
  }

  /** `D` declares `B` and `C`, and both declare `A`. */
  function Diamond(): (g: StructGraph<string>)
  {
    map["D" := ["B", "C"], "B" := ["A"], "C" := ["A"]]
  }

  /** The subtree of `B`, the first base of `D`, lists `B` and then `A`. */
  lemma DiamondFirstSubtree()
    ensures Visit(Diamond(), "B", {"D"}) == ["B", "A"]
  {
  }

  /** The subtree of `C`, the second base of `D`, lists only `C`: `A` is met. */
  lemma DiamondSecondSubtree()
    ensures Visit(Diamond(), "C", {"D", "B", "A"}) == ["C"]
  {
  }

  /** `D` reaches `A` through both `B` and `C`: `A` is listed once, inside the
      subtree of `B`, before `C` is tried. */
  lemma DiamondListedOnce()
    ensures StructBases(Diamond(), "D") == ["D", "B", "A", "C"]
  {
    var g := Diamond();
    DiamondFirstSubtree();
    DiamondSecondSubtree();
    assert {"D"} + Elems(["B", "A"]) == {"D", "B", "A"};
    VisitAllCons(g, "C", [], {"D", "B", "A"});
    VisitAllCons(g, "B", ["C"], {"D"});
    VisitUnfold(g, "D", {});
    assert {} + {"D"} == {"D"};
  }

  /** `A` and `B` declare each other as bases: the traversal stops after
      listing both once. */
  lemma CycleListedOnce()
    ensures StructBases(map["A" := ["B"], "B" := ["A"]], "A") == ["A", "B"]
  {
    var g := map["A" := ["B"], "B" := ["A"]];
    var sA := {} + {"A"};
    assert Visit(g, "A", sA + {"B"}) == [];
    VisitAllCons(g, "A", [], sA + {"B"});
    assert ["A"] + [] == ["A"];
    VisitUnfold(g, "B", sA);
    assert Visit(g, "B", sA) == ["B"];
    VisitAllCons(g, "B", [], sA);
    assert ["B"] + [] == ["B"];
    VisitUnfold(g, "A", {});
  }
}
