/** Worked instances of the indexing rules on small concrete inputs. */
module Scenarios {
  import opened Wrappers
  import opened Schema
  import opened GitTree
  import opened Analyzer
  import opened History

  /** The class `C` of the module below, as the next class `k` of module 0: one Class
      with the span 5-10, the Attribute `x` owned by the class, and the method `m` owned
      by the class with the class's span. */
  lemma ClassScenario(t: Tables)
    ensures AfterNode(t, ClassDef("C", 5, 10, ["x"], [FunctionDef("m", 6, 7), OtherNode]), 0) ==
      t.(classes := t.classes + [ClassRec("C", 0, 5, 10)],
         attributes := t.attributes + [AttributeRec("x", None, Some(|t.classes|))],
         functions := t.functions + [FunctionRec("m", None, Some(|t.classes|), 5, 10)])
  {
    var k := |t.classes|;
    var children := [FunctionDef("m", 6, 7), OtherNode];
    assert children[..1][..0] == [] && children[..1] == [children[0]];
    assert Methods(children[..1], k, 5, 10) == [FunctionRec("m", None, Some(k), 5, 10)];
    assert Methods(children, k, 5, 10) == [FunctionRec("m", None, Some(k), 5, 10)];
    assert ["x"][..0] == [];
    assert InstanceAttributes(["x"], k) == [AttributeRec("x", None, Some(k))];
  }

  /** A module with a top-level function `f` on lines 3-4, the class `C` on lines 5-10
      with an instance attribute `x` and a method `m` on lines 6-7, and a top-level
      name `g`: the method is recorded with the class's span 5-10, not 6-7. */
  lemma MethodSpanScenario(t: Tables)
    ensures var u := AfterNodes(t, [FunctionDef("f", 3, 4),
                                    ClassDef("C", 5, 10, ["x"], [FunctionDef("m", 6, 7), OtherNode]),
                                    AssignName("g")], 0);
            && u.classes == t.classes + [ClassRec("C", 0, 5, 10)]
            && u.functions == t.functions + [FunctionRec("f", Some(0), None, 3, 4),
                                             FunctionRec("m", None, Some(|t.classes|), 5, 10)]
            && u.attributes == t.attributes + [AttributeRec("x", None, Some(|t.classes|)),
                                               AttributeRec("g", Some(0), None)]
  {
    var f, c, g := FunctionDef("f", 3, 4), ClassDef("C", 5, 10, ["x"], [FunctionDef("m", 6, 7), OtherNode]), AssignName("g");
    var nodes := [f, c, g];
    var k := |t.classes|;
    assert nodes[..2][..1][..0] == [] && nodes[..2][..1] == [f] && nodes[..2] == [f, c];
    var t1 := t.(functions := t.functions + [FunctionRec("f", Some(0), None, 3, 4)]);
    assert AfterNodes(t, [f], 0) == t1;
    ClassScenario(t1);
    var t2 := AfterNode(t1, c, 0);
    assert AfterNodes(t, [f, c], 0) == t2;
    assert AfterNodes(t, nodes, 0) == t2.(attributes := t2.attributes + [AttributeRec("g", Some(0), None)]);
    assert t1.functions + [FunctionRec("m", None, Some(k), 5, 10)] ==
           t.functions + [FunctionRec("f", Some(0), None, 3, 4), FunctionRec("m", None, Some(k), 5, 10)];
    assert t2.attributes + [AttributeRec("g", Some(0), None)] ==
           t.attributes + [AttributeRec("x", None, Some(k)), AttributeRec("g", Some(0), None)];
  }

  /** A file that fails to parse leaves every table as it was, Modules included. */
  lemma SyntaxErrorScenario(t: Tables, f: SourceFile, commit: nat, parse: Parser)
    requires parse(f.data) == None
    ensures AfterFile(t, f, commit, parse) == t
  {
  }

  /** The root frame of the tree below: `setup.py` is analyzed, `pkg` is pushed. */
  lemma ScanRootScenario(pkg: seq<Entry>, setup: seq<bv8>)
    ensures Scanned([], [Tree("pkg", pkg), Blob("setup.py", setup)]) == [SourceFile(["setup.py"], setup)]
    ensures Pushed([], [Tree("pkg", pkg), Blob("setup.py", setup)]) == [Frame(["pkg"], pkg)]
  {
    var root := [Tree("pkg", pkg), Blob("setup.py", setup)];
    assert root[..1][..0] == [] && root[..1] == [root[0]];
    assert IsPython("setup.py");
    assert [] + ["setup.py"] == ["setup.py"] && [] + ["pkg"] == ["pkg"];
    assert Scanned([], root[..1]) == [];
    assert Pushed([], root[..1]) == [Frame(["pkg"], pkg)];
  }

  /** The frame of `pkg`: `a.py` is analyzed as `pkg/a.py`, `README` is skipped. */
  lemma ScanPackageScenario(a: seq<bv8>, readme: seq<bv8>)
    ensures Scanned(["pkg"], [Blob("a.py", a), Blob("README", readme)]) == [SourceFile(["pkg", "a.py"], a)]
    ensures Pushed(["pkg"], [Blob("a.py", a), Blob("README", readme)]) == []
  {
    var pkg := [Blob("a.py", a), Blob("README", readme)];
    assert pkg[..1][..0] == [] && pkg[..1] == [pkg[0]];
    assert IsPython("a.py") && !IsPython("README");
    assert ["pkg"] + ["a.py"] == ["pkg", "a.py"];
    assert Scanned(["pkg"], pkg[..1]) == [SourceFile(["pkg", "a.py"], a)];
    assert Pushed(["pkg"], pkg[..1]) == [];
  }

  /** A root with a package directory `pkg` holding `a.py` and `README`, and a file
      `setup.py`: the walk hands over `setup.py` first, then `pkg/a.py`, and nothing else. */
  lemma WalkScenario(a: seq<bv8>, readme: seq<bv8>, setup: seq<bv8>)
    ensures WalkFiles([Frame([], [Tree("pkg", [Blob("a.py", a), Blob("README", readme)]), Blob("setup.py", setup)])])
         == [SourceFile(["setup.py"], setup), SourceFile(["pkg", "a.py"], a)]
  {
    var pkg := [Blob("a.py", a), Blob("README", readme)];
    ScanRootScenario(pkg, setup);
    ScanPackageScenario(a, readme);
    var s0, s1 := [Frame([], [Tree("pkg", pkg), Blob("setup.py", setup)])], [Frame(["pkg"], pkg)];
    assert s0[..0] == [] && [] + s1 == s1;
    assert WalkFiles(s0) == [SourceFile(["setup.py"], setup)] + WalkFiles(s1);
    assert s1[..0] + Pushed(["pkg"], pkg) == [];
    assert WalkFiles(s1) == [SourceFile(["pkg", "a.py"], a)] + WalkFiles([]);
  }
}
