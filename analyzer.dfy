/** What `analyze_file` extracts from one parsed file. The parser is a collaborator: its
    result is either a syntax error or the file's top-level nodes (one per bound
    top-level name, as the module node's `values()` lists them). The functions below give
    the tables after each step of extraction, in the order `analyze_file` inserts rows. */
module Analyzer {
  import opened Wrappers
  import opened Schema
  import opened GitTree

  /** The parser's node kinds that the extractor distinguishes. A class carries the
      names of the attributes assigned on its instances and its child nodes. */
  datatype Node =
    | ClassDef(name: string, lineno: int, tolineno: int, instanceAttrs: seq<string>, children: seq<Node>)
    | FunctionDef(name: string, lineno: int, tolineno: int)
    | AssignName(name: string)
    | OtherNode

  /** Decoding and parsing a file's bytes: `None` is a syntax error. */
  type Parser = seq<bv8> -> Option<seq<Node>>

  /** One class-owned Attribute per instance attribute name, in order. */
  function InstanceAttributes(names: seq<string>, klass: nat): (r: seq<AttributeRec>)
    ensures |r| == |names|
    ensures forall i :: 0 <= i < |names| ==> r[i] == AttributeRec(names[i], None, Some(klass))
  {
    if names == [] then []
    else InstanceAttributes(names[..|names| - 1], klass) + [AttributeRec(names[|names| - 1], None, Some(klass))]
  }

  /** How many children of a class are function definitions. */
  function MethodCount(children: seq<Node>): nat {
    if children == [] then 0
    else MethodCount(children[..|children| - 1]) + if children[|children| - 1].FunctionDef? then 1 else 0
  }

  /** One class-owned Function per function-definition child. Each is recorded with the
      span of the class, `start` to `end`, and not with its own. */
  function Methods(children: seq<Node>, klass: nat, start: int, end: int): (r: seq<FunctionRec>)
    ensures |r| == MethodCount(children)
    ensures forall i :: 0 <= i < |r| ==>
      && r[i].moduleOwner == None && r[i].classOwner == Some(klass)
      && r[i].startLine == start && r[i].endLine == end
    ensures forall i :: 0 <= i < |r| ==>
      exists j :: 0 <= j < |children| && children[j].FunctionDef? && children[j].name == r[i].name
  {
    if children == [] then []
    else
      var init, last := children[..|children| - 1], children[|children| - 1];
      var r := Methods(init, klass, start, end);
      if last.FunctionDef? then r + [FunctionRec(last.name, None, Some(klass), start, end)] else r
  }

  /** The methods are the function-definition children, in order: the child at `j` gives
      the row after those of the function definitions before it. */
  lemma {:induction false} MethodsInOrder(children: seq<Node>, klass: nat, start: int, end: int, j: nat)
    requires j < |children| && children[j].FunctionDef?
    ensures MethodCount(children[..j]) < |Methods(children, klass, start, end)|
    ensures Methods(children, klass, start, end)[MethodCount(children[..j])] ==
            FunctionRec(children[j].name, None, Some(klass), start, end)
    decreases |children|
  {
    var init := children[..|children| - 1];
    if j < |children| - 1 {
      MethodsInOrder(init, klass, start, end, j);
      assert init[..j] == children[..j];
    } else {
      assert init == children[..j];
    }
  }

  /** The tables after the loop body of `analyze_file` has handled one top-level node of
      module `m`. A class gets the next class index. */
  function AfterNode(t: Tables, n: Node, m: nat): Tables {
    match n
    case ClassDef(name, lo, hi, attrs, children) =>
      var k := |t.classes|;
      t.(classes := t.classes + [ClassRec(name, m, lo, hi)],
         attributes := t.attributes + InstanceAttributes(attrs, k),
         functions := t.functions + Methods(children, k, lo, hi))
    case FunctionDef(name, lo, hi) =>
      t.(functions := t.functions + [FunctionRec(name, Some(m), None, lo, hi)])
    case AssignName(name) =>
      t.(attributes := t.attributes + [AttributeRec(name, Some(m), None)])
    case OtherNode => t
  }

  /** The tables after the loop over the top-level nodes of module `m`. Extraction never
      adds a Commit or a Module. */
  function AfterNodes(t: Tables, nodes: seq<Node>, m: nat): (r: Tables)
    ensures r.commits == t.commits && r.modules == t.modules
  {
    if nodes == [] then t
    else AfterNode(AfterNodes(t, nodes[..|nodes| - 1], m), nodes[|nodes| - 1], m)
  }

  /** Extraction only appends: every row already in the tables keeps its index and value. */
  lemma {:induction false} AfterNodesExtends(t: Tables, nodes: seq<Node>, m: nat)
    ensures Extends(t, AfterNodes(t, nodes, m))
  {
    if nodes != [] {
      var v := AfterNodes(t, nodes[..|nodes| - 1], m);
      AfterNodesExtends(t, nodes[..|nodes| - 1], m);
      var u := AfterNode(v, nodes[|nodes| - 1], m);
      assert Extends(v, u);
    }
  }

  /** One node only appends. */
  lemma AfterNodeExtends(t: Tables, n: Node, m: nat)
    ensures Extends(t, AfterNode(t, n, m))
  {
  }

  /** The tables after the first `k` nodes are a prefix of the tables after all of them. */
  lemma {:induction false} AfterNodesPrefix(t: Tables, nodes: seq<Node>, m: nat, k: nat)
    requires k <= |nodes|
    ensures Extends(AfterNodes(t, nodes[..k], m), AfterNodes(t, nodes, m))
    decreases |nodes|
  {
    if k == |nodes| {
      assert nodes[..k] == nodes;
    } else {
      var init := nodes[..|nodes| - 1];
      AfterNodesPrefix(t, init, m, k);
      assert init[..k] == nodes[..k];
      var v := AfterNodes(t, init, m);
      AfterNodeExtends(v, nodes[|nodes| - 1], m);
      ExtendsTransitive(AfterNodes(t, nodes[..k], m), v, AfterNodes(t, nodes, m));
    }
  }

  /** The tables after `analyze_file` on one file of commit `commit`: unchanged on a
      syntax error, otherwise one Module named by the joined path and then its nodes. */
  function AfterFile(t: Tables, f: SourceFile, commit: nat, parse: Parser): Tables {
    match parse(f.data)
    case None => t
    case Some(nodes) =>
      AfterNodes(t.(modules := t.modules + [ModuleRec(JoinPath(f.path), commit)]), nodes, |t.modules|)
  }

  /** Records each top-level node yields: a class, its methods and its instance attributes;
      one function; one attribute; or nothing. */
  function NodeClasses(n: Node): nat {
    if n.ClassDef? then 1 else 0
  }

  function NodeFunctions(n: Node): nat {
    match n
    case ClassDef(_, _, _, _, children) => MethodCount(children)
    case FunctionDef(_, _, _) => 1
    case _ => 0
  }

  function NodeAttributes(n: Node): nat {
    match n
    case ClassDef(_, _, _, attrs, _) => |attrs|
    case AssignName(_) => 1
    case _ => 0
  }

  function ClassTotal(nodes: seq<Node>): nat {
    if nodes == [] then 0 else ClassTotal(nodes[..|nodes| - 1]) + NodeClasses(nodes[|nodes| - 1])
  }

  function FunctionTotal(nodes: seq<Node>): nat {
    if nodes == [] then 0 else FunctionTotal(nodes[..|nodes| - 1]) + NodeFunctions(nodes[|nodes| - 1])
  }

  function AttributeTotal(nodes: seq<Node>): nat {
    if nodes == [] then 0 else AttributeTotal(nodes[..|nodes| - 1]) + NodeAttributes(nodes[|nodes| - 1])
  }

  /** How many rows of each kind one file's nodes add. */
  lemma {:induction false} AfterNodesCounts(t: Tables, nodes: seq<Node>, m: nat)
    ensures |AfterNodes(t, nodes, m).classes| == |t.classes| + ClassTotal(nodes)
    ensures |AfterNodes(t, nodes, m).functions| == |t.functions| + FunctionTotal(nodes)
    ensures |AfterNodes(t, nodes, m).attributes| == |t.attributes| + AttributeTotal(nodes)
  {
    if nodes != [] {
      AfterNodesCounts(t, nodes[..|nodes| - 1], m);
    }
  }

  /** The tables after the first `j` nodes, then node `j`, sit at the front of the tables
      after all nodes; the rows of node `j` start where the counts of the nodes before it
      end. */
  lemma AfterNodesStep(t: Tables, nodes: seq<Node>, m: nat, j: nat)
    requires j < |nodes|
    ensures var v := AfterNodes(t, nodes[..j], m);
            && |v.classes| == |t.classes| + ClassTotal(nodes[..j])
            && |v.functions| == |t.functions| + FunctionTotal(nodes[..j])
            && |v.attributes| == |t.attributes| + AttributeTotal(nodes[..j])
            && Extends(AfterNode(v, nodes[j], m), AfterNodes(t, nodes, m))
  {
    assert nodes[..j + 1][..j] == nodes[..j];
    AfterNodesCounts(t, nodes[..j], m);
    AfterNodesPrefix(t, nodes, m, j + 1);
  }

  /** The rows of class node `n` of module `m` in `u`: its Class row at index `c` with the
      node's name, `lineno` and `tolineno`; its instance attributes from index `a`, owned by
      that Class; its methods from index `f`, owned by that Class, with the class's span. */
  predicate ClassRowsAt(u: Tables, n: Node, m: nat, c: nat, f: nat, a: nat)
    requires n.ClassDef?
  {
    && c < |u.classes| && u.classes[c] == ClassRec(n.name, m, n.lineno, n.tolineno)
    && a + |n.instanceAttrs| <= |u.attributes|
    && u.attributes[a..a + |n.instanceAttrs|] == InstanceAttributes(n.instanceAttrs, c)
    && f + MethodCount(n.children) <= |u.functions|
    && u.functions[f..f + MethodCount(n.children)] == Methods(n.children, c, n.lineno, n.tolineno)
  }

  /** The rows a class at position `j` yields, over all inputs: each block sits at the
      index that follows the rows of the nodes before it. */
  lemma AfterNodesClassRows(t: Tables, nodes: seq<Node>, m: nat, j: nat)
    requires j < |nodes|
    ensures nodes[j].ClassDef? ==>
              ClassRowsAt(AfterNodes(t, nodes, m), nodes[j], m, |t.classes| + ClassTotal(nodes[..j]),
                          |t.functions| + FunctionTotal(nodes[..j]), |t.attributes| + AttributeTotal(nodes[..j]))
  {
    if nodes[j].ClassDef? {
      AfterNodesStep(t, nodes, m, j);
      ClassBlock(AfterNodes(t, nodes[..j], m), nodes[j], m, AfterNodes(t, nodes, m),
                 |t.classes| + ClassTotal(nodes[..j]), |t.functions| + FunctionTotal(nodes[..j]),
                 |t.attributes| + AttributeTotal(nodes[..j]));
    }
  }

  /** The rows of one class stay at the front of any extension `u`. */
  lemma ClassBlock(v: Tables, n: Node, m: nat, u: Tables, c: nat, f: nat, a: nat)
    requires n.ClassDef? && Extends(AfterNode(v, n, m), u)
    requires c == |v.classes| && f == |v.functions| && a == |v.attributes|
    ensures ClassRowsAt(u, n, m, c, f, a)
  {
    var w := AfterNode(v, n, m);
    var attrs, methods := InstanceAttributes(n.instanceAttrs, |v.classes|), Methods(n.children, |v.classes|, n.lineno, n.tolineno);
    assert w.attributes == v.attributes + attrs && w.functions == v.functions + methods;
    assert u.attributes[..|w.attributes|] == w.attributes;
    assert u.attributes[|v.attributes|..|w.attributes|] == attrs;
    assert u.functions[..|w.functions|] == w.functions;
    assert u.functions[|v.functions|..|w.functions|] == methods;
  }

  /** A top-level function at position `j` gives a Function with its own name and span,
      owned by the module, at the index that follows the rows of the nodes before it. */
  lemma AfterNodesFunctionRow(t: Tables, nodes: seq<Node>, m: nat, j: nat)
    requires j < |nodes|
    ensures var u, n, f := AfterNodes(t, nodes, m), nodes[j], |t.functions| + FunctionTotal(nodes[..j]);
            n.FunctionDef? ==>
              f < |u.functions| && u.functions[f] == FunctionRec(n.name, Some(m), None, n.lineno, n.tolineno)
  {
    if nodes[j].FunctionDef? {
      AfterNodesStep(t, nodes, m, j);
    }
  }

  /** A top-level name binding at position `j` gives an Attribute with its name, owned by
      the module, at the index that follows the rows of the nodes before it. */
  lemma AfterNodesAttributeRow(t: Tables, nodes: seq<Node>, m: nat, j: nat)
    requires j < |nodes|
    ensures var u, n, a := AfterNodes(t, nodes, m), nodes[j], |t.attributes| + AttributeTotal(nodes[..j]);
            n.AssignName? ==> a < |u.attributes| && u.attributes[a] == AttributeRec(n.name, Some(m), None)
  {
    if nodes[j].AssignName? {
      AfterNodesStep(t, nodes, m, j);
    }
  }

  /** Who owns what a file's nodes add. Every new Class belongs to module `m`. Every new
      Function and Attribute has exactly one owner: module `m`, or one of the new classes.
      A class-owned Function carries exactly its class's span. */
  predicate OwnedBy(t: Tables, u: Tables, m: nat) {
    && (forall i :: |t.classes| <= i < |u.classes| ==> u.classes[i].moduleOwner == m)
    && (forall i :: |t.functions| <= i < |u.functions| ==>
          var f := u.functions[i];
          && ExactlyOne(f.moduleOwner, f.classOwner)
          && (f.moduleOwner.Some? ==> f.moduleOwner.value == m)
          && (f.classOwner.Some? ==>
                && |t.classes| <= f.classOwner.value < |u.classes|
                && f.startLine == u.classes[f.classOwner.value].startLine
                && f.endLine == u.classes[f.classOwner.value].endLine))
    && (forall i :: |t.attributes| <= i < |u.attributes| ==>
          var a := u.attributes[i];
          && ExactlyOne(a.moduleOwner, a.classOwner)
          && (a.moduleOwner.Some? ==> a.moduleOwner.value == m)
          && (a.classOwner.Some? ==> |t.classes| <= a.classOwner.value < |u.classes|))
  }

  lemma {:induction false} AfterNodesOwnership(t: Tables, nodes: seq<Node>, m: nat)
    ensures OwnedBy(t, AfterNodes(t, nodes, m), m)
  {
    if nodes != [] {
      var v := AfterNodes(t, nodes[..|nodes| - 1], m);
      AfterNodesOwnership(t, nodes[..|nodes| - 1], m);
      AfterNodesExtends(t, nodes[..|nodes| - 1], m);
      var u := AfterNode(v, nodes[|nodes| - 1], m);
      assert u == AfterNodes(t, nodes, m);
      assert OwnedBy(v, u, m);
    }
  }

  /** Extraction keeps every Function and Attribute of the store singly owned. */
  lemma AfterNodesExclusive(t: Tables, nodes: seq<Node>, m: nat)
    requires Exclusive(t)
    ensures Exclusive(AfterNodes(t, nodes, m))
  {
    var u := AfterNodes(t, nodes, m);
    AfterNodesOwnership(t, nodes, m);
    AfterNodesExtends(t, nodes, m);
    forall i | 0 <= i < |u.functions|
      ensures ExactlyOne(u.functions[i].moduleOwner, u.functions[i].classOwner)
    {
      if i < |t.functions| {
        assert u.functions[i] == t.functions[i];
      }
    }
    forall i | 0 <= i < |u.attributes|
      ensures ExactlyOne(u.attributes[i].moduleOwner, u.attributes[i].classOwner)
    {
      if i < |t.attributes| {
        assert u.attributes[i] == t.attributes[i];
      }
    }
  }
}
