/** The store the indexer writes into, and the indexing procedures themselves as methods
    that insert rows one at a time, the way `analyze_file`, `analyze_commit` and `main`
    do. Each table is a sequence that only ever grows. */
module EntityStore {
  import opened Wrappers
  import opened Schema
  import opened GitTree
  import opened Analyzer
  import opened History

  class Store {
    var commits: seq<CommitRec>
    var modules: seq<ModuleRec>
    var classes: seq<ClassRec>
    var functions: seq<FunctionRec>
    var attributes: seq<AttributeRec>

    /** The store's contents as a value. */
    function Contents(): Tables
      reads this
    {
      Tables(commits, modules, classes, functions, attributes)
    }

    /** Every owner reference names an existing row. */
    predicate Valid()
      reads this
    {
      WellFormed(Contents())
    }

    /** A fresh, empty store. */
    constructor ()
      ensures Valid() && Contents() == EmptyTables
    {
      commits, modules, classes, functions, attributes := [], [], [], [], [];
    }

    /** Insert a Commit; its index is returned. */
    method AddCommit(sha1: seq<bv8>, time: int, timeOffset: int) returns (id: nat)
      requires Valid()
      modifies this
      ensures Valid()
      ensures id == |old(commits)|
      ensures Contents() == old(Contents()).(commits := old(commits) + [CommitRec(sha1, time, timeOffset)])
    {
      id := |commits|;
      commits := commits + [CommitRec(sha1, time, timeOffset)];
    }

    /** Insert a Module of an existing Commit; its index is returned. */
    method AddModule(name: string, commit: nat) returns (id: nat)
      requires Valid() && commit < |commits|
      modifies this
      ensures Valid()
      ensures id == |old(modules)|
      ensures Contents() == old(Contents()).(modules := old(modules) + [ModuleRec(name, commit)])
    {
      id := |modules|;
      modules := modules + [ModuleRec(name, commit)];
    }

    /** Insert a Class of an existing Module; its index is returned. */
    method AddClass(name: string, moduleOwner: nat, startLine: int, endLine: int) returns (id: nat)
      requires Valid() && moduleOwner < |modules|
      modifies this
      ensures Valid()
      ensures id == |old(classes)|
      ensures Contents() == old(Contents()).(classes := old(classes) + [ClassRec(name, moduleOwner, startLine, endLine)])
    {
      id := |classes|;
      classes := classes + [ClassRec(name, moduleOwner, startLine, endLine)];
    }

    /** Insert a Function; each owner that is given must exist. */
    method AddFunction(name: string, moduleOwner: Option<nat>, classOwner: Option<nat>, startLine: int, endLine: int)
      requires Valid() && RefersWithin(moduleOwner, |modules|) && RefersWithin(classOwner, |classes|)
      modifies this
      ensures Valid()
      ensures Contents() ==
        old(Contents()).(functions := old(functions) + [FunctionRec(name, moduleOwner, classOwner, startLine, endLine)])
    {
      functions := functions + [FunctionRec(name, moduleOwner, classOwner, startLine, endLine)];
    }

    /** Insert an Attribute; each owner that is given must exist. */
    method AddAttribute(name: string, moduleOwner: Option<nat>, classOwner: Option<nat>)
      requires Valid() && RefersWithin(moduleOwner, |modules|) && RefersWithin(classOwner, |classes|)
      modifies this
      ensures Valid()
      ensures Contents() == old(Contents()).(attributes := old(attributes) + [AttributeRec(name, moduleOwner, classOwner)])
    {
      attributes := attributes + [AttributeRec(name, moduleOwner, classOwner)];
    }

    /** The class branch of `analyze_file`: the Class, then one Attribute per instance
      attribute, then one Function per function-definition child, with the class's span. */
    method AddClassDef(name: string, lineno: int, tolineno: int, instanceAttrs: seq<string>, children: seq<Node>, m: nat)
      requires Valid() && m < |modules|
      modifies this
      ensures Valid()
      ensures Contents() == AfterNode(old(Contents()), ClassDef(name, lineno, tolineno, instanceAttrs, children), m)
    {
      var k := AddClass(name, m, lineno, tolineno);
      ghost var withClass := Contents();
      for j := 0 to |instanceAttrs|
        invariant Valid() && k < |classes|
        invariant Contents() == withClass.(attributes := withClass.attributes + InstanceAttributes(instanceAttrs[..j], k))
      {
        assert instanceAttrs[..j + 1][..j] == instanceAttrs[..j];
        AddAttribute(instanceAttrs[j], None, Some(k));
      }
      assert instanceAttrs[..|instanceAttrs|] == instanceAttrs;
      ghost var withAttrs := Contents();
      for j := 0 to |children|
        invariant Valid() && k < |classes|
        invariant Contents() == withAttrs.(functions := withAttrs.functions + Methods(children[..j], k, lineno, tolineno))
      {
        assert children[..j + 1][..j] == children[..j];
        if children[j].FunctionDef? {
          AddFunction(children[j].name, None, Some(k), lineno, tolineno);
        }
      }
      assert children[..|children|] == children;
    }

    /** `analyze_file`: parse the blob; on a syntax error insert nothing, otherwise insert
      the Module and the rows for each top-level node. */
    method AnalyzeFile(path: seq<string>, data: seq<bv8>, commit: nat, parse: Parser)
      requires Valid() && commit < |commits|
      modifies this
      ensures Valid() && commits == old(commits)
      ensures Contents() == AfterFile(old(Contents()), SourceFile(path, data), commit, parse)
    {
      var root := parse(data);
      if root.None? {
        return;
      }
      var nodes := root.value;
      var m := AddModule(JoinPath(path), commit);
      ghost var withModule := Contents();
      for i := 0 to |nodes|
        invariant Valid() && m < |modules| && commits == old(commits)
        invariant Contents() == AfterNodes(withModule, nodes[..i], m)
      {
        assert nodes[..i + 1][..i] == nodes[..i];
        match nodes[i]
        case ClassDef(name, lineno, tolineno, instanceAttrs, children) =>
          AddClassDef(name, lineno, tolineno, instanceAttrs, children, m);
        case FunctionDef(name, lineno, tolineno) =>
          AddFunction(name, Some(m), None, lineno, tolineno);
        case AssignName(name) =>
          AddAttribute(name, Some(m), None);
        case OtherNode =>
      }
      assert nodes[..|nodes|] == nodes;
    }

    /** The body of the `for child in parent` loop: a subtree is pushed with its
      accumulated path, a `.py` blob is analyzed, anything else is skipped. */
    method ScanEntry(stack: seq<Frame>, path: seq<string>, e: Entry, commit: nat, parse: Parser)
      returns (stack': seq<Frame>)
      requires Valid() && commit < |commits|
      modifies this
      ensures Valid() && commits == old(commits)
      ensures stack' == stack + EntryFrame(path, e)
      ensures Contents() == AfterFiles(old(Contents()), EntryFile(path, e), commit, parse)
    {
      stack' := stack;
      match e
      case Tree(name, children) =>
        stack' := stack + [Frame(path + [name], children)];
      case Blob(name, data) =>
        if IsPython(name) {
          AnalyzeFile(path + [name], data, commit, parse);
          AfterFilesSnoc(old(Contents()), [], SourceFile(path + [name], data), commit, parse);
          assert [] + [SourceFile(path + [name], data)] == [SourceFile(path + [name], data)];
        } else {
          assert stack + [] == stack;
        }
      case Other(_) =>
        assert stack + [] == stack;
    }

    /** The body of `analyze_commit`'s `while stack` loop for one popped frame: scan its
      entries in order. */
    method ScanTree(stack: seq<Frame>, path: seq<string>, entries: seq<Entry>, commit: nat, parse: Parser)
      returns (stack': seq<Frame>)
      requires Valid() && commit < |commits|
      modifies this
      ensures Valid() && commits == old(commits)
      ensures stack' == stack + Pushed(path, entries)
      ensures Contents() == AfterFiles(old(Contents()), Scanned(path, entries), commit, parse)
    {
      ghost var start := Contents();
      stack' := stack;
      for i := 0 to |entries|
        invariant Valid() && commits == start.commits
        invariant stack' == stack + Pushed(path, entries[..i])
        invariant Contents() == AfterFiles(start, Scanned(path, entries[..i]), commit, parse)
      {
        ghost var cur, st := Contents(), stack';
        stack' := ScanEntry(stack', path, entries[i], commit, parse);
        PushStep(stack, path, entries, i, st, stack');
        ScanTreeStep(start, path, entries, i, commit, parse, cur, Contents());
      }
      assert entries[..|entries|] == entries;
    }

    /** The worklist loop of `analyze_commit`: start with the root tree's frame, pop the
      last frame, scan it, until the stack is empty. */
    method WalkTree(root: seq<Entry>, commit: nat, parse: Parser)
      requires Valid() && commit < |commits|
      modifies this
      ensures Valid() && commits == old(commits)
      ensures Contents() == AfterFiles(old(Contents()), WalkFiles([Frame([], root)]), commit, parse)
    {
      ghost var start, all := Contents(), WalkFiles([Frame([], root)]);
      ghost var visited: seq<SourceFile> := [];
      var stack := [Frame([], root)];
      while stack != []
        invariant Valid() && commits == start.commits
        invariant visited + WalkFiles(stack) == all
        invariant Contents() == AfterFiles(start, visited, commit, parse)
        decreases StackWeight(stack)
      {
        var top := stack[|stack| - 1];
        ghost var before := stack;
        stack := stack[..|stack| - 1];
        assert before == stack + [top];
        WalkFilesStep(visited, stack, top);
        ghost var scanned := Scanned(top.path, top.children);
        stack := ScanTree(stack, top.path, top.children, commit, parse);
        AfterFilesAppend(start, visited, scanned, commit, parse);
        visited := visited + scanned;
      }
      assert visited == all by {
        assert visited + WalkFiles(stack) == visited;
      }
    }

    /** `analyze_commit`: insert the Commit, then walk its tree, analyzing each `.py` blob
      on the way. */
    method AnalyzeCommit(c: GitCommit, parse: Parser)
      requires Valid()
      modifies this
      ensures Valid()
      ensures Contents() == AfterCommit(old(Contents()), c, parse)
      ensures Exclusive(old(Contents())) ==> Exclusive(Contents())
    {
      var cid := AddCommit(c.id, c.time, c.timeOffset);
      WalkTree(c.tree, cid, parse);
      if Exclusive(old(Contents())) {
        AfterCommitExclusive(old(Contents()), c, parse);
      }
    }

    /** `main`'s loop: analyze every commit, in the order the history walk yields them. */
    method IndexHistory(history: seq<GitCommit>, parse: Parser)
      requires Valid()
      modifies this
      ensures Valid()
      ensures Contents() == AfterHistory(old(Contents()), history, parse)
      ensures commits == old(commits) + CommitRecords(history)
      ensures Extends(old(Contents()), Contents())
      ensures Exclusive(old(Contents())) ==> Exclusive(Contents())
    {
      for i := 0 to |history|
        invariant Valid()
        invariant Contents() == AfterHistory(old(Contents()), history[..i], parse)
      {
        assert history[..i + 1][..i] == history[..i];
        AnalyzeCommit(history[i], parse);
      }
      assert history[..|history|] == history;
      AfterHistoryEffect(old(Contents()), history, parse);
      if Exclusive(old(Contents())) {
        AfterHistoryExclusive(old(Contents()), history, parse);
      }
    }
  }
}
