/** The five record kinds of the index and the well-formedness conditions on a store
    holding them. Owners are stored as indices into the owner's table; the two owner
    fields of Function and Attribute are optional, as in the schema. */
module Schema {
  import opened Wrappers

  /** `Commit`: raw id bytes and commit time (seconds and timezone offset in minutes). */
  datatype CommitRec = CommitRec(sha1: seq<bv8>, time: int, timeOffset: int)

  /** `Module`: the joined file path and its commit. */
  datatype ModuleRec = ModuleRec(name: string, commit: nat)

  /** `Class`: its name, its module and its line span. */
  datatype ClassRec = ClassRec(name: string, moduleOwner: nat, startLine: int, endLine: int)

  /** `Function`: its name, an optional module owner, an optional class owner, a line span. */
  datatype FunctionRec = FunctionRec(name: string, moduleOwner: Option<nat>, classOwner: Option<nat>, startLine: int, endLine: int)

  /** `Attribute`: its name, an optional module owner and an optional class owner. */
  datatype AttributeRec = AttributeRec(name: string, moduleOwner: Option<nat>, classOwner: Option<nat>)

  /** The contents of a store, one table per record kind, in insertion order. */
  datatype Tables = Tables(
    commits: seq<CommitRec>,
    modules: seq<ModuleRec>,
    classes: seq<ClassRec>,
    functions: seq<FunctionRec>,
    attributes: seq<AttributeRec>)

  const EmptyTables := Tables([], [], [], [], [])

  /** An optional owner reference that, when present, names an existing row. */
  predicate RefersWithin(owner: Option<nat>, bound: nat) {
    owner.Some? ==> owner.value < bound
  }

  /** Referential integrity: every required owner exists and every optional owner that is
      set exists. This is what the relational schema itself guarantees. */
  predicate WellFormed(t: Tables) {
    && (forall i :: 0 <= i < |t.modules| ==> t.modules[i].commit < |t.commits|)
    && (forall i :: 0 <= i < |t.classes| ==> t.classes[i].moduleOwner < |t.modules|)
    && (forall i :: 0 <= i < |t.functions| ==>
          RefersWithin(t.functions[i].moduleOwner, |t.modules|) && RefersWithin(t.functions[i].classOwner, |t.classes|))
    && (forall i :: 0 <= i < |t.attributes| ==>
          RefersWithin(t.attributes[i].moduleOwner, |t.modules|) && RefersWithin(t.attributes[i].classOwner, |t.classes|))
  }

  /** Exactly one of two optional owners is set. */
  predicate ExactlyOne(moduleOwner: Option<nat>, classOwner: Option<nat>) {
    moduleOwner.Some? != classOwner.Some?
  }

  /** Every Function and every Attribute belongs to a module or to a class, never both
      and never neither. The schema does not demand it; the extractor keeps it. */
  predicate Exclusive(t: Tables) {
    && (forall i :: 0 <= i < |t.functions| ==> ExactlyOne(t.functions[i].moduleOwner, t.functions[i].classOwner))
    && (forall i :: 0 <= i < |t.attributes| ==> ExactlyOne(t.attributes[i].moduleOwner, t.attributes[i].classOwner))
  }

  /** No two Commit rows share a hash. */
  predicate UniqueHashes(commits: seq<CommitRec>) {
    forall i, j :: 0 <= i < j < |commits| ==> commits[i].sha1 != commits[j].sha1
  }

  /** `u` holds every row of `t`, unchanged and at the same index, and possibly more:
      the index is append-only. */
  predicate Extends(t: Tables, u: Tables) {
    && t.commits <= u.commits
    && t.modules <= u.modules
    && t.classes <= u.classes
    && t.functions <= u.functions
    && t.attributes <= u.attributes
  }

  /** Appending is transitive. */
  lemma ExtendsTransitive(t: Tables, u: Tables, v: Tables)
    requires Extends(t, u) && Extends(u, v)
    ensures Extends(t, v)
  {
  }

  /** `"/".join(path)`. */
  function JoinPath(path: seq<string>): string
    decreases |path|
  {
    if path == [] then ""
    else if |path| == 1 then path[0]
    else path[0] + "/" + JoinPath(path[1..])
  }

  /** `s.split("/")`: the inverse of `JoinPath` on paths whose segments hold no `/`. */
  function SplitPath(s: string): (r: seq<string>)
    ensures r != []
    decreases |s|
  {
    if s == [] then [""]
    else
      var tail := SplitPath(s[1..]);
      if s[0] == '/' then [""] + tail
      else [[s[0]] + tail[0]] + tail[1..]
  }

  lemma {:induction false} SplitSegmentPrefix(x: string, rest: string)
    requires '/' !in x
    ensures SplitPath(x + rest) == [x + SplitPath(rest)[0]] + SplitPath(rest)[1..]
    decreases |x|
  {
    if x == [] {
      var r := SplitPath(rest);
      assert x + rest == rest;
      assert x + r[0] == r[0];
      assert [r[0]] + r[1..] == r;
    } else {
      assert (x + rest)[1..] == x[1..] + rest;
      SplitSegmentPrefix(x[1..], rest);
      assert [x[0]] + (x[1..] + SplitPath(rest)[0]) == x + SplitPath(rest)[0];
    }
  }

  /** A module name determines its file's path: git entry names never contain `/`, so
      splitting the joined name gives the path segments back. */
  lemma {:induction false} SplitJoinPath(path: seq<string>)
    requires path != []
    requires forall i :: 0 <= i < |path| ==> '/' !in path[i]
    ensures SplitPath(JoinPath(path)) == path
    decreases |path|
  {
    if |path| == 1 {
      SplitSegmentPrefix(path[0], "");
      assert path[0] + "" == path[0];
    } else {
      var rest := JoinPath(path[1..]);
      SplitJoinPath(path[1..]);
      assert path[0] + "/" + rest == path[0] + ("/" + rest);
      SplitSegmentPrefix(path[0], "/" + rest);
      assert ("/" + rest)[1..] == rest;
      assert SplitPath("/" + rest) == [""] + path[1..];
      assert path[0] + "" == path[0];
      assert [path[0]] + path[1..] == path;
    }
  }
}
