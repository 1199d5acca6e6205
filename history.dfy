/** The commit-level and history-level effect of indexing: `analyze_commit` records the
    commit and analyzes the files its tree walk yields; `main` does that for every commit
    of the history, oldest first. */
module History {
  import opened Wrappers
  import opened Schema
  import opened GitTree
  import opened Analyzer

  /** The tables after analyzing `files` in order, all in commit `commit`. */
  function AfterFiles(t: Tables, files: seq<SourceFile>, commit: nat, parse: Parser): Tables {
    if files == [] then t
    else AfterFile(AfterFiles(t, files[..|files| - 1], commit, parse), files[|files| - 1], commit, parse)
  }

  /** The files, in order, that parse. */
  function Parsed(files: seq<SourceFile>, parse: Parser): (r: seq<SourceFile>)
    ensures forall i :: 0 <= i < |r| ==> parse(r[i].data).Some?
  {
    if files == [] then []
    else
      var init, last := files[..|files| - 1], files[|files| - 1];
      if parse(last.data).Some? then Parsed(init, parse) + [last] else Parsed(init, parse)
  }

  /** `Parsed` keeps every file that parses, as often as it occurs, and drops the rest. */
  lemma {:induction false} ParsedCount(files: seq<SourceFile>, parse: Parser)
    ensures forall f :: multiset(Parsed(files, parse))[f] == if parse(f.data).Some? then multiset(files)[f] else 0
  {
    if files != [] {
      var init, last := files[..|files| - 1], files[|files| - 1];
      ParsedCount(init, parse);
      assert files == init + [last];
      assert multiset(files) == multiset(init) + multiset{last};
    }
  }

  /** The Module rows for `files`, one each, named by the joined path, all in `commit`. */
  function ModulesFor(files: seq<SourceFile>, commit: nat): seq<ModuleRec> {
    seq(|files|, i requires 0 <= i < |files| => ModuleRec(JoinPath(files[i].path), commit))
  }

  /** A file that fails to parse leaves no trace, and the files after it are still
      analyzed: analyzing a list is the same as analyzing only the files that parse. */
  lemma {:induction false} AfterFilesSkipsFailures(t: Tables, files: seq<SourceFile>, commit: nat, parse: Parser)
    ensures AfterFiles(t, files, commit, parse) == AfterFiles(t, Parsed(files, parse), commit, parse)
  {
    if files != [] {
      var init, last := files[..|files| - 1], files[|files| - 1];
      AfterFilesSkipsFailures(t, init, commit, parse);
      if parse(last.data).Some? {
        var p := Parsed(init, parse) + [last];
        assert p[..|p| - 1] == Parsed(init, parse);
      }
    }
  }

  /** One file: only appends, adds no Commit, and adds one Module exactly when it parses. */
  lemma AfterFileEffect(t: Tables, f: SourceFile, commit: nat, parse: Parser)
    ensures Extends(t, AfterFile(t, f, commit, parse))
    ensures AfterFile(t, f, commit, parse).commits == t.commits
    ensures AfterFile(t, f, commit, parse).modules ==
      t.modules + if parse(f.data).Some? then [ModuleRec(JoinPath(f.path), commit)] else []
  {
    match parse(f.data)
    case None =>
      assert t.modules + [] == t.modules;
    case Some(nodes) =>
      AfterNodesExtends(t.(modules := t.modules + [ModuleRec(JoinPath(f.path), commit)]), nodes, |t.modules|);
  }

  /** One file keeps every Function and Attribute singly owned. */
  lemma AfterFileExclusive(t: Tables, f: SourceFile, commit: nat, parse: Parser)
    requires Exclusive(t)
    ensures Exclusive(AfterFile(t, f, commit, parse))
  {
    match parse(f.data)
    case None =>
    case Some(nodes) =>
      var w := t.(modules := t.modules + [ModuleRec(JoinPath(f.path), commit)]);
      assert Exclusive(w);
      AfterNodesExclusive(w, nodes, |t.modules|);
  }

  lemma ModulesForAppend(a: seq<SourceFile>, b: seq<SourceFile>, commit: nat)
    ensures ModulesFor(a + b, commit) == ModulesFor(a, commit) + ModulesFor(b, commit)
  {
    var l, r := ModulesFor(a + b, commit), ModulesFor(a, commit) + ModulesFor(b, commit);
    assert |l| == |r|;
    forall i | 0 <= i < |l|
      ensures l[i] == r[i]
    {
      if i < |a| {
        assert (a + b)[i] == a[i];
      } else {
        assert (a + b)[i] == b[i - |a|];
      }
    }
  }

  /** The Modules of one more file that parses: one more row, for that file. */
  lemma ModulesForParsedSnoc(files: seq<SourceFile>, f: SourceFile, commit: nat, parse: Parser)
    requires parse(f.data).Some?
    ensures ModulesFor(Parsed(files + [f], parse), commit) ==
            ModulesFor(Parsed(files, parse), commit) + [ModuleRec(JoinPath(f.path), commit)]
  {
    assert (files + [f])[..|files|] == files;
    assert Parsed(files + [f], parse) == Parsed(files, parse) + [f];
    ModulesForAppend(Parsed(files, parse), [f], commit);
    assert ModulesFor([f], commit) == [ModuleRec(JoinPath(f.path), commit)];
  }

  /** A file that does not parse adds no Module. */
  lemma ParsedSkipSnoc(files: seq<SourceFile>, f: SourceFile, parse: Parser)
    requires parse(f.data).None?
    ensures Parsed(files + [f], parse) == Parsed(files, parse)
  {
    assert (files + [f])[..|files|] == files;
  }

  /** Analyzing files only appends, adds no Commit, and adds exactly one Module per file
      that parses, named by its path and owned by `commit`, in file order. */
  lemma {:induction false} AfterFilesEffect(t: Tables, files: seq<SourceFile>, commit: nat, parse: Parser)
    ensures Extends(t, AfterFiles(t, files, commit, parse))
    ensures AfterFiles(t, files, commit, parse).commits == t.commits
    ensures AfterFiles(t, files, commit, parse).modules == t.modules + ModulesFor(Parsed(files, parse), commit)
  {
    if files == [] {
      assert t.modules + ModulesFor([], commit) == t.modules;
    } else {
      var init, last := files[..|files| - 1], files[|files| - 1];
      AfterFilesEffect(t, init, commit, parse);
      var v := AfterFiles(t, init, commit, parse);
      AfterFileEffect(v, last, commit, parse);
      ExtendsTransitive(t, v, AfterFile(v, last, commit, parse));
      assert files == init + [last];
      if parse(last.data).Some? {
        ModulesForParsedSnoc(init, last, commit, parse);
        var added := [ModuleRec(JoinPath(last.path), commit)];
        assert (t.modules + ModulesFor(Parsed(init, parse), commit)) + added ==
               t.modules + (ModulesFor(Parsed(init, parse), commit) + added);
      } else {
        ParsedSkipSnoc(init, last, parse);
        assert t.modules + ModulesFor(Parsed(init, parse), commit) + [] == t.modules + ModulesFor(Parsed(init, parse), commit);
      }
    }
  }

  /** Analyzing one more file. */
  lemma AfterFilesSnoc(t: Tables, files: seq<SourceFile>, f: SourceFile, commit: nat, parse: Parser)
    ensures AfterFiles(t, files + [f], commit, parse) == AfterFile(AfterFiles(t, files, commit, parse), f, commit, parse)
  {
    assert (files + [f])[..|files|] == files;
  }

  /** Analyzing `a` and then `b` is analyzing `a + b`. */
  lemma {:induction false} AfterFilesAppend(t: Tables, a: seq<SourceFile>, b: seq<SourceFile>, commit: nat, parse: Parser)
    ensures AfterFiles(t, a + b, commit, parse) == AfterFiles(AfterFiles(t, a, commit, parse), b, commit, parse)
    decreases |b|
  {
    if b == [] {
      assert a + b == a;
    } else {
      var b' := b[..|b| - 1];
      assert (a + b)[..|a + b| - 1] == a + b';
      AfterFilesAppend(t, a, b', commit, parse);
    }
  }

  /** One step of scanning a frame's entries in order: the store after entry `i` is the
      store of the first `i + 1` entries. */
  lemma ScanTreeStep(start: Tables, path: seq<string>, entries: seq<Entry>, i: nat,
                     commit: nat, parse: Parser, cur: Tables, next: Tables)
    requires i < |entries|
    requires cur == AfterFiles(start, Scanned(path, entries[..i]), commit, parse)
    requires next == AfterFiles(cur, EntryFile(path, entries[i]), commit, parse)
    ensures next == AfterFiles(start, Scanned(path, entries[..i + 1]), commit, parse)
  {
    ScanStep(path, entries, i);
    AfterFilesAppend(start, Scanned(path, entries[..i]), EntryFile(path, entries[i]), commit, parse);
  }

  /** Analyzing files keeps every Function and Attribute singly owned. */
  lemma {:induction false} AfterFilesExclusive(t: Tables, files: seq<SourceFile>, commit: nat, parse: Parser)
    requires Exclusive(t)
    ensures Exclusive(AfterFiles(t, files, commit, parse))
  {
    if files != [] {
      var init := files[..|files| - 1];
      AfterFilesExclusive(t, init, commit, parse);
      AfterFileExclusive(AfterFiles(t, init, commit, parse), files[|files| - 1], commit, parse);
    }
  }

  /** `Commit(sha1=commit.id.raw, commit_time=...)`. */
  function CommitRecord(c: GitCommit): CommitRec {
    CommitRec(c.id, c.time, c.timeOffset)
  }

  /** The files the tree walk of a commit hands to the analyzer. */
  function CommitFiles(c: GitCommit): seq<SourceFile> {
    WalkFiles([Frame([], c.tree)])
  }

  /** The tables after `analyze_commit`: one Commit row, then the walk's files. */
  function AfterCommit(t: Tables, c: GitCommit, parse: Parser): Tables {
    AfterFiles(t.(commits := t.commits + [CommitRecord(c)]), CommitFiles(c), |t.commits|, parse)
  }

  /** One commit adds exactly one Commit row, whose sha1 is the commit's raw id, then one
      Module per file of the walk that parses, each owned by that row and named by the
      file's path. Earlier rows are untouched. */
  lemma AfterCommitEffect(t: Tables, c: GitCommit, parse: Parser)
    ensures AfterCommit(t, c, parse).commits == t.commits + [CommitRecord(c)]
    ensures AfterCommit(t, c, parse).modules == t.modules + ModulesFor(Parsed(CommitFiles(c), parse), |t.commits|)
    ensures Extends(t, AfterCommit(t, c, parse))
  {
    var w := t.(commits := t.commits + [CommitRecord(c)]);
    AfterFilesEffect(w, CommitFiles(c), |t.commits|, parse);
    ExtendsTransitive(t, w, AfterCommit(t, c, parse));
  }

  /** One commit keeps every Function and Attribute singly owned. */
  lemma AfterCommitExclusive(t: Tables, c: GitCommit, parse: Parser)
    requires Exclusive(t)
    ensures Exclusive(AfterCommit(t, c, parse))
  {
    AfterFilesExclusive(t.(commits := t.commits + [CommitRecord(c)]), CommitFiles(c), |t.commits|, parse);
  }

  /** The files a commit adds Modules for are its `.py` blobs that parse: each such blob
      of the tree is analyzed as often as it occurs there, any other file never. */
  lemma AfterCommitFiles(c: GitCommit, parse: Parser)
    ensures forall f ::
              multiset(Parsed(CommitFiles(c), parse))[f] ==
              if parse(f.data).Some? then multiset(PythonFiles([], c.tree))[f] else 0
  {
    WalkVisitsPythonBlobs(c.tree);
    ParsedCount(CommitFiles(c), parse);
  }

  /** The tables after `main`'s loop over the commits, in the order the history walk
      yields them. */
  function AfterHistory(t: Tables, commits: seq<GitCommit>, parse: Parser): Tables {
    if commits == [] then t
    else AfterCommit(AfterHistory(t, commits[..|commits| - 1], parse), commits[|commits| - 1], parse)
  }

  /** The Commit rows of a history: one per commit, in the walk's order. */
  function CommitRecords(commits: seq<GitCommit>): seq<CommitRec> {
    seq(|commits|, i requires 0 <= i < |commits| => CommitRecord(commits[i]))
  }

  /** Indexing a history appends exactly one Commit row per commit, in order, each with
      the commit's raw id, and never touches a row that was already there. */
  lemma {:induction false} AfterHistoryEffect(t: Tables, commits: seq<GitCommit>, parse: Parser)
    ensures AfterHistory(t, commits, parse).commits == t.commits + CommitRecords(commits)
    ensures Extends(t, AfterHistory(t, commits, parse))
  {
    if commits == [] {
      assert t.commits + CommitRecords([]) == t.commits;
    } else {
      var init, last := commits[..|commits| - 1], commits[|commits| - 1];
      AfterHistoryEffect(t, init, parse);
      var v := AfterHistory(t, init, parse);
      AfterCommitEffect(v, last, parse);
      ExtendsTransitive(t, v, AfterCommit(v, last, parse));
      assert CommitRecords(commits) == CommitRecords(init) + [CommitRecord(last)];
    }
  }

  /** Indexing a history keeps every Function and Attribute singly owned. */
  lemma {:induction false} AfterHistoryExclusive(t: Tables, commits: seq<GitCommit>, parse: Parser)
    requires Exclusive(t)
    ensures Exclusive(AfterHistory(t, commits, parse))
  {
    if commits != [] {
      var init := commits[..|commits| - 1];
      AfterHistoryExclusive(t, init, parse);
      AfterCommitExclusive(AfterHistory(t, init, parse), commits[|commits| - 1], parse);
    }
  }

  /** No two commits of a history share an id. */
  predicate DistinctIds(commits: seq<GitCommit>) {
    forall i, j :: 0 <= i < j < |commits| ==> commits[i].id != commits[j].id
  }

  /** Distinct Commit rows come from distinct commit ids, and only from them. */
  lemma DistinctRecords(commits: seq<GitCommit>)
    ensures UniqueHashes(CommitRecords(commits)) <==> DistinctIds(commits)
  {
    var rows := CommitRecords(commits);
    assert forall i :: 0 <= i < |commits| ==> rows[i].sha1 == commits[i].id;
  }

  /** `analyze_commit` does not check hashes before inserting: a store indexed from empty holds
      distinct Commit hashes exactly when the history yields distinct ids. */
  lemma DistinctHashes(commits: seq<GitCommit>, parse: Parser)
    ensures UniqueHashes(AfterHistory(EmptyTables, commits, parse).commits) <==> DistinctIds(commits)
  {
    AfterHistoryEffect(EmptyTables, commits, parse);
    assert AfterHistory(EmptyTables, commits, parse).commits == CommitRecords(commits);
    DistinctRecords(commits);
  }

  /** Running over `a` and then over `b` into the same store is running over `a + b`:
      a second run appends a second history rather than replacing the first. */
  lemma {:induction false} AfterHistoryAppend(t: Tables, a: seq<GitCommit>, b: seq<GitCommit>, parse: Parser)
    ensures AfterHistory(t, a + b, parse) == AfterHistory(AfterHistory(t, a, parse), b, parse)
    decreases |b|
  {
    if b == [] {
      assert a + b == a;
    } else {
      var b' := b[..|b| - 1];
      assert (a + b)[..|a + b| - 1] == a + b';
      AfterHistoryAppend(t, a, b', parse);
    }
  }
}
