# hmsql history indexer — a Dafny model

`extract_class_info.py` builds a historical index of a Python code base. It walks a
git history from the oldest commit to the newest and records one `Commit` row per
commit. For every `.py` blob in the commit's tree it parses the file and records:

- one `Module` row;
- then, for each node of `root.values()` (astroid's module node lists one node per name bound at top level):
  - a class definition gives a `Class` row, an `Attribute` row per instance attribute and a `Function` row per method;
  - a function definition gives a `Function` row;
  - an assigned name (`AssignName`) gives an `Attribute` row;
  - any other node, an import for instance, gives nothing.

Rows are never updated. The five tables only grow.

The model has seven modules:

- `Wrappers`: the `Option` type.
- `GitTree` (`git_tree.dfy`): git trees as values, plus the `WalkFiles` function. `WalkFiles` gives the files the `while stack` worklist of `analyze_commit` hands over, in order. `PythonFiles` is an independent recursive definition of "every `.py` blob". The lemma `WalkVisitsPythonBlobs` proves both give the same files with the same multiplicities.
- `Schema` (`schema.dfy`): the five record kinds with owners stored as row indices, the `Tables` value, and these invariants:
  - referential integrity (`WellFormed`);
  - single ownership of Functions and Attributes (`Exclusive`);
  - append-only extension (`Extends`);
  - distinct hashes (`UniqueHashes`).
- `Analyzer` (`analyzer.dfy`): the parser's node kinds and `AfterNodes`/`AfterFile`, which give the tables after `analyze_file`. It also holds the lemmas on row counts, ownership and line spans.
- `History` (`history.dfy`): the tables after a list of files, after one commit (`AfterCommit`) and after a history (`AfterHistory`), with their lemmas.
- `EntityStore` (`entity_store.dfy`): `class Store`, whose `seq` fields are the tables. Its methods follow `extract_class_info.py` step by step:
  - one insert method per entity;
  - `AnalyzeFile` with its loop over the top-level nodes;
  - `WalkTree` with the `while stack` loop;
  - `AnalyzeCommit`;
  - `IndexHistory`, which is `main`'s loop.

  Each method is proved to leave the store equal to the matching function of `Analyzer`/`History` applied to its old contents.
- `Scenarios` (`scenarios.dfy`): worked instances on small concrete inputs.

The parser is a function parameter `parse: seq<bv8> -> Option<seq<Node>>`. `None` stands for `AstroidSyntaxError`. The git history is a `seq<GitCommit>` in the order the history walk yields it.

Two behaviours of the code are worth knowing:

- **Undecodable files.** The `blob.data.decode("utf-8")` at `extract_class_info.py:56` is outside the `try`, so a blob that is not UTF-8 raises and ends the run; it is not skipped like a syntax error. The model does not include this path (see "Left out").
- **Commit hashes.** `sha1 = orm.Required(bytes)` at `extract_class_info.py:15` has no `unique=True`, and nothing checks before the insert at line 95. A second run over the same store therefore appends a second copy of the history (`AfterHistoryAppend`). `DistinctHashes` states exactly when the hashes are unique.

## Model

| member | source | states |
|---|---|---|
| GitTree.IsPython | extract_class_info.py:106 | definition: `child.name.endswith(".py")` |
| GitTree.EntryFile | extract_class_info.py:105-108 | definition: a `.py` blob is handed over with the frame's path plus its name; any other entry gives nothing |
| GitTree.EntryFrame | extract_class_info.py:103-104 | definition: a subtree is pushed with the frame's path plus its name; any other entry gives nothing |
| GitTree.WalkFiles | extract_class_info.py:98-108 | definition: the files the `while stack` loop hands over, in order, popping the last frame each time; its meaning is proved in `WalkVisitsPythonBlobs` |
| GitTree.Scanned | extract_class_info.py:102-108 | scanning one frame hands over at most one file per entry |
| GitTree.Pushed | extract_class_info.py:102-104 | scanning one frame pushes at most one frame per entry |
| GitTree.ScanStep | extract_class_info.py:102-108 | handling one more entry adds exactly that entry's file (a `.py` blob) or frame (a subtree), after those of the earlier entries |
| GitTree.PushStep | extract_class_info.py:102-104 | after entry `i` the stack holds the old stack plus the subtrees of entries `0..i`, in order |
| GitTree.PushedWeight | extract_class_info.py:100-104 | the frames pushed for a tree weigh no more than the tree, so the loop terminates |
| GitTree.WalkFilesStep | extract_class_info.py:100-108 | one pop of the last frame hands over that frame's blobs, then walks the remaining stack plus its subtrees, whose weight is smaller |
| GitTree.WalkWeightStep | extract_class_info.py:100-104 | popping a frame and pushing its subtrees strictly decreases the stack's weight |
| GitTree.ScanSplits | extract_class_info.py:102-108 | a frame's `.py` blobs below it split into those handed over now plus those below the frames it pushes |
| GitTree.WalkFilesComplete | extract_class_info.py:98-108 | the worklist hands over exactly the `.py` blobs below every frame on the stack, each as often as it occurs |
| GitTree.WalkVisitsPythonBlobs | extract_class_info.py:98-108 | starting from `[([], tree)]`, the walk hands over every `.py` blob once, with the enclosing tree names plus the blob name as its path, and nothing else |
| Schema.JoinPath | extract_class_info.py:63 | definition: `"/".join(path)` |
| Schema.SplitJoinPath | extract_class_info.py:63 | a Module name `"/".join(path)` determines its path when the path is not empty and no segment contains `/`: splitting the name on `/` (the helper `SplitPath`) gives the path back |
| Analyzer.InstanceAttributes | extract_class_info.py:71-72 | one Attribute per instance-attribute name, in order, owned by the class only |
| Analyzer.Methods | extract_class_info.py:74-78 | as many Functions as FunctionDef children, each owned by the class only, carrying the class's `lineno`/`tolineno` and the name of a FunctionDef child |
| Analyzer.MethodsInOrder | extract_class_info.py:74-78 | the FunctionDef child at position `j` gives the row right after those of the FunctionDef children before it, with its name, the class as owner and the class's span: the methods are the FunctionDef children, in order |
| Analyzer.AfterNode | extract_class_info.py:66-86 | definition: the rows one top-level node adds, by kind |
| Analyzer.AfterFile | extract_class_info.py:53-86 | definition: nothing on a syntax error, otherwise the Module row, then the rows of each top-level node |
| Analyzer.AfterNodes | extract_class_info.py:65-86 | extracting a file's nodes adds no Commit and no Module |
| Analyzer.AfterNodesExtends | extract_class_info.py:65-86 | extracting a file's nodes only appends rows; every existing row keeps its index and value |
| Analyzer.AfterNodeExtends | extract_class_info.py:66-86 | one node only appends rows |
| Analyzer.AfterNodesPrefix | extract_class_info.py:65-86 | the rows of the first `k` nodes stay, unchanged and at the same indices, after all nodes |
| Analyzer.AfterNodesStep | extract_class_info.py:65-86 | the rows of node `j` start at the indices that follow the rows of the nodes before it, and they stay after all nodes |
| Analyzer.ClassBlock | extract_class_info.py:66-78 | a class's Class row, instance attributes and methods survive any append-only extension at their indices |
| Analyzer.AfterNodesClassRows | extract_class_info.py:66-78 | a ClassDef at position `j` gives, at the indices after the rows of the nodes before it, the Class row with its name, `lineno`, `tolineno` and the module as owner; its instance attributes, owned by that Class; and its methods, owned by that Class, with the class's span |
| Analyzer.AfterNodesFunctionRow | extract_class_info.py:80-83 | a top-level FunctionDef at position `j` gives, at the index after the Functions of the nodes before it, a Function with its own name and span, owned by the module only |
| Analyzer.AfterNodesAttributeRow | extract_class_info.py:85-86 | a top-level AssignName at position `j` gives, at the index after the Attributes of the nodes before it, an Attribute with its name, owned by the module only |
| Analyzer.AfterNodesCounts | extract_class_info.py:65-86 | the nodes add one Class per ClassDef, one Function per top-level FunctionDef plus one per method, and one Attribute per AssignName plus one per instance attribute |
| Analyzer.AfterNodesOwnership | extract_class_info.py:66-86 | every new Class belongs to the module; every new Function and Attribute has exactly one owner, either the module or a class added by this file; a method carries its class's span |
| Analyzer.AfterNodesExclusive | extract_class_info.py:72-86 | extraction keeps every Function and Attribute with exactly one of module/class set |
| History.Parsed | extract_class_info.py:58-61 | every file kept is one that parses |
| History.ParsedCount | extract_class_info.py:58-61 | the files kept are exactly the ones that parse, each as often as it occurs |
| History.ModulesForParsedSnoc | extract_class_info.py:58-63 | one more file that parses adds exactly one Module, named by its path |
| History.ParsedSkipSnoc | extract_class_info.py:58-61 | one more file that fails to parse adds no Module |
| History.ModulesForAppend | extract_class_info.py:100-108 | the Modules of `a + b` are those of `a` followed by those of `b` |
| History.AfterFiles | extract_class_info.py:100-108 | definition: `analyze_file` applied to each file in turn |
| History.AfterFilesSkipsFailures | extract_class_info.py:58-61 | a file that fails to parse leaves no rows, and the files after it are analyzed as if it were absent |
| History.AfterFileEffect | extract_class_info.py:58-63 | one file only appends, adds no Commit, and adds one Module, named by its path and owned by the commit, exactly when it parses |
| History.AfterFileExclusive | extract_class_info.py:63-86 | one file keeps single ownership of Functions and Attributes |
| History.AfterFilesEffect | extract_class_info.py:100-108 | the files of a walk only append, add no Commit, and add one Module per parsing file, in visiting order |
| History.AfterFilesSnoc | extract_class_info.py:102-108 | analyzing one more file is applying the per-file step to the tables so far |
| History.AfterFilesAppend | extract_class_info.py:100-108 | analyzing `a` then `b` equals analyzing `a + b` |
| History.ScanTreeStep | extract_class_info.py:102-108 | after entry `i` the tables are those of the `.py` blobs among entries `0..i` |
| History.AfterFilesExclusive | extract_class_info.py:100-108 | a sequence of files keeps single ownership |
| History.CommitFiles | extract_class_info.py:98-108 | definition: the walk over a commit's tree, starting from `[([], commit.tree)]` |
| History.AfterCommit | extract_class_info.py:90-108 | definition: the Commit row, then `analyze_file` for each file of the walk, owned by that row |
| History.AfterCommitEffect | extract_class_info.py:95-108 | one commit appends exactly one Commit row, then one Module per parsing file of its walk, owned by that row; earlier rows are untouched |
| History.AfterCommitExclusive | extract_class_info.py:90-108 | one commit keeps single ownership |
| History.AfterCommitFiles | extract_class_info.py:98-108 | a commit records a Module for each `.py` blob of its tree that parses, as often as it occurs, and for no other file |
| History.AfterHistory | extract_class_info.py:124-125 | definition: `analyze_commit` for each commit in turn |
| History.AfterHistoryEffect | extract_class_info.py:124-125 | the run appends exactly the history's Commit rows, in order, and never changes an earlier row |
| History.AfterHistoryExclusive | extract_class_info.py:124-125 | the run keeps single ownership |
| History.DistinctRecords | extract_class_info.py:95-96 | the Commit rows have distinct hashes if and only if the commits have distinct ids |
| History.DistinctHashes | extract_class_info.py:124-125 | a run from an empty store leaves distinct hashes if and only if the history has distinct ids; nothing else enforces it |
| History.AfterHistoryAppend | extract_class_info.py:124-125 | two runs into one store equal one run over the concatenated histories |
| EntityStore.Store.constructor | extract_class_info.py:11-48 | a new store is empty and well formed |
| EntityStore.Store.AddCommit | extract_class_info.py:14-17 | appends one Commit row and returns its index; all else unchanged |
| EntityStore.Store.AddModule | extract_class_info.py:20-25 | appends one Module of an existing Commit and returns its index |
| EntityStore.Store.AddClass | extract_class_info.py:28-34 | appends one Class of an existing Module and returns its index |
| EntityStore.Store.AddFunction | extract_class_info.py:37-42 | appends one Function whose given owners exist |
| EntityStore.Store.AddAttribute | extract_class_info.py:45-48 | appends one Attribute whose given owners exist |
| EntityStore.Store.AddClassDef | extract_class_info.py:66-78 | the class branch leaves the store equal to `AfterNode` of the ClassDef: the Class, its instance attributes, then its methods |
| EntityStore.Store.AnalyzeFile | extract_class_info.py:53-86 | `analyze_file` leaves the store equal to `AfterFile` of its old contents and adds no Commit |
| EntityStore.Store.ScanEntry | extract_class_info.py:102-108 | one entry: a subtree is pushed with its path, a `.py` blob is analyzed, anything else changes nothing |
| EntityStore.Store.ScanTree | extract_class_info.py:102-108 | one frame: the stack gains its subtrees and the store its `.py` blobs, in entry order |
| EntityStore.Store.WalkTree | extract_class_info.py:98-108 | the `while stack` loop analyzes exactly the files `WalkFiles` gives, in that order |
| EntityStore.Store.AnalyzeCommit | extract_class_info.py:90-108 | `analyze_commit` leaves the store equal to `AfterCommit` of its old contents and keeps single ownership |
| EntityStore.Store.IndexHistory | extract_class_info.py:124-125 | `main`'s loop appends the history's Commit rows in order, never changes an existing row, and keeps single ownership |
| Scenarios.ClassScenario | extract_class_info.py:66-78 | class `C` on lines 5-10 with attribute `x` and method `m` on lines 6-7 yields Class 5-10, Attribute `x` of the class, Function `m` of the class with span 5-10 |
| Scenarios.MethodSpanScenario | extract_class_info.py:65-86 | a module with `f`, class `C` and name `g` yields exactly those Class, Function and Attribute rows with those owners and spans |
| Scenarios.SyntaxErrorScenario | extract_class_info.py:58-61 | a file that fails to parse leaves every table unchanged |
| Scenarios.ScanRootScenario | extract_class_info.py:102-108 | the root frame of the example tree hands over `setup.py` and pushes `pkg` |
| Scenarios.ScanPackageScenario | extract_class_info.py:102-108 | the `pkg` frame hands over `pkg/a.py` and skips `README` |
| Scenarios.WalkScenario | extract_class_info.py:98-108 | the example tree's walk hands over `setup.py`, then `pkg/a.py`, and nothing else |

## Left out

- `dask_bench.py`: cluster provisioning and a network benchmark, with no indexing logic.
- Opening the repository with pygit2 and the `GIT_SORT_REVERSE` history walk: the commits are a `seq<GitCommit>` input in the order the walk yields them. Each commit carries its id bytes, its time and offset, and its root tree's entries in the order pygit2 lists them.
- Parsing with astroid and the meaning of `root.values()`: the parser is a function parameter giving `None` or the top-level nodes. A node that is an instance of `FunctionDef` (including `AsyncFunctionDef`, which subclasses it) is a `FunctionDef` node of the model.
- The UTF-8 decode at `extract_class_info.py:56`: the parser takes the blob's bytes. A blob that is not UTF-8 raises there and ends the run. The model has no such exception path: whatever `parse` returns for those bytes is used.
- The conversion of the commit time to a timezone-aware `datetime`: the model stores the raw time and offset.
- Clearing astroid's caches after each commit: foreign global state with no effect on the rows.
- pony's database binding and table creation, and the `db_session` transactions: the store is in memory, and the model does not express that a commit's rows become visible atomically.
- The `print` progress messages.
- Exceptions other than `AstroidSyntaxError`: none is modelled; in `extract_class_info.py` they end the run.
