/** The version-control side of the indexer: a commit's tree as a value, and the
    depth-first walk `analyze_commit` performs over it with an explicit stack of
    (path, tree) pairs. */
module GitTree {

  /** One entry of a git tree: a subdirectory, a file, or anything else git can put in
      a tree (a submodule commit, for instance), which the walk ignores. */
  datatype Entry =
    | Tree(name: string, children: seq<Entry>)
    | Blob(name: string, data: seq<bv8>)
    | Other(name: string)

  /** A commit as the history walk yields it: its raw id bytes, its commit time in
      seconds and timezone offset in minutes, and the entries of its root tree. */
  datatype GitCommit = GitCommit(id: seq<bv8>, time: int, timeOffset: int, tree: seq<Entry>)

  /** One item of the walk's worklist: the names of the enclosing trees and the
      entries of the tree to scan. */
  datatype Frame = Frame(path: seq<string>, children: seq<Entry>)

  /** A file handed to the analyzer: its path segments and its content. */
  datatype SourceFile = SourceFile(path: seq<string>, data: seq<bv8>)

  /** `name.endswith(".py")`. */
  predicate IsPython(name: string) {
    |name| >= 3 && name[|name| - 3..] == ".py"
  }

  /** Number of entries in a forest, counting every nested entry once. */
  function Weight(es: seq<Entry>): nat
    decreases es
  {
    if es == [] then 0
    else
      Weight(es[..|es| - 1]) +
      match es[|es| - 1]
      case Tree(_, ch) => 1 + Weight(ch)
      case _ => 1
  }

  /** Termination measure of the walk: one per frame plus what the frame still holds. */
  function StackWeight(stack: seq<Frame>): nat {
    if stack == [] then 0
    else StackWeight(stack[..|stack| - 1]) + 1 + Weight(stack[|stack| - 1].children)
  }

  /** What the loop body does with one entry of a frame: a `.py` blob is handed to the
      analyzer with the frame's path followed by its name, a subtree is pushed as a frame
      with that accumulated path, anything else is skipped. */
  function EntryFile(path: seq<string>, e: Entry): seq<SourceFile> {
    match e
    case Blob(n, d) => if IsPython(n) then [SourceFile(path + [n], d)] else []
    case _ => []
  }

  function EntryFrame(path: seq<string>, e: Entry): seq<Frame> {
    match e
    case Tree(n, ch) => [Frame(path + [n], ch)]
    case _ => []
  }

  /** The first half of scanning one frame: the `.py` blobs of `es`, in entry order. */
  function Scanned(path: seq<string>, es: seq<Entry>): (r: seq<SourceFile>)
    ensures |r| <= |es|
  {
    if es == [] then [] else Scanned(path, es[..|es| - 1]) + EntryFile(path, es[|es| - 1])
  }

  /** The second half of scanning one frame: the subtrees of `es`, in entry order, as
      frames with their accumulated path; they are pushed onto the stack. */
  function Pushed(path: seq<string>, es: seq<Entry>): (r: seq<Frame>)
    ensures |r| <= |es|
  {
    if es == [] then [] else Pushed(path, es[..|es| - 1]) + EntryFrame(path, es[|es| - 1])
  }

  /** Scanning one more entry of a frame. */
  lemma ScanStep(path: seq<string>, es: seq<Entry>, i: nat)
    requires i < |es|
    ensures Scanned(path, es[..i + 1]) == Scanned(path, es[..i]) + EntryFile(path, es[i])
    ensures Pushed(path, es[..i + 1]) == Pushed(path, es[..i]) + EntryFrame(path, es[i])
  {
    assert es[..i + 1][..i] == es[..i];
  }

  /** One step of scanning a frame's entries in order: the stack after entry `i` holds
      the subtrees of the first `i + 1` entries. */
  lemma PushStep(stack: seq<Frame>, path: seq<string>, es: seq<Entry>, i: nat, st: seq<Frame>, st': seq<Frame>)
    requires i < |es|
    requires st == stack + Pushed(path, es[..i])
    requires st' == st + EntryFrame(path, es[i])
    ensures st' == stack + Pushed(path, es[..i + 1])
  {
    ScanStep(path, es, i);
  }

  lemma {:induction false} StackWeightAppend(a: seq<Frame>, b: seq<Frame>)
    ensures StackWeight(a + b) == StackWeight(a) + StackWeight(b)
    decreases |b|
  {
    if b != [] {
      var b' := b[..|b| - 1];
      assert (a + b)[..|a + b| - 1] == a + b';
      StackWeightAppend(a, b');
    } else {
      assert a + b == a;
    }
  }

  /** The frames a scan pushes weigh less than the frame they came from. */
  lemma {:induction false} PushedWeight(path: seq<string>, es: seq<Entry>)
    ensures StackWeight(Pushed(path, es)) <= Weight(es)
    decreases |es|
  {
    if es != [] {
      var es' := es[..|es| - 1];
      PushedWeight(path, es');
      match es[|es| - 1]
      case Tree(n, ch) =>
        StackWeightAppend(Pushed(path, es'), [Frame(path + [n], ch)]);
        assert StackWeight([Frame(path + [n], ch)]) == 1 + Weight(ch) by {
          assert [Frame(path + [n], ch)][..0] == [];
        }
      case Blob(_, _) =>
        assert Pushed(path, es) == Pushed(path, es');
      case Other(_) =>
        assert Pushed(path, es) == Pushed(path, es');
    }
  }

  /** The files the `while stack` loop hands to the analyzer, in order: pop the last
      frame, analyze its `.py` blobs, push its subtrees, repeat until the stack is empty. */
  function WalkFiles(stack: seq<Frame>): seq<SourceFile>
    decreases StackWeight(stack)
  {
    if stack == [] then []
    else
      var top, rest := stack[|stack| - 1], stack[..|stack| - 1];
      PushedWeight(top.path, top.children);
      StackWeightAppend(rest, Pushed(top.path, top.children));
      Scanned(top.path, top.children) + WalkFiles(rest + Pushed(top.path, top.children))
  }

  /** One iteration of the `while stack` loop: after the files `done`, popping the last
      frame `top` hands over the frame's blobs and then walks the rest of the stack plus the
      frame's subtrees, which weighs less. */
  lemma WalkFilesStep(done: seq<SourceFile>, rest: seq<Frame>, top: Frame)
    ensures done + WalkFiles(rest + [top]) ==
              (done + Scanned(top.path, top.children)) + WalkFiles(rest + Pushed(top.path, top.children))
    ensures StackWeight(rest + Pushed(top.path, top.children)) < StackWeight(rest + [top])
  {
    var stack := rest + [top];
    assert stack[|stack| - 1] == top;
    assert stack[..|stack| - 1] == rest;
    var now, later := Scanned(top.path, top.children), WalkFiles(rest + Pushed(top.path, top.children));
    assert WalkFiles(stack) == now + later;
    assert done + (now + later) == (done + now) + later;
    WalkWeightStep(rest, top);
  }

  lemma WalkWeightStep(rest: seq<Frame>, top: Frame)
    ensures StackWeight(rest + Pushed(top.path, top.children)) < StackWeight(rest + [top])
  {
    var stack := rest + [top];
    assert stack[..|stack| - 1] == rest;
    PushedWeight(top.path, top.children);
    StackWeightAppend(rest, Pushed(top.path, top.children));
  }

  /** Reference definition: every `.py` blob under a tree whose path is `path`, found by
      plain structural recursion; its path is the enclosing tree names and its own name. */
  function PythonFiles(path: seq<string>, es: seq<Entry>): seq<SourceFile>
    decreases es
  {
    if es == [] then []
    else
      PythonFiles(path, es[..|es| - 1]) +
      match es[|es| - 1]
      case Tree(n, ch) => PythonFiles(path + [n], ch)
      case Blob(n, d) => if IsPython(n) then [SourceFile(path + [n], d)] else []
      case Other(_) => []
  }

  /** The reference files below every frame of a stack, counted with multiplicity. */
  ghost function StackFiles(stack: seq<Frame>): multiset<SourceFile> {
    if stack == [] then multiset{}
    else
      var top := stack[|stack| - 1];
      StackFiles(stack[..|stack| - 1]) + multiset(PythonFiles(top.path, top.children))
  }

  lemma {:induction false} StackFilesAppend(a: seq<Frame>, b: seq<Frame>)
    ensures StackFiles(a + b) == StackFiles(a) + StackFiles(b)
    decreases |b|
  {
    if b != [] {
      var b' := b[..|b| - 1];
      assert (a + b)[..|a + b| - 1] == a + b';
      StackFilesAppend(a, b');
    } else {
      assert a + b == a;
    }
  }

  /** Scanning one frame splits its reference files into the blobs analyzed right away
      and the files below the subtrees it pushes. */
  lemma {:induction false} ScanSplits(path: seq<string>, es: seq<Entry>)
    ensures multiset(PythonFiles(path, es)) == multiset(Scanned(path, es)) + StackFiles(Pushed(path, es))
    decreases |es|
  {
    if es != [] {
      var es' := es[..|es| - 1];
      ScanSplits(path, es');
      match es[|es| - 1]
      case Tree(n, ch) =>
        var f := Frame(path + [n], ch);
        assert PythonFiles(path, es) == PythonFiles(path, es') + PythonFiles(path + [n], ch);
        assert Scanned(path, es) == Scanned(path, es');
        assert Pushed(path, es) == Pushed(path, es') + [f];
        StackFilesAppend(Pushed(path, es'), [f]);
        assert [f][..0] == [];
        assert StackFiles([f]) == multiset(PythonFiles(path + [n], ch));
      case Blob(n, d) =>
        var here := if IsPython(n) then [SourceFile(path + [n], d)] else [];
        assert PythonFiles(path, es) == PythonFiles(path, es') + here;
        assert Scanned(path, es) == Scanned(path, es') + here;
        assert Pushed(path, es) == Pushed(path, es');
      case Other(_) =>
        assert PythonFiles(path, es) == PythonFiles(path, es');
        assert Scanned(path, es) == Scanned(path, es');
        assert Pushed(path, es) == Pushed(path, es');
    }
  }

  /** The loop hands over exactly the files below the frames on its stack, each as
      often as it occurs there. */
  lemma {:induction false} WalkFilesComplete(stack: seq<Frame>)
    ensures multiset(WalkFiles(stack)) == StackFiles(stack)
    decreases StackWeight(stack)
  {
    if stack != [] {
      var top, rest := stack[|stack| - 1], stack[..|stack| - 1];
      var pushed := Pushed(top.path, top.children);
      PushedWeight(top.path, top.children);
      StackWeightAppend(rest, pushed);
      WalkFilesComplete(rest + pushed);
      StackFilesAppend(rest, pushed);
      ScanSplits(top.path, top.children);
    }
  }

  /** The walk of a commit analyzes every `.py` blob of its tree, and nothing else, once
      per occurrence: the files it visits are a permutation of the reference files. */
  lemma WalkVisitsPythonBlobs(root: seq<Entry>)
    ensures multiset(WalkFiles([Frame([], root)])) == multiset(PythonFiles([], root))
  {
    WalkFilesComplete([Frame([], root)]);
    assert [Frame([], root)][..0] == [];
  }
}
