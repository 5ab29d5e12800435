/**
 * The tree builder: the callback that dirTree hands to filepath.Walk. Every visited
 * path below the start path becomes a node appended under the directory that the
 * path's intermediate segments lead to.
 */
module Builder {
  import opened Wrappers
  import opened Strings
  import opened Tree

  /** What the walk hands the callback: a visited entry (its path, info.Name(),
      info.IsDir(), info.Size()) or the error the walk met. */
  datatype WalkStep =
    | Entry(path: string, name: string, isDir: bool, size: int)
    | Fault(message: string)

  /** The index of the LAST child named `seg`, or -1 when there is none. */
  function LastMatch(kids: seq<Node>, seg: string): (k: int)
    ensures -1 <= k < |kids|
    ensures k >= 0 ==> kids[k].name == seg
    ensures forall j :: k < j < |kids| ==> kids[j].name != seg
  {
    if |kids| == 0 then -1
    else if kids[|kids| - 1].name == seg then |kids| - 1
    else LastMatch(kids[..|kids| - 1], seg)
  }

  /** One pass of the inner descent loop: move to the last child named `seg`,
      or stay at the current node when no child has that name. */
  function Step(t: Node, pos: seq<nat>, seg: string): (r: seq<nat>)
    requires ValidPos(t, pos)
    ensures ValidPos(t, r)
    ensures r == pos <==> forall j :: 0 <= j < |At(t, pos).children| ==> At(t, pos).children[j].name != seg
    ensures r != pos ==>
      && |r| == |pos| + 1 && r[..|pos|] == pos
      && r[|pos|] < |At(t, pos).children|
      && At(t, r) == At(t, pos).children[r[|pos|]]
      && At(t, r).name == seg
      && forall j :: r[|pos|] < j < |At(t, pos).children| ==> At(t, pos).children[j].name != seg
  {
    var k := LastMatch(At(t, pos).children, seg);
    if k < 0 then pos
    else
      ValidPosExtend(t, pos, k);
      assert (pos + [k])[..|pos|] == pos;
      pos + [k]
  }

  /** The outer descent loop: apply Step for segments i, i+1, ..., up to but
      excluding the last segment (the entry's own name). */
  function Descend(t: Node, segs: seq<string>, i: nat, pos: seq<nat>): (r: seq<nat>)
    requires ValidPos(t, pos)
    ensures ValidPos(t, r)
    decreases |segs| - i
  {
    if i + 1 >= |segs| then pos else Descend(t, segs, i + 1, Step(t, pos, segs[i]))
  }

  /** The path below the start path, split on "/": slash-free pieces that join back to
      what follows the start path, or to the whole path when it does not start with it. */
  function Segments(startPath: string, path: string): (r: seq<string>)
    ensures |r| >= 1 && forall i :: 0 <= i < |r| ==> '/' !in r[i]
    ensures startPath <= path ==> Join(r) == path[|startPath|..]
    ensures !(startPath <= path) ==> Join(r) == path
  {
    var rest := TrimPrefix(path, startPath);
    JoinSplit(rest);
    Split(rest)
  }

  /** Where the callback appends the node for `path`. Segment 0 is skipped: it is the
      empty piece in front of the "/" that follows the start path. */
  function Parent(t: Node, startPath: string, path: string): (p: seq<nat>)
    ensures ValidPos(t, p)
  {
    Descend(t, Segments(startPath, path), 1, [])
  }

  /** Whether the callback inserts a node for the entry. */
  predicate Kept(startPath: string, printFiles: bool, e: WalkStep)
    requires e.Entry?
  {
    e.path != startPath && (e.isDir || printFiles)
  }

  /** The tree after the callback has seen one entry. */
  function Inserted(t: Node, startPath: string, printFiles: bool, e: WalkStep): (r: Node)
    requires e.Entry?
    ensures e.path == startPath ==> r == t
    ensures !e.isDir && !printFiles ==> r == t
    ensures Kept(startPath, printFiles, e) ==>
      var p := Parent(t, startPath, e.path);
      && Size(r) == Size(t) + 1
      && ValidPos(r, p)
      && At(r, p).children == At(t, p).children + [Leaf(e.name, e.isDir, e.size)]
  {
    if !Kept(startPath, printFiles, e) then t
    else
      var p := Parent(t, startPath, e.path);
      var n := Leaf(e.name, e.isDir, e.size);
      AppendAtSize(t, p, n);
      AppendAt(t, p, n)
  }

  /** Every node other than the new one is where it was, with the same fields, and
      only the chosen parent's child list grows. */
  lemma InsertedFrame(t: Node, startPath: string, printFiles: bool, e: WalkStep, q: seq<nat>)
    requires e.Entry? && Kept(startPath, printFiles, e) && ValidPos(t, q)
    ensures ValidPos(Inserted(t, startPath, printFiles, e), q)
    ensures var r := Inserted(t, startPath, printFiles, e);
      var p := Parent(t, startPath, e.path);
      && At(r, q).name == At(t, q).name && At(r, q).isDir == At(t, q).isDir && At(r, q).size == At(t, q).size
      && (q != p ==> |At(r, q).children| == |At(t, q).children|)
      && (!(q <= p) ==> At(r, q) == At(t, q))
  {
    var p := Parent(t, startPath, e.path);
    AppendAtFrame(t, p, Leaf(e.name, e.isDir, e.size), q);
  }

  /** The walk: the callback applied to the steps in order; the first error stops it. */
  function Build(startPath: string, printFiles: bool, steps: seq<WalkStep>): (r: Result<Node, string>)
    ensures r.Success? ==> r.value.name == startPath && r.value.isDir
    ensures r.Success? ==> Size(r.value) == 1 + KeptCount(startPath, printFiles, steps)
    decreases |steps|
  {
    if |steps| == 0 then Success(Root(startPath))
    else
      var last := steps[|steps| - 1];
      match Build(startPath, printFiles, steps[..|steps| - 1])
      case Failure(m) => Failure(m)
      case Success(t) =>
        if last.Fault? then Failure(last.message)
        else Success(Inserted(t, startPath, printFiles, last))
  }

  /** The walk fails exactly when some step is an error, and then with the first error. */
  lemma {:induction false} BuildFailsAtFirstFault(startPath: string, printFiles: bool, steps: seq<WalkStep>)
    ensures Build(startPath, printFiles, steps).Failure? <==> exists i :: 0 <= i < |steps| && steps[i].Fault?
    ensures Build(startPath, printFiles, steps).Failure? ==>
      exists i :: 0 <= i < |steps| && steps[i].Fault? && Build(startPath, printFiles, steps).error == steps[i].message
        && forall j :: 0 <= j < i ==> steps[j].Entry?
    decreases |steps|
  {
    if |steps| > 0 {
      var init := steps[..|steps| - 1];
      BuildFailsAtFirstFault(startPath, printFiles, init);
      if Build(startPath, printFiles, init).Failure? {
        var i :| 0 <= i < |init| && init[i].Fault? && Build(startPath, printFiles, init).error == init[i].message
          && forall j :: 0 <= j < i ==> init[j].Entry?;
        assert steps[i] == init[i];
      } else if steps[|steps| - 1].Fault? {
        assert forall j :: 0 <= j < |steps| - 1 ==> steps[j] == init[j];
      } else {
        forall i | 0 <= i < |steps| ensures !steps[i].Fault? {
          if i < |steps| - 1 { assert steps[i] == init[i]; }
        }
      }
    }
  }

  /** How many of the steps the callback turns into nodes. */
  function KeptCount(startPath: string, printFiles: bool, steps: seq<WalkStep>): nat
  {
    if |steps| == 0 then 0
    else
      var last := steps[|steps| - 1];
      KeptCount(startPath, printFiles, steps[..|steps| - 1])
        + (if last.Entry? && Kept(startPath, printFiles, last) then 1 else 0)
  }

  /** The steps without the file entries: every directory entry and every error is
      kept, and nothing else. */
  function DirsOnly(steps: seq<WalkStep>): (r: seq<WalkStep>)
    ensures forall i :: 0 <= i < |r| ==> r[i].Fault? || r[i].isDir
    ensures forall s :: s in steps && (s.Fault? || s.isDir) ==> s in r
    ensures forall s :: s in r ==> s in steps
  {
    if |steps| == 0 then []
    else
      var init := steps[..|steps| - 1];
      var last := steps[|steps| - 1];
      assert steps == init + [last];
      DirsOnly(init) + (if last.Entry? && !last.isDir then [] else [last])
  }

  /** Filtering keeps the order: the kept steps of a + b are those of a, then those of b. */
  lemma {:induction false} DirsOnlyAppend(a: seq<WalkStep>, b: seq<WalkStep>)
    ensures DirsOnly(a + b) == DirsOnly(a) + DirsOnly(b)
    decreases |b|
  {
    if |b| == 0 {
      assert a + b == a;
    } else {
      var init := b[..|b| - 1];
      DirsOnlyAppend(a, init);
      assert (a + b)[..|a + b| - 1] == a + init;
    }
  }

  /** Without printFiles the tree is the one built, with printFiles, from the
      directory entries alone: directories are never dropped, files always are. */
  lemma {:induction false} BuildWithoutFiles(startPath: string, steps: seq<WalkStep>)
    ensures Build(startPath, false, steps) == Build(startPath, true, DirsOnly(steps))
    decreases |steps|
  {
    if |steps| > 0 {
      var init := steps[..|steps| - 1];
      var last := steps[|steps| - 1];
      BuildWithoutFiles(startPath, init);
      if last.Entry? && !last.isDir {
        assert DirsOnly(steps) == DirsOnly(init);
      } else {
        var d := DirsOnly(steps);
        assert d == DirsOnly(init) + [last];
        assert d[..|d| - 1] == DirsOnly(init);
      }
    }
  }

  /** An entry whose path is the start path plus "/" and a relative path is split into
      an empty first segment followed by the relative path's own segments. */
  lemma FirstSegmentEmpty(startPath: string, rel: string)
    ensures Segments(startPath, startPath + "/" + rel) == [""] + Split(rel)
  {
    var path := startPath + "/" + rel;
    assert startPath <= path;
    assert TrimPrefix(path, startPath) == "/" + rel;
    assert ("/" + rel)[1..] == rel;
  }

  /** When every intermediate segment names a child on the way down (the last such child
      when names repeat), the descent reaches the node those segments name. */
  lemma {:induction false} DescendFollowsPath(t: Node, segs: seq<string>, p: seq<nat>)
    requires |segs| == |p| + 2
    requires forall k :: 0 <= k <= |p| ==> ValidPos(t, p[..k])
    requires forall k :: 0 <= k < |p| ==> LastMatch(At(t, p[..k]).children, segs[k + 1]) == p[k]
    ensures Descend(t, segs, 1, []) == p
  {
    assert p[..0] == [];
    DescendFollowsFrom(t, segs, p, 1);
  }

  /** A matching child is where Step goes. */
  lemma StepToMatch(t: Node, pos: seq<nat>, seg: string)
    requires ValidPos(t, pos) && LastMatch(At(t, pos).children, seg) >= 0
    ensures Step(t, pos, seg) == pos + [LastMatch(At(t, pos).children, seg)]
  {
  }

  lemma {:induction false} DescendFollowsFrom(t: Node, segs: seq<string>, p: seq<nat>, i: nat)
    requires |segs| == |p| + 2 && 1 <= i <= |p| + 1
    requires forall k :: 0 <= k <= |p| ==> ValidPos(t, p[..k])
    requires forall k :: 0 <= k < |p| ==> LastMatch(At(t, p[..k]).children, segs[k + 1]) == p[k]
    ensures ValidPos(t, p[..i - 1]) && Descend(t, segs, i, p[..i - 1]) == p
    decreases |p| + 1 - i
  {
    assert ValidPos(t, p[..i - 1]);
    if i == |p| + 1 {
      assert p[..i - 1] == p;
    } else {
      var pos := p[..i - 1];
      assert LastMatch(At(t, pos).children, segs[i]) == p[i - 1];
      StepToMatch(t, pos, segs[i]);
      assert pos + [p[i - 1]] == p[..i];
      DescendFollowsFrom(t, segs, p, i + 1);
    }
  }

  /** With the start path ".", the walk reports paths such as "a/x" without a "./" in
      front, nothing is trimmed and the descent loop never runs: the entry is appended
      to the root rather than under "a". */
  lemma DotStartPath()
    ensures var a := Node("a", true, 0, []);
      Inserted(Node(".", true, 0, [a]), ".", true, Entry("a/x", "x", false, 0))
        == Node(".", true, 0, [a, Node("x", false, 0, [])])
  {
    assert "a/x"[0] != '.';
    assert !("." <= "a/x");
    assert Split("/x") == [""] + Split("x");
    SplitNoSlash("x");
    SplitPrefixed("a", "x");
    assert "a" + "/" + "x" == "a/x";
    assert Split("a/x") == ["a", "x"];
  }

  /** With the start path ".", deeper entries are placed by matching segments 1 .. n-2
      from the root, so the first path component is ignored: "a/b/x" goes under the
      root's child "b", not under "a". */
  lemma DotStartPathDeeper()
    ensures var a := Node("a", true, 0, []);
      var b := Node("b", true, 0, []);
      Inserted(Node(".", true, 0, [a, b]), ".", true, Entry("a/b/x", "x", false, 1))
        == Node(".", true, 0, [a, Node("b", true, 0, [Node("x", false, 1, [])])])
  {
    var t := Node(".", true, 0, [Node("a", true, 0, []), Node("b", true, 0, [])]);
    DotDeeperParent(t);
    var e := Entry("a/b/x", "x", false, 1);
    assert e.path != ".";
    assert Inserted(t, ".", true, e) == AppendAt(t, [1], Leaf("x", false, 1));
    var r := AppendAt(t, [1], Leaf("x", false, 1));
    assert r.children == [t.children[0], AppendAt(t.children[1], [], Leaf("x", false, 1))];
    assert AppendAt(t.children[1], [], Leaf("x", false, 1)) == Node("b", true, 0, [Node("x", false, 1, [])]);
  }

  lemma DotDeeperParent(t: Node)
    requires t == Node(".", true, 0, [Node("a", true, 0, []), Node("b", true, 0, [])])
    ensures Parent(t, ".", "a/b/x") == [1]
  {
    assert "a/b/x"[0] != '.';
    assert !("." <= "a/b/x");
    SplitNoSlash("x");
    SplitPrefixed("b", "x");
    SplitPrefixed("a", "b/x");
    assert "a" + "/" + "b/x" == "a/b/x" && "b" + "/" + "x" == "b/x";
    var segs := Segments(".", "a/b/x");
    assert segs == ["a", "b", "x"];
    assert LastMatch(t.children, "b") == 1;
    assert Step(t, [], "b") == [1];
    assert Descend(t, segs, 2, [1]) == [1];
  }

  /** The inner descent loop of the callback: scans every child of the node at
      `parent`, and the last one named `seg` wins. */
  method StepDown(t: Node, parent: seq<nat>, seg: string) returns (next: seq<nat>)
    requires ValidPos(t, parent)
    ensures next == Step(t, parent, seg)
  {
    var kids := At(t, parent).children;
    next := parent;
    var j := 0;
    while j < |kids|
      invariant 0 <= j <= |kids|
      invariant next == if LastMatch(kids[..j], seg) < 0 then parent else parent + [LastMatch(kids[..j], seg)]
    {
      if kids[j].name == seg {
        next := parent + [j];
      }
      assert kids[..j + 1][..j] == kids[..j];
      j := j + 1;
    }
    assert kids[..j] == kids;
  }

  /** The walk callback of dirTree, over the tree it builds in place. */
  class TreeBuilder {
    const startPath: string
    const printFiles: bool
    var tree: Node

    constructor (path: string, printFiles: bool)
      ensures startPath == path && this.printFiles == printFiles
      ensures tree == Root(path)
    {
      startPath := path;
      this.printFiles := printFiles;
      tree := Root(path);
    }

    /** Handles one step of the walk; an error is handed back, which stops the walk. */
    method Visit(step: WalkStep) returns (err: Option<string>)
      modifies this
      ensures step.Fault? ==> err == Some(step.message) && tree == old(tree)
      ensures step.Entry? ==> err == None && tree == Inserted(old(tree), startPath, printFiles, step)
    {
      if step.Fault? {
        return Some(step.message);
      }
      err := None;
      if step.path == startPath {
        return;
      }
      if !step.isDir && !printFiles {
        return;
      }
      var curPath := Split(TrimPrefix(step.path, startPath));
      var parent: seq<nat> := [];
      var i := 1;
      while i < |curPath| - 1
        invariant 1 <= i
        invariant tree == old(tree)
        invariant ValidPos(tree, parent)
        invariant Descend(tree, curPath, i, parent) == Parent(tree, startPath, step.path)
        decreases |curPath| - i
      {
        var next := StepDown(tree, parent, curPath[i]);
        parent := next;
        i := i + 1;
      }
      assert Descend(tree, curPath, i, parent) == parent;
      tree := AppendAt(tree, parent, Leaf(step.name, step.isDir, step.size));
    }
  }
}
