/**
 * dirTree: walks the start path into a tree, sorts it, and prints the root's
 * children one after another, stopping at the first error.
 */
module DirTree {
  import opened Wrappers
  import opened Strings
  import opened Tree
  import opened Builder
  import opened Sorter
  import opened Render

  /** What dirTree returns: the error the walk met, or a failed write. */
  datatype Error = WalkError(message: string) | WriteError

  /** Everything dirTree writes for the built tree when every write succeeds: the
      lines of the root's children in the sorted tree. */
  function Listing(t: Node): seq<string>
  {
    var sorted := SortTree(t);
    KidsLines(sorted, [], |sorted.children|)
  }

  /** The listing is the text of the sorted tree's rows below the root. */
  lemma ListingIsTexts(t: Node)
    ensures Listing(t) == Texts(RenderRoot(SortTree(t)))
  {
    var sorted := SortTree(t);
    KidsLinesAreTexts(sorted, [], |sorted.children|);
  }

  /** Once the walk has failed, later steps change nothing: the error is the first one. */
  lemma {:induction false} BuildFailureSticks(startPath: string, printFiles: bool, steps: seq<WalkStep>, k: nat)
    requires k <= |steps| && Build(startPath, printFiles, steps[..k]).Failure?
    ensures Build(startPath, printFiles, steps) == Build(startPath, printFiles, steps[..k])
    decreases |steps| - k
  {
    if k < |steps| {
      var next := steps[..k + 1];
      assert next[..k] == steps[..k];
      BuildFailureSticks(startPath, printFiles, steps, k + 1);
    } else {
      assert steps[..k] == steps;
    }
  }

  /** One more step of the walk: an error ends it, an entry goes through the callback. */
  lemma BuildStep(startPath: string, printFiles: bool, steps: seq<WalkStep>, i: nat, t: Node)
    requires i < |steps| && Build(startPath, printFiles, steps[..i]) == Success(t)
    ensures Build(startPath, printFiles, steps[..i + 1])
         == if steps[i].Fault? then Failure(steps[i].message)
            else Success(Inserted(t, startPath, printFiles, steps[i]))
  {
    assert steps[..i + 1][..i] == steps[..i];
  }

  /** filepath.Walk driving the callback over the given steps: the tree built so far,
      or the first error, which stops the walk. */
  method Walk(path: string, printFiles: bool, steps: seq<WalkStep>) returns (r: Result<Node, string>)
    ensures r == Build(path, printFiles, steps)
  {
    var builder := new TreeBuilder(path, printFiles);
    var i := 0;
    while i < |steps|
      invariant 0 <= i <= |steps|
      invariant builder.startPath == path && builder.printFiles == printFiles
      invariant Build(path, printFiles, steps[..i]) == Success(builder.tree)
    {
      BuildStep(path, printFiles, steps, i, builder.tree);
      var e := builder.Visit(steps[i]);
      if e.Some? {
        BuildFailureSticks(path, printFiles, steps, i + 1);
        return Failure(e.value);
      }
      i := i + 1;
    }
    assert steps[..i] == steps;
    r := Success(builder.tree);
  }

  /** The loop of dirTree over the root's children: each printed at level 0 and told
      whether it is the last one; the first failed write ends it. */
  method PrintRoot(out: Writer, tree: Node) returns (ok: bool)
    requires out.Healthy()
    modifies out
    ensures Wrote(out.failAt, old(out.lines), out.lines, KidsLines(tree, [], |tree.children|), ok)
  {
    var i := 0;
    while i < |tree.children|
      invariant 0 <= i <= |tree.children|
      invariant out.lines == old(out.lines) + KidsLines(tree, [], i)
      invariant out.Healthy()
    {
      var isLast := i == |tree.children| - 1;
      ghost var mid := out.lines;
      ok := PrintTree(out, tree.children[i], 0, [] + [isLast]);
      KidsStep(out.failAt, old(out.lines), mid, out.lines, tree, [], i, ok);
      if !ok {
        return;
      }
      i := i + 1;
    }
    ok := true;
  }

  /** What dirTree leaves behind, given what the walk produced: a walk error is
      returned and nothing is written; otherwise the listing is written in order until
      a write fails, and exactly then a write error is returned. */
  predicate Outcome(built: Result<Node, string>, failAt: Option<nat>, before: seq<string>,
                    after: seq<string>, err: Option<Error>)
    requires Fits(failAt, |before|)
  {
    match built
    case Failure(message) => err == Some(WalkError(message)) && after == before
    case Success(t) =>
      && after == before + Cut(failAt, |before|, Listing(t))
      && (err == None <==> Fits(failAt, |before| + |Listing(t)|))
      && (err != None ==> err == Some(WriteError))
  }

  /** dirTree(out, path, printFiles) with the walk of `path` given as its steps.
      A walk error is returned before anything is written; otherwise the sorted tree's
      lines are written in order until a write fails, and that failure is returned. */
  method DirTree(out: Writer, path: string, printFiles: bool, steps: seq<WalkStep>) returns (err: Option<Error>)
    requires out.Healthy()
    modifies out
    ensures Outcome(Build(path, printFiles, steps), out.failAt, old(out.lines), out.lines, err)
  {
    var built := Walk(path, printFiles, steps);
    if built.Failure? {
      return Some(WalkError(built.error));
    }
    var tree := SortTree(built.value);
    var ok := PrintRoot(out, tree);
    err := if ok then None else Some(WriteError);
  }

  /** One line per node below the root: the root itself is never printed. */
  lemma ListingCount(t: Node)
    requires FilesAreLeaves(t)
    ensures |Listing(t)| == Size(t) - 1
  {
    SortTreeKeepsLeaves(t);
    SortTreeSize(t);
    RenderRootCount(SortTree(t));
    ListingIsTexts(t);
  }

  /** Every printed line reads back as a node of the sorted tree drawn below the root:
      an ancestry vector of at least one level, then the node's label. */
  lemma ListingReadsBack(t: Node, j: nat)
    requires j < |RenderRoot(SortTree(t))|
    ensures |Listing(t)| == |RenderRoot(SortTree(t))|
    ensures var row := RenderRoot(SortTree(t))[j];
      && |row.isLast| >= 1
      && ParseLine(Listing(t)[j]) == Some((row.isLast, Label(row.node)))
  {
    var rows := RenderRoot(SortTree(t));
    RenderRootDepth(SortTree(t));
    TextReadsBack(rows[j]);
    ListingIsTexts(t);
  }

  /** A root holding only directory "a": "a" is the last child, drawn with └───. */
  lemma OnlyDirectoryListing()
    ensures Listing(Node(".", true, 0, [Node("a", true, 0, [])])) == ["└───a"]
  {
    var a := Node("a", true, 0, []);
    var r := Node(".", true, 0, [a]);
    assert SortedTree(r);
    SortTreeSorted(r);
    assert Text(Row([true], a)) == "└───a";
    assert KidsLines(r, [], 1) == TreeLines(a, [] + [true]);
  }

  /** The same root with a 5-byte file "b.txt" beside "a": "a" now has a later sibling
      and is drawn with ├───, so the listing without files is not a subsequence of the
      listing with them. */
  lemma DirectoryAndFileListing()
    ensures Listing(Node(".", true, 0, [Node("a", true, 0, []), Node("b.txt", false, 5, [])]))
         == ["├───a", "└───b.txt (5b)"]
  {
    var a := Node("a", true, 0, []);
    var b := Node("b.txt", false, 5, []);
    var r := Node(".", true, 0, [a, b]);
    DirectoryAndFileSorted();
    assert Text(Row([false], a)) == "├───a";
    FileLine();
    assert KidsLines(r, [], 2) == KidsLines(r, [], 1) + TreeLines(b, [] + [true]);
  }

  lemma DirectoryAndFileSorted()
    ensures var r := Node(".", true, 0, [Node("a", true, 0, []), Node("b.txt", false, 5, [])]);
      SortTree(r) == r
  {
    var r := Node(".", true, 0, [Node("a", true, 0, []), Node("b.txt", false, 5, [])]);
    assert !Less("b.txt", "a");
    assert SortedTree(r);
    SortTreeSorted(r);
  }

  lemma FileLine()
    ensures Text(Row([true], Node("b.txt", false, 5, []))) == "└───b.txt (5b)"
  {
    assert Decimal(5) == "5";
  }
}
