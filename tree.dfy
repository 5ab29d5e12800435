/**
 * The in-memory directory tree (the Go `Node` struct) and positions in it.
 * A position is the sequence of child indices that leads from the root to a node;
 * it stands for a `*Node` pointer, which is sound because every node has one parent.
 */
module Tree {

  /** One filesystem entry: display name, directory flag, byte size, ordered children. */
  datatype Node = Node(name: string, isDir: bool, size: int, children: seq<Node>)

  /** The root of a tree for the start path: a directory with no children yet. */
  function Root(path: string): (t: Node)
    ensures t.isDir && t.children == [] && t.name == path
  {
    Node(path, true, 0, [])
  }

  /** A fresh node for one visited entry. */
  function Leaf(name: string, isDir: bool, size: int): (t: Node)
    ensures t.children == [] && t.name == name && t.isDir == isDir && t.size == size
  {
    Node(name, isDir, size, [])
  }

  /** `pos` leads from `t` to an existing node. */
  predicate ValidPos(t: Node, pos: seq<nat>)
    decreases |pos|
  {
    |pos| == 0 || (pos[0] < |t.children| && ValidPos(t.children[pos[0]], pos[1..]))
  }

  /** The node at a position. */
  function At(t: Node, pos: seq<nat>): Node
    requires ValidPos(t, pos)
    decreases |pos|
  {
    if |pos| == 0 then t else At(t.children[pos[0]], pos[1..])
  }

  /** One step further down a valid position stays valid when the index is in range. */
  lemma {:induction false} ValidPosExtend(t: Node, pos: seq<nat>, k: nat)
    requires ValidPos(t, pos) && k < |At(t, pos).children|
    ensures ValidPos(t, pos + [k])
    ensures At(t, pos + [k]) == At(t, pos).children[k]
    decreases |pos|
  {
    if |pos| > 0 {
      ValidPosExtend(t.children[pos[0]], pos[1..], k);
      assert (pos + [k])[1..] == pos[1..] + [k];
    }
  }

  /** The tree with `n` appended at the end of the children of the node at `pos`. */
  function AppendAt(t: Node, pos: seq<nat>, n: Node): (r: Node)
    requires ValidPos(t, pos)
    ensures ValidPos(r, pos)
    ensures At(r, pos).children == At(t, pos).children + [n]
    ensures At(r, pos).name == At(t, pos).name && At(r, pos).isDir == At(t, pos).isDir
    ensures At(r, pos).size == At(t, pos).size
    ensures r.name == t.name && r.isDir == t.isDir && r.size == t.size
    ensures |pos| > 0 ==> |r.children| == |t.children|
    decreases |pos|
  {
    if |pos| == 0 then t.(children := t.children + [n])
    else t.(children := t.children[pos[0] := AppendAt(t.children[pos[0]], pos[1..], n)])
  }

  /** Appending leaves every node off the path to `pos` as it was, and every node on the
      path keeps its fields; strict ancestors also keep their number of children. */
  lemma {:induction false} AppendAtFrame(t: Node, pos: seq<nat>, n: Node, q: seq<nat>)
    requires ValidPos(t, pos) && ValidPos(t, q)
    ensures ValidPos(AppendAt(t, pos, n), q)
    ensures !(q <= pos) ==> At(AppendAt(t, pos, n), q) == At(t, q)
    ensures q <= pos ==>
      && At(AppendAt(t, pos, n), q).name == At(t, q).name
      && At(AppendAt(t, pos, n), q).isDir == At(t, q).isDir
      && At(AppendAt(t, pos, n), q).size == At(t, q).size
    ensures q < pos ==> |At(AppendAt(t, pos, n), q).children| == |At(t, q).children|
    decreases |q|
  {
    var r := AppendAt(t, pos, n);
    if |q| > 0 {
      if |pos| == 0 {
        assert r.children[q[0]] == t.children[q[0]];
      } else if q[0] == pos[0] {
        AppendAtFrame(t.children[pos[0]], pos[1..], n, q[1..]);
        assert q <= pos <==> q[1..] <= pos[1..];
        assert q < pos <==> q[1..] < pos[1..];
      } else {
        assert r.children[q[0]] == t.children[q[0]];
      }
    }
  }

  /** The number of nodes in a tree, the root included. */
  function Size(t: Node): nat
    decreases t, |t.children| + 1
  {
    1 + SizeOfFirst(t, |t.children|)
  }

  /** The number of nodes in the first `k` subtrees of `t`. */
  function SizeOfFirst(t: Node, k: nat): nat
    requires k <= |t.children|
    decreases t, k
  {
    if k == 0 then 0 else SizeOfFirst(t, k - 1) + Size(t.children[k - 1])
  }

  /** The number of nodes in a sequence of trees. SizeOfFirst follows a node's own child
      list so that Size terminates on the tree; Total counts any sequence of trees, which
      the permutation argument of sorting needs. SizeIsTotal says they agree. */
  function Total(ts: seq<Node>): nat
  {
    if |ts| == 0 then 0 else Total(ts[..|ts| - 1]) + Size(ts[|ts| - 1])
  }

  lemma {:induction false} SizeIsTotal(t: Node, k: nat)
    requires k <= |t.children|
    ensures SizeOfFirst(t, k) == Total(t.children[..k])
  {
    if k > 0 {
      SizeIsTotal(t, k - 1);
      assert t.children[..k][..k - 1] == t.children[..k - 1];
    }
  }

  lemma {:induction false} TotalAppend(a: seq<Node>, b: seq<Node>)
    ensures Total(a + b) == Total(a) + Total(b)
    decreases |b|
  {
    if |b| > 0 {
      TotalAppend(a, b[..|b| - 1]);
      assert (a + b)[..|a + b| - 1] == a + b[..|b| - 1];
    } else {
      assert a + b == a;
    }
  }

  /** Appending one node under any existing node adds exactly the new subtree's nodes. */
  lemma {:induction false} AppendAtSize(t: Node, pos: seq<nat>, n: Node)
    requires ValidPos(t, pos)
    ensures Size(AppendAt(t, pos, n)) == Size(t) + Size(n)
    decreases |pos|
  {
    var r := AppendAt(t, pos, n);
    SizeIsTotal(t, |t.children|);
    SizeIsTotal(r, |r.children|);
    assert t.children[..|t.children|] == t.children;
    assert r.children[..|r.children|] == r.children;
    if |pos| == 0 {
      assert r.children == t.children + [n];
      TotalAppend(t.children, [n]);
      assert [n][..0] == [];
    } else {
      var i := pos[0];
      AppendAtSize(t.children[i], pos[1..], n);
      var c := t.children;
      assert c == c[..i] + [c[i]] + c[i + 1..];
      assert r.children == c[..i] + [r.children[i]] + c[i + 1..];
      TotalAppend(c[..i] + [c[i]], c[i + 1..]);
      TotalAppend(c[..i], [c[i]]);
      TotalAppend(c[..i] + [r.children[i]], c[i + 1..]);
      TotalAppend(c[..i], [r.children[i]]);
      assert [c[i]][..0] == [] && [r.children[i]][..0] == [];
    }
  }

  /** No file has children (a well-formed directory tree). */
  predicate FilesAreLeaves(t: Node)
    decreases t
  {
    (!t.isDir ==> t.children == []) &&
    forall i :: 0 <= i < |t.children| ==> FilesAreLeaves(t.children[i])
  }
}
