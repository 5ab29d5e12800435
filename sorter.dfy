/**
 * sortTree: every node's children ordered by ascending name, at every depth.
 * sort.Slice itself is a library routine; here it is an insertion sort whose
 * contract is what the program relies on: the result is sorted and a permutation.
 */
module Sorter {
  import opened Strings
  import opened Tree

  /** Children in ascending order of name (no later name sorts before an earlier one). */
  predicate SortedByName(s: seq<Node>)
  {
    forall i, j :: 0 <= i < j < |s| ==> !Less(s[j].name, s[i].name)
  }

  /** Every child list in the tree is SortedByName. */
  predicate SortedTree(t: Node)
    decreases t
  {
    SortedByName(t.children) && forall i :: 0 <= i < |t.children| ==> SortedTree(t.children[i])
  }

  /** `x` placed in front of the first element whose name does not sort before its own. */
  function InsertByName(x: Node, s: seq<Node>): (r: seq<Node>)
    requires SortedByName(s)
    ensures SortedByName(r)
    ensures multiset(r) == multiset(s) + multiset{x}
    ensures forall i :: 0 <= i < |r| ==> r[i] == x || r[i] in s
  {
    if |s| == 0 || !Less(s[0].name, x.name) then
      NoneBefore(x, s);
      [x] + s
    else
      var rest := InsertByName(x, s[1..]);
      assert s == [s[0]] + s[1..];
      HeadStaysFirst(s[0], x, s[1..], rest);
      [s[0]] + rest
  }

  /** When `x` does not sort after the head of a sorted list, it sorts after none of it. */
  lemma NoneBefore(x: Node, s: seq<Node>)
    requires SortedByName(s) && (|s| == 0 || !Less(s[0].name, x.name))
    ensures forall j :: 0 <= j < |s| ==> !Less(s[j].name, x.name)
  {
    forall j | 0 < j < |s| ensures !Less(s[j].name, x.name) {
      NotLessTransitive(x.name, s[0].name, s[j].name);
    }
  }

  /** The head stays first when `x`, which sorts after it, goes into the tail. */
  lemma HeadStaysFirst(head: Node, x: Node, tail: seq<Node>, rest: seq<Node>)
    requires Less(head.name, x.name)
    requires SortedByName([head] + tail)
    requires forall i :: 0 <= i < |rest| ==> rest[i] == x || rest[i] in tail
    ensures forall j :: 0 <= j < |rest| ==> !Less(rest[j].name, head.name)
  {
    forall j | 0 <= j < |rest| ensures !Less(rest[j].name, head.name) {
      if rest[j] == x {
        LessAsymmetric(head.name, x.name);
      } else {
        var k :| 0 <= k < |tail| && tail[k] == rest[j];
        assert ([head] + tail)[0] == head && ([head] + tail)[k + 1] == tail[k];
      }
    }
  }

  /** sort.Slice(children, name less): a sorted permutation. */
  function SortByName(s: seq<Node>): (r: seq<Node>)
    ensures SortedByName(r)
    ensures multiset(r) == multiset(s)
  {
    if |s| == 0 then []
    else
      assert s == [s[0]] + s[1..];
      InsertByName(s[0], SortByName(s[1..]))
  }

  /** sortTree applied to the first `k` children of `t`. */
  function SortFirst(t: Node, k: nat): (r: seq<Node>)
    requires k <= |t.children|
    ensures |r| == k
    decreases t, k
  {
    if k == 0 then [] else SortFirst(t, k - 1) + [SortTree(t.children[k - 1])]
  }

  /** sortTree: the node with each child sorted in turn and its child list sorted by name.
      Sorting a child does not change its name, so this is the order the program produces
      by sorting the list first and the children after. */
  function SortTree(t: Node): (r: Node)
    ensures r.name == t.name && r.isDir == t.isDir && r.size == t.size
    ensures |r.children| == |t.children|
    ensures SortedByName(r.children)
    decreases t, |t.children| + 1
  {
    var kids := SortFirst(t, |t.children|);
    var sorted := SortByName(kids);
    assert |sorted| == |multiset(sorted)| == |multiset(kids)| == |kids|;
    t.(children := sorted)
  }

  lemma {:induction false} SortFirstAt(t: Node, k: nat, i: nat)
    requires i < k <= |t.children|
    ensures SortFirst(t, k)[i] == SortTree(t.children[i])
    decreases k
  {
    if i < k - 1 {
      SortFirstAt(t, k - 1, i);
    }
  }

  /** After sortTree, the child list of every node at every depth is in order. */
  lemma {:induction false} SortTreeIsSorted(t: Node)
    ensures SortedTree(SortTree(t))
    decreases t
  {
    var kids := SortFirst(t, |t.children|);
    var r := SortTree(t);
    forall i | 0 <= i < |r.children| ensures SortedTree(r.children[i]) {
      assert r.children[i] in multiset(kids);
      var j :| 0 <= j < |kids| && kids[j] == r.children[i];
      SortFirstAt(t, |t.children|, j);
      SortTreeIsSorted(t.children[j]);
    }
  }

  /** Each child list after sorting is a permutation of the (recursively sorted) children
      it had, and carries the same multiset of names as before. */
  lemma SortTreePermutes(t: Node)
    ensures multiset(SortTree(t).children) == multiset(SortFirst(t, |t.children|))
    ensures multiset(Names(SortTree(t).children)) == multiset(Names(t.children))
  {
    var kids := SortFirst(t, |t.children|);
    var r := SortTree(t);
    assert r.children == SortByName(kids);
    forall i | 0 <= i < |kids| ensures kids[i].name == t.children[i].name {
      SortFirstAt(t, |t.children|, i);
    }
    NamesPointwise(kids, t.children);
    NamesPermute(r.children, kids);
  }

  lemma {:induction false} NamesPointwise(a: seq<Node>, b: seq<Node>)
    requires |a| == |b| && forall i :: 0 <= i < |a| ==> a[i].name == b[i].name
    ensures Names(a) == Names(b)
  {
    if |a| > 0 {
      NamesPointwise(a[1..], b[1..]);
    }
  }

  /** The names of a child list, in order. */
  function Names(s: seq<Node>): seq<string>
  {
    if |s| == 0 then [] else [s[0].name] + Names(s[1..])
  }

  lemma {:induction false} NamesPermute(a: seq<Node>, b: seq<Node>)
    requires multiset(a) == multiset(b)
    ensures multiset(Names(a)) == multiset(Names(b))
    decreases |a|
  {
    if |a| > 0 {
      var k := RemoveMatching(a, b);
      var b' := b[..k] + b[k + 1..];
      NamesPermute(a[1..], b');
      NamesRemove(b, k);
      assert multiset(Names(a)) == multiset(Names(a[1..])) + multiset{a[0].name};
    } else {
      assert |b| == |multiset(b)| == 0;
    }
  }

  /** The head of `a` occurs in its permutation `b`; without them the rests are permutations. */
  lemma RemoveMatching<T>(a: seq<T>, b: seq<T>) returns (k: nat)
    requires |a| > 0 && multiset(a) == multiset(b)
    ensures k < |b| && b[k] == a[0]
    ensures multiset(a[1..]) == multiset(b[..k] + b[k + 1..])
  {
    assert a[0] in multiset(b);
    k :| 0 <= k < |b| && b[k] == a[0];
    MultisetRemove(a, 0);
    assert a[..0] + a[1..] == a[1..];
    MultisetRemove(b, k);
    assert multiset(a[1..]) == multiset(a) - multiset{a[0]};
  }

  /** Taking child k out of a list takes one copy of its name out of the names. */
  lemma {:induction false} NamesRemove(s: seq<Node>, k: nat)
    requires k < |s|
    ensures multiset(Names(s)) == multiset(Names(s[..k] + s[k + 1..])) + multiset{s[k].name}
  {
    if k == 0 {
      assert s[..k] + s[k + 1..] == s[1..];
    } else {
      NamesRemove(s[1..], k - 1);
      assert s[..k] + s[k + 1..] == [s[0]] + (s[1..][..k - 1] + s[1..][k..]);
    }
  }

  /** Taking element k out of a sequence takes one copy of it out of its multiset. */
  lemma MultisetRemove<T>(s: seq<T>, k: nat)
    requires k < |s|
    ensures multiset(s) == multiset(s[..k] + s[k + 1..]) + multiset{s[k]}
  {
    assert s == s[..k] + [s[k]] + s[k + 1..];
  }

  /** Sorting keeps every node: the tree has as many nodes afterwards. */
  lemma {:induction false} SortTreeSize(t: Node)
    ensures Size(SortTree(t)) == Size(t)
    decreases t
  {
    var kids := SortFirst(t, |t.children|);
    var r := SortTree(t);
    forall i | 0 <= i < |t.children| ensures Size(kids[i]) == Size(t.children[i]) {
      SortFirstAt(t, |t.children|, i);
      SortTreeSize(t.children[i]);
    }
    SizeIsTotal(t, |t.children|);
    SizeIsTotal(r, |r.children|);
    assert t.children[..|t.children|] == t.children;
    assert r.children[..|r.children|] == r.children;
    TotalPointwise(kids, t.children);
    TotalPermute(r.children, kids);
  }

  lemma {:induction false} TotalPointwise(a: seq<Node>, b: seq<Node>)
    requires |a| == |b| && forall i :: 0 <= i < |a| ==> Size(a[i]) == Size(b[i])
    ensures Total(a) == Total(b)
  {
    if |a| > 0 {
      TotalPointwise(a[..|a| - 1], b[..|b| - 1]);
    }
  }

  lemma {:induction false} TotalPermute(a: seq<Node>, b: seq<Node>)
    requires multiset(a) == multiset(b)
    ensures Total(a) == Total(b)
    decreases |a|
  {
    if |a| > 0 {
      var x := a[|a| - 1];
      assert x in multiset(b);
      var k :| 0 <= k < |b| && b[k] == x;
      var b' := b[..k] + b[k + 1..];
      assert b == b[..k] + [x] + b[k + 1..];
      assert a == a[..|a| - 1] + [x];
      assert multiset(a) == multiset(a[..|a| - 1]) + multiset{x};
      assert multiset(b) == multiset(b[..k]) + multiset{x} + multiset(b[k + 1..]);
      assert multiset(b') == multiset(b[..k]) + multiset(b[k + 1..]);
      assert multiset(a[..|a| - 1]) == multiset(a) - multiset{x};
      assert multiset(b') == multiset(b) - multiset{x};
      TotalPermute(a[..|a| - 1], b');
      TotalAppend(b[..k] + [x], b[k + 1..]);
      TotalAppend(b[..k], [x]);
      TotalAppend(b[..k], b[k + 1..]);
      assert [x][..0] == [];
    }
  }

  /** Sorting an already sorted list changes nothing. */
  lemma {:induction false} SortByNameSorted(s: seq<Node>)
    requires SortedByName(s)
    ensures SortByName(s) == s
  {
    if |s| > 0 {
      SortByNameSorted(s[1..]);
      assert SortByName(s) == InsertByName(s[0], s[1..]);
    }
  }

  /** A sorted tree is its own sorted form, so sortTree is idempotent. */
  lemma {:induction false} SortTreeSorted(t: Node)
    requires SortedTree(t)
    ensures SortTree(t) == t
    decreases t
  {
    var kids := SortFirst(t, |t.children|);
    forall i | 0 <= i < |t.children| ensures kids[i] == t.children[i] {
      SortFirstAt(t, |t.children|, i);
      SortTreeSorted(t.children[i]);
    }
    assert kids == t.children;
    SortByNameSorted(t.children);
  }

  /** Sorting gives no file a child. */
  lemma {:induction false} SortTreeKeepsLeaves(t: Node)
    requires FilesAreLeaves(t)
    ensures FilesAreLeaves(SortTree(t))
    decreases t
  {
    var kids := SortFirst(t, |t.children|);
    var r := SortTree(t);
    forall i | 0 <= i < |r.children| ensures FilesAreLeaves(r.children[i]) {
      assert r.children[i] in multiset(kids);
      var j :| 0 <= j < |kids| && kids[j] == r.children[i];
      SortFirstAt(t, |t.children|, j);
      SortTreeKeepsLeaves(t.children[j]);
    }
  }

  lemma SortTreeIdempotent(t: Node)
    ensures SortTree(SortTree(t)) == SortTree(t)
  {
    SortTreeIsSorted(t);
    SortTreeSorted(SortTree(t));
  }

  /** Names unique among siblings (as in one directory) make the order strict. */
  lemma SortedStrict(s: seq<Node>)
    requires SortedByName(s)
    requires forall i, j :: 0 <= i < j < |s| ==> s[i].name != s[j].name
    ensures forall i, j :: 0 <= i < j < |s| ==> Less(s[i].name, s[j].name)
  {
    forall i, j | 0 <= i < j < |s| ensures Less(s[i].name, s[j].name) {
      LessTotal(s[i].name, s[j].name);
    }
  }
}
