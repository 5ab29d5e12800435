/**
 * The renderer: printTree and printNode. Every node below the root becomes one line,
 * in pre-order; the line's prefix is drawn from the ancestry vector of "was the last
 * child" flags, one flag per level from the root's children down to the node itself.
 */
module Render {
  import opened Wrappers
  import opened Strings
  import opened Tree

  /** The indentation unit under an ancestor that has later siblings. */
  const Pipe: string := "│\t"
  /** The indentation unit under an ancestor that was the last child. */
  const Blank: string := "\t"
  /** The connector of a last child. */
  const LastBranch: string := "└───"
  /** The connector of a child with later siblings. */
  const MidBranch: string := "├───"

  function Unit(wasLast: bool): string
  {
    if wasLast then Blank else Pipe
  }

  /** The prefix for the given ancestor flags, outermost ancestor first. */
  function Indent(ancestors: seq<bool>): string
  {
    if |ancestors| == 0 then "" else Unit(ancestors[0]) + Indent(ancestors[1..])
  }

  function Connector(isLast: bool): string
  {
    if isLast then LastBranch else MidBranch
  }

  /** The line printNode writes for a node at level |isLast| - 1, built as printNode
      builds it: the ancestor units left to right, then the connector. */
  function Line(name: string, isLast: seq<bool>): string
    requires |isLast| >= 1
  {
    Indent(isLast[..|isLast| - 1]) + Connector(isLast[|isLast| - 1]) + name
  }

  /** Reads a line back into its ancestry vector and its label. */
  function ParseLine(s: string): Option<(seq<bool>, string)>
  {
    if |s| >= 1 && s[0] == '\t' then
      match ParseLine(s[1..])
      case None => None
      case Some((v, name)) => Some(([true] + v, name))
    else if |s| >= 2 && s[0] == '│' && s[1] == '\t' then
      match ParseLine(s[2..])
      case None => None
      case Some((v, name)) => Some(([false] + v, name))
    else if |s| >= 4 && s[..4] == LastBranch then Some(([true], s[4..]))
    else if |s| >= 4 && s[..4] == MidBranch then Some(([false], s[4..]))
    else None
  }

  lemma ParseConnector(b: bool, name: string)
    ensures ParseLine(Connector(b) + name) == Some(([b], name))
  {
    var s := Connector(b) + name;
    assert s[..4] == Connector(b) && s[4..] == name;
    assert s[0] == Connector(b)[0];
  }

  lemma ParseUnit(b: bool, rest: string, v: seq<bool>, name: string)
    requires ParseLine(rest) == Some((v, name))
    ensures ParseLine(Unit(b) + rest) == Some(([b] + v, name))
  {
    var s := Unit(b) + rest;
    if b {
      assert s[0] == '\t' && s[1..] == rest;
    } else {
      assert s[0] == '│' && s[1] == '\t' && s[2..] == rest;
    }
  }

  lemma IndentSnoc(ancestors: seq<bool>, b: bool)
    ensures Indent(ancestors + [b]) == Indent(ancestors) + Unit(b)
  {
    if |ancestors| > 0 {
      assert (ancestors + [b])[1..] == ancestors[1..] + [b];
      IndentSnoc(ancestors[1..], b);
    }
  }

  /** A line is determined by, and gives back, its ancestry vector and its label:
      the prefix has one unit per ancestor and exactly one connector. */
  lemma {:induction false} LineRoundTrip(name: string, isLast: seq<bool>)
    requires |isLast| >= 1
    ensures ParseLine(Line(name, isLast)) == Some((isLast, name))
    decreases |isLast|
  {
    if |isLast| == 1 {
      assert isLast[..0] == [];
      assert Line(name, isLast) == Connector(isLast[0]) + name;
      ParseConnector(isLast[0], name);
      assert isLast == [isLast[0]];
    } else {
      var rest := isLast[1..];
      LineRoundTrip(name, rest);
      LineCons(name, isLast);
      ParseUnit(isLast[0], Line(name, rest), rest, name);
      assert isLast == [isLast[0]] + rest;
    }
  }

  /** The outermost ancestor contributes the first unit of a line. */
  lemma LineCons(name: string, isLast: seq<bool>)
    requires |isLast| >= 2
    ensures Line(name, isLast) == Unit(isLast[0]) + Line(name, isLast[1..])
  {
    var rest := isLast[1..];
    var pre := isLast[..|isLast| - 1];
    assert pre[0] == isLast[0] && pre[1..] == rest[..|rest| - 1];
    assert Indent(pre) == Unit(isLast[0]) + Indent(rest[..|rest| - 1]);
  }

  /** The size annotation of a file: the byte count and "b", or "empty". */
  function SizeText(size: int): string
  {
    if size > 0 then Decimal(size) + "b" else "empty"
  }

  /** A node's printed label: a directory's name, or a file's name with its size in parentheses. */
  function Label(n: Node): string
  {
    if n.isDir then n.name else n.name + " (" + SizeText(n.size) + ")"
  }

  /** A file's label reads back as its name and size: "(Nb)" with N the decimal size when
      the size is positive, "(empty)" otherwise; a directory's label is its name. */
  lemma LabelReadsBack(n: Node)
    ensures n.isDir ==> Label(n) == n.name
    ensures !n.isDir ==>
      && |Label(n)| >= |n.name| + 3 && Label(n)[..|n.name| + 2] == n.name + " ("
      && Label(n)[|Label(n)| - 1] == ')'
    ensures !n.isDir && n.size <= 0 ==> Label(n)[|n.name| + 2..|Label(n)| - 1] == "empty"
    ensures !n.isDir && n.size > 0 ==>
      var d := Label(n)[|n.name| + 2..|Label(n)| - 2];
      && Label(n)[|Label(n)| - 2] == 'b'
      && (forall i :: 0 <= i < |d| ==> '0' <= d[i] <= '9')
      && |d| >= 1 && d[0] != '0'
      && ParseDecimal(d) == n.size
  {
    if !n.isDir {
      var l := Label(n);
      var m := |n.name|;
      assert l == n.name + " (" + SizeText(n.size) + ")";
      assert l[m + 2..|l| - 1] == SizeText(n.size);
      if n.size > 0 {
        assert l[m + 2..|l| - 2] == Decimal(n.size);
        DecimalRoundTrip(n.size);
      }
    }
  }

  /** One printed line before it is drawn: the ancestry vector and the node it shows. */
  datatype Row = Row(isLast: seq<bool>, node: Node)

  /** The text of a row: one unit per ancestor level, the connector, then the label.
      Every row printTree produces has a non-empty vector. This is the same string as
      Line(Label(row.node), row.isLast) (TextIsLine); it is written by recursion from the
      outermost level, with the label only in the base case, so that proofs about whole
      listings do not unfold the label's string literals at every line. */
  function Text(row: Row): string
    decreases |row.isLast|
  {
    if |row.isLast| == 0 then Label(row.node)
    else if |row.isLast| == 1 then Connector(row.isLast[0]) + Label(row.node)
    else Unit(row.isLast[0]) + Text(Row(row.isLast[1..], row.node))
  }

  /** A row's text is the line printNode draws for its label. */
  lemma {:induction false} TextIsLine(row: Row)
    requires |row.isLast| >= 1
    ensures Text(row) == Line(Label(row.node), row.isLast)
    decreases |row.isLast|
  {
    var v := row.isLast;
    if |v| > 1 {
      TextIsLine(Row(v[1..], row.node));
      LineCons(Label(row.node), v);
    }
  }

  /** The text of each row, in order. */
  function Texts(rows: seq<Row>): seq<string>
  {
    seq(|rows|, i requires 0 <= i < |rows| => Text(rows[i]))
  }

  lemma TextsAppend(a: seq<Row>, b: seq<Row>)
    ensures Texts(a + b) == Texts(a) + Texts(b)
  {
  }

  /** A row's text gives back the row: the drawing loses nothing. */
  lemma TextReadsBack(row: Row)
    requires |row.isLast| >= 1
    ensures ParseLine(Text(row)) == Some((row.isLast, Label(row.node)))
  {
    TextIsLine(row);
    LineRoundTrip(Label(row.node), row.isLast);
  }

  /** printTree's rows for `t` at level |isLast| - 1: its own row, then (directories
      only) the rows of its children, each child told whether it is the last one. */
  function RenderTree(t: Node, isLast: seq<bool>): seq<Row>
    decreases t, |t.children| + 1
  {
    [Row(isLast, t)] + (if t.isDir then RenderKids(t, isLast, |t.children|) else [])
  }

  /** The rows of the first `k` children of `t`. */
  function RenderKids(t: Node, isLast: seq<bool>, k: nat): seq<Row>
    requires k <= |t.children|
    decreases t, k
  {
    if k == 0 then []
    else RenderKids(t, isLast, k - 1) + RenderTree(t.children[k - 1], isLast + [k - 1 == |t.children| - 1])
  }

  /** dirTree's rows for the (sorted) tree: the root's children, never the root itself. */
  function RenderRoot(t: Node): seq<Row>
  {
    RenderKids(t, [], |t.children|)
  }

  lemma {:induction false} RenderKidsPrefix(t: Node, isLast: seq<bool>, i: nat, n: nat)
    requires i <= n <= |t.children|
    ensures RenderKids(t, isLast, i) <= RenderKids(t, isLast, n)
    decreases n
  {
    if i < n {
      RenderKidsPrefix(t, isLast, i, n - 1);
      var front := RenderKids(t, isLast, n - 1);
      var back := RenderTree(t.children[n - 1], isLast + [n - 1 == |t.children| - 1]);
      assert RenderKids(t, isLast, n) == front + back;
      assert front <= front + back;
    }
  }

  /** The row is drawn deeper than a node whose vector is `v`, on a vector extending `v`
      (rows of a node's descendants are; so are those of its siblings' when they share it). */
  predicate Deeper(row: Row, v: seq<bool>)
  {
    v < row.isLast
  }

  /** Pre-order: the node's own row comes first, with its vector and label; every later
      row is drawn deeper, on a vector extending the node's; a file has exactly one row. */
  lemma {:induction false} RenderTreeShape(t: Node, isLast: seq<bool>)
    ensures var r := RenderTree(t, isLast);
      && r[0] == Row(isLast, t)
      && (forall k :: 1 <= k < |r| ==> Deeper(r[k], isLast))
      && (!t.isDir ==> |r| == 1)
    decreases t, |t.children| + 1
  {
    if t.isDir {
      RenderKidsShape(t, isLast, |t.children|);
    }
  }

  lemma {:induction false} RenderKidsShape(t: Node, isLast: seq<bool>, k: nat)
    requires k <= |t.children|
    ensures forall j :: 0 <= j < |RenderKids(t, isLast, k)| ==> Deeper(RenderKids(t, isLast, k)[j], isLast)
    decreases t, k
  {
    if k > 0 {
      var front := RenderKids(t, isLast, k - 1);
      var v := isLast + [k - 1 == |t.children| - 1];
      var back := RenderTree(t.children[k - 1], v);
      RenderKidsShape(t, isLast, k - 1);
      RenderTreeShape(t.children[k - 1], v);
      assert isLast < v;
      forall j | 0 <= j < |back| ensures Deeper(back[j], isLast) {
        if j > 0 {
          assert Deeper(back[j], v);
        }
      }
      assert RenderKids(t, isLast, k) == front + back;
    }
  }

  /** Every printed line is drawn with at least one connector, so none is the root's. */
  lemma RenderRootDepth(t: Node)
    ensures forall j :: 0 <= j < |RenderRoot(t)| ==> |RenderRoot(t)[j].isLast| >= 1
  {
    RenderKidsShape(t, [], |t.children|);
  }

  /** The "was last" flag of every row at depth `depth`, in order. */
  function TopFlags(rows: seq<Row>, depth: nat): seq<bool>
  {
    if |rows| == 0 then []
    else
      var v := rows[|rows| - 1].isLast;
      TopFlags(rows[..|rows| - 1], depth) + (if |v| == depth && depth > 0 then [v[depth - 1]] else [])
  }

  lemma {:induction false} TopFlagsAppend(a: seq<Row>, b: seq<Row>, depth: nat)
    ensures TopFlags(a + b, depth) == TopFlags(a, depth) + TopFlags(b, depth)
    decreases |b|
  {
    if |b| == 0 {
      assert a + b == a;
    } else {
      TopFlagsAppend(a, b[..|b| - 1], depth);
      assert (a + b)[..|a + b| - 1] == a + b[..|b| - 1];
    }
  }

  lemma {:induction false} TopFlagsDeeper(rows: seq<Row>, v: seq<bool>)
    requires forall j :: 0 <= j < |rows| ==> Deeper(rows[j], v)
    ensures TopFlags(rows, |v|) == []
  {
    if |rows| > 0 {
      TopFlagsDeeper(rows[..|rows| - 1], v);
    }
  }

  /** A node's rows hold exactly one row at its own depth: its own, with its own flag. */
  lemma TopFlagsOfTree(t: Node, v: seq<bool>)
    requires |v| >= 1
    ensures TopFlags(RenderTree(t, v), |v|) == [v[|v| - 1]]
  {
    var r := RenderTree(t, v);
    RenderTreeShape(t, v);
    TopFlagsAppend([r[0]], r[1..], |v|);
    assert r == [r[0]] + r[1..];
    forall j | 0 <= j < |r[1..]| ensures Deeper(r[1..][j], v) {
      assert r[1..][j] == r[j + 1];
    }
    TopFlagsDeeper(r[1..], v);
    assert [r[0]][..0] == [];
  }

  /** Flags "i is the final index" for i in [0, k). */
  predicate MarksFinal(f: seq<bool>, k: nat, n: nat)
  {
    |f| == k && forall i :: 0 <= i < k ==> f[i] == (i == n - 1)
  }

  /** Appending the rows of child k - 1 to those of the children before it extends
      the marks by that child's own flag. */
  lemma MarksFinalStep(front: seq<Row>, back: seq<Row>, depth: nat, k: nat, n: nat)
    requires k > 0 && MarksFinal(TopFlags(front, depth), k - 1, n)
    requires TopFlags(back, depth) == [k - 1 == n - 1]
    ensures MarksFinal(TopFlags(front + back, depth), k, n)
  {
    TopFlagsAppend(front, back, depth);
  }

  /** Among the rows of the children of `t`, those one level below `isLast` are the
      children's own rows, and their flags mark exactly the final child as last. */
  lemma {:induction false} LastChildFlag(t: Node, isLast: seq<bool>, k: nat)
    requires k <= |t.children|
    ensures MarksFinal(TopFlags(RenderKids(t, isLast, k), |isLast| + 1), k, |t.children|)
    decreases k
  {
    if k > 0 {
      var v := isLast + [k - 1 == |t.children| - 1];
      LastChildFlag(t, isLast, k - 1);
      TopFlagsOfTree(t.children[k - 1], v);
      assert v[|v| - 1] == (k - 1 == |t.children| - 1);
      MarksFinalStep(RenderKids(t, isLast, k - 1), RenderTree(t.children[k - 1], v), |v|, k, |t.children|);
    }
  }

  /** Files print one line and directories one line plus their children's:
      with no file holding children, a tree prints one line per node. */
  lemma {:induction false} RenderTreeCount(t: Node, isLast: seq<bool>)
    requires FilesAreLeaves(t)
    ensures |RenderTree(t, isLast)| == Size(t)
    decreases t, |t.children| + 1
  {
    RenderKidsCount(t, isLast, |t.children|);
  }

  lemma {:induction false} RenderKidsCount(t: Node, isLast: seq<bool>, k: nat)
    requires k <= |t.children| && FilesAreLeaves(t)
    ensures |RenderKids(t, isLast, k)| == SizeOfFirst(t, k)
    decreases t, k
  {
    if k > 0 {
      RenderKidsCount(t, isLast, k - 1);
      RenderTreeCount(t.children[k - 1], isLast + [k - 1 == |t.children| - 1]);
    }
  }

  /** The root prints no line of its own: one line per node below it. */
  lemma RenderRootCount(t: Node)
    requires FilesAreLeaves(t)
    ensures |RenderRoot(t)| == Size(t) - 1
  {
    RenderKidsCount(t, [], |t.children|);
  }

  /** At the root level too, exactly the final child is drawn as last. */
  lemma RenderRootLastFlags(t: Node)
    ensures MarksFinal(TopFlags(RenderRoot(t), 1), |t.children|, |t.children|)
  {
    LastChildFlag(t, [], |t.children|);
  }

  /** Whether `n` writes in all succeed on a stream that fails from write number failAt on. */
  predicate Fits(failAt: Option<nat>, n: nat)
  {
    failAt.None? || n <= failAt.value
  }

  /** The part of `lines` that reaches a stream already holding n0 lines. */
  function Cut(failAt: Option<nat>, n0: nat, lines: seq<string>): (r: seq<string>)
    requires Fits(failAt, n0)
    ensures r <= lines
    ensures Fits(failAt, n0 + |lines|) ==> r == lines
    ensures !Fits(failAt, n0 + |lines|) ==> |r| == failAt.value - n0 < |lines|
  {
    if Fits(failAt, n0 + |lines|) then lines else lines[..failAt.value - n0]
  }

  /** When `a` fits and `b` does not, the stream gets `a` and what fits of `b`, and
      nothing that comes after. */
  lemma CutAfterFailure(failAt: Option<nat>, n0: nat, a: seq<string>, b: seq<string>, c: seq<string>)
    requires Fits(failAt, n0 + |a|) && !Fits(failAt, n0 + |a| + |b|)
    ensures Cut(failAt, n0, a + b + c) == a + Cut(failAt, n0 + |a|, b)
  {
    var k := failAt.value - n0;
    assert (a + b + c)[..k] == a + b[..k - |a|];
  }

  /** The stream went from `before` to `after` by writing `lines` in order and stopping
      at the first failed write; `ok` tells whether every write succeeded. */
  predicate Wrote(failAt: Option<nat>, before: seq<string>, after: seq<string>, lines: seq<string>, ok: bool)
    requires Fits(failAt, |before|)
  {
    && after == before + Cut(failAt, |before|, lines)
    && (ok <==> Fits(failAt, |before| + |lines|))
  }

  /** An output stream (io.Writer) that accepts lines until write number failAt fails. */
  class Writer {
    var lines: seq<string>
    const failAt: Option<nat>

    constructor (failAt: Option<nat>)
      ensures lines == [] && this.failAt == failAt
    {
      lines := [];
      this.failAt := failAt;
    }

    /** The stream has not failed yet. */
    predicate Healthy()
      reads this
    {
      Fits(failAt, |lines|)
    }

    /** fmt.Fprintln of one line. */
    method Write(line: string) returns (ok: bool)
      modifies this
      ensures ok == Fits(failAt, |old(lines)| + 1)
      ensures lines == if ok then old(lines) + [line] else old(lines)
    {
      ok := Fits(failAt, |lines| + 1);
      if ok {
        lines := lines + [line];
      }
    }
  }

  /** printNode's string: one unit per ancestor level, then the node's connector and name. */
  method FormatLine(nodeName: string, level: nat, isLast: seq<bool>) returns (line: string)
    requires |isLast| == level + 1
    ensures line == Line(nodeName, isLast)
  {
    var strTree := "";
    var i := 0;
    while i < level
      invariant 0 <= i <= level
      invariant strTree == Indent(isLast[..i])
    {
      if !isLast[i] {
        strTree := strTree + "│\t";
      } else {
        strTree := strTree + "\t";
      }
      assert isLast[..i + 1] == isLast[..i] + [isLast[i]];
      IndentSnoc(isLast[..i], isLast[i]);
      i := i + 1;
    }
    if isLast[level] {
      strTree := strTree + "└───";
    } else {
      strTree := strTree + "├───";
    }
    line := strTree + nodeName;
  }

  /** printNode: formats the line and writes it; `ok` is false when the write failed. */
  method PrintNode(out: Writer, nodeName: string, level: nat, isLast: seq<bool>) returns (ok: bool)
    requires |isLast| == level + 1
    modifies out
    ensures ok == Fits(out.failAt, |old(out.lines)| + 1)
    ensures out.lines == if ok then old(out.lines) + [Line(nodeName, isLast)] else old(out.lines)
  {
    var line := FormatLine(nodeName, level, isLast);
    ok := out.Write(line);
  }

  /** The lines of `t` as printTree writes them when every write succeeds. These are
      Texts(RenderTree(t, isLast)) (TreeLinesAreTexts); the printing methods are specified
      by this recursive form, which the verifier unfolds one level at a time, while the
      shape, flag and count lemmas speak about the rows. */
  function TreeLines(t: Node, isLast: seq<bool>): seq<string>
    decreases t, |t.children| + 1
  {
    [Text(Row(isLast, t))] + (if t.isDir then KidsLines(t, isLast, |t.children|) else [])
  }

  /** The lines of the first k children of `t`. */
  function KidsLines(t: Node, isLast: seq<bool>, k: nat): seq<string>
    requires k <= |t.children|
    decreases t, k
  {
    if k == 0 then []
    else KidsLines(t, isLast, k - 1) + TreeLines(t.children[k - 1], isLast + [k - 1 == |t.children| - 1])
  }

  /** The printed lines are the texts of the rendered rows, one for one. */
  lemma {:induction false} TreeLinesAreTexts(t: Node, isLast: seq<bool>)
    ensures TreeLines(t, isLast) == Texts(RenderTree(t, isLast))
    decreases t, |t.children| + 1
  {
    var row := Row(isLast, t);
    if t.isDir {
      KidsLinesAreTexts(t, isLast, |t.children|);
      TextsAppend([row], RenderKids(t, isLast, |t.children|));
    } else {
      assert RenderTree(t, isLast) == [row];
    }
  }

  lemma {:induction false} KidsLinesAreTexts(t: Node, isLast: seq<bool>, k: nat)
    requires k <= |t.children|
    ensures KidsLines(t, isLast, k) == Texts(RenderKids(t, isLast, k))
    decreases t, k
  {
    if k > 0 {
      var v := isLast + [k - 1 == |t.children| - 1];
      KidsLinesAreTexts(t, isLast, k - 1);
      TreeLinesAreTexts(t.children[k - 1], v);
      TextsAppend(RenderKids(t, isLast, k - 1), RenderTree(t.children[k - 1], v));
    }
  }

  lemma {:induction false} KidsLinesPrefix(t: Node, isLast: seq<bool>, i: nat, n: nat)
    requires i <= n <= |t.children|
    ensures KidsLines(t, isLast, i) <= KidsLines(t, isLast, n)
    decreases n
  {
    if i < n {
      KidsLinesPrefix(t, isLast, i, n - 1);
      var front := KidsLines(t, isLast, n - 1);
      var back := TreeLines(t.children[n - 1], isLast + [n - 1 == |t.children| - 1]);
      assert KidsLines(t, isLast, n) == front + back;
      assert front <= front + back;
    }
  }

  /** The lines of all children: those of the first i, child i's, and the rest. */
  lemma KidsLinesSplit(t: Node, isLast: seq<bool>, i: nat) returns (rest: seq<string>)
    requires i < |t.children|
    ensures KidsLines(t, isLast, |t.children|)
         == KidsLines(t, isLast, i) + TreeLines(t.children[i], isLast + [i == |t.children| - 1]) + rest
  {
    KidsLinesPrefix(t, isLast, i + 1, |t.children|);
    var all := KidsLines(t, isLast, |t.children|);
    var upTo := KidsLines(t, isLast, i + 1);
    rest := all[|upTo|..];
    assert all == upTo + rest;
  }

  /** A directory prints its name, then its children's lines. */
  lemma DirLines(t: Node, isLast: seq<bool>)
    requires t.isDir && |isLast| >= 1
    ensures TreeLines(t, isLast) == [Line(t.name, isLast)] + KidsLines(t, isLast, |t.children|)
  {
    TextIsLine(Row(isLast, t));
  }

  /** A file prints exactly one line: its label with the size. */
  lemma FileLines(t: Node, isLast: seq<bool>)
    requires !t.isDir && |isLast| >= 1
    ensures TreeLines(t, isLast) == [Line(Label(t), isLast)]
  {
    TextIsLine(Row(isLast, t));
  }

  /** The first line reaches the stream when one more write fits, and then the rest
      goes on; otherwise nothing does. */
  lemma WroteCons(failAt: Option<nat>, before: seq<string>, line: string, rest: seq<string>,
                  after: seq<string>, ok: bool)
    requires Fits(failAt, |before|)
    ensures !Fits(failAt, |before| + 1) ==> Wrote(failAt, before, before, [line] + rest, false)
    ensures Fits(failAt, |before| + 1) && Wrote(failAt, before + [line], after, rest, ok) ==>
      Wrote(failAt, before, after, [line] + rest, ok)
  {
    if Fits(failAt, |before| + 1) {
      CutKeeps(failAt, |before|, [line], rest);
    }
  }

  /** One turn of the children loop: after child i has been written from `mid` on,
      either the loop goes on with the first i + 1 children written, or the write
      failed and the stream holds what fits of all the children's lines. */
  lemma KidsStep(failAt: Option<nat>, before: seq<string>, mid: seq<string>, after: seq<string>,
                 t: Node, isLast: seq<bool>, i: nat, ok: bool)
    requires i < |t.children| && Fits(failAt, |mid|)
    requires mid == before + KidsLines(t, isLast, i)
    requires Wrote(failAt, mid, after, TreeLines(t.children[i], isLast + [i == |t.children| - 1]), ok)
    ensures ok ==> after == before + KidsLines(t, isLast, i + 1) && Fits(failAt, |after|)
    ensures !ok ==> Wrote(failAt, before, after, KidsLines(t, isLast, |t.children|), false)
  {
    var front := KidsLines(t, isLast, i);
    var kid := TreeLines(t.children[i], isLast + [i == |t.children| - 1]);
    if !ok {
      var rest := KidsLinesSplit(t, isLast, i);
      CutAfterFailure(failAt, |before|, front, kid, rest);
    }
  }

  /** Once `a` fits, the stream gets all of `a` and then what fits of `b`. */
  lemma CutKeeps(failAt: Option<nat>, n0: nat, a: seq<string>, b: seq<string>)
    requires Fits(failAt, n0 + |a|)
    ensures Cut(failAt, n0, a + b) == a + Cut(failAt, n0 + |a|, b)
  {
    if !Fits(failAt, n0 + |a| + |b|) {
      var k := failAt.value - n0;
      assert (a + b)[..k] == a + b[..k - |a|];
    }
  }

  /** printTree: writes the lines of `t` in pre-order and stops at the first failed write. */
  method PrintTree(out: Writer, t: Node, level: nat, isLast: seq<bool>) returns (ok: bool)
    requires |isLast| == level + 1
    requires out.Healthy()
    modifies out
    ensures Wrote(out.failAt, old(out.lines), out.lines, TreeLines(t, isLast), ok)
    decreases t, 2
  {
    if t.isDir {
      ok := PrintDir(out, t, level, isLast);
    } else {
      ok := PrintFile(out, t, level, isLast);
    }
  }

  /** printTree on a directory: its own line, then its children unless that write failed. */
  method PrintDir(out: Writer, t: Node, level: nat, isLast: seq<bool>) returns (ok: bool)
    requires |isLast| == level + 1 && t.isDir
    requires out.Healthy()
    modifies out
    ensures Wrote(out.failAt, old(out.lines), out.lines, TreeLines(t, isLast), ok)
    decreases t, 1
  {
    ghost var before := out.lines;
    DirLines(t, isLast);
    ok := PrintNode(out, t.name, level, isLast);
    if ok {
      ok := PrintKids(out, t, level, isLast);
    }
    WroteCons(out.failAt, before, Line(t.name, isLast), KidsLines(t, isLast, |t.children|), out.lines, ok);
  }

  /** The loop of printTree over a directory's children, each one the last or not. */
  method PrintKids(out: Writer, t: Node, level: nat, isLast: seq<bool>) returns (ok: bool)
    requires |isLast| == level + 1
    requires out.Healthy()
    modifies out
    ensures Wrote(out.failAt, old(out.lines), out.lines, KidsLines(t, isLast, |t.children|), ok)
    decreases t, 0
  {
    var i := 0;
    while i < |t.children|
      invariant 0 <= i <= |t.children|
      invariant out.lines == old(out.lines) + KidsLines(t, isLast, i)
      invariant out.Healthy()
    {
      var isLastNode := i == |t.children| - 1;
      ghost var mid := out.lines;
      ok := PrintTree(out, t.children[i], level + 1, isLast + [isLastNode]);
      KidsStep(out.failAt, old(out.lines), mid, out.lines, t, isLast, i, ok);
      if !ok {
        return;
      }
      i := i + 1;
    }
    ok := true;
  }

  /** printTree on a file: the label with its size, written as one line. */
  method PrintFile(out: Writer, t: Node, level: nat, isLast: seq<bool>) returns (ok: bool)
    requires |isLast| == level + 1 && !t.isDir
    requires out.Healthy()
    modifies out
    ensures Wrote(out.failAt, old(out.lines), out.lines, TreeLines(t, isLast), ok)
  {
    var name := t.name;
    name := name + " (";
    if t.size > 0 {
      name := name + Decimal(t.size) + "b";
    } else {
      name := name + "empty";
    }
    name := name + ")";
    assert name == Label(t);
    FileLines(t, isLast);
    ok := PrintNode(out, name, level, isLast);
  }
}
