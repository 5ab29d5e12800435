# hw1_tree in Dafny

A model of the directory-tree printer in `hw1_tree/main.go`.
`dirTree(out, path, printFiles)` works in three stages:

1. It walks the file system below `path` and builds an in-memory tree of `Node`s. The walk callback skips the start path itself, skips files unless `printFiles` is set, splits the path on `/`, descends through existing children by name, and appends the new node to the parent it reaches.
2. It sorts every child list by name (`sortTree`).
3. It prints the root's children in pre-order (`printTree`, `printNode`). Each line starts with one `│\t` or `\t` unit per ancestor level, then `└───` or `├───`, then the node's name. A file's name is followed by ` (Nb)` or ` (empty)`. The first failed write stops everything.

The model has seven modules.

- **`Wrappers`**: `Option` and `Result`.
- **`Strings`**:
  - `strings.TrimPrefix` and `strings.Split(_, "/")`, with their round trips;
  - Go's string `<`;
  - the decimal form of `strconv.FormatInt`, with its inverse.
- **`Tree`**:
  - the `Node` struct as a value;
  - positions: a `*Node` pointer becomes the sequence of child indices from the root, which is sound because every node has exactly one parent;
  - appending under a position, and node counts.
- **`Builder`**:
  - the walk callback. The class `TreeBuilder` holds the tree that the callback changes. Its method `Visit` keeps the two nested descent loops.
  - the pure specification `Inserted` / `Build`, which `Visit` and `DirTree.Walk` are proved equal to.
- **`Sorter`**: `sortTree` as a function. Each child list is sorted with an insertion sort that stands for `sort.Slice`. The result is proved sorted at every depth and a permutation at every level.
- **`Render`**:
  - the line format and its parser;
  - the rows (ancestry vector and node) of the pre-order rendering, and their texts;
  - an output stream `Writer` whose write number `failAt` (if any) fails;
  - the imperative `PrintTree` / `PrintNode`, proved to write exactly the specified lines up to the first failed write.
- **`DirTree`**: `dirTree` itself. The walk is given as a sequence of `WalkStep`s. `Walk` drives `TreeBuilder.Visit` over them. The tree is then sorted and the root's children are printed.

Some behaviours of the source are kept as written:

- **Descent on a miss.** The descent through existing children (main.go:52-58) has no `break`. When several children share the segment's name, the last one wins. When none does, the descent stays at the current node.
- **Segment 0.** The descent starts at segment 1 and never looks at segment 0. Segment 0 is the empty piece in front of the `/` that follows the start path (`Builder.FirstSegmentEmpty`). The model computes `TrimPrefix` and `Split` as Go does, so the callback needs no precondition on the path.
- **Start path `"."`.** `filepath.Walk` reports paths without the leading `./`, so `TrimPrefix` removes nothing. Segment 0 is then the first path component, and the descent ignores it: it matches segments 1 .. n-2 starting from the root. An entry two levels down, such as `a/x`, is appended to the root rather than under `a` (`Builder.DotStartPath`). A deeper entry such as `a/b/x` goes under the root's child `b`, if there is one, rather than under `a/b` (`Builder.DotStartPathDeeper`). Siblings can therefore share a name: after `a`, `a/x`, `b` and `b/x`, the root's children are `a`, `x`, `b`, `x`.
- **Leaving files out changes connectors.** A directory followed only by files is drawn with `└───` without `-f`, and with `├───` with `-f`. So the listing without files is not, in general, a subsequence of the listing with them (`DirTree.OnlyDirectoryListing`, `DirTree.DirectoryAndFileListing`). What does hold is that without files the tree is exactly the one built from the directory entries alone (`Builder.BuildWithoutFiles`).

## Model

| member | source | states |
|---|---|---|
| Tree.Root | hw1_tree/main.go:35-38 | the tree starts as a childless directory named after the start path |
| Tree.Leaf | hw1_tree/main.go:59-63 | a new node carries the entry's name, directory flag and size, and has no children |
| Tree.AppendAt | hw1_tree/main.go:59-63 | appending under a node adds the new node at the end of that node's child list and keeps its fields |
| Tree.AppendAtFrame | hw1_tree/main.go:59-63 | appending leaves every node off the path to the parent unchanged; nodes on the path keep their fields, and strict ancestors keep their number of children |
| Tree.AppendAtSize | hw1_tree/main.go:59-63 | appending adds exactly the nodes of the new subtree to the tree |
| Strings.TrimPrefix | hw1_tree/main.go:50 | the result is what follows the prefix when the string starts with it, and the string unchanged otherwise |
| Strings.Split | hw1_tree/main.go:50 | splitting on "/" yields at least one piece, and no piece contains "/" |
| Strings.JoinSplit | hw1_tree/main.go:50 | joining the pieces with "/" gives back the split string |
| Strings.SplitJoin | hw1_tree/main.go:50 | splitting a "/"-join of slash-free pieces gives back the pieces |
| Strings.LessIrreflexive | hw1_tree/main.go:85 | no name sorts before itself |
| Strings.LessTransitive | hw1_tree/main.go:85 | the name order is transitive |
| Strings.LessTotal | hw1_tree/main.go:85 | of two different names, one sorts before the other |
| Strings.LessAsymmetric | hw1_tree/main.go:85 | two names never sort before each other |
| Strings.Decimal | hw1_tree/main.go:111 | FormatInt base 10 of a natural number is a non-empty string of digits, with no leading zero when positive |
| Strings.DecimalRoundTrip | hw1_tree/main.go:111 | reading the decimal string back gives the number |
| Builder.Kept | hw1_tree/main.go:44-49 | the callback keeps an entry exactly when its path is not the start path and it is a directory or printFiles is set (the effect is stated by Inserted) |
| Builder.Segments | hw1_tree/main.go:50 | the path below the start path is cut into slash-free pieces that join back to what follows the start path, or to the whole path when it does not start with it |
| Builder.LastMatch | hw1_tree/main.go:53-57 | the result is -1 or the index of a child with the name, and no later child has that name |
| Builder.Step | hw1_tree/main.go:53-57 | one inner descent pass stays put exactly when no child has the segment's name; otherwise it moves to the last child with that name |
| Builder.StepDown | hw1_tree/main.go:53-57 | the inner loop that scans every child ends at the position Step specifies |
| Builder.Descend | hw1_tree/main.go:52-58 | the outer descent loop over segments 1 .. n-2 ends at an existing node |
| Builder.Parent | hw1_tree/main.go:50-58 | the parent the callback chooses always exists in the tree |
| Builder.Inserted | hw1_tree/main.go:44-63 | the start path and, without printFiles, files leave the tree unchanged; a kept entry adds one node, at the end of the chosen parent's children, built from the entry's fields |
| Builder.InsertedFrame | hw1_tree/main.go:51-63 | an insertion changes nothing else: every other node keeps its fields, only the chosen parent's child list grows, and subtrees off the path are identical |
| Builder.Build | hw1_tree/main.go:39-68 | a successful walk yields a directory named after the start path, with one node plus one per kept entry |
| Builder.BuildFailsAtFirstFault | hw1_tree/main.go:41-43 | the walk fails if and only if some step is an error, and it then returns the first error, which is preceded only by entries |
| Builder.DirsOnly | hw1_tree/main.go:47-49 | the filtered steps hold no file entries, keep every directory entry and every error, and hold nothing that was not a step |
| Builder.DirsOnlyAppend | hw1_tree/main.go:47-49 | filtering keeps the order of the steps: the filtered a + b is the filtered a followed by the filtered b |
| Builder.BuildWithoutFiles | hw1_tree/main.go:47-49 | without printFiles the tree is the one built, with files, from the directory entries alone: no directory is dropped and every file is |
| Builder.FirstSegmentEmpty | hw1_tree/main.go:50 | for a path that is the start path, "/" and a relative path, segment 0 is empty and the rest are the relative path's segments |
| Builder.DescendFollowsPath | hw1_tree/main.go:51-58 | when each intermediate segment names a child on the way down (the last such child when names repeat), the descent reaches the node those segments name |
| Builder.DotStartPath | hw1_tree/main.go:50-58 | with start path "." the entry "a/x" is appended to the root, not under "a" |
| Builder.DotStartPathDeeper | hw1_tree/main.go:50-58 | with start path "." and root children "a" and "b", the entry "a/b/x" is appended under the root's "b": segments 1 .. n-2 are matched from the root |
| Builder.TreeBuilder.constructor | hw1_tree/main.go:34-38 | the builder starts with the root tree for the start path |
| Builder.TreeBuilder.Visit | hw1_tree/main.go:40-64 | an error is handed back and the tree is left alone; any entry gives no error, and the tree becomes Inserted of the old tree |
| Sorter.InsertByName | hw1_tree/main.go:84-86 | inserting into a sorted list keeps it sorted and adds exactly that node |
| Sorter.SortByName | hw1_tree/main.go:84-86 | sort.Slice by name gives a sorted permutation of the child list |
| Sorter.SortFirst | hw1_tree/main.go:87-89 | sorting the children one by one keeps their number |
| Sorter.SortTree | hw1_tree/main.go:83-90 | the root keeps its fields and number of children, and its child list is sorted by name |
| Sorter.SortTreeIsSorted | hw1_tree/main.go:83-90 | after sortTree, every child list at every depth is in ascending name order |
| Sorter.SortTreePermutes | hw1_tree/main.go:83-90 | each sorted child list is a permutation of the (recursively sorted) children and has the same multiset of names as before |
| Sorter.SortTreeSize | hw1_tree/main.go:83-90 | sorting neither adds nor loses a node |
| Sorter.SortTreeKeepsLeaves | hw1_tree/main.go:83-90 | sorting gives no file a child |
| Sorter.SortTreeIdempotent | hw1_tree/main.go:83-90 | sorting a sorted tree changes nothing |
| Sorter.SortedStrict | hw1_tree/main.go:84-86 | with names unique among siblings, the sorted order is strictly ascending |
| Render.LineRoundTrip | hw1_tree/main.go:124-138 | a printed line determines, and reads back as, its ancestry vector and its name: one unit per ancestor, then exactly one connector |
| Render.Line | hw1_tree/main.go:125-138 | the line for a name and an ancestry vector: a unit per ancestor, then the node's connector, then the name (LineRoundTrip shows that the line determines both; FormatLine is proved equal to it) |
| Render.SizeText | hw1_tree/main.go:110-114 | a file's size annotation: the decimal size and "b" when the size is positive, "empty" otherwise (pinned by LabelReadsBack) |
| Render.Label | hw1_tree/main.go:93-116 | a directory is shown by its name, and a file by its name with its size annotation in parentheses (pinned by LabelReadsBack) |
| Render.LabelReadsBack | hw1_tree/main.go:109-115 | a directory's label is its name; a file's label is its name, " (", the decimal size and "b" when the size is positive or "empty" otherwise, and ")" |
| Render.TextIsLine | hw1_tree/main.go:124-138 | a rendered row's text is the line printNode draws for the node's label |
| Render.TextReadsBack | hw1_tree/main.go:92-138 | each row's text reads back as the row's ancestry vector and label |
| Render.RenderTree | hw1_tree/main.go:92-107 | the rows printTree draws for a node: its own row, then, for a directory, its children's rows (shape, flags and count are the lemmas below) |
| Render.RenderKids | hw1_tree/main.go:98-107 | the rows of a directory's children in order, each child's vector extended by whether it is the final child |
| Render.RenderRoot | hw1_tree/main.go:70-79 | dirTree's rows: those of the root's children, each at level 0, never the root's own |
| Render.RenderTreeShape | hw1_tree/main.go:92-107 | pre-order: a node's own row comes first, with its vector and node; every later row is drawn deeper, on a vector extending the node's; a file has exactly one row |
| Render.RenderRootDepth | hw1_tree/main.go:70-79 | every row printed for the root's children has at least one flag, so the root is never printed |
| Render.LastChildFlag | hw1_tree/main.go:98-102 | among a directory's children, exactly the final one is drawn as last |
| Render.RenderRootLastFlags | hw1_tree/main.go:70-74 | among the root's children, exactly the final one is drawn as last |
| Render.RenderTreeCount | hw1_tree/main.go:92-122 | a tree in which no file has children prints one line per node |
| Render.RenderRootCount | hw1_tree/main.go:70-79 | below the root, one line per node other than the root |
| Render.Cut | hw1_tree/main.go:139-140 | a stream receives a prefix of the lines: all of them when every write fits, and otherwise exactly those before the first failing write |
| Render.CutAfterFailure | hw1_tree/main.go:103-106 | once a write has failed, no later line reaches the stream |
| Render.Writer.constructor | hw1_tree/main.go:33 | the output stream starts empty, with its failing write (if any) fixed |
| Render.Writer.Write | hw1_tree/main.go:139-140 | Fprintln appends the line and succeeds exactly when the write does not fail; a failed write appends nothing |
| Render.FormatLine | hw1_tree/main.go:125-138 | the string has level units ("│\t" under an ancestor that was not last, "\t" otherwise), then "└───" if isLast[level] and "├───" otherwise, then the name |
| Render.PrintNode | hw1_tree/main.go:124-140 | the formatted line is written, and the result says whether the write succeeded |
| Render.TreeLines | hw1_tree/main.go:92-122 | the lines printTree writes for a node when every write succeeds: its own, then (directories only) its children's |
| Render.KidsLines | hw1_tree/main.go:98-107 | the lines of a directory's first k children, in order |
| Render.TreeLinesAreTexts | hw1_tree/main.go:92-122 | the lines printTree writes are the texts of the rendered pre-order rows, one for one |
| Render.DirLines | hw1_tree/main.go:93-107 | a directory prints its own name first, then its children's lines |
| Render.FileLines | hw1_tree/main.go:108-120 | a file prints exactly one line, showing its label with the size |
| Render.WroteCons | hw1_tree/main.go:94-97 | if the first line fails, nothing is written; otherwise the rest follow it |
| Render.KidsStep | hw1_tree/main.go:103-106 | after a child, either every line so far has been written, or the stream holds what fits of all the children's lines and the loop stops |
| Render.PrintTree | hw1_tree/main.go:92-122 | the stream receives the node's pre-order lines in order up to the first failed write; the result is success exactly when all of them fit |
| Render.PrintDir | hw1_tree/main.go:93-107 | a directory's line, then its children's, up to the first failed write |
| Render.PrintKids | hw1_tree/main.go:98-107 | each child's lines, in order, each child told whether it is the final one, up to the first failed write |
| Render.PrintFile | hw1_tree/main.go:108-120 | a file's name extended with its size suffix is written as one line |
| DirTree.Listing | hw1_tree/main.go:69-79 | everything dirTree writes when every write succeeds: the lines of the sorted tree's root children |
| DirTree.ListingIsTexts | hw1_tree/main.go:69-79 | dirTree's output is the text of the sorted tree's rows below the root |
| DirTree.BuildFailureSticks | hw1_tree/main.go:66-68 | once the walk has failed, later steps change nothing |
| DirTree.BuildStep | hw1_tree/main.go:40-65 | one more step: an error ends the walk, an entry goes through the callback |
| DirTree.Walk | hw1_tree/main.go:39-68 | driving TreeBuilder.Visit over the steps gives exactly Build: the tree, or the first error |
| DirTree.PrintRoot | hw1_tree/main.go:70-79 | each child of the root is printed at level 0 with [isLast], in order, up to the first failed write |
| DirTree.DirTree | hw1_tree/main.go:33-81 | a walk error is returned and nothing is written; otherwise the sorted listing is written in order until a write fails, and exactly then a write error is returned |
| DirTree.ListingCount | hw1_tree/main.go:70-79 | the output has one line per node other than the root |
| DirTree.ListingReadsBack | hw1_tree/main.go:70-79 | every output line reads back as a node of the sorted tree: an ancestry vector of at least one level, then the label |
| DirTree.OnlyDirectoryListing | hw1_tree/main.go:70-79 | a root holding only directory "a" prints "└───a" |
| DirTree.DirectoryAndFileListing | hw1_tree/main.go:70-79 | with a 5-byte file "b.txt" beside "a", the output is "├───a" then "└───b.txt (5b)" |

## Left out

- `main` and argument handling (main.go:13-24). Here `printFiles` is a parameter. In the program it is true when there are exactly three arguments and the third is `-f`.
- `filepath.Walk` and `os.FileInfo`: the walk is an input sequence of `WalkStep`s. Each step is either an entry (its path, `info.Name()`, `info.IsDir()`, `info.Size()`) or the error handed to the callback. The depth-first order of a real walk, and its reading of directories, are not modelled.
- `io.Writer` and `fmt.Fprintln`: the stream is a `Writer` holding the written lines. Which write fails is a parameter (`failAt`). Error values other than "a write failed" are not distinguished.
- Sorter.SortByName: `sort.Slice` is replaced by an insertion sort with the same contract (sorted by name, a permutation). `sort.Slice` is not stable and promises no order among equal names; the insertion sort keeps their input order. Names are unique within one directory (`Sorter.SortedStrict`). But with the start path `"."`, siblings in the built tree can share a name (see above). For such trees, the exact listing that `DirTree.DirTree` promises is the one from this stable order, and `sort.Slice` may print equal-named siblings in another order.
- Sorter.SortTree is a function on values. It does not reorder the children slices in place. It sorts each child and then the list; the program sorts the list and then each child. The two orders give the same tree, because sorting a child does not change its name.
- Render.PrintFile appends the size suffix to a local copy of the name. The program appends it to `curNode.Name` itself. The tree is not printed again afterwards, so the output is the same.
- Go slice aliasing of `append(isLast, isLastNode)`: ancestry vectors are immutable sequences.
- Tree.Node sizes are unbounded integers, not `int64`.
- Go's byte-wise string comparison is modelled as code-point comparison, which orders UTF-8 strings the same way. The box-drawing characters are plain string constants.
- DirTree.ListingCount requires that no file has children. Every real walk satisfies this, because files have no entries below them.
