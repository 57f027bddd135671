# examineTree, modelled in Dafny

The repository parses an R script with an ANTLR-generated lexer and parser,
after a filter pass that moves insignificant newlines to a hidden channel.
It then walks the resulting parse tree with `examineTree` in
`src/js/parseR.mjs`. This project models that walk.

`examineTree(node, depth = 0)` is a recursive pre-order traversal. For each
node it prints the node's class name, indented by two blanks per level. When
the class is `AssignmentContext`, it first prints
`Found Assignment at line N` at the same indent, where N is the line of the
node's first token. It then examines the children in stored order, one level
deeper. The top-level call examines the root produced by `rParser.prog()` at
depth 0.

Files:

- `parse_tree.dfy` (module `ParseTree`): the parse tree, reduced to
  `Node(kind, startLine, children)`. `kind` stands for
  `node.constructor.name` and `startLine` for `node.start.line`. A node whose
  `children` is missing or empty has no children. The module also holds node
  and assignment counts and paths into the tree.
- `examine_tree.dfy` (module `ExamineTree`): the walk.
  - `Examine` is `examineTree`. `ExamineAll` is its `for…of` loop over the
    children. `Walk` is the top-level call.
  - These return the printed lines as records: `Found(depth, line)` or
    `Kind(depth, kind)`.
  - `Text` renders a record as the exact console string, and `Output` renders
    the whole walk.
  - `ParseLine` reads a console line back into its record.
- `decimal.dfy` (module `Decimal`): how JavaScript renders the line number
  when it concatenates it to a string, plus the inverse.
- `examine_tree_proofs.dfy` (module `ExamineTreeProofs`): the properties of
  the walk. These cover the line counts, the pre-order layout and where each
  child's block starts. `ChildStart` counts that position on the tree alone.
  They also show that every node's lines appear at its path and that every
  line has exactly one owning node (`Owner`). Notices are paired with their
  class-name lines, and the console text reads back.

Termination of the walk on every finite tree is Dafny's termination check
of `Examine`/`ExamineAll`. A node without children makes no recursive call.

The class test is hard-wired to the name `AssignmentContext`
(src/js/parseR.mjs:34). The walk prints each line itself
(src/js/parseR.mjs:35, 39) and takes no callbacks. The closing rendering of
the tree with ANTLR's `toStringTree` (src/js/parseR.mjs:53) is not part of
this model.

## Model

| member | source | states |
|---|---|---|
| `ParseTree.Size` | src/js/parseR.mjs:42-45 | A subtree has at least one node for itself plus one per child. |
| `ParseTree.Assignments` | src/js/parseR.mjs:34 | The number of `AssignmentContext` nodes is at most the node count, and at least 1 when the root is one. |
| `ExamineTree.Indent` | src/js/parseR.mjs:31 | The indent for depth d is exactly 2 × d blanks. |
| `ExamineTree.Own` | src/js/parseR.mjs:34-39 | A node's own lines are one line, or two for an `AssignmentContext`. The last is its class name at its depth. For an assignment, the first is the notice with the node's start line. |
| `ExamineTree.Examine` | src/js/parseR.mjs:30-47 | `examineTree(node, depth)`: the node's own lines come first, the notice with its start line when it is an `AssignmentContext`, then its class name at `depth`. The lemmas `LineCounts`, `DepthsAtLeast`, `OwnLinesFirst`, `ExaminePaired`, `ChildSegment` and `EveryLineOwned` carry the rest. |
| `ExamineTree.ExamineAll` | src/js/parseR.mjs:43-45 | The `for…of` loop over the children prints at least one line per child. `LineCountsAll`, `DepthsAtLeastAll`, `ChildBlock` and `ExamineAllPaired` carry the rest. |
| `ExamineTree.Walk` | src/js/parseR.mjs:49 | The top-level call at depth 0: it starts with the root's notice when the root is an assignment, then the root's class name at depth 0. `WalkStartsAtRoot`, `EveryNodePrinted` and `EveryLineOwned` carry the rest. |
| `ExamineTree.Text` | src/js/parseR.mjs:35-39 | A record's console text starts with the indent of its depth. `ParseText` and `TextOfParse` prove that `ParseLine` is its inverse. |
| `ExamineTree.Output` | src/js/parseR.mjs:30-49 | The console output of the walk has one string per record. `OutputDecodes` proves that each string reads back as its record. |
| `ExamineTree.ParseLine` | src/js/parseR.mjs:35-39 | Has no counterpart in the program. It is the reader used as the inverse of `Text`: a line it accepts is indented two blanks per depth level, and a class name it reads is printable. |
| `ExamineTreeProofs.TextIndent` | src/js/parseR.mjs:31-39 | Every printed line, notice or class name, starts with exactly 2 × depth blanks and then a non-blank. |
| `ExamineTreeProofs.LineCounts` | src/js/parseR.mjs:34-45 | A walk prints node count + assignment count lines: as many class-name lines as nodes, and as many notices as assignment nodes. Which node prints which line is stated by `EveryNodePrinted` and `EveryLineOwned`. |
| `ExamineTreeProofs.LineCountsAll` | src/js/parseR.mjs:42-45 | The same counts for the loop over a list of children. |
| `ExamineTreeProofs.DepthsAtLeast` | src/js/parseR.mjs:30-45 | No line of a subtree examined at depth d is printed at a depth below d. |
| `ExamineTreeProofs.DepthsAtLeastAll` | src/js/parseR.mjs:42-45 | The same for the loop over a list of children. |
| `ExamineTreeProofs.OwnLinesFirst` | src/js/parseR.mjs:34-45 | Pre-order: a node first prints its own lines at its depth. That is the notice with its start line exactly when it is an assignment, then its class name. Every later line is strictly deeper. |
| `ExamineTreeProofs.LeafPrintsOwnLines` | src/js/parseR.mjs:42-46 | A node without children prints only its own one or two lines, ending with its class name. |
| `ExamineTreeProofs.ExamineAllAppend` | src/js/parseR.mjs:43-45 | Examining a concatenation of child lists prints the lines of the first list, then those of the second. |
| `ExamineTreeProofs.ChildBlock` | src/js/parseR.mjs:43-45 | Within the loop, child i's lines form one contiguous block, right after the blocks of children 0..i-1. |
| `ExamineTreeProofs.ChildSegment` | src/js/parseR.mjs:43-45 | Child i is examined at its parent's depth + 1. Its lines form one contiguous block of the parent's lines. Child i + 1's block starts where it ends. |
| `ExamineTreeProofs.LastChildEnds` | src/js/parseR.mjs:42-46 | The last child's block ends the parent's lines: nothing is printed after the loop. |
| `ExamineTreeProofs.SubtreeLineAt` | src/js/parseR.mjs:30-47 | Line k of the node at path p is line Offset + k of the whole walk, at depth + \|p\|. |
| `ExamineTreeProofs.SubtreeLinesAt` | src/js/parseR.mjs:30-47 | The lines of the node at path p are printed unbroken inside the walk, at depth + \|p\|. |
| `ExamineTreeProofs.EveryNodePrinted` | src/js/parseR.mjs:30-49 | Every node of the tree prints its class name at indent level equal to its distance from the root. The line before it is the notice with that node's start line when the node is an assignment, and is not a notice otherwise. |
| `ExamineTreeProofs.WalkStartsAtRoot` | src/js/parseR.mjs:49 | After the root's own lines, every line of the top-level call is at depth 1 or more. |
| `ExamineTreeProofs.ChildStartLength` | src/js/parseR.mjs:42-45 | The block of child i starts after the parent's own lines and one line per node and per assignment node of the children before it. That position is counted on the tree alone, without the walk. |
| `ExamineTreeProofs.ChildStartMono` | src/js/parseR.mjs:43-45 | Children's blocks start in stored order. |
| `ExamineTreeProofs.ChildStartEnd` | src/js/parseR.mjs:42-45 | The children's blocks end where the parent's lines end. |
| `ExamineTreeProofs.ChildIndex` | src/js/parseR.mjs:43-45 | Every line after a parent's own lines lies in the block of some child. |
| `ExamineTreeProofs.ChildBlocksDisjoint` | src/js/parseR.mjs:43-45 | No line lies in the blocks of two children. |
| `ExamineTreeProofs.Owner` | src/js/parseR.mjs:30-47 | Every line of a walk is one of the own lines of some node, found by its path. |
| `ExamineTreeProofs.OwnRangeInside` | src/js/parseR.mjs:42-45 | The own lines of every node lie within the lines printed for the whole tree. |
| `ExamineTreeProofs.OwnerUnique` | src/js/parseR.mjs:30-47 | The owner is unique: any node whose own lines include line i is its owner. |
| `ExamineTreeProofs.OwnLinesDisjoint` | src/js/parseR.mjs:30-47 | No two nodes share a line. |
| `ExamineTreeProofs.OwnedLine` | src/js/parseR.mjs:34-39 | A line that falls among the own lines of the node at path p is exactly the line that node prints about itself at that place, at depth + \|p\|. |
| `ExamineTreeProofs.EveryLineOwned` | src/js/parseR.mjs:30-49 | Every line of the walk comes from exactly one node and is indented by that node's distance from the root. A class-name line carries that node's class name. A notice comes only from an `AssignmentContext` node and carries that node's start line. |
| `ExamineTreeProofs.PairedAppend` | src/js/parseR.mjs:34-39 | Concatenating two line sequences in which notices are properly paired keeps them paired. |
| `ExamineTreeProofs.ExaminePaired` | src/js/parseR.mjs:34-39 | Every notice is immediately followed by an `AssignmentContext` class-name line at the same depth. Every such class-name line is immediately preceded by a notice at the same depth. |
| `ExamineTreeProofs.ExamineAllPaired` | src/js/parseR.mjs:42-45 | The same pairing for the loop over a list of children. |
| `ExamineTreeProofs.KindsPrintable` | src/js/parseR.mjs:39 | If every node has a printable class name, so does every class-name line the walk prints. |
| `ExamineTreeProofs.ParseText` | src/js/parseR.mjs:35-39 | Reading back the console text of a line gives the line: depth, line number or class name. |
| `ExamineTreeProofs.TextOfParse` | src/js/parseR.mjs:35-39 | Any console line that reads back as a record is exactly that record's text. |
| `ExamineTreeProofs.OutputDecodes` | src/js/parseR.mjs:30-49 | The console output of the walk has one string per record, and each string reads back as the record that printed it. |
| `Decimal.FromNat` | src/js/parseR.mjs:35 | The rendering of a line number is a canonical digit string: non-empty, digits only, no leading zero. It starts with `0` exactly when the number is 0. |
| `Decimal.ValueOfFromNat` | src/js/parseR.mjs:35 | Reading back the rendered line number gives the number. |
| `Decimal.FromNatOfValue` | src/js/parseR.mjs:35 | Every canonical digit string is the rendering of the number it spells. |

## Left out

- The statement-boundary (newline-channel) filter. It lives in `src/js/r-parser/RFilter.mjs`, which is imported at src/js/parseR.mjs:5 and run at src/js/parseR.mjs:16-18. RFilter.mjs is not part of this model, and its state machine cannot be reconstructed from the files modelled here.
- Reading the R script (src/js/parseR.mjs:8): file I/O.
- Building the lexer, the token stream, both parsers, and `tokens.reset()` (src/js/parseR.mjs:11-25): calls into the antlr4 library and into generated grammar code (`RLexer`, `RParser`) that are not part of this model. The parse tree is taken as given.
- `src/js/r-parser/RListener.mjs`: generated listener whose `enter…`/`exit…` methods all have empty bodies. There is no behaviour to model.
- `console.log` (src/js/parseR.mjs:19, 35, 39, 53): I/O. The walk's printing is modelled as the returned sequence of lines. The "Filter pass complete" message and the final `toStringTree` rendering (ANTLR library code) are left out.
- `debugger` statements (src/js/parseR.mjs:36, 52): they have no effect on the output.
- Runtime reflection: `node.constructor.name` is replaced by the `kind` field. Any class name works. `WellNamed` only asks that names be non-empty and blank-free, as JavaScript class names are. The read-back lemmas need that.
- Decimal.FromNat: JavaScript prints integers of 1e21 and above in exponent notation. The model always prints plain digits. Line numbers never come near that bound.
- Character encoding: JavaScript strings are UTF-16 and are modelled as Dafny `string`. Nothing in the walk depends on the encoding.
