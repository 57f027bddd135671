/** `examineTree(node, depth = 0)`: a pre-order walk over the parse tree that
    prints, for every node, its class name indented by two blanks per level,
    preceded by a "Found Assignment at line N" notice at the same indent when
    the node is an assignment. Instead of printing, the model returns the
    printed lines, first as records (`Examine`), then as the exact text
    (`Output`). */
module ExamineTree {
  import opened ParseTree
  import Decimal

  datatype Option<T> = None | Some(value: T)

  /** One console line printed by the walk. */
  datatype Line =
    | Found(depth: nat, line: nat)    // the assignment notice, with the node's start line
    | Kind(depth: nat, kind: string)  // the node's class name

  /** Number of lines a node prints about itself. */
  function OwnCount(n: Node): nat {
    if IsAssignment(n) then 2 else 1
  }

  /** The lines a node prints about itself, before any of its children: the
      notice with its start line when it is an assignment, then its class
      name, both at its own depth. */
  function Own(n: Node, depth: nat): (r: seq<Line>)
    ensures |r| == OwnCount(n)
    ensures r[|r| - 1] == Kind(depth, n.kind)
    ensures IsAssignment(n) ==> r[0] == Found(depth, n.startLine)
  {
    (if IsAssignment(n) then [Found(depth, n.startLine)] else []) + [Kind(depth, n.kind)]
  }

  /** The lines printed by `examineTree(n, depth)`: the node's own lines come
      first, the notice (for an assignment) and then its class name. */
  function Examine(n: Node, depth: nat): (r: seq<Line>)
    ensures |r| >= OwnCount(n)
    ensures r[OwnCount(n) - 1] == Kind(depth, n.kind)
    ensures IsAssignment(n) ==> r[0] == Found(depth, n.startLine)
    decreases n
  {
    Own(n, depth) + ExamineAll(n.children, depth + 1)
  }

  /** The lines printed by the loop over `node.children`, each child examined
      at the given depth, in stored order. */
  function ExamineAll(ns: seq<Node>, depth: nat): (r: seq<Line>)
    ensures |r| >= |ns|
    decreases ns
  {
    if ns == [] then [] else Examine(ns[0], depth) + ExamineAll(ns[1..], depth)
  }

  /** The top-level call `examineTree(rTree)`, whose depth defaults to 0: it
      starts with the root's own lines at depth 0. */
  function Walk(root: Node): (r: seq<Line>)
    ensures |r| >= OwnCount(root)
    ensures r[OwnCount(root) - 1] == Kind(0, root.kind)
    ensures IsAssignment(root) ==> r[0] == Found(0, root.startLine)
  {
    Examine(root, 0)
  }

  /** `"  ".repeat(depth)`. */
  function Indent(depth: nat): (r: string)
    ensures |r| == 2 * depth
    ensures forall i :: 0 <= i < |r| ==> r[i] == ' '
  {
    if depth == 0 then "" else "  " + Indent(depth - 1)
  }

  const FoundPrefix: string := "Found Assignment at line "

  /** The console text of one line: its indent, then the notice or the
      class name. */
  function Text(l: Line): (r: string)
    ensures |r| >= 2 * l.depth && r[..2 * l.depth] == Indent(l.depth)
  {
    match l
    case Found(depth, line) => Indent(depth) + FoundPrefix + Decimal.FromNat(line)
    case Kind(depth, kind) => Indent(depth) + kind
  }

  /** Everything `examineTree(rTree)` writes to the console, line by line. */
  function Output(root: Node): (r: seq<string>)
    ensures |r| == |Walk(root)|
  {
    var lines := Walk(root);
    seq(|lines|, i requires 0 <= i < |lines| => Text(lines[i]))
  }

  /** Number of blanks at the start of s. */
  function LeadingBlanks(s: string): (r: nat)
    ensures r <= |s|
    ensures forall i :: 0 <= i < r ==> s[i] == ' '
    ensures r < |s| ==> s[r] != ' '
    decreases |s|
  {
    if s == [] || s[0] != ' ' then 0 else 1 + LeadingBlanks(s[1..])
  }

  /** Reads a console line back into the record that printed it, if any.
      A class name it reads is printable, and its depth is half the number of
      leading blanks. */
  function ParseLine(s: string): (r: Option<Line>)
    ensures r.Some? ==> 2 * r.value.depth == LeadingBlanks(s)
    ensures r.Some? && r.value.Kind? ==> PrintableKind(r.value.kind)
  {
    var k := LeadingBlanks(s);
    var rest := s[k..];
    if k % 2 != 0 || rest == [] then None
    else if FoundPrefix <= rest && Decimal.IsCanonical(rest[|FoundPrefix|..]) then
      Some(Found(k / 2, Decimal.Value(rest[|FoundPrefix|..])))
    else if PrintableKind(rest) then Some(Kind(k / 2, rest))
    else None
  }
}
