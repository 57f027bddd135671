/** The parse tree that `rParser.prog()` builds, reduced to what `examineTree`
    reads of each node: the class name of its context object
    (`node.constructor.name`), the line of its first token (`node.start.line`)
    and its children in stored order (`node.children`). A node with no
    `children` property, or with an empty one, has no children here. */
module ParseTree {

  datatype Node = Node(kind: string, startLine: nat, children: seq<Node>)

  /** The class name ANTLR gives the context object of an assignment. */
  const AssignmentKind: string := "AssignmentContext"

  predicate IsAssignment(n: Node) {
    n.kind == AssignmentKind
  }

  /** A class name as JavaScript prints it: non-empty, without blanks. */
  predicate PrintableKind(k: string) {
    |k| > 0 && forall i :: 0 <= i < |k| ==> k[i] != ' '
  }

  /** Every node of the tree has a printable class name. */
  predicate WellNamed(n: Node)
    decreases n
  {
    PrintableKind(n.kind) && forall i :: 0 <= i < |n.children| ==> WellNamed(n.children[i])
  }

  /** Number of nodes in the tree rooted at n. */
  function Size(n: Node): (r: nat)
    ensures r >= 1 + |n.children|
    decreases n
  {
    1 + SizeOfAll(n.children)
  }

  /** Number of nodes in a forest. */
  function SizeOfAll(ns: seq<Node>): (r: nat)
    ensures r >= |ns|
    decreases ns
  {
    if ns == [] then 0 else Size(ns[0]) + SizeOfAll(ns[1..])
  }

  /** Number of assignment nodes in the tree rooted at n. */
  function Assignments(n: Node): (r: nat)
    ensures r <= Size(n)
    ensures IsAssignment(n) ==> r >= 1
    decreases n
  {
    (if IsAssignment(n) then 1 else 0) + AssignmentsOfAll(n.children)
  }

  /** Number of assignment nodes in a forest. */
  function AssignmentsOfAll(ns: seq<Node>): (r: nat)
    ensures r <= SizeOfAll(ns)
    decreases ns
  {
    if ns == [] then 0 else Assignments(ns[0]) + AssignmentsOfAll(ns[1..])
  }

  /** A path of child indices that leads from n to one of its descendants. */
  predicate ValidPath(n: Node, p: seq<nat>)
    decreases |p|
  {
    p == [] || (p[0] < |n.children| && ValidPath(n.children[p[0]], p[1..]))
  }

  /** The node that path p leads to. */
  function Subtree(n: Node, p: seq<nat>): Node
    requires ValidPath(n, p)
    decreases |p|
  {
    if p == [] then n else Subtree(n.children[p[0]], p[1..])
  }
}
