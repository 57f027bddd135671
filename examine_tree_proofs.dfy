/** What the walk promises: how many lines it prints, in which order, at
    which indent, when the assignment notice appears, and that its console
    text can be read back into the records that produced it. */
module ExamineTreeProofs {
  import opened ParseTree
  import opened ExamineTree
  import Decimal

  /** Number of class-name lines among ls. */
  function KindLines(ls: seq<Line>): nat
    decreases |ls|
  {
    if ls == [] then 0 else (if ls[0].Kind? then 1 else 0) + KindLines(ls[1..])
  }

  /** Number of assignment notices among ls. */
  function FoundLines(ls: seq<Line>): nat
    decreases |ls|
  {
    if ls == [] then 0 else (if ls[0].Found? then 1 else 0) + FoundLines(ls[1..])
  }

  lemma {:induction false} CountsAppend(a: seq<Line>, b: seq<Line>)
    ensures KindLines(a + b) == KindLines(a) + KindLines(b)
    ensures FoundLines(a + b) == FoundLines(a) + FoundLines(b)
    decreases |a|
  {
    if a == [] {
      assert a + b == b;
    } else {
      assert (a + b)[0] == a[0];
      assert (a + b)[1..] == a[1..] + b;
      CountsAppend(a[1..], b);
    }
  }

  /** Examining a list of children examines the first part, then the rest. */
  lemma {:induction false} ExamineAllAppend(a: seq<Node>, b: seq<Node>, depth: nat)
    ensures ExamineAll(a + b, depth) == ExamineAll(a, depth) + ExamineAll(b, depth)
    decreases |a|
  {
    if a == [] {
      assert a + b == b;
    } else {
      assert (a + b)[0] == a[0];
      assert (a + b)[1..] == a[1..] + b;
      ExamineAllAppend(a[1..], b, depth);
    }
  }

  /** The walk prints one line per node plus one per assignment node: every
      node prints exactly one class-name line, and the assignment nodes, and
      only they, print one notice each. */
  lemma {:induction false} LineCounts(n: Node, depth: nat)
    ensures |Examine(n, depth)| == Size(n) + Assignments(n)
    ensures KindLines(Examine(n, depth)) == Size(n)
    ensures FoundLines(Examine(n, depth)) == Assignments(n)
    decreases n
  {
    var own := Own(n, depth);
    if IsAssignment(n) {
      assert own == [Found(depth, n.startLine)] + [Kind(depth, n.kind)];
      CountsAppend([Found(depth, n.startLine)], [Kind(depth, n.kind)]);
    }
    CountsAppend(own, ExamineAll(n.children, depth + 1));
    LineCountsAll(n.children, depth + 1);
  }

  lemma {:induction false} LineCountsAll(ns: seq<Node>, depth: nat)
    ensures |ExamineAll(ns, depth)| == SizeOfAll(ns) + AssignmentsOfAll(ns)
    ensures KindLines(ExamineAll(ns, depth)) == SizeOfAll(ns)
    ensures FoundLines(ExamineAll(ns, depth)) == AssignmentsOfAll(ns)
    decreases ns
  {
    if ns != [] {
      LineCounts(ns[0], depth);
      LineCountsAll(ns[1..], depth);
      CountsAppend(Examine(ns[0], depth), ExamineAll(ns[1..], depth));
    }
  }

  /** No line of a node examined at depth d is printed at a depth below d. */
  lemma {:induction false} DepthsAtLeast(n: Node, depth: nat)
    ensures forall i :: 0 <= i < |Examine(n, depth)| ==> Examine(n, depth)[i].depth >= depth
    decreases n
  {
    var own := Own(n, depth);
    var rest := ExamineAll(n.children, depth + 1);
    var lines: seq<Line> := own + rest;
    DepthsAtLeastAll(n.children, depth + 1);
    forall i | 0 <= i < |lines|
      ensures lines[i].depth >= depth
    {
      if i >= |own| {
        assert lines[i] == rest[i - |own|];
      }
    }
  }

  lemma {:induction false} DepthsAtLeastAll(ns: seq<Node>, depth: nat)
    ensures forall i :: 0 <= i < |ExamineAll(ns, depth)| ==> ExamineAll(ns, depth)[i].depth >= depth
    decreases ns
  {
    if ns != [] {
      var first := Examine(ns[0], depth);
      var rest := ExamineAll(ns[1..], depth);
      DepthsAtLeast(ns[0], depth);
      DepthsAtLeastAll(ns[1..], depth);
      var lines: seq<Line> := first + rest;
      forall i | 0 <= i < |lines|
        ensures lines[i].depth >= depth
      {
        if i >= |first| {
          assert lines[i] == rest[i - |first|];
        }
      }
    }
  }

  /** Pre-order: a node first prints its own lines at its own depth (the
      notice with its start line exactly when it is an assignment, then its
      class name); every later line belongs to a descendant and is deeper. */
  lemma {:induction false} OwnLinesFirst(n: Node, depth: nat)
    ensures var lines := Examine(n, depth);
      && OwnCount(n) <= |lines|
      && (IsAssignment(n) ==> lines[0] == Found(depth, n.startLine) && lines[1] == Kind(depth, n.kind))
      && (!IsAssignment(n) ==> lines[0] == Kind(depth, n.kind))
      && forall i :: OwnCount(n) <= i < |lines| ==> lines[i].depth > depth
  {
    var lines := Examine(n, depth);
    var rest := ExamineAll(n.children, depth + 1);
    DepthsAtLeastAll(n.children, depth + 1);
    forall i | OwnCount(n) <= i < |lines|
      ensures lines[i].depth > depth
    {
      assert lines[i] == rest[i - OwnCount(n)];
    }
  }

  /** A node without children prints only its own lines. */
  lemma {:induction false} LeafPrintsOwnLines(n: Node, depth: nat)
    requires n.children == []
    ensures |Examine(n, depth)| == OwnCount(n)
    ensures Examine(n, depth)[OwnCount(n) - 1] == Kind(depth, n.kind)
  {
  }

  /** sub is printed, unbroken, inside lines, starting at index at. */
  predicate Occurs(sub: seq<Line>, lines: seq<Line>, at: nat) {
    at + |sub| <= |lines| && forall k :: 0 <= k < |sub| ==> lines[at + k] == sub[k]
  }

  /** Line k of a block is line at + k of the lines it occurs in. */
  lemma {:induction false} OccursAt(sub: seq<Line>, lines: seq<Line>, at: nat, k: nat)
    requires Occurs(sub, lines, at) && k < |sub|
    ensures at + k < |lines| && lines[at + k] == sub[k]
  {
  }

  /** b occurs in a + b + c right after a. */
  lemma {:induction false} OccursMiddle(a: seq<Line>, b: seq<Line>, c: seq<Line>)
    ensures Occurs(b, a + b + c, |a|)
  {
  }

  /** Every sequence occurs in itself at 0. */
  lemma {:induction false} OccursSelf(lines: seq<Line>)
    ensures Occurs(lines, lines, 0)
  {
  }

  /** A block of a block is a block, at the sum of the two offsets. */
  lemma {:induction false} OccursTrans(a: seq<Line>, b: seq<Line>, c: seq<Line>, i: nat, j: nat, at: nat)
    requires Occurs(a, b, i) && Occurs(b, c, j) && at == j + i
    ensures Occurs(a, c, at)
  {
  }

  /** A block inside b is still inside a + b, |a| further on. */
  lemma {:induction false} OccursAfter(sub: seq<Line>, a: seq<Line>, b: seq<Line>, at: nat)
    requires Occurs(sub, b, at)
    ensures Occurs(sub, a + b, |a| + at)
  {
  }

  /** Where the lines of child i start in the lines of its parent: after the
      parent's own lines and, for each child before it, one line per node
      and per assignment node of that child's subtree. */
  function ChildStart(n: Node, i: nat): nat
    requires i <= |n.children|
    decreases i
  {
    if i == 0 then OwnCount(n)
    else ChildStart(n, i - 1) + Size(n.children[i - 1]) + Assignments(n.children[i - 1])
  }

  /** ChildStart is where the lines of the children before child i end. */
  lemma {:induction false} ChildStartLength(n: Node, depth: nat, i: nat)
    requires i <= |n.children|
    ensures ChildStart(n, i) == OwnCount(n) + |ExamineAll(n.children[..i], depth + 1)|
    decreases i
  {
    if i == 0 {
      assert n.children[..0] == [];
    } else {
      ChildStartLength(n, depth, i - 1);
      ExamineAllSplit(n.children, depth + 1, i - 1);
      LineCounts(n.children[i - 1], depth + 1);
    }
  }

  /** The lines of a list of children split at child i. */
  lemma {:induction false} ExamineAllSplit(cs: seq<Node>, depth: nat, i: nat)
    requires i < |cs|
    ensures ExamineAll(cs, depth)
         == ExamineAll(cs[..i], depth) + Examine(cs[i], depth) + ExamineAll(cs[i + 1..], depth)
    ensures ExamineAll(cs[..i + 1], depth) == ExamineAll(cs[..i], depth) + Examine(cs[i], depth)
  {
    var pre, one, post := cs[..i], [cs[i]], cs[i + 1..];
    assert cs[..i + 1] == pre + one;
    assert cs == (pre + one) + post;
    ExamineAllSingle(cs[i], depth);
    ExamineAllAppend(pre, one, depth);
    ExamineAllAppend(pre + one, post, depth);
  }

  lemma {:induction false} ExamineAllSingle(c: Node, depth: nat)
    ensures ExamineAll([c], depth) == Examine(c, depth)
  {
    assert [c][1..] == [];
  }

  /** Child i is examined one level deeper than its parent, its lines form
      one contiguous block, and the block of child i + 1 starts right where
      it ends. */
  lemma {:induction false} ChildSegment(n: Node, depth: nat, i: nat)
    requires i < |n.children|
    ensures ChildStart(n, i) + |Examine(n.children[i], depth + 1)| == ChildStart(n, i + 1)
    ensures Occurs(Examine(n.children[i], depth + 1), Examine(n, depth), ChildStart(n, i))
  {
    var cs := n.children;
    var d := depth + 1;
    var own := Own(n, depth);
    var all := ExamineAll(cs, d);
    var sub := Examine(cs[i], d);
    LineCounts(cs[i], d);
    ChildBlock(cs, d, i);
    ChildStartLength(n, depth, i);
    var x := |ExamineAll(cs[..i], d)|;
    OccursAfter(sub, own, all, x);
    assert Examine(n, depth) == own + all;
  }

  /** The block of the last child ends the parent's lines. */
  lemma {:induction false} LastChildEnds(n: Node, depth: nat)
    ensures ChildStart(n, |n.children|) == |Examine(n, depth)|
  {
    ChildStartEnd(n);
    LineCounts(n, depth);
  }

  /** Child i's lines, inside the lines of the whole list of children. */
  lemma {:induction false} ChildBlock(cs: seq<Node>, depth: nat, i: nat)
    requires i < |cs|
    ensures |ExamineAll(cs[..i], depth)| + |Examine(cs[i], depth)| == |ExamineAll(cs[..i + 1], depth)|
    ensures Occurs(Examine(cs[i], depth), ExamineAll(cs, depth), |ExamineAll(cs[..i], depth)|)
  {
    ExamineAllSplit(cs, depth, i);
    var before, sub, after := ExamineAll(cs[..i], depth), Examine(cs[i], depth), ExamineAll(cs[i + 1..], depth);
    OccursMiddle(before, sub, after);
  }

  /** Line k of child i is line ChildStart(n, i) + k of n. */
  lemma {:induction false} ChildLineAt(n: Node, depth: nat, i: nat, k: nat)
    requires i < |n.children| && k < |Examine(n.children[i], depth + 1)|
    ensures ChildStart(n, i) + k < |Examine(n, depth)|
    ensures Examine(n, depth)[ChildStart(n, i) + k] == Examine(n.children[i], depth + 1)[k]
  {
    ChildSegment(n, depth, i);
    OccursAt(Examine(n.children[i], depth + 1), Examine(n, depth), ChildStart(n, i), k);
  }

  /** Where the lines of the node at path p start in the lines of n. */
  function Offset(n: Node, p: seq<nat>): nat
    requires ValidPath(n, p)
    decreases |p|
  {
    if p == [] then 0
    else ChildStart(n, p[0]) + Offset(n.children[p[0]], p[1..])
  }

  /** The node at path p is examined at depth + |p|, and its lines appear,
      unbroken, inside the lines of n. */
  lemma {:induction false} SubtreeLinesAt(n: Node, depth: nat, p: seq<nat>)
    requires ValidPath(n, p)
    ensures Occurs(Examine(Subtree(n, p), depth + |p|), Examine(n, depth), Offset(n, p))
    decreases |p|
  {
    var lines := Examine(n, depth);
    if p == [] {
      assert Subtree(n, p) == n && Offset(n, p) == 0 && depth + |p| == depth;
      OccursSelf(lines);
    } else {
      var c, q := n.children[p[0]], p[1..];
      assert Subtree(n, p) == Subtree(c, q) && depth + |p| == depth + 1 + |q|;
      var mid := Examine(c, depth + 1);
      var start, o := ChildStart(n, p[0]), Offset(c, q);
      SubtreeLinesAt(c, depth + 1, q);
      ChildSegment(n, depth, p[0]);
      assert Offset(n, p) == start + o;
      OccursTrans(Examine(Subtree(n, p), depth + |p|), mid, lines, o, start, Offset(n, p));
    }
  }

  /** Line k of the node at path p, which is examined at depth + |p|, is
      line Offset + k of n. */
  lemma {:induction false} SubtreeLineAt(n: Node, depth: nat, p: seq<nat>, k: nat)
    requires ValidPath(n, p)
    requires k < |Examine(Subtree(n, p), depth + |p|)|
    ensures Offset(n, p) + k < |Examine(n, depth)|
    ensures Examine(n, depth)[Offset(n, p) + k] == Examine(Subtree(n, p), depth + |p|)[k]
  {
    SubtreeLinesAt(n, depth, p);
    OccursAt(Examine(Subtree(n, p), depth + |p|), Examine(n, depth), Offset(n, p), k);
  }

  /** Every node of the tree, at whatever path p, prints its class name at
      indent level |p| in the walk; the line just before it is the notice with
      the node's start line when, and only when, the node is an assignment. */
  lemma {:induction false} EveryNodePrinted(root: Node, p: seq<nat>)
    requires ValidPath(root, p)
    ensures var lines := Walk(root);
      var m := Subtree(root, p);
      var at := Offset(root, p) + OwnCount(m) - 1;
      && at < |lines|
      && lines[at] == Kind(|p|, m.kind)
      && (IsAssignment(m) ==> lines[at - 1] == Found(|p|, m.startLine))
      && (!IsAssignment(m) ==> at == 0 || !lines[at - 1].Found?)
  {
    var m := Subtree(root, p);
    SubtreeLinesAt(root, 0, p);
    OwnLinesFirst(m, |p|);
    ExaminePaired(root, 0);
    var lines := Walk(root);
    var o := Offset(root, p);
    var sub := Examine(m, |p|);
    assert lines[o + OwnCount(m) - 1] == sub[OwnCount(m) - 1];
    if IsAssignment(m) {
      assert lines[o] == sub[0];
    }
  }

  /** Children's blocks start in stored order. */
  lemma {:induction false} ChildStartMono(n: Node, a: nat, b: nat)
    requires a <= b <= |n.children|
    ensures ChildStart(n, a) <= ChildStart(n, b)
    decreases b
  {
    if a < b {
      ChildStartMono(n, a, b - 1);
    }
  }

  /** The blocks of the children end where the lines of the parent end. */
  lemma {:induction false} ChildStartEnd(n: Node)
    ensures ChildStart(n, |n.children|) == Size(n) + Assignments(n)
  {
    assert n.children[..|n.children|] == n.children;
    ChildStartLength(n, 0, |n.children|);
    LineCountsAll(n.children, 1);
  }

  /** The child whose block holds line i of n, searching from child j on. */
  function ChildIndex(n: Node, i: nat, j: nat): (k: nat)
    requires j < |n.children| && ChildStart(n, j) <= i < ChildStart(n, |n.children|)
    ensures j <= k < |n.children| && ChildStart(n, k) <= i < ChildStart(n, k + 1)
    decreases |n.children| - j
  {
    if i < ChildStart(n, j + 1) then j else ChildIndex(n, i, j + 1)
  }

  /** Line i of n lies in the block of at most one child. */
  lemma {:induction false} ChildBlocksDisjoint(n: Node, i: nat, j: nat, k: nat)
    requires j < |n.children| && ChildStart(n, j) <= i < ChildStart(n, j + 1)
    requires k < |n.children| && ChildStart(n, k) <= i < ChildStart(n, k + 1)
    ensures j == k
  {
    if j < k {
      ChildStartMono(n, j + 1, k);
    } else if k < j {
      ChildStartMono(n, k + 1, j);
    }
  }

  /** The path of the node that prints line i of n: line i is one of that
      node's own lines. */
  function Owner(n: Node, i: nat): (p: seq<nat>)
    requires i < Size(n) + Assignments(n)
    ensures ValidPath(n, p)
    ensures Offset(n, p) <= i < Offset(n, p) + OwnCount(Subtree(n, p))
    decreases n
  {
    if i < OwnCount(n) then []
    else
      ChildStartEnd(n);
      var j := ChildIndex(n, i, 0);
      var q := Owner(n.children[j], i - ChildStart(n, j));
      assert ([j] + q)[0] == j && ([j] + q)[1..] == q;
      [j] + q
  }

  /** A line among the own lines of the node at path p is that node's own
      line. */
  lemma {:induction false} OwnedLine(n: Node, depth: nat, p: seq<nat>, i: nat)
    requires ValidPath(n, p)
    requires Offset(n, p) <= i < Offset(n, p) + OwnCount(Subtree(n, p))
    ensures i < |Examine(n, depth)|
    ensures Examine(n, depth)[i] == Own(Subtree(n, p), depth + |p|)[i - Offset(n, p)]
  {
    var k := i - Offset(n, p);
    OwnLineAt(Subtree(n, p), depth + |p|, k);
    SubtreeLineAt(n, depth, p, k);
  }

  /** The first OwnCount(m) lines of m are its own lines. */
  lemma {:induction false} OwnLineAt(m: Node, depth: nat, k: nat)
    requires k < OwnCount(m)
    ensures k < |Examine(m, depth)| && Examine(m, depth)[k] == Own(m, depth)[k]
  {
  }

  /** The own lines of the node at path p lie within the lines of n. */
  lemma {:induction false} OwnRangeInside(n: Node, p: seq<nat>)
    requires ValidPath(n, p)
    ensures Offset(n, p) + OwnCount(Subtree(n, p)) <= Size(n) + Assignments(n)
    decreases |p|
  {
    if p == [] {
      assert Subtree(n, p) == n && Offset(n, p) == 0;
    } else {
      var c, q := n.children[p[0]], p[1..];
      assert Subtree(n, p) == Subtree(c, q);
      OwnRangeInside(c, q);
      ChildStartMono(n, p[0] + 1, |n.children|);
      ChildStartEnd(n);
    }
  }

  /** No two nodes share a line: two paths whose nodes' own lines both
      include line i are the same path. */
  lemma {:induction false} OwnLinesDisjoint(n: Node, p1: seq<nat>, p2: seq<nat>, i: nat)
    requires ValidPath(n, p1) && Offset(n, p1) <= i < Offset(n, p1) + OwnCount(Subtree(n, p1))
    requires ValidPath(n, p2) && Offset(n, p2) <= i < Offset(n, p2) + OwnCount(Subtree(n, p2))
    ensures p1 == p2
    decreases |p1|
  {
    if p1 == [] || p2 == [] {
      if p1 != [] {
        ChildStartMono(n, 0, p1[0]);
      } else if p2 != [] {
        ChildStartMono(n, 0, p2[0]);
      }
    } else {
      var c1, q1 := n.children[p1[0]], p1[1..];
      var c2, q2 := n.children[p2[0]], p2[1..];
      assert Subtree(n, p1) == Subtree(c1, q1);
      assert Subtree(n, p2) == Subtree(c2, q2);
      OwnRangeInside(c1, q1);
      OwnRangeInside(c2, q2);
      ChildBlocksDisjoint(n, i, p1[0], p2[0]);
      OwnLinesDisjoint(c1, q1, q2, i - ChildStart(n, p1[0]));
      assert p1 == [p1[0]] + q1 && p2 == [p2[0]] + q2;
    }
  }

  /** The owner is unique: the only node whose own lines include line i is
      its owner. */
  lemma {:induction false} OwnerUnique(n: Node, p: seq<nat>, i: nat)
    requires ValidPath(n, p)
    requires Offset(n, p) <= i < Offset(n, p) + OwnCount(Subtree(n, p))
    ensures i < Size(n) + Assignments(n) && Owner(n, i) == p
  {
    OwnRangeInside(n, p);
    OwnLinesDisjoint(n, p, Owner(n, i), i);
  }

  /** Every line of the walk comes from exactly one node, at indent level
      equal to that node's distance from the root: a class-name line is that
      node's class name, and a notice is printed only by an assignment node
      and carries that node's start line. */
  lemma {:induction false} EveryLineOwned(root: Node, i: nat)
    requires i < |Walk(root)|
    ensures i < Size(root) + Assignments(root)
    ensures var p := Owner(root, i);
      var m := Subtree(root, p);
      var l := Walk(root)[i];
      && l.depth == |p|
      && (l.Kind? ==> l.kind == m.kind)
      && (l.Found? ==> IsAssignment(m) && l.line == m.startLine)
  {
    LineCounts(root, 0);
    var p := Owner(root, i);
    var m := Subtree(root, p);
    OwnedLine(root, 0, p, i);
    var k := i - Offset(root, p);
    if !IsAssignment(m) {
      assert k == 0;
    } else if k == 0 {
      assert Own(m, |p|)[0] == Found(|p|, m.startLine);
    }
  }

  /** After the root's own lines, every line of the walk is indented at
      least one level. */
  lemma {:induction false} WalkStartsAtRoot(root: Node)
    ensures forall i :: OwnCount(root) <= i < |Walk(root)| ==> Walk(root)[i].depth >= 1
  {
    OwnLinesFirst(root, 0);
  }

  /** A notice is always followed by the class-name line of an assignment at
      the same depth, and the class-name line of an assignment is always
      preceded by a notice at the same depth. Hence a notice is printed
      exactly before the class name of an assignment and nowhere else. */
  predicate NoticesPaired(ls: seq<Line>) {
    && (forall i :: 0 <= i < |ls| && ls[i].Found? ==>
          i + 1 < |ls| && ls[i + 1] == Kind(ls[i].depth, AssignmentKind))
    && (forall i :: 0 <= i < |ls| && ls[i].Kind? && ls[i].kind == AssignmentKind ==>
          i > 0 && ls[i - 1].Found? && ls[i - 1].depth == ls[i].depth)
  }

  lemma {:induction false} PairedAppend(a: seq<Line>, b: seq<Line>)
    requires NoticesPaired(a) && NoticesPaired(b)
    ensures NoticesPaired(a + b)
  {
    var ab := a + b;
    forall i | 0 <= i < |ab| && ab[i].Found?
      ensures i + 1 < |ab| && ab[i + 1] == Kind(ab[i].depth, AssignmentKind)
    {
      if i < |a| {
        assert a[i].Found?;
      } else {
        assert b[i - |a|].Found?;
      }
    }
    forall i | 0 <= i < |ab| && ab[i].Kind? && ab[i].kind == AssignmentKind
      ensures i > 0 && ab[i - 1].Found? && ab[i - 1].depth == ab[i].depth
    {
      if i < |a| {
        assert a[i].Kind?;
      } else {
        assert b[i - |a|].Kind?;
      }
    }
  }

  lemma {:induction false} ExaminePaired(n: Node, depth: nat)
    ensures NoticesPaired(Examine(n, depth))
    decreases n
  {
    ExamineAllPaired(n.children, depth + 1);
    PairedAppend(Own(n, depth), ExamineAll(n.children, depth + 1));
  }

  lemma {:induction false} ExamineAllPaired(ns: seq<Node>, depth: nat)
    ensures NoticesPaired(ExamineAll(ns, depth))
    decreases ns
  {
    if ns != [] {
      ExaminePaired(ns[0], depth);
      ExamineAllPaired(ns[1..], depth);
      PairedAppend(Examine(ns[0], depth), ExamineAll(ns[1..], depth));
    }
  }

  /** The class names the walk prints are those of the tree's nodes. */
  lemma {:induction false} KindsPrintable(n: Node, depth: nat)
    requires WellNamed(n)
    ensures forall l <- Examine(n, depth) :: l.Kind? ==> PrintableKind(l.kind)
    decreases n
  {
    KindsPrintableAll(n.children, depth + 1);
  }

  lemma {:induction false} KindsPrintableAll(ns: seq<Node>, depth: nat)
    requires forall i :: 0 <= i < |ns| ==> WellNamed(ns[i])
    ensures forall l <- ExamineAll(ns, depth) :: l.Kind? ==> PrintableKind(l.kind)
    decreases ns
  {
    if ns != [] {
      KindsPrintable(ns[0], depth);
      KindsPrintableAll(ns[1..], depth);
    }
  }

  lemma {:induction false} BlanksAfterIndent(depth: nat, t: string)
    requires t != [] && t[0] != ' '
    ensures LeadingBlanks(Indent(depth) + t) == 2 * depth
    decreases depth
  {
    if depth > 0 {
      var s := Indent(depth) + t;
      assert s[1..][1..] == Indent(depth - 1) + t;
      BlanksAfterIndent(depth - 1, t);
    } else {
      assert Indent(depth) + t == t;
    }
  }

  /** The text of a line starts with exactly two blanks per level of depth. */
  lemma {:induction false} TextIndent(l: Line)
    requires l.Kind? ==> PrintableKind(l.kind)
    ensures LeadingBlanks(Text(l)) == 2 * l.depth
    ensures Text(l)[..2 * l.depth] == Indent(l.depth)
  {
    var t := if l.Found? then FoundPrefix + Decimal.FromNat(l.line) else l.kind;
    assert Text(l) == Indent(l.depth) + t;
    BlanksAfterIndent(l.depth, t);
  }

  /** A class name cannot pass for the notice: the notice has blanks. */
  lemma {:induction false} NoNoticeInKind(kind: string)
    requires PrintableKind(kind)
    ensures !(FoundPrefix <= kind)
  {
    assert FoundPrefix[5] == ' ';
    assert |kind| > 5 ==> kind[5] != FoundPrefix[5];
  }

  /** Reading back the text of a line gives the line. */
  lemma {:induction false} ParseText(l: Line)
    requires l.Kind? ==> PrintableKind(l.kind)
    ensures ParseLine(Text(l)) == Some(l)
  {
    match l
    case Found(depth, line) => ParseFoundText(depth, line);
    case Kind(depth, kind) => ParseKindText(depth, kind);
  }

  lemma {:induction false} ParseFoundText(depth: nat, line: nat)
    ensures ParseLine(Text(Found(depth, line))) == Some(Found(depth, line))
  {
    var digits := Decimal.FromNat(line);
    var t := FoundPrefix + digits;
    var s := Indent(depth) + t;
    assert Text(Found(depth, line)) == s;
    BlanksAfterIndent(depth, t);
    assert s[2 * depth..] == t;
    assert FoundPrefix <= t;
    assert t[|FoundPrefix|..] == digits;
    Decimal.ValueOfFromNat(line);
    assert (2 * depth) / 2 == depth;
  }

  lemma {:induction false} ParseKindText(depth: nat, kind: string)
    requires PrintableKind(kind)
    ensures ParseLine(Text(Kind(depth, kind))) == Some(Kind(depth, kind))
  {
    var s := Indent(depth) + kind;
    assert Text(Kind(depth, kind)) == s;
    BlanksAfterIndent(depth, kind);
    assert s[2 * depth..] == kind;
    NoNoticeInKind(kind);
    assert (2 * depth) / 2 == depth;
  }

  lemma {:induction false} IndentOfBlanks(s: string, k: nat)
    requires k <= |s| && k % 2 == 0
    requires forall i :: 0 <= i < k ==> s[i] == ' '
    ensures s[..k] == Indent(k / 2)
    ensures s == Indent(k / 2) + s[k..]
  {
    assert s == s[..k] + s[k..];
    var ind := Indent(k / 2);
    assert |ind| == k;
    forall i | 0 <= i < k
      ensures s[..k][i] == ind[i]
    {
    }
  }

  /** The text of a notice whose number is spelled by canonical digits ends
      with exactly those digits. */
  lemma {:induction false} FoundText(depth: nat, digits: string)
    requires Decimal.IsCanonical(digits)
    ensures Text(Found(depth, Decimal.Value(digits))) == Indent(depth) + (FoundPrefix + digits)
  {
    Decimal.FromNatOfValue(digits);
  }

  /** Conversely, a console line that reads back as a record is exactly that
      record's text, and a class name read back is printable. */
  lemma {:induction false} TextOfParse(s: string)
    requires ParseLine(s).Some?
    ensures Text(ParseLine(s).value) == s
    ensures ParseLine(s).value.Kind? ==> PrintableKind(ParseLine(s).value.kind)
  {
    var k := LeadingBlanks(s);
    var rest := s[k..];
    var l := ParseLine(s).value;
    assert k % 2 == 0;
    var ind := Indent(k / 2);
    IndentOfBlanks(s, k);
    if FoundPrefix <= rest && Decimal.IsCanonical(rest[|FoundPrefix|..]) {
      var digits := rest[|FoundPrefix|..];
      assert l == Found(k / 2, Decimal.Value(digits));
      FoundText(k / 2, digits);
      assert rest == FoundPrefix + digits;
    } else {
      assert l == Kind(k / 2, rest);
    }
  }

  /** The console text of the walk determines the walk: each printed line
      reads back as the record that printed it. */
  lemma {:induction false} OutputDecodes(root: Node)
    requires WellNamed(root)
    ensures |Output(root)| == |Walk(root)|
    ensures forall i :: 0 <= i < |Output(root)| ==> ParseLine(Output(root)[i]) == Some(Walk(root)[i])
  {
    var lines := Walk(root);
    KindsPrintable(root, 0);
    forall i | 0 <= i < |Output(root)|
      ensures ParseLine(Output(root)[i]) == Some(lines[i])
    {
      assert lines[i] in lines;
      ParseText(lines[i]);
    }
  }
}
