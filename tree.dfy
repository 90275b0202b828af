/**
 * The syntax tree and the order in which the walk of src/js/detect.js:54 enters its nodes.
 * The walk is a depth-first, pre-order walk over each node's `children`; every node is
 * entered once, together with its parent (no parent for the root).
 */
module Tree {
  import opened Wrappers

  /** Source span of a node or of an occurrence (the parser's `range` option). */
  datatype Location = Location(start: nat, end: nat)

  /** An ESTree node: its kind tag, its location and its structural children, in walk order. */
  datatype Node = Node(kind: string, location: Location, children: seq<Node>)

  /** One `enter(node, parent)` of the walk. */
  datatype Visit = Visit(node: Node, parent: Option<Node>)

  /** Number of nodes in the tree rooted at `n`. */
  function Size(n: Node): nat
    decreases n, 1
  {
    1 + SizeOfChildren(n, 0)
  }

  /** Number of nodes in the subtrees of `n.children[i..]`. */
  function SizeOfChildren(n: Node, i: nat): nat
    requires i <= |n.children|
    decreases n, 0, |n.children| - i
  {
    if i == |n.children| then 0 else Size(n.children[i]) + SizeOfChildren(n, i + 1)
  }

  /** The visits of the subtree rooted at `n`, entered with parent `parent`, in pre-order. */
  function VisitFrom(n: Node, parent: Option<Node>): seq<Visit>
    decreases n, 1
  {
    [Visit(n, parent)] + VisitChildren(n, 0)
  }

  /** The visits of the subtrees of `n.children[i..]`, one subtree after the other. */
  function VisitChildren(n: Node, i: nat): seq<Visit>
    requires i <= |n.children|
    decreases n, 0, |n.children| - i
  {
    if i == |n.children| then [] else VisitFrom(n.children[i], Some(n)) + VisitChildren(n, i + 1)
  }

  /** The whole walk from the root, which has no parent. */
  function PreOrder(root: Node): seq<Visit>
  {
    VisitFrom(root, None)
  }

  /**
   * The visits still owed by a worklist whose first entry is entered next: each entry
   * stands for its whole subtree.
   */
  function Pending(work: seq<Visit>): seq<Visit>
  {
    if work == [] then [] else VisitFrom(work[0].node, work[0].parent) + Pending(work[1..])
  }

  /** The worklist entries for the children of `n`, first child first. */
  function ChildVisits(n: Node): seq<Visit>
  {
    seq(|n.children|, j requires 0 <= j < |n.children| => Visit(n.children[j], Some(n)))
  }

  /** Pending distributes over concatenation of worklists. */
  lemma {:induction false} PendingAppend(a: seq<Visit>, b: seq<Visit>)
    ensures Pending(a + b) == Pending(a) + Pending(b)
  {
    if a == [] {
      assert a + b == b;
    } else {
      assert (a + b)[0] == a[0];
      assert (a + b)[1..] == a[1..] + b;
      PendingAppend(a[1..], b);
    }
  }

  /** The worklist entries of the children of `n` owe exactly the visits below `n`. */
  lemma {:induction false} PendingChildVisits(n: Node, i: nat)
    requires i <= |n.children|
    ensures Pending(ChildVisits(n)[i..]) == VisitChildren(n, i)
    decreases |n.children| - i
  {
    var cv := ChildVisits(n)[i..];
    if i < |n.children| {
      assert cv[0] == Visit(n.children[i], Some(n));
      assert cv[1..] == ChildVisits(n)[i + 1..];
      PendingChildVisits(n, i + 1);
    } else {
      assert cv == [];
    }
  }

  /** Entering the first entry of a worklist and pushing its children keeps what is owed. */
  lemma PendingStep(work: seq<Visit>)
    requires work != []
    ensures Pending(work) == [work[0]] + Pending(ChildVisits(work[0].node) + work[1..])
  {
    PendingAppend(ChildVisits(work[0].node), work[1..]);
    PendingChildVisits(work[0].node, 0);
    assert ChildVisits(work[0].node)[0..] == ChildVisits(work[0].node);
  }

  /** The walk of a subtree enters each of its nodes once: as many visits as nodes. */
  lemma {:induction false} VisitFromSize(n: Node, parent: Option<Node>)
    ensures |VisitFrom(n, parent)| == Size(n)
    decreases n, 1
  {
    VisitChildrenSize(n, 0);
  }

  lemma {:induction false} VisitChildrenSize(n: Node, i: nat)
    requires i <= |n.children|
    ensures |VisitChildren(n, i)| == SizeOfChildren(n, i)
    decreases n, 0, |n.children| - i
  {
    if i < |n.children| {
      VisitFromSize(n.children[i], Some(n));
      VisitChildrenSize(n, i + 1);
    }
  }

  /**
   * Visit `k` of `vs` has a parent of which the visited node is a child, and that parent is
   * either `outer` or a node visited before position `k`.
   */
  ghost predicate ParentKnown(vs: seq<Visit>, k: nat, outer: Option<Node>)
    requires k < |vs|
  {
    && vs[k].parent.Some?
    && vs[k].node in vs[k].parent.value.children
    && (vs[k].parent == outer || exists j :: 0 <= j < k && vs[j].node == vs[k].parent.value)
  }

  /** Every visit from position `from` on has a known parent. */
  ghost predicate ParentsPrecede(vs: seq<Visit>, from: nat, outer: Option<Node>)
  {
    forall k :: from <= k < |vs| ==> ParentKnown(vs, k, outer)
  }

  lemma {:induction false} VisitFromParents(n: Node, parent: Option<Node>)
    ensures VisitFrom(n, parent)[0] == Visit(n, parent)
    ensures ParentsPrecede(VisitFrom(n, parent), 1, None)
    decreases n, 1
  {
    var vs := VisitFrom(n, parent);
    var cs := VisitChildren(n, 0);
    VisitChildrenParents(n, 0);
    forall k | 1 <= k < |vs|
      ensures ParentKnown(vs, k, None)
    {
      assert vs[k] == cs[k - 1];
      assert ParentKnown(cs, k - 1, Some(n));
      if cs[k - 1].parent == Some(n) {
        assert vs[0].node == n;
      } else {
        var j :| 0 <= j < k - 1 && cs[j].node == cs[k - 1].parent.value;
        assert vs[j + 1] == cs[j];
      }
    }
  }

  lemma {:induction false} VisitChildrenParents(n: Node, i: nat)
    requires i <= |n.children|
    ensures ParentsPrecede(VisitChildren(n, i), 0, Some(n))
    decreases n, 0, |n.children| - i
  {
    if i < |n.children| {
      var c := n.children[i];
      var a := VisitFrom(c, Some(n));
      var b := VisitChildren(n, i + 1);
      var cs := VisitChildren(n, i);
      assert cs == a + b;
      VisitFromParents(c, Some(n));
      VisitChildrenParents(n, i + 1);
      forall k | 0 <= k < |cs|
        ensures ParentKnown(cs, k, Some(n))
      {
        if k == 0 {
          assert cs[0] == Visit(c, Some(n));
        } else if k < |a| {
          assert cs[k] == a[k];
          assert ParentKnown(a, k, None);
          var j :| 0 <= j < k && a[j].node == a[k].parent.value;
          assert cs[j] == a[j];
        } else {
          assert cs[k] == b[k - |a|];
          assert ParentKnown(b, k - |a|, Some(n));
          if b[k - |a|].parent != Some(n) {
            var j :| 0 <= j < k - |a| && b[j].node == b[k - |a|].parent.value;
            assert cs[j + |a|] == b[j];
          }
        }
      }
    }
  }

  /** Every child of the node of visit `k` is visited after it, with that node as parent. */
  ghost predicate ChildrenEntered(vs: seq<Visit>, k: nat)
    requires k < |vs|
  {
    forall j :: 0 <= j < |vs[k].node.children| ==>
      Visit(vs[k].node.children[j], Some(vs[k].node)) in vs[k + 1..]
  }

  /** Every visit's children are entered later in `vs`. */
  ghost predicate EveryChildEntered(vs: seq<Visit>)
  {
    forall k :: 0 <= k < |vs| ==> ChildrenEntered(vs, k)
  }

  /** Putting visits in front of `b` keeps the children of `b`'s visits entered. */
  lemma EnteredShift(a: seq<Visit>, b: seq<Visit>)
    requires EveryChildEntered(b)
    ensures forall k :: |a| <= k < |a + b| ==> ChildrenEntered(a + b, k)
  {
    var ab := a + b;
    forall k | |a| <= k < |ab| ensures ChildrenEntered(ab, k) {
      assert ab[k] == b[k - |a|];
      assert ab[k + 1..] == b[k - |a| + 1..];
      assert ChildrenEntered(b, k - |a|);
    }
  }

  /** Appending visits keeps the children of `a`'s visits entered. */
  lemma EnteredExtend(a: seq<Visit>, b: seq<Visit>)
    requires EveryChildEntered(a)
    ensures forall k :: 0 <= k < |a| ==> ChildrenEntered(a + b, k)
  {
    var ab := a + b;
    forall k | 0 <= k < |a| ensures ChildrenEntered(ab, k) {
      assert ab[k] == a[k];
      assert ab[k + 1..] == a[k + 1..] + b;
      assert ChildrenEntered(a, k);
    }
  }

  /** The walk below `n` from child `i` on enters each of those children with parent `n`. */
  lemma {:induction false} VisitChildrenStarts(n: Node, i: nat)
    requires i <= |n.children|
    ensures forall j :: i <= j < |n.children| ==> Visit(n.children[j], Some(n)) in VisitChildren(n, i)
    decreases |n.children| - i
  {
    if i < |n.children| {
      var a := VisitFrom(n.children[i], Some(n));
      assert VisitChildren(n, i) == a + VisitChildren(n, i + 1);
      assert a[0] == Visit(n.children[i], Some(n));
      VisitChildrenStarts(n, i + 1);
    }
  }

  lemma {:induction false} VisitFromEntered(n: Node, parent: Option<Node>)
    ensures EveryChildEntered(VisitFrom(n, parent))
    decreases n, 1
  {
    var cs := VisitChildren(n, 0);
    var vs := VisitFrom(n, parent);
    assert vs == [Visit(n, parent)] + cs;
    VisitChildrenEntered(n, 0);
    EnteredShift([Visit(n, parent)], cs);
    VisitChildrenStarts(n, 0);
    assert vs[1..] == cs;
    assert ChildrenEntered(vs, 0);
  }

  lemma {:induction false} VisitChildrenEntered(n: Node, i: nat)
    requires i <= |n.children|
    ensures EveryChildEntered(VisitChildren(n, i))
    decreases n, 0, |n.children| - i
  {
    if i < |n.children| {
      var a := VisitFrom(n.children[i], Some(n));
      var b := VisitChildren(n, i + 1);
      assert VisitChildren(n, i) == a + b;
      VisitFromEntered(n.children[i], Some(n));
      VisitChildrenEntered(n, i + 1);
      EnteredExtend(a, b);
      EnteredShift(a, b);
    }
  }

  /**
   * The walk from the root: it starts at the root with no parent and makes one visit per node;
   * every later visit's parent is a node visited earlier that has the visited node as a child;
   * and every child of a visited node is visited after it, with that node as parent.
   */
  lemma PreOrderShape(root: Node)
    ensures |PreOrder(root)| == Size(root)
    ensures PreOrder(root)[0] == Visit(root, None)
    ensures ParentsPrecede(PreOrder(root), 1, None)
    ensures forall k, j :: 0 <= k < |PreOrder(root)| && 0 <= j < |PreOrder(root)[k].node.children| ==>
      Visit(PreOrder(root)[k].node.children[j], Some(PreOrder(root)[k].node)) in PreOrder(root)[k + 1..]
  {
    VisitFromSize(root, None);
    VisitFromParents(root, None);
    VisitFromEntered(root, None);
    var vs := PreOrder(root);
    forall k, j | 0 <= k < |vs| && 0 <= j < |vs[k].node.children|
      ensures Visit(vs[k].node.children[j], Some(vs[k].node)) in vs[k + 1..]
    {
      assert ChildrenEntered(vs, k);
    }
  }
}
