/** Linking every node of a binary tree to its right neighbour on the same level. */
module LevelLinks {

  class Node {
    var val: int
    var left: Node?
    var right: Node?
    var next: Node?

    constructor (val: int, left: Node?, right: Node?)
      ensures this.val == val && this.left == left && this.right == right && next == null
    {
      this.val, this.left, this.right := val, left, right;
      next := null;
    }
  }

  /** The shape of a tree in memory. */
  datatype Tree = Leaf | Branch(node: Node, left: Tree, right: Tree)

  function Root(t: Tree): Node? {
    if t.Leaf? then null else t.node
  }

  ghost function Nodes(t: Tree): set<Node> {
    if t.Leaf? then {} else {t.node} + Nodes(t.left) + Nodes(t.right)
  }

  /** `t` is what the child fields describe, and every node occurs once. */
  ghost predicate IsTree(t: Tree)
    reads Nodes(t)`left, Nodes(t)`right
  {
    t.Branch? ==>
      && t.node.left == Root(t.left) && t.node.right == Root(t.right)
      && t.node !in Nodes(t.left) && t.node !in Nodes(t.right) && Nodes(t.left) !! Nodes(t.right)
      && IsTree(t.left) && IsTree(t.right)
  }

  /** The nodes at a depth, from left to right. */
  ghost function Level(t: Tree, depth: nat): seq<Node> {
    if t.Leaf? then []
    else if depth == 0 then [t.node]
    else Level(t.left, depth - 1) + Level(t.right, depth - 1)
  }

  /** Each node's `next` is the one that follows it, or null. */
  ghost predicate Linked(s: seq<Node>)
    reads s
  {
    forall i {:trigger s[i]} :: 0 <= i < |s| ==> s[i].next == if i + 1 < |s| then s[i + 1] else null
  }

  // ----- forests: a subtree together with everything to its right

  ghost function ForestNodes(f: seq<Tree>): set<Node> {
    if f == [] then {} else Nodes(f[0]) + ForestNodes(f[1..])
  }

  ghost predicate IsForest(f: seq<Tree>)
    reads ForestNodes(f)`left, ForestNodes(f)`right
  {
    f != [] ==> IsTree(f[0]) && Nodes(f[0]) !! ForestNodes(f[1..]) && IsForest(f[1..])
  }

  ghost function ForestLevel(f: seq<Tree>, depth: nat): seq<Node> {
    if f == [] then [] else Level(f[0], depth) + ForestLevel(f[1..], depth)
  }

  ghost function Roots(f: seq<Tree>): seq<Node> {
    ForestLevel(f, 0)
  }

  ghost function First(f: seq<Tree>): Node? {
    if f == [] then null else if f[0].Branch? then f[0].node else First(f[1..])
  }

  /** The trees one level down. */
  ghost function Kids(f: seq<Tree>): seq<Tree> {
    if f == [] then []
    else (if f[0].Leaf? then [] else [f[0].left, f[0].right]) + Kids(f[1..])
  }

  lemma {:induction false} LevelInNodes(t: Tree, depth: nat)
    ensures forall n <- Level(t, depth) :: n in Nodes(t)
  {
    if t.Branch? && depth > 0 {
      LevelInNodes(t.left, depth - 1);
      LevelInNodes(t.right, depth - 1);
    }
  }

  lemma {:induction false} ForestLevelInNodes(f: seq<Tree>, depth: nat)
    ensures forall n <- ForestLevel(f, depth) :: n in ForestNodes(f)
  {
    if f != [] {
      LevelInNodes(f[0], depth);
      ForestLevelInNodes(f[1..], depth);
    }
  }

  /** A level of the forest is the level above it of the trees one level down. */
  lemma {:induction false} LevelOfKids(f: seq<Tree>, depth: nat)
    ensures ForestLevel(f, depth + 1) == ForestLevel(Kids(f), depth)
  {
    if f != [] {
      LevelOfKids(f[1..], depth);
      var more := Kids(f[1..]);
      if f[0].Branch? {
        var k := Kids(f);
        assert k == [f[0].left, f[0].right] + more;
        assert k[1..] == [f[0].right] + more && k[1..][1..] == more;
      } else {
        assert Kids(f) == more;
      }
    }
  }

  lemma {:induction false} KidsInNodes(f: seq<Tree>)
    ensures ForestNodes(Kids(f)) <= ForestNodes(f)
  {
    if f != [] {
      KidsInNodes(f[1..]);
      KidsFirst(f);
    }
  }

  lemma {:induction false} KidsFirst(f: seq<Tree>)
    requires f != []
    ensures ForestNodes(Kids(f))
         == (if f[0].Leaf? then {} else Nodes(f[0].left) + Nodes(f[0].right)) + ForestNodes(Kids(f[1..]))
  {
    var k, more := Kids(f), Kids(f[1..]);
    if f[0].Branch? {
      assert k[1..] == [f[0].right] + more && k[1..][1..] == more;
    } else {
      assert k == more;
    }
  }

  lemma {:induction false} KidsAreForest(f: seq<Tree>)
    requires IsForest(f)
    ensures IsForest(Kids(f))
  {
    if f != [] {
      KidsAreForest(f[1..]);
      KidsInNodes(f[1..]);
      var k, more := Kids(f), Kids(f[1..]);
      if f[0].Branch? {
        assert k[1..] == [f[0].right] + more && k[1..][1..] == more;
        assert ForestNodes(k[1..]) == Nodes(f[0].right) + ForestNodes(more);
      } else {
        assert k == more;
      }
    }
  }

  /** Leading empty trees do not matter. */
  ghost function Trim(f: seq<Tree>): (g: seq<Tree>)
    ensures g == [] || g[0].Branch?
    ensures First(g) == First(f) && Roots(g) == Roots(f) && Kids(g) == Kids(f) && |g| <= |f|
  {
    if f == [] || f[0].Branch? then f else Trim(f[1..])
  }

  lemma {:induction false} TrimIsForest(f: seq<Tree>)
    requires IsForest(f)
    ensures IsForest(Trim(f))
  {
    if f != [] && f[0].Leaf? {
      TrimIsForest(f[1..]);
    }
  }

  lemma FirstIsFirstRoot(f: seq<Tree>)
    ensures First(f) == if Roots(f) == [] then null else Roots(f)[0]
  {
  }

  lemma LinkedMore(n: Node, s: seq<Node>)
    ensures Linked([n] + s) <==> Linked(s) && n.next == if s == [] then null else s[0]
  {
    var t := [n] + s;
    assert forall i :: 0 <= i < |s| ==> s[i] == t[i + 1];
    if Linked(t) {
      forall i | 0 <= i < |s| ensures s[i].next == if i + 1 < |s| then s[i + 1] else null {
        assert t[i + 1].next == if i + 2 < |t| then t[i + 2] else null;
      }
      assert t[0].next == if 1 < |t| then t[1] else null;
    }
  }

  /** All levels of a forest are linked. */
  ghost predicate AllLinked(f: seq<Tree>)
    reads ForestNodes(f)
  {
    forall depth: nat ::
      (forall n <- ForestLevel(f, depth) :: n in ForestNodes(f)) && Linked(ForestLevel(f, depth))
  }

  lemma KidsAreLinked(f: seq<Tree>)
    requires AllLinked(f)
    ensures AllLinked(Kids(f))
  {
    forall depth: nat ensures (forall n <- ForestLevel(Kids(f), depth) :: n in ForestNodes(Kids(f)))
      && Linked(ForestLevel(Kids(f), depth))
    {
      ForestLevelInNodes(Kids(f), depth);
      LevelOfKids(f, depth);
      assert Linked(ForestLevel(f, depth + 1));
    }
  }

  /** Level by level: the roots, and the forest one level down. */
  lemma LinkedFromKids(f: seq<Tree>)
    requires AllLinked(Kids(f)) && Linked(Roots(f))
    ensures AllLinked(f)
  {
    forall depth: nat ensures (forall n <- ForestLevel(f, depth) :: n in ForestNodes(f)) && Linked(ForestLevel(f, depth)) {
      ForestLevelInNodes(f, depth);
      if depth > 0 {
        LevelOfKids(f, depth - 1);
        assert Linked(ForestLevel(Kids(f), depth - 1));
      }
    }
  }

  // ----- the algorithm

  /** The first child of the nodes that follow `root` on its level; `f` is the forest that they head. */
  method FirstChildFrom(start: Node?, ghost f: seq<Tree>) returns (child: Node?)
    requires IsForest(f) && Linked(Roots(f)) && start == First(f)
    ensures child == First(Kids(f))
  {
    var parent := start;
    ghost var g := Trim(f);
    TrimIsForest(f);
    while parent != null && parent.left == null && parent.right == null
      invariant IsForest(g) && Linked(Roots(g)) && parent == First(g)
      invariant First(Kids(g)) == First(Kids(f)) && (g == [] || g[0].Branch?)
      decreases |g|
    {
      ghost var rest := g[1..];
      FirstIsFirstRoot(rest);
      LinkedMore(g[0].node, Roots(rest));
      assert Roots(g) == [g[0].node] + Roots(rest);
      KidsOfLeafy(g);
      parent := parent.next;
      TrimIsForest(rest);
      g := Trim(rest);
    }
    if parent == null {
      return null;
    }
    child := if parent.left != null then parent.left else parent.right;
  }

  lemma KidsOfLeafy(g: seq<Tree>)
    requires g != [] && g[0].Branch? && g[0].left.Leaf? && g[0].right.Leaf?
    ensures First(Kids(g)) == First(Kids(g[1..]))
  {
    var k := Kids(g);
    assert k[1..][1..] == Kids(g[1..]);
  }

  /** `connect` on a subtree: everything to its right is linked already, and `root` to that. */
  method Connect(root: Node?, ghost t: Tree, ghost f: seq<Tree>) returns (r: Node?)
    requires root == Root(t) && IsForest([t] + f) && AllLinked(f)
    requires root != null ==> root.next == First(f)
    modifies (Nodes(t) - {root})`next
    ensures r == root && AllLinked([t] + f)
    decreases t
  {
    hide AllLinked, Kids, First, Linked, IsForest, IsTree, ForestNodes, ForestLevel, Nodes;
    r := root;
    Heads(t, f);
    if root == null {
      EmptyTreeFirst(t, f);
      return;
    }
    ghost var k := Kids(f);
    KidsAreLinked(f);
    Below(t, f);
    Subtrees(t);
    RootsAreLinked(f);
    NodesAllocated(t);
    ForestAllocated(f);
    var child := if root.right != null then root.right else root.left;
    if child == null {
      EmptyTreeFirst(t.right, k);
      EmptyTreeFirst(t.left, [t.right] + k);
    } else {
      if root.left != null {
        root.left.next := root.right;
      }
      var next := FirstChildFrom(root.next, f);
      child.next := next;
      var _ := Connect(root.right, t.right, k);
      FirstOf(t.right, k);
      var _ := Connect(root.left, t.left, [t.right] + k);
    }
    RootsAreLinked(f);
    RootLevel(t, f);
    LinkedFromKids([t] + f);
  }

  lemma {:induction false} NodesAllocated(t: Tree)
    ensures forall n <- Nodes(t) :: allocated(n)
  {
    if t.Branch? {
      NodesAllocated(t.left);
      NodesAllocated(t.right);
    }
  }

  lemma {:induction false} ForestAllocated(f: seq<Tree>)
    ensures forall n <- ForestNodes(f) :: allocated(n)
  {
    if f != [] {
      NodesAllocated(f[0]);
      ForestAllocated(f[1..]);
    }
  }

  lemma Subtrees(t: Tree)
    requires IsTree(t) && t.Branch?
    ensures t.node.left == Root(t.left) && t.node.right == Root(t.right)
    ensures Nodes(t.left) <= Nodes(t) - {t.node} && Nodes(t.right) <= Nodes(t) - {t.node}
    ensures Nodes(t.left) !! Nodes(t.right) && t.node in Nodes(t)
    ensures t.left.Branch? ==> t.left.node in Nodes(t.left)
    ensures t.right.Branch? ==> t.right.node in Nodes(t.right)
  {
  }

  lemma Heads(t: Tree, f: seq<Tree>)
    requires IsForest([t] + f)
    ensures IsTree(t) && Nodes(t) !! ForestNodes(f) && IsForest(f)
  {
    assert ([t] + f)[1..] == f;
  }

  lemma FirstOf(t: Tree, f: seq<Tree>)
    ensures First([t] + f) == if t.Branch? then t.node else First(f)
  {
    assert ([t] + f)[1..] == f;
  }

  /** What the forest one level down consists of. */
  lemma Below(t: Tree, f: seq<Tree>)
    requires t.Branch? && IsForest([t] + f)
    ensures Kids([t] + f) == [t.left] + ([t.right] + Kids(f))
    ensures ForestNodes(Kids(f)) <= ForestNodes(f)
    ensures ForestNodes([t.right] + Kids(f)) == Nodes(t.right) + ForestNodes(Kids(f))
    ensures ForestNodes([t.left] + ([t.right] + Kids(f))) == Nodes(t.left) + Nodes(t.right) + ForestNodes(Kids(f))
    ensures IsForest([t.right] + Kids(f)) && IsForest([t.left] + ([t.right] + Kids(f)))
  {
    var k := Kids(f);
    assert ([t] + f)[1..] == f && ([t.right] + k)[1..] == k;
    assert ([t.left] + ([t.right] + k))[1..] == [t.right] + k;
    assert Kids([t] + f) == [t.left, t.right] + k;
    KidsInNodes(f);
    KidsAreForest(f);
  }

  lemma RootsAreLinked(f: seq<Tree>)
    requires AllLinked(f)
    ensures Linked(Roots(f)) && forall n <- Roots(f) :: n in ForestNodes(f)
  {
    assert Linked(ForestLevel(f, 0));
  }

  lemma EmptyTreeFirst(t: Tree, f: seq<Tree>)
    requires t.Leaf? && AllLinked(f)
    ensures AllLinked([t] + f)
  {
    assert ([t] + f)[1..] == f;
    forall depth: nat ensures (forall n <- ForestLevel([t] + f, depth) :: n in ForestNodes([t] + f))
      && Linked(ForestLevel([t] + f, depth))
    {
      assert ForestLevel([t] + f, depth) == ForestLevel(f, depth);
      assert Linked(ForestLevel(f, depth));
    }
  }

  lemma RootLevel(t: Tree, f: seq<Tree>)
    requires t.Branch? && Linked(Roots(f)) && t.node.next == First(f)
    ensures Linked(Roots([t] + f))
  {
    assert ([t] + f)[1..] == f;
    assert Roots([t] + f) == [t.node] + Roots(f);
    FirstIsFirstRoot(f);
    LinkedMore(t.node, Roots(f));
  }

  /** `connect` on a whole tree whose root has no neighbour: afterwards every node's `next` is the node to
      its right on the same level, and null at the end of each level. */
  method ConnectTree(root: Node?, ghost t: Tree) returns (r: Node?)
    requires root == Root(t) && IsTree(t) && forall n <- Nodes(t) :: n.next == null
    modifies Nodes(t)`next
    ensures r == root && forall depth: nat :: Linked(Level(t, depth))
  {
    assert [t] + [] == [t];
    r := Connect(root, t, []);
    forall depth: nat ensures Linked(Level(t, depth)) {
      assert Linked(ForestLevel([t], depth));
      assert ForestLevel([t], depth) == Level(t, depth);
    }
  }

  /** Every node is on exactly one level, once: the levels determine all `next` fields. */
  lemma {:induction false} EveryNodeHasALevel(t: Tree, n: Node)
    requires n in Nodes(t)
    ensures exists depth: nat :: n in Level(t, depth)
  {
    if n == t.node {
      assert n in Level(t, 0);
    } else {
      var side := if n in Nodes(t.left) then t.left else t.right;
      EveryNodeHasALevel(side, n);
      var d: nat :| n in Level(side, d);
      assert n in Level(t, d + 1);
    }
  }
}
