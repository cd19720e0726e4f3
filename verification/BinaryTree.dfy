/** Binary trees: in memory, and as values. */
module BinaryTree {

  class TreeNode {
    const val: int
    var left: TreeNode?
    var right: TreeNode?

    constructor (val: int, left: TreeNode?, right: TreeNode?)
      ensures this.val == val && this.left == left && this.right == right
    {
      this.val, this.left, this.right := val, left, right;
    }
  }

  datatype Tree = Empty | Node(val: int, left: Tree, right: Tree)

  /** Which nodes make up a tree. */
  datatype Shape = Null | Branch(node: TreeNode, left: Shape, right: Shape)

  function Root(s: Shape): TreeNode? {
    if s.Null? then null else s.node
  }

  ghost function Nodes(s: Shape): set<TreeNode> {
    if s.Null? then {} else {s.node} + Nodes(s.left) + Nodes(s.right)
  }

  /** The child fields describe this shape, and no node occurs twice. */
  ghost predicate Linked(s: Shape)
    reads Nodes(s)
  {
    s.Branch? ==>
      && s.node.left == Root(s.left) && s.node.right == Root(s.right)
      && s.node !in Nodes(s.left) && s.node !in Nodes(s.right) && Nodes(s.left) !! Nodes(s.right)
      && Linked(s.left) && Linked(s.right)
  }

  lemma {:induction false} NodesAllocated(s: Shape)
    ensures forall n <- Nodes(s) :: allocated(n)
  {
    if s.Branch? {
      NodesAllocated(s.left);
      NodesAllocated(s.right);
    }
  }

  /** A new node above two finished trees. */
  lemma BranchLinked(root: TreeNode, ls: Shape, rs: Shape)
    requires root.left == Root(ls) && root.right == Root(rs)
    requires root !in Nodes(ls) && root !in Nodes(rs) && Nodes(ls) !! Nodes(rs) && Linked(ls) && Linked(rs)
    ensures Linked(Branch(root, ls, rs))
  {
  }

  function Values(s: Shape): Tree {
    if s.Null? then Empty else Node(s.node.val, Values(s.left), Values(s.right))
  }

  function Inorder(t: Tree): seq<int> {
    if t.Empty? then [] else Inorder(t.left) + [t.val] + Inorder(t.right)
  }

  function Preorder(t: Tree): seq<int> {
    if t.Empty? then [] else [t.val] + Preorder(t.left) + Preorder(t.right)
  }

  function Postorder(t: Tree): seq<int> {
    if t.Empty? then [] else Postorder(t.left) + Postorder(t.right) + [t.val]
  }

  function Height(t: Tree): nat {
    if t.Empty? then 0
    else 1 + if Height(t.left) < Height(t.right) then Height(t.right) else Height(t.left)
  }

  /** The heights of the two subtrees of any node differ by at most one. */
  predicate Balanced(t: Tree) {
    t.Node? ==>
      && -1 <= Height(t.left) - Height(t.right) <= 1
      && Balanced(t.left) && Balanced(t.right)
  }

  /** Everything to the left is at most, everything to the right at least the value above it. */
  ghost predicate IsSearchTree(t: Tree) {
    t.Node? ==>
      && (forall x <- Inorder(t.left) :: x <= t.val) && (forall x <- Inorder(t.right) :: t.val <= x)
      && IsSearchTree(t.left) && IsSearchTree(t.right)
  }
}
