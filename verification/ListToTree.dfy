/** A sorted list becomes a balanced search tree: cut in the middle, and both halves again. */
module ListToTree {
  import opened BinaryTree

  class ListNode {
    const val: int
    var next: ListNode?

    constructor (val: int, next: ListNode?)
      ensures this.val == val && this.next == next
    {
      this.val, this.next := val, next;
    }
  }

  /** The node at a position, or null behind the last one. */
  function At(nodes: seq<ListNode>, i: nat): ListNode? {
    if i < |nodes| then nodes[i] else null
  }

  ghost function Elements(nodes: seq<ListNode>): set<ListNode> {
    set n | n in nodes
  }

  ghost predicate IsList(head: ListNode?, nodes: seq<ListNode>)
    reads Elements(nodes)
  {
    && head == At(nodes, 0)
    && (forall i, j :: 0 <= i < j < |nodes| ==> nodes[i] != nodes[j])
    && forall i {:trigger nodes[i]} :: 0 <= i < |nodes| ==> nodes[i].next == At(nodes, i + 1)
  }

  function ListValues(nodes: seq<ListNode>): seq<int> {
    seq(|nodes|, i requires 0 <= i < |nodes| => nodes[i].val)
  }

  // ----- the tree of a sequence

  function MiddleTree(s: seq<int>): Tree {
    if s == [] then Empty
    else Node(s[|s| / 2], MiddleTree(s[..|s| / 2]), MiddleTree(s[|s| / 2 + 1..]))
  }

  lemma {:induction false} InorderIsList(s: seq<int>)
    ensures Inorder(MiddleTree(s)) == s
  {
    if s != [] {
      var m := |s| / 2;
      InorderIsList(s[..m]);
      InorderIsList(s[m + 1..]);
      assert s == s[..m] + [s[m]] + s[m + 1..];
    }
  }

  function Power2(n: nat): nat {
    if n == 0 then 1 else 2 * Power2(n - 1)
  }

  /** `h` is the number of binary digits of `n`: 0 for 0, and `floor(log2 n) + 1` above. */
  predicate HasDigits(n: nat, h: nat) {
    if n == 0 then h == 0 else h > 0 && Power2(h - 1) <= n < Power2(h)
  }

  /** The height is the number of binary digits of the length. */
  lemma {:induction false} HeightIsLog(s: seq<int>)
    ensures HasDigits(|s|, Height(MiddleTree(s)))
  {
    hide HasDigits, MiddleTree, Height;
    if s == [] {
      NoDigits();
    } else {
      var m := |s| / 2;
      HeightIsLog(s[..m]);
      HeightIsLog(s[m + 1..]);
      var l, r := Height(MiddleTree(s[..m])), Height(MiddleTree(s[m + 1..]));
      HeightOfMiddle(s);
      LogGrows(l, m, r, |s| - 1 - m);
      OneDigitMore(l, m, |s|);
    }
  }

  lemma HeightOfMiddle(s: seq<int>)
    requires s != []
    ensures var l, r := Height(MiddleTree(s[..|s| / 2])), Height(MiddleTree(s[|s| / 2 + 1..]));
      Height(MiddleTree(s)) == 1 + if l < r then r else l
  {
  }

  lemma NoDigits()
    ensures HasDigits(0, Height(MiddleTree([])))
  {
  }

  /** Doubling adds one binary digit. */
  lemma OneDigitMore(l: nat, m: nat, n: nat)
    requires m == n / 2 && n > 0 && HasDigits(m, l)
    ensures HasDigits(n, l + 1)
  {
  }

  /** The number of binary digits grows with the number. */
  lemma LogGrows(h: nat, n: nat, k: nat, m: nat)
    requires m <= n <= m + 1 && HasDigits(n, h) && HasDigits(m, k)
    ensures k <= h <= k + 1
  {
    if h < k { PowerGrows(h, k - 1); }
    if k + 1 < h { PowerGrows(k + 1, h - 1); }
  }

  lemma {:induction false} PowerGrows(i: nat, j: nat)
    requires i <= j
    ensures Power2(i) <= Power2(j) && 1 <= Power2(i)
  {
    if i < j { PowerGrows(i, j - 1); } else if i > 0 { PowerGrows(i - 1, j - 1); }
  }

  lemma {:induction false} TreeIsBalanced(s: seq<int>)
    ensures Balanced(MiddleTree(s))
  {
    if s != [] {
      var m := |s| / 2;
      TreeIsBalanced(s[..m]);
      TreeIsBalanced(s[m + 1..]);
      HeightIsLog(s[..m]);
      HeightIsLog(s[m + 1..]);
      hide Height, HasDigits;
      LogGrows(Height(MiddleTree(s[..m])), m, Height(MiddleTree(s[m + 1..])), |s| - 1 - m);
    }
  }

  lemma {:induction false} SortedGivesSearchTree(s: seq<int>)
    requires forall i, j :: 0 <= i < j < |s| ==> s[i] <= s[j]
    ensures IsSearchTree(MiddleTree(s))
  {
    if s != [] {
      var m := |s| / 2;
      SortedGivesSearchTree(s[..m]);
      SortedGivesSearchTree(s[m + 1..]);
      InorderIsList(s[..m]);
      InorderIsList(s[m + 1..]);
    }
  }

  // ----- the algorithm

  /** `sortedListToBST`; the list is cut up on the way. */
  method SortedListToBST(head: ListNode?, ghost nodes: seq<ListNode>) returns (root: TreeNode?, ghost shape: Shape)
    requires IsList(head, nodes)
    modifies Elements(nodes)
    ensures root == Root(shape) && Linked(shape) && fresh(Nodes(shape))
    ensures Values(shape) == MiddleTree(ListValues(nodes))
    decreases |nodes|, 1
  {
    hide IsList, MiddleTree, ListValues, Linked;
    ShortLists(head, nodes);
    if head == null {
      return null, Null;
    }
    if head.next == null {
      root := new TreeNode(head.val, null, null);
      shape := Branch(root, Null, Null);
      LeavesLinked(root);
      return;
    }
    var mid := Cut(head, nodes);
    ghost var ls, rs;
    var left, right;
    ghost var before, behind := nodes[..|nodes| / 2], nodes[|nodes| / 2 + 1..];
    assert |before| + |behind| + 1 == |nodes|;
    left, right, ls, rs := Halves(head, mid.next, before, behind);
    NodesAllocated(ls);
    NodesAllocated(rs);
    root := new TreeNode(mid.val, left, right);
    BranchLinked(root, ls, rs);
    shape := Branch(root, ls, rs);
    ValuesOfParts(nodes, |nodes| / 2);
  }

  lemma ShortLists(head: ListNode?, nodes: seq<ListNode>)
    requires IsList(head, nodes)
    ensures head == null <==> nodes == []
    ensures head != null ==> head == nodes[0] && (head.next == null <==> |nodes| == 1)
    ensures nodes == [] ==> MiddleTree(ListValues(nodes)) == Empty && Linked(Null)
    ensures |nodes| == 1 ==> MiddleTree(ListValues(nodes)) == Node(nodes[0].val, Empty, Empty)
  {
    if nodes != [] { assert nodes[0].next == At(nodes, 1); }
    if |nodes| == 1 {
      var s := ListValues(nodes);
      assert s == [nodes[0].val] && s[..0] == [] && s[1..] == [];
    }
  }

  lemma LeavesLinked(root: TreeNode)
    requires root.left == null && root.right == null
    ensures Linked(Branch(root, Null, Null))
  {
  }

  method Halves(head: ListNode?, rest: ListNode?, ghost before: seq<ListNode>, ghost behind: seq<ListNode>)
    returns (left: TreeNode?, right: TreeNode?, ghost ls: Shape, ghost rs: Shape)
    requires IsList(head, before) && IsList(rest, behind) && Elements(before) !! Elements(behind)
    modifies Elements(before), Elements(behind)
    ensures left == Root(ls) && Linked(ls) && right == Root(rs) && Linked(rs) && Nodes(ls) !! Nodes(rs)
    ensures fresh(Nodes(ls)) && fresh(Nodes(rs))
    ensures Values(ls) == MiddleTree(ListValues(before)) && Values(rs) == MiddleTree(ListValues(behind))
    decreases |before| + |behind| + 1, 0
  {
    hide IsList, MiddleTree, Linked;
    assert forall n <- behind :: allocated(n);
    left, ls := SortedListToBST(head, before);
    NodesAllocated(ls);
    right, rs := SortedListToBST(rest, behind);
  }

  lemma ValuesOfParts(nodes: seq<ListNode>, m: nat)
    requires |nodes| >= 2 && m == |nodes| / 2
    ensures MiddleTree(ListValues(nodes))
         == Node(nodes[m].val, MiddleTree(ListValues(nodes[..m])), MiddleTree(ListValues(nodes[m + 1..])))
  {
    hide MiddleTree;
    var s := ListValues(nodes);
    assert s[..m] == ListValues(nodes[..m]);
    assert s[m + 1..] == ListValues(nodes[m + 1..]);
    assert s[m] == nodes[m].val && s != [];
    hide ListValues;
    MiddleTreeOf(s);
  }

  lemma MiddleTreeOf(s: seq<int>)
    requires s != []
    ensures MiddleTree(s) == Node(s[|s| / 2], MiddleTree(s[..|s| / 2]), MiddleTree(s[|s| / 2 + 1..]))
  {
  }

  /** Cutting the list before its middle node. */
  method Cut(head: ListNode, ghost nodes: seq<ListNode>) returns (mid: ListNode)
    requires IsList(head, nodes) && |nodes| >= 2
    modifies Elements(nodes)
    ensures var m := |nodes| / 2;
      mid == nodes[m] && IsList(head, nodes[..m]) && IsList(mid.next, nodes[m + 1..])
    ensures Elements(nodes[|nodes| / 2 + 1..]) !! Elements(nodes[..|nodes| / 2])
    ensures mid !in Elements(nodes[..|nodes| / 2])
  {
    ghost var m := |nodes| / 2;
    var slow := FindBeforeMiddle(head, nodes);
    assert nodes[m - 1].next == At(nodes, m) && nodes[m].next == At(nodes, m + 1);
    mid := slow.next;
    slow.next := null;
    CutInTwo(head, nodes, m);
  }

  /** What the list looks like when the link before position `m` is gone. */
  lemma CutInTwo(head: ListNode?, nodes: seq<ListNode>, m: nat)
    requires 0 < m < |nodes| && head == nodes[0] && nodes[m - 1].next == null
    requires forall i, j :: 0 <= i < j < |nodes| ==> nodes[i] != nodes[j]
    requires forall i {:trigger nodes[i]} :: 0 <= i < |nodes| && i != m - 1 ==> nodes[i].next == At(nodes, i + 1)
    ensures IsList(head, nodes[..m]) && IsList(nodes[m].next, nodes[m + 1..])
    ensures Elements(nodes[m + 1..]) !! Elements(nodes[..m]) && nodes[m] !in Elements(nodes[..m])
  {
  }

  /** The loop with a slow and a fast pointer; it ends at the node before the middle one. */
  method FindBeforeMiddle(head: ListNode, ghost nodes: seq<ListNode>) returns (slow: ListNode)
    requires IsList(head, nodes) && |nodes| >= 2
    ensures slow == nodes[|nodes| / 2 - 1]
  {
    var dummy := new ListNode(0, head);
    slow := dummy;
    var fast: ListNode? := head;
    ghost var k := 0;
    while fast != null
      invariant 0 <= k
      invariant (2 * k <= |nodes| && fast == At(nodes, 2 * k)) || (2 * k + 1 == |nodes| && fast == null)
      invariant slow == if k == 0 then dummy else nodes[k - 1]
      decreases |nodes| - 2 * k, fast != null
    {
      fast := fast.next;
      if fast != null {
        fast := fast.next;
        slow := slow.next;
        k := k + 1;
      }
    }
  }
}
