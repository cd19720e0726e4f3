/** Rebuilding a tree from two of its traversals; one of them is a vector that all calls consume. */
module RebuildTree {
  import opened Text
  import opened BinaryTree
  import opened Sequences

  /** A `vector<int>` passed by reference. */
  class Vector {
    var items: seq<int>

    constructor (items: seq<int>)
      ensures this.items == items
    {
      this.items := items;
    }
  }

  /** `find`: the first place of a value, or the end. */
  function IndexOf(s: seq<int>, x: int): (i: nat)
    ensures i <= |s| && (forall k :: 0 <= k < i ==> s[k] != x) && (i < |s| ==> s[i] == x)
  {
    if s == [] || s[0] == x then 0 else 1 + IndexOf(s[1..], x)
  }

  /** The inorder sequences of both subtrees. */
  datatype Cut = Cut(l_in: seq<int>, r_in: seq<int>)

  /** The inorder sequence is cut at the root; nothing can be cut where `find` reaches the end. */
  function CutAt(inorder: seq<int>, x: int): (c: Option<Cut>)
    ensures c.Some? ==> |c.value.l_in| + |c.value.r_in| + 1 == |inorder|
  {
    var i := IndexOf(inorder, x);
    if i == |inorder| then None else Some(Cut(inorder[..i], inorder[i + 1..]))
  }

  /** A tree, and what its construction leaves in the vector. */
  datatype Built = Built(tree: Tree, rest: seq<int>)

  /** `buildTree` from preorder and inorder, the left subtree first; `None` where it reads past the end of
      the inorder sequence. */
  function FromPreorder(pre: seq<int>, inorder: seq<int>): Option<Built>
    decreases |inorder|
  {
    if pre == [] || inorder == [] then Some(Built(Empty, pre))
    else
      var cut := CutAt(inorder, pre[0]);
      if cut.None? then None
      else
        var l := FromPreorder(pre[1..], cut.value.l_in);
        if l.None? then None
        else
          var r := FromPreorder(l.value.rest, cut.value.r_in);
          if r.None? then None else Some(Built(Node(pre[0], l.value.tree, r.value.tree), r.value.rest))
  }

  /** `buildTree` from inorder and postorder: the vector is taken from its end, the right subtree first. */
  function FromPostorder(inorder: seq<int>, post: seq<int>): Option<Built>
    decreases |inorder|
  {
    if inorder == [] || post == [] then Some(Built(Empty, post))
    else
      var cut := CutAt(inorder, Last(post));
      if cut.None? then None
      else
        var r := FromPostorder(cut.value.r_in, Init(post));
        if r.None? then None
        else
          var l := FromPostorder(cut.value.l_in, r.value.rest);
          if l.None? then None else Some(Built(Node(Last(post), l.value.tree, r.value.tree), l.value.rest))
  }

  // ----- the recursive procedures

  method Find(s: seq<int>, x: int) returns (i: nat)
    ensures i == IndexOf(s, x)
  {
    i := 0;
    while i < |s| && s[i] != x
      invariant i <= |s| && IndexOf(s, x) == i + IndexOf(s[i..], x)
    {
      assert s[i..][1..] == s[i + 1..];
      i := i + 1;
    }
  }

  /** The vectors for both subtrees. */
  method Split(inorder: seq<int>, val: int) returns (l_in: seq<int>, r_in: seq<int>)
    requires CutAt(inorder, val).Some?
    ensures Cut(l_in, r_in) == CutAt(inorder, val).value
  {
    var i := Find(inorder, val);
    l_in, r_in := inorder[..i], inorder[i + 1..];
  }

  method BuildFromPreorder(preorder: Vector, inorder: seq<int>) returns (root: TreeNode?, ghost shape: Shape)
    requires FromPreorder(preorder.items, inorder).Some?
    modifies preorder
    ensures FromPreorder(old(preorder.items), inorder) == Some(Built(Values(shape), preorder.items))
    ensures root == Root(shape) && Linked(shape) && fresh(Nodes(shape))
    decreases |inorder|, 1
  {
    NothingToBuild(preorder.items, inorder);
    hide FromPreorder, Linked, CutAt;
    if preorder.items == [] || inorder == [] {
      return null, Null;
    }
    PreorderStep(preorder.items, inorder);
    var val := preorder.items[0];
    root := new TreeNode(val, null, null);
    var l_in, r_in := Split(inorder, val);
    preorder.items := preorder.items[1..];
    ghost var ls, rs := ChildrenFromPreorder(root, preorder, l_in, r_in);
    BranchLinked(root, ls, rs);
    shape := Branch(root, ls, rs);
  }

  /** The left subtree consumes its entries first. */
  method ChildrenFromPreorder(root: TreeNode, preorder: Vector, l_in: seq<int>, r_in: seq<int>)
    returns (ghost ls: Shape, ghost rs: Shape)
    requires root.left == null && root.right == null
    requires var l := FromPreorder(preorder.items, l_in); l.Some? && FromPreorder(l.value.rest, r_in).Some?
    modifies preorder, root
    ensures var l := FromPreorder(old(preorder.items), l_in).value;
            l.tree == Values(ls) && FromPreorder(l.rest, r_in) == Some(Built(Values(rs), preorder.items))
    ensures root.left == Root(ls) && root.right == Root(rs) && Linked(ls) && Linked(rs)
    ensures fresh(Nodes(ls)) && fresh(Nodes(rs)) && Nodes(ls) !! Nodes(rs)
    decreases |l_in| + |r_in|, 2
  {
    NothingToBuild(preorder.items, l_in);
    hide FromPreorder, Linked;
    ls, rs := Null, Null;
    if l_in != [] {
      root.left, ls := BuildFromPreorder(preorder, l_in);
    }
    NodesAllocated(ls);
    NothingToBuild(preorder.items, r_in);
    if r_in != [] {
      root.right, rs := BuildFromPreorder(preorder, r_in);
    }
  }

  method BuildFromPostorder(inorder: seq<int>, postorder: Vector) returns (root: TreeNode?, ghost shape: Shape)
    requires FromPostorder(inorder, postorder.items).Some?
    modifies postorder
    ensures FromPostorder(inorder, old(postorder.items)) == Some(Built(Values(shape), postorder.items))
    ensures root == Root(shape) && Linked(shape) && fresh(Nodes(shape))
    decreases |inorder|, 1
  {
    NothingToBuild(postorder.items, inorder);
    hide FromPostorder, Linked, CutAt, Init, Last;
    if inorder == [] || postorder.items == [] {
      return null, Null;
    }
    PostorderStep(inorder, postorder.items);
    var val := Last(postorder.items);
    root := new TreeNode(val, null, null);
    var l_in, r_in := Split(inorder, val);
    postorder.items := Init(postorder.items);
    ghost var ls, rs := ChildrenFromPostorder(root, postorder, l_in, r_in);
    BranchLinked(root, ls, rs);
    shape := Branch(root, ls, rs);
  }

  /** The right subtree consumes its entries first. */
  method ChildrenFromPostorder(root: TreeNode, postorder: Vector, l_in: seq<int>, r_in: seq<int>)
    returns (ghost ls: Shape, ghost rs: Shape)
    requires var r := FromPostorder(r_in, postorder.items); r.Some? && FromPostorder(l_in, r.value.rest).Some?
    modifies postorder, root
    ensures var r := FromPostorder(r_in, old(postorder.items)).value;
            r.tree == Values(rs) && FromPostorder(l_in, r.rest) == Some(Built(Values(ls), postorder.items))
    ensures root.left == Root(ls) && root.right == Root(rs) && Linked(ls) && Linked(rs)
    ensures fresh(Nodes(ls)) && fresh(Nodes(rs)) && Nodes(ls) !! Nodes(rs)
    decreases |l_in| + |r_in|, 2
  {
    hide FromPostorder, Linked;
    root.right, rs := BuildFromPostorder(r_in, postorder);
    NodesAllocated(rs);
    root.left, ls := BuildFromPostorder(l_in, postorder);
  }

  lemma NothingToBuild(s: seq<int>, inorder: seq<int>)
    ensures s == [] || inorder == [] ==>
      FromPreorder(s, inorder) == Some(Built(Empty, s)) == FromPostorder(inorder, s)
    ensures Linked(Null)
  {
  }

  lemma PreorderStep(pre: seq<int>, inorder: seq<int>)
    requires pre != [] && inorder != [] && FromPreorder(pre, inorder).Some?
    ensures var cut := CutAt(inorder, pre[0]);
      && cut.Some?
      && var l := FromPreorder(pre[1..], cut.value.l_in);
      && l.Some?
      && var r := FromPreorder(l.value.rest, cut.value.r_in);
      && r.Some?
      && FromPreorder(pre, inorder) == Some(Built(Node(pre[0], l.value.tree, r.value.tree), r.value.rest))
  {
    hide CutAt;
  }

  lemma PostorderStep(inorder: seq<int>, post: seq<int>)
    requires post != [] && inorder != [] && FromPostorder(inorder, post).Some?
    ensures var cut := CutAt(inorder, Last(post));
      && cut.Some?
      && var r := FromPostorder(cut.value.r_in, Init(post));
      && r.Some?
      && var l := FromPostorder(cut.value.l_in, r.value.rest);
      && l.Some?
      && FromPostorder(inorder, post) == Some(Built(Node(Last(post), l.value.tree, r.value.tree), l.value.rest))
  {
    hide CutAt;
  }

  // ----- which trees are rebuilt

  /** No node's value occurs in its own left subtree: `find` then meets the node itself first. */
  predicate LeftClean(t: Tree) {
    t.Node? ==> t.val !in Inorder(t.left) && LeftClean(t.left) && LeftClean(t.right)
  }

  lemma {:induction false} DistinctIsClean(t: Tree)
    requires NoDuplicates(Inorder(t))
    ensures LeftClean(t)
  {
    if t.Node? {
      var s, l := Inorder(t), |Inorder(t.left)|;
      assert s[l] == t.val && forall i :: 0 <= i < l ==> s[i] == Inorder(t.left)[i];
      forall i, j | 0 <= i < j < |Inorder(t.right)| ensures Inorder(t.right)[i] != Inorder(t.right)[j] {
        assert s[l + 1 + i] == Inorder(t.right)[i] && s[l + 1 + j] == Inorder(t.right)[j];
      }
      DistinctIsClean(t.left);
      DistinctIsClean(t.right);
    }
  }

  lemma {:induction false} SameLength(t: Tree)
    ensures |Preorder(t)| == |Inorder(t)| == |Postorder(t)|
    ensures t.Empty? <==> Inorder(t) == []
  {
    if t.Node? {
      SameLength(t.left);
      SameLength(t.right);
    }
  }

  /** The root stands where its value is found first. */
  lemma CutAtRoot(l: seq<int>, val: int, r: seq<int>)
    requires val !in l
    ensures CutAt(l + [val] + r, val) == Some(Cut(l, r))
  {
    var s := l + [val] + r;
    var i := IndexOf(s, val);
    assert s[|l|] == val && forall k :: 0 <= k < |l| ==> s[k] == l[k];
    assert i == |l| && s[..i] == l && s[i + 1..] == r;
  }

  lemma CutParts(inorder: seq<int>, x: int)
    requires CutAt(inorder, x).Some?
    ensures var c := CutAt(inorder, x).value; inorder == c.l_in + [x] + c.r_in && x !in c.l_in
  {
  }

  lemma TraversalParts(t: Tree)
    requires t.Node?
    ensures Preorder(t) == [t.val] + Preorder(t.left) + Preorder(t.right)
    ensures Inorder(t) == Inorder(t.left) + [t.val] + Inorder(t.right)
    ensures Postorder(t) == Postorder(t.left) + Postorder(t.right) + [t.val]
    ensures LeftClean(t) <==> t.val !in Inorder(t.left) && LeftClean(t.left) && LeftClean(t.right)
  {
  }

  lemma PreorderParts(x: int, l: seq<int>, r: seq<int>, more: seq<int>)
    ensures ([x] + l + r) + more == [x] + (l + (r + more))
    ensures (([x] + l + r) + more)[0] == x && (([x] + l + r) + more)[1..] == l + (r + more)
  {
    Regroup([x] + l, r, more);
    Regroup([x], l, r + more);
  }

  lemma PostorderParts(more: seq<int>, l: seq<int>, r: seq<int>, x: int)
    ensures more + (l + r + [x]) == ((more + l) + r) + [x]
    ensures var s := more + (l + r + [x]); Last(s) == x && Init(s) == (more + l) + r
  {
    Regroup(more, l + r, [x]);
    Regroup(more, l, r);
  }

  /** A clean tree is rebuilt, and exactly its own entries are taken from the front of the vector. */
  lemma {:induction false} PreorderRebuilds(t: Tree, more: seq<int>)
    requires LeftClean(t)
    ensures FromPreorder(Preorder(t) + more, Inorder(t)) == Some(Built(t, more))
    decreases t
  {
    if t.Empty? {
      assert [] + more == more;
    } else {
      TraversalParts(t);
      hide Preorder, Inorder, LeftClean, FromPreorder, CutAt;
      var l, r := t.left, t.right;
      PreorderParts(t.val, Preorder(l), Preorder(r), more);
      CutAtRoot(Inorder(l), t.val, Inorder(r));
      PreorderRebuilds(l, Preorder(r) + more);
      PreorderRebuilds(r, more);
      PreorderUnfolds(Preorder(t) + more, Inorder(t), t, Preorder(r) + more, more);
    }
  }

  lemma PreorderUnfolds(pre: seq<int>, inorder: seq<int>, t: Tree, later: seq<int>, more: seq<int>)
    requires pre != [] && inorder != [] && t.Node? && pre[0] == t.val
    requires var cut := CutAt(inorder, t.val);
      && cut.Some? && FromPreorder(pre[1..], cut.value.l_in) == Some(Built(t.left, later))
      && FromPreorder(later, cut.value.r_in) == Some(Built(t.right, more))
    ensures FromPreorder(pre, inorder) == Some(Built(t, more))
  {
    hide CutAt;
  }

  /** Whatever is built, from a vector that is long enough, is clean and has these traversals. */
  lemma {:induction false} BuiltFromPreorder(pre: seq<int>, inorder: seq<int>)
    requires |pre| >= |inorder| && FromPreorder(pre, inorder).Some?
    ensures var b := FromPreorder(pre, inorder).value;
      LeftClean(b.tree) && Inorder(b.tree) == inorder && pre == Preorder(b.tree) + b.rest
    decreases |inorder|
  {
    NothingToBuild(pre, inorder);
    if inorder == [] {
      assert [] + pre == pre;
    } else {
      PreorderStep(pre, inorder);
      CutParts(inorder, pre[0]);
      hide FromPreorder, CutAt, Preorder, Inorder, LeftClean;
      var cut := CutAt(inorder, pre[0]).value;
      BuiltFromPreorder(pre[1..], cut.l_in);
      var l := FromPreorder(pre[1..], cut.l_in).value;
      LongEnough(pre[1..], Preorder(l.tree), l.rest, l.tree);
      BuiltFromPreorder(l.rest, cut.r_in);
      var r := FromPreorder(l.rest, cut.r_in).value;
      TraversalParts(Node(pre[0], l.tree, r.tree));
      PreorderParts(pre[0], Preorder(l.tree), Preorder(r.tree), r.rest);
      HeadAndTail(pre);
    }
  }

  lemma LongEnough(s: seq<int>, own: seq<int>, rest: seq<int>, t: Tree)
    requires (own == Preorder(t) && s == own + rest) || (own == Postorder(t) && s == rest + own)
    ensures |rest| == |s| - |Inorder(t)|
  {
    SameLength(t);
  }

  lemma HeadAndTail(s: seq<int>)
    requires s != []
    ensures s == [s[0]] + s[1..] && s == Init(s) + [Last(s)] && |Init(s)| == |s| - 1
  {
  }

  /** From the traversals of a tree exactly the clean trees are rebuilt. */
  lemma PreorderRebuildsClean(t: Tree)
    ensures FromPreorder(Preorder(t), Inorder(t)) == Some(Built(t, [])) <==> LeftClean(t)
  {
    hide Preorder, Inorder, Postorder, LeftClean, FromPreorder;
    SameLength(t);
    if LeftClean(t) {
      PreorderRebuilds(t, []);
      assert Preorder(t) + [] == Preorder(t);
    }
    if FromPreorder(Preorder(t), Inorder(t)) == Some(Built(t, [])) {
      BuiltFromPreorder(Preorder(t), Inorder(t));
    }
  }

  /** The same from the end of a postorder sequence. */
  lemma {:induction false} PostorderRebuilds(t: Tree, more: seq<int>)
    requires LeftClean(t)
    ensures FromPostorder(Inorder(t), more + Postorder(t)) == Some(Built(t, more))
    decreases t
  {
    if t.Empty? {
      assert more + [] == more;
    } else {
      TraversalParts(t);
      hide Postorder, Inorder, LeftClean, FromPostorder, CutAt, Init, Last;
      var l, r := t.left, t.right;
      PostorderParts(more, Postorder(l), Postorder(r), t.val);
      CutAtRoot(Inorder(l), t.val, Inorder(r));
      PostorderRebuilds(r, more + Postorder(l));
      PostorderRebuilds(l, more);
      PostorderUnfolds(Inorder(t), more + Postorder(t), t, more + Postorder(l), more);
    }
  }

  lemma PostorderUnfolds(inorder: seq<int>, post: seq<int>, t: Tree, earlier: seq<int>, more: seq<int>)
    requires post != [] && inorder != [] && t.Node? && Last(post) == t.val
    requires var cut := CutAt(inorder, t.val);
      && cut.Some? && FromPostorder(cut.value.r_in, Init(post)) == Some(Built(t.right, earlier))
      && FromPostorder(cut.value.l_in, earlier) == Some(Built(t.left, more))
    ensures FromPostorder(inorder, post) == Some(Built(t, more))
  {
    hide CutAt;
  }

  lemma {:induction false} BuiltFromPostorder(inorder: seq<int>, post: seq<int>)
    requires |post| >= |inorder| && FromPostorder(inorder, post).Some?
    ensures var b := FromPostorder(inorder, post).value;
      LeftClean(b.tree) && Inorder(b.tree) == inorder && post == b.rest + Postorder(b.tree)
    decreases |inorder|
  {
    NothingToBuild(post, inorder);
    if inorder == [] {
      assert post + [] == post;
    } else {
      PostorderStep(inorder, post);
      var init, val := Init(post), Last(post);
      CutParts(inorder, val);
      HeadAndTail(post);
      hide FromPostorder, CutAt, Postorder, Inorder, LeftClean, Init, Last;
      var cut := CutAt(inorder, val).value;
      BuiltFromPostorder(cut.r_in, init);
      var r := FromPostorder(cut.r_in, init).value;
      LongEnough(init, Postorder(r.tree), r.rest, r.tree);
      BuiltFromPostorder(cut.l_in, r.rest);
      var l := FromPostorder(cut.l_in, r.rest).value;
      TraversalParts(Node(val, l.tree, r.tree));
      PostorderParts(l.rest, Postorder(l.tree), Postorder(r.tree), val);
    }
  }

  lemma PostorderRebuildsClean(t: Tree)
    ensures FromPostorder(Inorder(t), Postorder(t)) == Some(Built(t, [])) <==> LeftClean(t)
  {
    hide Preorder, Inorder, Postorder, LeftClean, FromPostorder;
    SameLength(t);
    if LeftClean(t) {
      PostorderRebuilds(t, []);
      assert [] + Postorder(t) == Postorder(t);
    }
    if FromPostorder(Inorder(t), Postorder(t)) == Some(Built(t, [])) {
      BuiltFromPostorder(Inorder(t), Postorder(t));
    }
  }

  /** Either pair of traversals determines a clean tree. */
  lemma TraversalsDetermineTree(t: Tree, u: Tree)
    requires LeftClean(t) && LeftClean(u) && Inorder(t) == Inorder(u)
    requires Preorder(t) == Preorder(u) || Postorder(t) == Postorder(u)
    ensures t == u
  {
    hide Preorder, Inorder, Postorder, LeftClean, FromPreorder, FromPostorder;
    PreorderRebuildsClean(t);
    PreorderRebuildsClean(u);
    PostorderRebuildsClean(t);
    PostorderRebuildsClean(u);
  }

  /** A value that occurs again below its own node makes both pairs of traversals ambiguous. */
  lemma RepeatedValueIsAmbiguous(x: int)
    ensures var t, u := Node(x, Node(x, Empty, Empty), Empty), Node(x, Empty, Node(x, Empty, Empty));
      t != u && Preorder(t) == Preorder(u) && Inorder(t) == Inorder(u) && Postorder(t) == Postorder(u) && !LeftClean(t)
  {
    var one := Node(x, Empty, Empty);
    var t, u := Node(x, one, Empty), Node(x, Empty, one);
    LeafTraversals(x);
    TraversalParts(t);
    TraversalParts(u);
    assert Preorder(Empty) == [] && Inorder(Empty) == [] && Postorder(Empty) == [];
    hide Preorder, Inorder, Postorder, LeftClean;
    assert Preorder(t) == [x, x] == Preorder(u);
    assert Inorder(t) == [x, x] == Inorder(u);
    assert Postorder(t) == [x, x] == Postorder(u);
  }

  lemma LeafTraversals(x: int)
    ensures var one := Node(x, Empty, Empty);
      Preorder(one) == [x] && Inorder(one) == [x] && Postorder(one) == [x]
  {
  }
}
