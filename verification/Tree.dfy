/** pd_tree: nodes with parent pointers, changed in place. */
module Trees {
  import opened TreeShapes
  import opened TreeOrder

  ghost function LinksNow(n: Tree): Links reads n {
    Links(n.left, n.right, n.parent)
  }

  /** The heap carries exactly the links that `s` prescribes below `t`. */
  ghost predicate Carries(t: Tree?, s: Shape)
    reads Nodes(s)
  {
    && t == Root(s)
    && Unique(s)
    && forall n :: n in Nodes(s) ==> LinksNow(n) == LinkAt(s, s.item.parent, n)
  }

  method Min(t: Tree, ghost s: Shape) returns (m: Tree)
    requires Carries(t, s)
    ensures m == Minimum(s)
  {
    m := t;
    ghost var rest := s;
    while m.left != null
      invariant rest.Node? && m == rest.item && Carries(m, rest)
      invariant Minimum(rest) == Minimum(s)
      decreases rest
    {
      SplitCarries(rest);
      m := m.left;
      rest := rest.left;
    }
    SplitCarries(rest);
  }

  lemma SplitCarries(s: Shape)
    requires s.Node? && Carries(s.item, s)
    ensures Carries(s.item.left, s.left)
    ensures Carries(s.item.right, s.right)
    ensures s.left.Node? ==> s.left.item.parent == s.item
    ensures s.right.Node? ==> s.right.item.parent == s.item
  {
    if s.left.Node? { assert s.left.item in Nodes(s); }
    if s.right.Node? { assert s.right.item in Nodes(s); }
    assert s.item in Nodes(s);
    forall n | n in Nodes(s.left) ensures LinksNow(n) == LinkAt(s.left, s.item, n) { assert n in Nodes(s); }
    forall n | n in Nodes(s.right) ensures LinksNow(n) == LinkAt(s.right, s.item, n) { assert n in Nodes(s); }
  }

  lemma SubtreeCarries(s: Shape, x: Tree)
    requires s.Node? && Carries(s.item, s) && x in Nodes(s)
    ensures Carries(x, Subtree(s, x))
  {
    SubtreeUnique(s, x);
    var at := Subtree(s, x);
    assert x in Nodes(at);
    forall n | n in Nodes(at) ensures n in Nodes(s) && LinksNow(n) == LinkAt(at, x.parent, n) {
      SubtreeLink(s, x, s.item.parent, n);
      SubtreeLink(s, x, s.item.parent, x);
    }
  }

  lemma JoinCarries(l: Shape, x: Tree, r: Shape)
    requires Carries(x.left, l) && Carries(x.right, r)
    requires l.Node? ==> l.item.parent == x
    requires r.Node? ==> r.item.parent == x
    requires Unique(Node(l, x, r))
    ensures Carries(x, Node(l, x, r))
  {
  }

  /** Lines 190-191, once the recursive call has returned the subtree `l`. */
  method AttachLeft(t: Tree, l: Tree, ghost ls: Shape, ghost rs: Shape)
    requires Carries(l, ls) && Carries(t.right, rs) && Unique(Node(ls, t, rs))
    requires rs.Node? ==> rs.item.parent == t
    modifies t, l
    ensures Carries(t, Node(ls, t, rs)) && t.parent == old(t.parent)
  {
    t.left := l;
    t.left.parent := t;
    JoinCarries(ls, t, rs);
  }

  /** Lines 193-194, once the recursive call has returned the subtree `r`. */
  method AttachRight(t: Tree, r: Tree, ghost ls: Shape, ghost rs: Shape)
    requires Carries(t.left, ls) && Carries(r, rs) && Unique(Node(ls, t, rs))
    requires ls.Node? ==> ls.item.parent == t
    modifies t, r
    ensures Carries(t, Node(ls, t, rs)) && t.parent == old(t.parent)
  {
    t.right := r;
    t.right.parent := t;
    JoinCarries(ls, t, rs);
  }

  /** pd_tree_insert on the slot that holds `t`; the new value of the slot is returned. */
  method InsertAt(t: Tree?, node: Tree, ghost s: Shape, ghost repr: set<Tree>) returns (t': Tree)
    requires Carries(t, s)
    requires node !in Nodes(s) && Nodes(s) == repr
    requires node.left == null && node.right == null
    modifies Nodes(s), node
    ensures Carries(t', Inserted(s, node))
    ensures t' == if t == null then node else t
    ensures t'.parent == old(if t == null then node.parent else t.parent)
    decreases s
  {
    if t == null {
      return node;
    }
    SplitCarries(s);
    InsertedNodes(s, node);
    t' := t;
    if t.hash < node.hash {
      var l := InsertAt(t.left, node, s.left, Nodes(s.left));
      AttachLeft(t, l, Inserted(s.left, node), s.right);
    } else {
      var r := InsertAt(t.right, node, s.right, Nodes(s.right));
      AttachRight(t, r, s.left, Inserted(s.right, node));
    }
  }

  /** Everything outside the subtree of `a` is linked as `s` prescribes, and `a` has its prescribed parent. */
  ghost predicate Around(s: Shape, a: Tree)
    reads Nodes(s), a
  {
    && Unique(s) && a in Nodes(s)
    && a.parent == LinkAt(s, s.item.parent, a).parent
    && forall n :: n in Nodes(s) - Nodes(Subtree(s, a)) ==> LinksNow(n) == LinkAt(s, s.item.parent, n)
  }

  /** The tree `t` below `b` fits in the place of the subtree of `a`. */
  ghost predicate Fits(s: Shape, a: Tree, b: Tree?, t: Shape)
    reads Nodes(s), Nodes(t), a
  {
    && Around(s, a)
    && (a == s.item ==> a.parent == null)
    && Carries(b, t)
    && Nodes(t) !! Nodes(s) - Nodes(Subtree(s, a))
  }

  /** The variable that holds the root, whose address the tree functions take. */
  class TreeSlot {
    var root: Tree?
    ghost var shape: Shape
    ghost var repr: set<Tree>
    ghost var arrivals: seq<Tree>  // the nodes in the tree, in the order in which they were inserted

    /** The nodes are linked as a search tree, and its in-order sequence is the stable descending sort of the arrivals. */
    ghost predicate Valid()
      reads this, repr
    {
      && repr == Nodes(shape)
      && Carries(root, shape)
      && Ordered(shape)
      && StableDescending(Inorder(shape), arrivals)
    }

    constructor ()
      ensures Valid() && shape == Leaf && arrivals == [] && repr == {}
    {
      root, shape, repr, arrivals := null, Leaf, {}, [];
    }

    method Insert(node: Tree)
      requires Valid() && node !in repr && node.left == null && node.right == null
      modifies this, repr, node
      ensures Valid() && shape == Inserted(old(shape), node) && repr == old(repr) + {node}
      ensures arrivals == old(arrivals) + [node]
      ensures Inorder(shape) == Placed(old(Inorder(shape)), node)
      ensures root == (if old(root) == null then node else old(root))
      ensures root.parent == old(if root == null then node.parent else root.parent)
    {
      InsertedInorder(shape, node);
      InsertedOrdered(shape, node);
      StableInsert(Inorder(shape), arrivals, node);
      hide Ordered, StableDescending, Inorder, Placed;
      root := InsertAt(root, node, shape, repr);
      shape, repr, arrivals := Inserted(shape, node), repr + {node}, arrivals + [node];
    }

    /** What the assignments do in every case; and, where `b` fits in the place of `a`, that it ends up there. */
    method Transplant(a: Tree, b: Tree?, ghost s: Shape, ghost t: Shape, ghost repr: set<Tree>)
      requires Nodes(s) + Nodes(t) <= repr
      modifies this`root, a.parent, b
      ensures old(a.parent) == null ==> root == b && (b != null ==> LinksNow(b) == old(LinksNow(b)))
      ensures old(a.parent) != null ==>
        && root == old(root)
        && (old(a.parent) != b ==> LinksNow(old(a.parent)) == SwapChild(old(LinksNow(a.parent)), a, b))
        && (old(a.parent) != b && b != null ==> LinksNow(b) == old(LinksNow(b)).(parent := old(a.parent)))
      ensures old(root == Root(s) && Fits(s, a, b, t)) ==> Carries(root, Replaced(s, a, t))
    {
      ghost var fits := root == Root(s) && Fits(s, a, b, t);
      if a.parent == null {
        if fits { OnlyRootHasNoParent(s, a, s.item.parent); }
        root := b;
        return;
      }
      if fits { ReplacedLinks(s, a, t, root.parent); assert a.parent in repr; }
      ghost var p := if fits then root.parent else null;
      if a == a.parent.left {
        a.parent.left := b;
      } else {
        a.parent.right := b;
      }
      if b != null {
        b.parent := a.parent;
      }
      if fits {
        assert t.Node? ==> t.item.parent == a.parent;
        assert root.parent == p;
      }
    }

    /** Lines 231-235 of the two-child case: takes the minimum `tmp` of the right subtree `r` of `node`
        out of that subtree and hangs what is left of it below `tmp`. */
    method DetachMin(node: Tree, tmp: Tree, ghost r: Shape, ghost repr: set<Tree>)
      requires r.Node? && Carries(node.right, r) && node.right.parent == node && node !in Nodes(r)
      requires tmp == Minimum(r) && repr == Nodes(r)
      modifies this`root, Nodes(r)
      ensures Carries(tmp.right, WithoutMin(r))
      ensures WithoutMin(r).Node? ==> WithoutMin(r).item.parent == tmp
      ensures tmp.left == null && tmp.parent in repr + {node} && root == old(root)
    {
      MinimumSpliced(r);
      SplitCarries(r);
      if r.left.Node? {
        SplicedLinks(r, node, tmp);
      }
      if tmp.parent != node {
        Transplant(tmp, tmp.right, Leaf, Leaf, {});
        tmp.right := node.right;
        tmp.right.parent := tmp;
      }
    }

    /** Lines 238-239 of the two-child case: hangs `b` as the left child of `tmp`, which has none. */
    method GraftLeft(tmp: Tree, b: Tree, ghost s: Shape, ghost l: Shape, ghost repr: set<Tree>)
      requires Nodes(s) + Nodes(l) == repr
      modifies tmp, b
      ensures
        old(Carries(root, s) && Carries(b, l) && Nodes(s) !! Nodes(l) && tmp in Nodes(s) && Subtree(s, tmp).left.Leaf?) ==>
        Carries(root, Replaced(s, tmp, Node(l, tmp, Subtree(s, tmp).right))) && root.parent == old(root.parent)
    {
      ghost var fits := Carries(root, s) && Carries(b, l) && Nodes(s) !! Nodes(l) && tmp in Nodes(s) && Subtree(s, tmp).left.Leaf?;
      ghost var at := if fits then Subtree(s, tmp) else Leaf;
      ghost var p := if fits then root.parent else null;
      if fits {
        assert tmp in Nodes(at);
        SubtreeUnique(s, tmp);
        SubtreeCarries(s, tmp);
        SplitCarries(at);
        if tmp != s.item {
          ParentInside(s, tmp, p);
          ReplacedLinks(s, tmp, Node(l, tmp, at.right), p);
        }
      }
      tmp.left := b;
      tmp.left.parent := tmp;
      if fits {
        JoinCarries(l, tmp, at.right);
        if tmp != s.item {
          assert forall n :: n in Nodes(s) - Nodes(at) ==> LinksNow(n) == LinkAt(s, p, n);
        }
      }
    }

    /** A root whose parent pointer is stale: line 201 does not see that it is the root. */
    ghost predicate Stuck(node: Tree)
      reads this, node
    {
      node == root && node.parent != null
    }

    /** Removes exactly `node`, unless it is stuck: then it stays the root.
        A root that leaves a child behind leaves it stuck; nothing else does, and nothing cures it. */
    method Delete(node: Tree)
      requires Valid() && node in repr
      modifies this, repr, node.parent
      ensures old(Stuck(node)) ==> root == node
      ensures !old(Stuck(node)) ==>
        && Valid() && shape == Deleted(old(shape), node) && repr == old(repr) - {node}
        && arrivals == Without(old(arrivals), node)
        && Inorder(shape) == Without(old(Inorder(shape)), node)
        && (node != old(root) ==> root == old(root) && root.parent == old(root.parent))
        && (node == old(root) && root != null ==> root.parent in old(repr))
    {
      DeletedInorder(shape, node);
      DeletedOrdered(shape, node);
      StableDelete(Inorder(shape), arrivals, node);
      hide Ordered, StableDescending, Inorder, Without;
      Unlink(node);
      repr, arrivals := repr - {node}, Without(arrivals, node);
      shape := Deleted(shape, node);
    }

    /** The assignments of `Delete`. */
    method Unlink(node: Tree)
      requires Carries(root, shape) && node in repr && repr == Nodes(shape)
      modifies this`root, repr, node.parent
      ensures old(Stuck(node)) ==> root == node
      ensures !old(Stuck(node)) ==>
        && Carries(root, Deleted(shape, node))
        && (node != old(root) ==> root == old(root) && root.parent == old(root.parent))
        && (node == old(root) && root != null ==> root.parent in old(repr))
    {
      ghost var s := shape;
      ghost var at := Subtree(s, node);
      SubtreeUnique(s, node);
      SubtreeCarries(s, node);
      SplitCarries(at);
      if node.left == null {
        Transplant(node, node.right, s, at.right, repr);
        return;
      }
      if node.right == null {
        Transplant(node, node.left, s, at.left, repr);
        return;
      }
      MinimumSpliced(at.right);
      var tmp := TakeMin(node, at);
      Promote(node, tmp, at);
    }

    /** Lines 229-235 of the two-child case: finds the minimum of the right subtree and takes it out. */
    method TakeMin(node: Tree, ghost at: Shape) returns (tmp: Tree)
      requires Carries(root, shape) && node in Nodes(shape) && repr == Nodes(shape)
      requires at == Subtree(shape, node) && at.left.Node? && at.right.Node?
      modifies this`root, Nodes(at.right)
      ensures root == old(root) && tmp == Minimum(at.right) && tmp.parent in repr
      ensures Around(shape, node) && Carries(node.left, at.left)
      ensures root.parent == old(root.parent)
      ensures Carries(tmp, Node(Leaf, tmp, WithoutMin(at.right)))
    {
      SubtreeUnique(shape, node);
      SubtreeCarries(shape, node);
      SplitCarries(at);
      MinimumSpliced(at.right);
      SubtreeLink(shape, node, root.parent, node);
      assert forall n :: n in Nodes(at) ==> n in repr;
      assert root !in Nodes(at.right);
      assert Around(shape, node);
      tmp := Min(node.right, at.right);
      DetachMin(node, tmp, at.right, Nodes(at.right));
      JoinCarries(Leaf, tmp, WithoutMin(at.right));
    }

    /** Lines 237-239 of the two-child case: `tmp` takes the place of `node` and its left subtree. */
    method Promote(node: Tree, tmp: Tree, ghost at: Shape)
      requires root == Root(shape) && Around(shape, node) && repr == Nodes(shape)
      requires at == Subtree(shape, node) && at.left.Node? && at.right.Node?
      requires tmp == Minimum(at.right) && Carries(tmp, Node(Leaf, tmp, WithoutMin(at.right)))
      requires Carries(node.left, at.left)
      modifies this`root, Nodes(shape), node.parent
      ensures old(node == root && node.parent != null) ==> root == node
      ensures !old(node == root && node.parent != null) ==>
        && Carries(root, Replaced(shape, node, Joined(at.left, at.right)))
        && (if node == old(root) then root == tmp && tmp.parent == old(tmp.parent)
            else root == old(root) && root.parent == old(root.parent))
    {
      ghost var half := Node(Leaf, tmp, WithoutMin(at.right));
      ghost var stuck := node == root && node.parent != null;
      SubtreeUnique(shape, node);
      MinimumSpliced(at.right);
      SubtreeInside(shape, node);
      ReplacedTwice(shape, node, half, Joined(at.left, at.right));
      ReplacedNodes(shape, node, half);
      if node != root { ParentInside(shape, node, root.parent); }
      assert forall n :: n in Nodes(at.left) ==> n in repr && n != tmp;
      assert !stuck ==> Fits(shape, node, tmp, half);
      Transplant(node, tmp, shape, half, repr);
      assert !stuck ==> Carries(node.left, at.left);
      GraftLeft(tmp, node.left, Replaced(shape, node, half), at.left, repr - {node});
    }
  }

  /** Two nodes, the second not hashing higher; the root is deleted, and then the new root: it is still there. */
  method RootDeletedTwice(a: Tree, b: Tree) returns (slot: TreeSlot)
    requires a != b && a.hash >= b.hash
    requires a.parent == null && a.left == null && a.right == null
    requires b.parent == null && b.left == null && b.right == null
    modifies a, b
    ensures slot.root == b
  {
    slot := new TreeSlot();
    slot.Insert(a);
    slot.Insert(b);
    slot.Delete(a);
    assert slot.Stuck(b);
    slot.Delete(b);
  }
}
