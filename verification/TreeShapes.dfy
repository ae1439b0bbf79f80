/** The nodes of pd_tree, and the shapes they form as values. */
module TreeShapes {
  import opened CStrings
  import opened Smbufs

  /** pd_tree_data: a key and a value, each the head of a chain that nothing changes any more. */
  datatype Data = Data(key: Smbuf, value: Smbuf)

  class Tree {
    const hash: nat
    const data: Data
    ghost const key: seq<byte>    // what the chains of `data` hold
    ghost const value: seq<byte>
    var parent: Tree?
    var left: Tree?
    var right: Tree?

    constructor (hash: nat, data: Data, ghost key: seq<byte>, ghost value: seq<byte>)
      ensures this.hash == hash && this.data == data && this.key == key && this.value == value
      ensures parent == null && left == null && right == null
    {
      this.hash, this.data, this.key, this.value := hash, data, key, value;
      parent, left, right := null, null, null;
    }
  }

  datatype Shape = Leaf | Node(left: Shape, item: Tree, right: Shape)

  datatype Links = Links(left: Tree?, right: Tree?, parent: Tree?)

  ghost function Nodes(s: Shape): set<Tree> {
    match s
    case Leaf => {}
    case Node(l, x, r) => Nodes(l) + {x} + Nodes(r)
  }

  ghost function Root(s: Shape): Tree? {
    if s.Leaf? then null else s.item
  }

  ghost function Inorder(s: Shape): seq<Tree> {
    match s
    case Leaf => []
    case Node(l, x, r) => Inorder(l) + [x] + Inorder(r)
  }

  ghost predicate Unique(s: Shape) {
    match s
    case Leaf => true
    case Node(l, x, r) =>
      && Unique(l) && Unique(r)
      && x !in Nodes(l) && x !in Nodes(r)
      && Nodes(l) !! Nodes(r)
  }

  ghost predicate Ordered(s: Shape) {
    match s
    case Leaf => true
    case Node(l, x, r) =>
      && Ordered(l) && Ordered(r)
      && (forall y :: y in Nodes(l) ==> y.hash > x.hash)
      && (forall y :: y in Nodes(r) ==> y.hash <= x.hash)
  }

  /** The links that node `n` of `s` must carry when the parent of the root of `s` is `p`. */
  ghost function LinkAt(s: Shape, p: Tree?, n: Tree): Links
    requires n in Nodes(s)
  {
    if n == s.item then Links(Root(s.left), Root(s.right), p)
    else if n in Nodes(s.left) then LinkAt(s.left, s.item, n)
    else LinkAt(s.right, s.item, n)
  }

  // ---- What the operations do to the shape

  ghost function Inserted(s: Shape, x: Tree): Shape {
    match s
    case Leaf => Node(Leaf, x, Leaf)
    case Node(l, y, r) =>
      if y.hash < x.hash then Node(Inserted(l, x), y, r) else Node(l, y, Inserted(r, x))
  }

  ghost function Minimum(s: Shape): (m: Tree)
    requires s.Node?
    ensures m in Nodes(s)
  {
    if s.left.Leaf? then s.item else Minimum(s.left)
  }

  /** The subtree whose root is `x`. */
  ghost function Subtree(s: Shape, x: Tree): (t: Shape)
    requires x in Nodes(s)
    ensures t.Node? && t.item == x && Nodes(t) <= Nodes(s)
  {
    if s.item == x then s
    else if x in Nodes(s.left) then Subtree(s.left, x)
    else Subtree(s.right, x)
  }

  /** `s` with the subtree rooted at `x` replaced by `t`. */
  ghost function Replaced(s: Shape, x: Tree, t: Shape): Shape
    requires x in Nodes(s)
  {
    if s.item == x then t
    else if x in Nodes(s.left) then Node(Replaced(s.left, x, t), s.item, s.right)
    else Node(s.left, s.item, Replaced(s.right, x, t))
  }

  lemma {:induction false} SubtreeUnique(s: Shape, x: Tree)
    requires Unique(s) && x in Nodes(s)
    ensures Unique(Subtree(s, x))
  {
    if s.item != x {
      if x in Nodes(s.left) { SubtreeUnique(s.left, x); } else { SubtreeUnique(s.right, x); }
    }
  }

  lemma {:induction false} ReplacedNodes(s: Shape, x: Tree, t: Shape)
    requires Unique(s) && x in Nodes(s)
    ensures Nodes(Replaced(s, x, t)) == Nodes(s) - Nodes(Subtree(s, x)) + Nodes(t)
    ensures Unique(t) && Nodes(t) !! Nodes(s) - Nodes(Subtree(s, x)) ==> Unique(Replaced(s, x, t))
  {
    if s.item != x {
      if x in Nodes(s.left) { ReplacedNodes(s.left, x, t); } else { ReplacedNodes(s.right, x, t); }
    }
  }

  ghost function SwapChild(k: Links, a: Tree, b: Tree?): Links {
    if k.left == a then k.(left := b) else k.(right := b)
  }

  /** The parent of a non-root node. */
  lemma {:induction false} ParentInside(s: Shape, x: Tree, p: Tree?)
    requires Unique(s) && x in Nodes(s) && x != s.item
    ensures var q := LinkAt(s, p, x).parent;
      && q != null && q in Nodes(s) && q !in Nodes(Subtree(s, x))
      && (LinkAt(s, p, q).left == x) != (LinkAt(s, p, q).right == x)
  {
    var side := if x in Nodes(s.left) then s.left else s.right;
    if x != side.item {
      ParentInside(side, x, s.item);
    }
  }

  lemma {:induction false} ReplacedLink(s: Shape, x: Tree, t: Shape, p: Tree?, n: Tree)
    requires Unique(s) && x in Nodes(s) && x != s.item
    requires Nodes(t) !! Nodes(s) - Nodes(Subtree(s, x))
    requires n in Nodes(s) - Nodes(Subtree(s, x)) + Nodes(t)
    ensures n in Nodes(Replaced(s, x, t))
    ensures LinkAt(Replaced(s, x, t), p, n) ==
      var q := LinkAt(s, p, x).parent;
      if n in Nodes(t) then LinkAt(t, q, n)
      else if n == q then SwapChild(LinkAt(s, p, n), x, Root(t))
      else LinkAt(s, p, n)
  {
    ReplacedNodes(s, x, t);
    var side := if x in Nodes(s.left) then s.left else s.right;
    ReplacedNodes(side, x, t);
    if x != side.item {
      ParentInside(side, x, s.item);
      if n in Nodes(side) + Nodes(t) {
        ReplacedLink(side, x, t, s.item, n);
      }
    }
  }

  ghost function WithoutMin(s: Shape): (t: Shape)
    requires s.Node?
    ensures Nodes(t) <= Nodes(s)
  {
    if s.left.Leaf? then s.right else Node(WithoutMin(s.left), s.item, s.right)
  }

  ghost function Joined(l: Shape, r: Shape): Shape {
    if l.Leaf? then r
    else if r.Leaf? then l
    else Node(l, Minimum(r), WithoutMin(r))
  }

  ghost function Deleted(s: Shape, x: Tree): Shape
    requires x in Nodes(s)
  {
    var at := Subtree(s, x);
    Replaced(s, x, Joined(at.left, at.right))
  }

  /** The subtree of the minimum has no left child, and removing the minimum splices in its right child. */
  lemma {:induction false} MinimumSpliced(s: Shape)
    requires s.Node? && Unique(s)
    ensures Minimum(s) in Nodes(s)
    ensures Nodes(WithoutMin(s)) == Nodes(s) - {Minimum(s)}
    ensures Unique(WithoutMin(s))
    ensures Subtree(s, Minimum(s)).left.Leaf?
    ensures WithoutMin(s) == Replaced(s, Minimum(s), Subtree(s, Minimum(s)).right)
  {
    if s.left.Node? {
      MinimumSpliced(s.left);
    }
  }

  /** Inside a subtree the prescribed links are those of the subtree on its own. */
  lemma {:induction false} SubtreeLink(s: Shape, x: Tree, p: Tree?, n: Tree)
    requires Unique(s) && x in Nodes(s) && n in Nodes(Subtree(s, x))
    ensures LinkAt(s, p, n) == LinkAt(Subtree(s, x), LinkAt(s, p, x).parent, n)
  {
    if s.item != x {
      SubtreeLink(if x in Nodes(s.left) then s.left else s.right, x, s.item, n);
    }
  }

  /** The links of `n` after the minimum of `s`, not its root, is spliced out below a root that gets the new parent `p'`. */
  ghost function SplicedLink(s: Shape, p: Tree?, p': Tree?, n: Tree): Links
    requires s.Node? && n in Nodes(s)
  {
    var m := Minimum(s);
    var q := LinkAt(s, p, m).parent;
    var k := if n == q then SwapChild(LinkAt(s, p, n), m, LinkAt(s, p, m).right)
             else if n == LinkAt(s, p, m).right then LinkAt(s, p, n).(parent := q)
             else LinkAt(s, p, n);
    if n == s.item then k.(parent := p') else k
  }

  lemma SplicedLinks(s: Shape, p: Tree?, p': Tree?)
    requires s.Node? && s.left.Node? && Unique(s)
    ensures WithoutMin(s).item == s.item
    ensures Nodes(WithoutMin(s)) == Nodes(s) - {Minimum(s)}
    ensures var k := LinkAt(s, p, Minimum(s));
      && k.left == null
      && k.parent in Nodes(s) - {Minimum(s)}
      && (k.right != null ==> k.right in Nodes(s) - {Minimum(s), k.parent})
    ensures forall n :: n in Nodes(WithoutMin(s)) ==> LinkAt(WithoutMin(s), p', n) == SplicedLink(s, p, p', n)
  {
    var m := Minimum(s);
    var at := Subtree(s, m);
    MinimumSpliced(s);
    MinimumSpliced(s.left);
    ParentInside(s, m, p);
    SubtreeUnique(s, m);
    SubtreeLink(s, m, p, m);
    forall n | n in Nodes(WithoutMin(s))
      ensures LinkAt(WithoutMin(s), p', n) == SplicedLink(s, p, p', n)
    {
      ReplacedLink(s, m, at.right, p', n);
      if n in Nodes(at) { SubtreeLink(s, m, p, n); }
    }
  }

  lemma ReplacedLinks(s: Shape, x: Tree, t: Shape, p: Tree?)
    requires Unique(s) && x in Nodes(s) && x != s.item
    requires Unique(t) && Nodes(t) !! Nodes(s) - Nodes(Subtree(s, x))
    ensures Replaced(s, x, t).Node? && Replaced(s, x, t).item == s.item && Unique(Replaced(s, x, t))
    ensures LinkAt(s, p, x).parent in Nodes(s) - Nodes(Subtree(s, x)) && x !in Nodes(s) - Nodes(Subtree(s, x))
    ensures Nodes(Replaced(s, x, t)) == Nodes(s) - Nodes(Subtree(s, x)) + Nodes(t)
    ensures forall n :: n in Nodes(t) ==> LinkAt(Replaced(s, x, t), p, n) == LinkAt(t, LinkAt(s, p, x).parent, n)
    ensures forall n :: n in Nodes(s) - Nodes(Subtree(s, x)) ==>
      (LinkAt(Replaced(s, x, t), p, n) ==
       if n == LinkAt(s, p, x).parent then SwapChild(LinkAt(s, p, n), x, Root(t)) else LinkAt(s, p, n))
  {
    ReplacedNodes(s, x, t);
    ParentInside(s, x, p);
    assert x in Nodes(Subtree(s, x));
    forall n | n in Nodes(Replaced(s, x, t))
      ensures LinkAt(Replaced(s, x, t), p, n) ==
        if n in Nodes(t) then LinkAt(t, LinkAt(s, p, x).parent, n)
        else if n == LinkAt(s, p, x).parent then SwapChild(LinkAt(s, p, n), x, Root(t))
        else LinkAt(s, p, n)
    {
      ReplacedLink(s, x, t, p, n);
    }
  }

  lemma OnlyRootHasNoParent(s: Shape, x: Tree, p: Tree?)
    requires Unique(s) && x in Nodes(s) && LinkAt(s, p, x).parent == null
    ensures x == s.item
  {
    if x != s.item { ParentInside(s, x, p); }
  }

  /** Replacing a subtree by `t` and then that by `u` is replacing it by `u`. */
  lemma {:induction false} ReplacedTwice(s: Shape, x: Tree, t: Shape, u: Shape)
    requires Unique(s) && x in Nodes(s) && t.Node?
    requires t.item !in Nodes(s) - Nodes(Subtree(s, x))
    ensures t.item in Nodes(Replaced(s, x, t))
    ensures Subtree(Replaced(s, x, t), t.item) == t
    ensures Replaced(Replaced(s, x, t), t.item, u) == Replaced(s, x, u)
  {
    if x != s.item {
      ReplacedTwice(if x in Nodes(s.left) then s.left else s.right, x, t, u);
      if x in Nodes(s.left) { SubtreeInside(s.left, x); } else { SubtreeInside(s.right, x); }
    }
  }

  lemma SubtreeInside(s: Shape, x: Tree)
    requires x in Nodes(s)
    ensures x in Nodes(Subtree(s, x))
  {
  }

  lemma {:induction false} InsertedNodes(s: Shape, x: Tree)
    requires Unique(s) && x !in Nodes(s)
    ensures Nodes(Inserted(s, x)) == Nodes(s) + {x}
    ensures Unique(Inserted(s, x))
  {
    if s.Node? {
      if s.item.hash < x.hash { InsertedNodes(s.left, x); } else { InsertedNodes(s.right, x); }
    }
  }
}
