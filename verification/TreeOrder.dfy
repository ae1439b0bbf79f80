/** The order of the nodes: descending by hash, equal hashes in order of arrival. */
module TreeOrder {
  import opened TreeShapes

  /** `x` goes behind every hash that is at least its own and before every smaller one. */
  ghost function Placed(q: seq<Tree>, x: Tree): seq<Tree> {
    if q == [] || q[0].hash < x.hash then [x] + q
    else [q[0]] + Placed(q[1..], x)
  }

  ghost function Without(q: seq<Tree>, x: Tree): seq<Tree> {
    if q == [] then []
    else if q[0] == x then q[1..]
    else [q[0]] + Without(q[1..], x)
  }

  ghost function WithHash(q: seq<Tree>, h: nat): seq<Tree> {
    if q == [] then []
    else (if q[0].hash == h then [q[0]] else []) + WithHash(q[1..], h)
  }

  ghost predicate Descending(q: seq<Tree>) {
    forall i, j :: 0 <= i < j < |q| ==> q[i].hash >= q[j].hash
  }

  /** `q` is `arrivals` sorted by descending hash, equal hashes in order of arrival. */
  ghost predicate StableDescending(q: seq<Tree>, arrivals: seq<Tree>) {
    && Descending(q)
    && forall h: nat :: WithHash(q, h) == WithHash(arrivals, h)
  }

  lemma {:induction false} PlacedAppend(a: seq<Tree>, b: seq<Tree>, x: Tree)
    ensures (forall y :: y in a ==> y.hash >= x.hash) ==> Placed(a + b, x) == a + Placed(b, x)
    ensures b != [] && b[0].hash < x.hash ==> Placed(a + b, x) == Placed(a, x) + b
  {
    if a == [] {
      assert a + b == b;
    } else {
      PlacedAppend(a[1..], b, x);
      assert (a + b)[1..] == a[1..] + b;
      assert a == [a[0]] + a[1..];
    }
  }

  lemma {:induction false} InorderNode(s: Shape, y: Tree)
    ensures y in Inorder(s) <==> y in Nodes(s)
  {
    if s.Node? { InorderNode(s.left, y); InorderNode(s.right, y); }
  }

  lemma OrderedAround(s: Shape)
    requires s.Node? && Ordered(s)
    ensures forall y :: y in Inorder(s.left) ==> y.hash > s.item.hash
    ensures forall y :: y in Inorder(s.right) ==> y.hash <= s.item.hash
  {
    forall y | y in Inorder(s.left) ensures y.hash > s.item.hash {
      InorderNode(s.left, y);
    }
    forall y | y in Inorder(s.right) ensures y.hash <= s.item.hash {
      InorderNode(s.right, y);
    }
  }

  lemma {:induction false} InsertedInorder(s: Shape, x: Tree)
    requires Ordered(s)
    ensures Inorder(Inserted(s, x)) == Placed(Inorder(s), x)
  {
    if s.Node? {
      var l, y, r := Inorder(s.left), s.item, Inorder(s.right);
      OrderedAround(s);
      assert l + [y] + r == l + ([y] + r) == (l + [y]) + r;
      if y.hash < x.hash {
        InsertedInorder(s.left, x);
        PlacedAppend(l, [y] + r, x);
      } else {
        InsertedInorder(s.right, x);
        assert forall z :: z in l + [y] ==> z.hash >= x.hash;
        PlacedAppend(l + [y], r, x);
      }
    }
  }

  lemma {:induction false} InsertedOrdered(s: Shape, x: Tree)
    requires Ordered(s) && Unique(s) && x !in Nodes(s)
    ensures Ordered(Inserted(s, x)) && Nodes(Inserted(s, x)) == Nodes(s) + {x}
  {
    if s.Node? {
      if s.item.hash < x.hash { InsertedOrdered(s.left, x); } else { InsertedOrdered(s.right, x); }
    }
  }

  lemma {:induction false} OrderedDescending(s: Shape)
    requires Ordered(s)
    ensures Descending(Inorder(s))
  {
    if s.Node? {
      OrderedDescending(s.left);
      OrderedDescending(s.right);
      OrderedAround(s);
      DescendingAround(Inorder(s.left), s.item, Inorder(s.right));
    }
  }

  lemma DescendingAround(a: seq<Tree>, x: Tree, b: seq<Tree>)
    requires Descending(a) && Descending(b)
    requires forall y :: y in a ==> y.hash >= x.hash
    requires forall y :: y in b ==> y.hash <= x.hash
    ensures Descending(a + [x] + b)
  {
    var q := a + [x] + b;
    forall i, j | 0 <= i < j < |q| ensures q[i].hash >= q[j].hash {
      assert i < |a| ==> q[i] in a;
      assert j > |a| ==> q[j] == b[j - |a| - 1] && q[j] in b;
    }
  }

  /** Replacing a subtree replaces exactly its stretch of the in-order sequence. */
  ghost function Before(s: Shape, x: Tree): seq<Tree>
    requires x in Nodes(s)
  {
    if x == s.item then []
    else if x in Nodes(s.left) then Before(s.left, x)
    else Inorder(s.left) + [s.item] + Before(s.right, x)
  }

  ghost function After(s: Shape, x: Tree): seq<Tree>
    requires x in Nodes(s)
  {
    if x == s.item then []
    else if x in Nodes(s.left) then After(s.left, x) + [s.item] + Inorder(s.right)
    else After(s.right, x)
  }

  lemma Regroup<T>(a: seq<T>, b: seq<T>, c: seq<T>, d: seq<T>, e: seq<T>)
    ensures a + b + c + d + e == a + b + (c + d + e)
    ensures a + b + c + d + e == (a + b + c) + d + e
    ensures a + b + (c + d + e) == (a + b) + c + (d + e)
  {
  }

  lemma {:induction false} ReplacedInorder(s: Shape, x: Tree, t: Shape)
    requires x in Nodes(s)
    ensures Inorder(s) == Before(s, x) + Inorder(Subtree(s, x)) + After(s, x)
    ensures Inorder(Replaced(s, x, t)) == Before(s, x) + Inorder(t) + After(s, x)
  {
    if x != s.item {
      var l, y, r := Inorder(s.left), [s.item], Inorder(s.right);
      var m, m' := Inorder(Subtree(s, x)), Inorder(t);
      if x in Nodes(s.left) {
        ReplacedInorder(s.left, x, t);
        Regroup(Before(s.left, x), m, After(s.left, x), y, r);
        Regroup(Before(s.left, x), m', After(s.left, x), y, r);
      } else {
        ReplacedInorder(s.right, x, t);
        Regroup(l, y, Before(s.right, x), m, After(s.right, x));
        Regroup(l, y, Before(s.right, x), m', After(s.right, x));
      }
    }
  }

  lemma {:induction false} MinimumInorder(s: Shape)
    requires s.Node?
    ensures Inorder(s) == [Minimum(s)] + Inorder(WithoutMin(s))
  {
    if s.left.Node? { MinimumInorder(s.left); }
  }

  lemma JoinedInorder(l: Shape, r: Shape)
    ensures Inorder(Joined(l, r)) == Inorder(l) + Inorder(r)
  {
    if l.Node? && r.Node? { MinimumInorder(r); }
  }

  lemma {:induction false} WithoutMiddle(a: seq<Tree>, x: Tree, b: seq<Tree>)
    requires x !in a
    ensures Without(a + [x] + b, x) == a + b
  {
    if a == [] {
      assert a + [x] + b == [x] + b;
    } else {
      WithoutMiddle(a[1..], x, b);
      assert (a + [x] + b)[1..] == a[1..] + [x] + b;
      assert a + b == [a[0]] + (a[1..] + b);
    }
  }

  lemma {:induction false} BeforeApart(s: Shape, x: Tree)
    requires Unique(s) && x in Nodes(s)
    ensures x !in Before(s, x)
  {
    if x != s.item {
      InorderNode(s.left, x);
      if x in Nodes(s.left) { BeforeApart(s.left, x); } else { BeforeApart(s.right, x); }
    }
  }

  lemma Outer<T>(a: seq<T>, b: seq<T>, c: seq<T>, d: seq<T>, e: seq<T>)
    ensures a + (b + c + d) + e == (a + b) + c + (d + e)
  {
  }

  lemma Inner<T>(a: seq<T>, b: seq<T>, c: seq<T>, d: seq<T>)
    ensures a + (b + c) + d == (a + b) + (c + d)
  {
  }

  lemma WithoutInside(a: seq<Tree>, b: seq<Tree>, x: Tree, c: seq<Tree>, d: seq<Tree>)
    requires x !in a && x !in b
    ensures Without(a + (b + [x] + c) + d, x) == a + (b + c) + d
  {
    WithoutMiddle(a + b, x, c + d);
    Outer(a, b, [x], c, d);
    Inner(a, b, c, d);
  }

  lemma DeletedInorder(s: Shape, x: Tree)
    requires Unique(s) && x in Nodes(s)
    ensures Inorder(Deleted(s, x)) == Without(Inorder(s), x)
  {
    var at := Subtree(s, x);
    ReplacedInorder(s, x, Joined(at.left, at.right));
    JoinedInorder(at.left, at.right);
    BeforeApart(s, x);
    SubtreeUnique(s, x);
    InorderNode(at.left, x);
    WithoutInside(Before(s, x), Inorder(at.left), x, Inorder(at.right), After(s, x));
  }

  lemma {:induction false} MinimumBounds(s: Shape)
    requires s.Node? && Ordered(s) && Unique(s)
    ensures Ordered(WithoutMin(s))
    ensures Nodes(WithoutMin(s)) == Nodes(s) - {Minimum(s)}
    ensures forall y :: y in Nodes(s) ==> y.hash <= Minimum(s).hash
  {
    if s.left.Node? { MinimumBounds(s.left); }
  }

  lemma JoinedOrdered(l: Shape, x: Tree, r: Shape)
    requires Ordered(Node(l, x, r)) && Unique(Node(l, x, r))
    ensures Ordered(Joined(l, r)) && Nodes(Joined(l, r)) == Nodes(l) + Nodes(r)
  {
    if r.Node? { MinimumBounds(r); }
  }

  lemma {:induction false} ReplacedOrdered(s: Shape, x: Tree, t: Shape)
    requires Ordered(s) && Unique(s) && x in Nodes(s)
    requires Ordered(t) && Nodes(t) <= Nodes(Subtree(s, x))
    ensures Ordered(Replaced(s, x, t)) && Nodes(Replaced(s, x, t)) <= Nodes(s)
  {
    if x != s.item {
      if x in Nodes(s.left) { ReplacedOrdered(s.left, x, t); } else { ReplacedOrdered(s.right, x, t); }
    }
  }

  lemma {:induction false} SubtreeOrdered(s: Shape, x: Tree)
    requires Ordered(s) && x in Nodes(s)
    ensures Ordered(Subtree(s, x))
  {
    if x != s.item {
      SubtreeOrdered(if x in Nodes(s.left) then s.left else s.right, x);
    }
  }

  lemma DeletedOrdered(s: Shape, x: Tree)
    requires Ordered(s) && Unique(s) && x in Nodes(s)
    ensures Ordered(Deleted(s, x)) && Nodes(Deleted(s, x)) == Nodes(s) - {x}
  {
    var at := Subtree(s, x);
    SubtreeOrdered(s, x);
    SubtreeUnique(s, x);
    SubtreeInside(s, x);
    JoinedOrdered(at.left, x, at.right);
    ReplacedOrdered(s, x, Joined(at.left, at.right));
    ReplacedNodes(s, x, Joined(at.left, at.right));
  }

  // ---- The sort is stable

  lemma Assoc<T>(a: seq<T>, b: seq<T>, c: seq<T>)
    ensures a + (b + c) == (a + b) + c
  {
  }

  lemma {:induction false} WithHashAppend(a: seq<Tree>, b: seq<Tree>, h: nat)
    ensures WithHash(a + b, h) == WithHash(a, h) + WithHash(b, h)
  {
    if a == [] {
      assert a + b == b;
    } else {
      assert (a + b)[1..] == a[1..] + b;
      WithHashAppend(a[1..], b, h);
      Assoc(if a[0].hash == h then [a[0]] else [], WithHash(a[1..], h), WithHash(b, h));
    }
  }

  lemma {:induction false} WithHashEmpty(q: seq<Tree>, h: nat)
    requires forall y :: y in q ==> y.hash != h
    ensures WithHash(q, h) == []
  {
    if q != [] { WithHashEmpty(q[1..], h); }
  }

  lemma {:induction false} PlacedStable(q: seq<Tree>, x: Tree, h: nat)
    requires Descending(q)
    ensures WithHash(Placed(q, x), h) == WithHash(q + [x], h)
  {
    WithHashAppend(q, [x], h);
    if q == [] || q[0].hash < x.hash {
      if h == x.hash {
        forall i | 0 <= i < |q| ensures q[i].hash < h { assert q[0].hash >= q[i].hash; }
        WithHashEmpty(q, h);
      }
    } else {
      PlacedStable(q[1..], x, h);
      WithHashAppend(q[1..], [x], h);
    }
  }

  lemma {:induction false} PlacedDescending(q: seq<Tree>, x: Tree)
    requires Descending(q)
    ensures Descending(Placed(q, x))
    ensures forall y :: y in Placed(q, x) ==> y == x || y in q
  {
    if q == [] || q[0].hash < x.hash {
    } else {
      PlacedDescending(q[1..], x);
      var rest := Placed(q[1..], x);
      forall i | 0 <= i < |rest| ensures rest[i].hash <= q[0].hash {
        assert rest[i] in rest;
      }
    }
  }

  lemma {:induction false} WithoutStable(q: seq<Tree>, x: Tree, h: nat)
    ensures WithHash(Without(q, x), h) == if x.hash == h then Without(WithHash(q, h), x) else WithHash(q, h)
  {
    if q != [] && q[0] != x {
      WithoutStable(q[1..], x, h);
      var w := WithHash(q[1..], h);
      if q[0].hash == h { assert ([q[0]] + w)[1..] == w; }
      assert [] + w == w && [] + Without(w, x) == Without(w, x);
    }
  }

  lemma {:induction false} WithoutDescending(q: seq<Tree>, x: Tree)
    requires Descending(q)
    ensures Descending(Without(q, x))
    ensures forall y :: y in Without(q, x) ==> y in q
  {
    if q != [] && q[0] != x {
      WithoutDescending(q[1..], x);
      var rest := Without(q[1..], x);
      forall i | 0 <= i < |rest| ensures rest[i].hash <= q[0].hash {
        assert rest[i] in rest;
      }
    }
  }

  lemma StableInsert(q: seq<Tree>, arrivals: seq<Tree>, x: Tree)
    requires StableDescending(q, arrivals)
    ensures StableDescending(Placed(q, x), arrivals + [x])
  {
    PlacedDescending(q, x);
    forall h: nat ensures WithHash(Placed(q, x), h) == WithHash(arrivals + [x], h) {
      PlacedStable(q, x, h);
      WithHashAppend(q, [x], h);
      WithHashAppend(arrivals, [x], h);
    }
  }

  lemma StableDelete(q: seq<Tree>, arrivals: seq<Tree>, x: Tree)
    requires StableDescending(q, arrivals)
    ensures StableDescending(Without(q, x), Without(arrivals, x))
  {
    WithoutDescending(q, x);
    forall h: nat ensures WithHash(Without(q, x), h) == WithHash(Without(arrivals, x), h) {
      WithoutStable(q, x, h);
      WithoutStable(arrivals, x, h);
    }
  }

  /** A stable descending order is unique. */
  lemma {:induction false} StableUnique(p: seq<Tree>, q: seq<Tree>, arrivals: seq<Tree>)
    requires StableDescending(p, arrivals) && StableDescending(q, arrivals)
    ensures p == q
  {
    if p == [] && q == [] {
    } else if p == [] || (q != [] && p[0].hash < q[0].hash) {
      HashAbove(p, q[0].hash);
    } else if q == [] || q[0].hash < p[0].hash {
      HashAbove(q, p[0].hash);
    } else {
      assert WithHash(p, p[0].hash)[0] == p[0] && WithHash(q, p[0].hash)[0] == q[0];
      forall h: nat ensures WithHash(p[1..], h) == WithHash(q[1..], h) {
        assert WithHash(p, h) == WithHash(arrivals, h);
        WithHashTail(p, h);
        WithHashTail(q, h);
      }
      StableUnique(p[1..], q[1..], q[1..]);
    }
  }

  lemma WithHashTail(q: seq<Tree>, h: nat)
    requires q != []
    ensures WithHash(q[1..], h) == if q[0].hash == h then WithHash(q, h)[1..] else WithHash(q, h)
  {
  }

  lemma HashAbove(q: seq<Tree>, h: nat)
    requires Descending(q) && (q != [] ==> q[0].hash < h)
    ensures WithHash(q, h) == []
  {
    forall y | y in q ensures y.hash != h {
      var i :| 0 <= i < |q| && q[i] == y;
      assert i > 0 ==> q[0].hash >= q[i].hash;
    }
    WithHashEmpty(q, h);
  }
}
