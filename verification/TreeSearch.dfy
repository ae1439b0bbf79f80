/** The searches of pd_tree. */
module TreeSearch {
  import opened CStrings
  import opened Smbufs
  import opened TreeShapes
  import opened TreeOrder
  import opened Trees

  // ---- By hash

  /** pd_tree_search_fn. The comparator sees only the hashes of the two nodes. */
  function SearchFn(t: Tree?, h: nat, compare: (nat, nat) -> int, ghost s: Shape): (r: Tree?)
    requires Carries(t, s)
    reads Nodes(s)
    ensures r == Found(s, h, compare)
    decreases s
  {
    if t == null || compare(t.hash, h) == 0 then t
    else
      SplitCarries(s);
      if compare(t.hash, h) < 0 then SearchFn(t.left, h, compare, s.left)
      else SearchFn(t.right, h, compare, s.right)
  }

  /** The node found, as a function of the shape. */
  ghost function Found(s: Shape, h: nat, compare: (nat, nat) -> int): Tree? {
    if s.Leaf? then null
    else if compare(s.item.hash, h) == 0 then s.item
    else if compare(s.item.hash, h) < 0 then Found(s.left, h, compare)
    else Found(s.right, h, compare)
  }

  ghost predicate SignOf(compare: (nat, nat) -> int, a: nat, h: nat) {
    (compare(a, h) == 0 <==> a == h) && (compare(a, h) < 0 <==> a < h)
  }

  lemma {:induction false} FoundSound(s: Shape, h: nat, compare: (nat, nat) -> int)
    ensures Found(s, h, compare) != null ==>
      Found(s, h, compare) in Nodes(s) && compare(Found(s, h, compare).hash, h) == 0
  {
    if s.Node? {
      FoundSound(s.left, h, compare);
      FoundSound(s.right, h, compare);
    }
  }

  /** With a comparator that has the sign of the difference, a node of the wanted hash is found exactly when there is one. */
  lemma {:induction false} FoundExact(s: Shape, h: nat, compare: (nat, nat) -> int)
    requires Ordered(s) && forall y :: y in Nodes(s) ==> SignOf(compare, y.hash, h)
    ensures Found(s, h, compare) != null <==> exists y :: y in Nodes(s) && y.hash == h
    ensures Found(s, h, compare) != null ==> Found(s, h, compare).hash == h
  {
    FoundSound(s, h, compare);
    if s.Node? && s.item.hash != h {
      FoundExact(if s.item.hash < h then s.left else s.right, h, compare);
    }
  }

  // ---- By hash, with the comparator of the source

  const WORD := 0x1_0000_0000

  /** The difference of two `size_t`, converted to `int`. */
  function Cdef(a: nat, b: nat): int {
    var low := (a - b) % WORD;
    if low < WORD / 2 then low else low - WORD
  }

  ghost predicate Near(a: nat, h: nat) {
    -0x8000_0000 <= a - h < 0x8000_0000
  }

  /** On 32-bit hashes it is zero exactly on equal ones, and has the right sign exactly within 2^31. */
  lemma CdefSign(a: nat, h: nat)
    requires a < 0x1_0000_0000 && h < 0x1_0000_0000
    ensures Cdef(a, h) == 0 <==> a == h
    ensures SignOf(Cdef, a, h) <==> Near(a, h)
  {
  }

  /** Every hash compared on the way down to `h` is within 2^31 of it. */
  ghost predicate InReach(s: Shape, h: nat) {
    s.Leaf? || s.item.hash == h ||
    (Near(s.item.hash, h) && InReach(if s.item.hash < h then s.left else s.right, h))
  }

  /** pd_tree_search finds the hash exactly when it is in the tree and every hash compared on the way is near. */
  lemma {:induction false} SearchExact(s: Shape, h: nat)
    requires Ordered(s) && h < 0x1_0000_0000 && forall y :: y in Nodes(s) ==> y.hash < 0x1_0000_0000
    ensures Found(s, h, Cdef) != null <==> InReach(s, h) && exists y :: y in Nodes(s) && y.hash == h
    ensures Found(s, h, Cdef) != null ==> Found(s, h, Cdef).hash == h
  {
    if s.Node? {
      CdefSign(s.item.hash, h);
      if s.item.hash != h {
        SearchExact(s.left, h);
        SearchExact(s.right, h);
      }
    }
  }

  // ---- By key

  /** The chunks that the searches and the replies read hold the beginnings of the key and of the value. */
  ghost predicate Legible(n: Tree)
    reads n.data.key.buf, n.data.value.buf
  {
    && NUL in n.data.key.buf[..] && Text(n.data.key.buf[..]) == First(n.key)
    && NUL in n.data.value.buf[..] && Text(n.data.value.buf[..]) == First(n.value)
  }

  ghost predicate Readable(nodes: set<Tree>)
    reads set n | n in nodes :: n.data.key.buf
    reads set n | n in nodes :: n.data.value.buf
  {
    forall n :: n in nodes ==> Legible(n)
  }

  /** pd_tree_search_key */
  function SearchKey(t: Tree?, buf: seq<byte>, ghost s: Shape): (r: Tree?)
    requires Carries(t, s) && Readable(Nodes(s)) && NUL in buf
    reads Nodes(s)
    reads set n | n in Nodes(s) :: n.data.key.buf
    reads set n | n in Nodes(s) :: n.data.value.buf
    ensures r == KeyFound(s, Text(buf))
    decreases s
  {
    if t == null then null
    else
      SplitCarries(s);
      assert t in Nodes(s) && Legible(t);
      var res := Strcmp(Text(t.data.key.buf[..]), Text(buf));
      StrcmpZero(Text(t.data.key.buf[..]), Text(buf));
      StrcmpSign(Text(t.data.key.buf[..]), Text(buf));
      if res == 0 then t
      else if res < 0 then SearchKey(t.left, buf, s.left)
      else SearchKey(t.right, buf, s.right)
  }

  /** The node found, in terms of the order of texts: from a key below `k` the search goes left, from one above it right. */
  ghost function KeyFound(s: Shape, k: seq<byte>): Tree? {
    if s.Leaf? then null
    else if First(s.item.key) == k then s.item
    else if Below(First(s.item.key), k) then KeyFound(s.left, k)
    else KeyFound(s.right, k)
  }

  /** What is found is in the tree and has the key. */
  lemma {:induction false} KeyFoundSound(s: Shape, k: seq<byte>)
    ensures KeyFound(s, k) != null ==> KeyFound(s, k) in Nodes(s) && First(KeyFound(s, k).key) == k
  {
    if s.Node? {
      KeyFoundSound(s.left, k);
      KeyFoundSound(s.right, k);
    }
  }
}
