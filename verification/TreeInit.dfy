/** pd_tree_init: the hash of a node is the sum, over XOR, of the hashes of the chunks of its key and value. */
module TreeInit {
  import opened CStrings
  import opened Hash
  import opened Smbufs
  import opened TreeShapes
  import opened MachineWords

  ghost function XorHash(parts: seq<seq<byte>>): bv32 {
    if parts == [] then 0 else Plus(XorHash(parts[..|parts| - 1]), HashOf(parts[|parts| - 1]))
  }

  ghost predicate InParts(ns: seq<Smbuf>, parts: seq<seq<byte>>)
    requires Chain(ns)
    reads ns`buflen, ns`next, ns`prev, Buffers(ns)
  {
    |parts| == |ns| && forall i :: 0 <= i < |ns| ==> Bytes(ns[i]) == parts[i]
  }

  lemma WidenPlus(a: bv32, b: bv32)
    ensures Widen(a) ^ Widen(b) == Widen(Plus(a, b))
    ensures Plus(a, 0) == a && Widen(0) == 0
  {
  }

  lemma PlusLast(h: bv32, parts: seq<seq<byte>>, i: nat)
    requires i < |parts|
    ensures Plus(h, XorHash(parts[..i + 1])) == Plus(Plus(h, XorHash(parts[..i])), HashOf(parts[i]))
  {
    hide Plus, HashOf;
    assert parts[..i + 1][..i] == parts[..i];
    PlusLaws(h, XorHash(parts[..i]), HashOf(parts[i]));
  }

  function XorWords(a: bv64, b: bv64): bv64 {
    a ^ b
  }

  /** One of the two loops of lines 99-103. */
  method XorChain(hash: bv64, head: Smbuf, ghost h: bv32, ghost ns: seq<Smbuf>, ghost parts: seq<seq<byte>>) returns (r: bv64)
    requires Chain(ns) && InParts(ns, parts) && head == ns[0] && hash == Widen(h)
    ensures r == Widen(Plus(h, XorHash(parts)))
  {
    hide Widen, Plus, HashOf, XorWords, Distinct;
    var el: Smbuf? := head;
    r := hash;
    ghost var i := 0;
    PlusZero(h);
    while el != null
      invariant 0 <= i <= |ns| && el == if i < |ns| then ns[i] else null
      invariant r == Widen(Plus(h, XorHash(parts[..i])))
      decreases |ns| - i
    {
      assert Chunk(ns[i]) && ns[i].next == if i + 1 < |ns| then ns[i + 1] else null;
      ChunkText(ns[i]);
      var c := PdHash(el.buf[..]);
      PlusLast(h, parts, i);
      XorIs(Plus(h, XorHash(parts[..i])), HashOf(parts[i]));
      r := XorWords(r, c);
      el := el.next;
      i := i + 1;
    }
    assert parts[..i] == parts;
  }

  lemma PlusZero(h: bv32)
    ensures Plus(h, XorHash([])) == h
  {
  }

  lemma XorIs(a: bv32, b: bv32)
    ensures XorWords(Widen(a), Widen(b)) == Widen(Plus(a, b))
  {
    WidenPlus(a, b);
  }

  /** The chunks that carry a content of at most two chunks. */
  ghost function ChunksOf(c: seq<byte>): seq<seq<byte>> {
    if |c| <= MAXLEN_PER_NODE then [Slice(c, 0)] else [Slice(c, 0), Slice(c, 1)]
  }

  /** The hash of a node with the key `k` and the value `v`. */
  ghost function NodeHash(k: seq<byte>, v: seq<byte>): bv32 {
    Plus(XorHash(ChunksOf(k)), XorHash(ChunksOf(v)))
  }

  lemma HeldParts(ns: seq<Smbuf>, c: seq<byte>)
    requires Holds(ns, c) && |ns| <= 2
    ensures InParts(ns, ChunksOf(c))
  {
  }

  /** The XOR of what `pd_hash` returns for the chunks. */
  ghost function ChunkXor(parts: seq<seq<byte>>): bv64 {
    if parts == [] then 0 else ChunkXor(parts[..|parts| - 1]) ^ Widen(HashOf(parts[|parts| - 1]))
  }

  lemma {:induction false} ChunkXorIs(parts: seq<seq<byte>>)
    ensures ChunkXor(parts) == Widen(XorHash(parts))
  {
    if parts == [] {
      ZeroPlus(0);
    } else {
      ChunkXorIs(parts[..|parts| - 1]);
      WidenPlus(XorHash(parts[..|parts| - 1]), HashOf(parts[|parts| - 1]));
      hide Widen, Plus, HashOf;
    }
  }

  lemma {:induction false} XorHashAppend(p: seq<seq<byte>>, q: seq<seq<byte>>)
    ensures XorHash(p + q) == Plus(XorHash(p), XorHash(q))
  {
    if q == [] {
      assert p + q == p;
      PlusZero(XorHash(p));
    } else {
      var n := |q| - 1;
      assert (p + q)[..|p| + n] == p + q[..n];
      XorHashAppend(p, q[..n]);
      PlusLaws(XorHash(p), XorHash(q[..n]), HashOf(q[n]));
      hide Plus, HashOf;
    }
  }

  /** The number stored for a key and a value is, as a 64-bit word, the XOR of the hashes of all their chunks. */
  lemma StoredWord(k: seq<byte>, v: seq<byte>)
    ensures Number(NodeHash(k, v)) as bv64 == ChunkXor(ChunksOf(k) + ChunksOf(v))
  {
    StoredXor(k, v);
    hide Number, NodeHash, ChunkXor, ChunksOf;
  }

  lemma StoredXor(k: seq<byte>, v: seq<byte>)
    ensures Word64(Number(NodeHash(k, v))) == ChunkXor(ChunksOf(k) + ChunksOf(v))
  {
    assert NodeHash(k, v) == Plus(XorHash(ChunksOf(k)), XorHash(ChunksOf(v)));
    hide *;
    WordIsWide(NodeHash(k, v));
    ChunkXorIs(ChunksOf(k) + ChunksOf(v));
    XorHashAppend(ChunksOf(k), ChunksOf(v));
  }

  lemma WordIsWide(h: bv32)
    ensures Word64(Number(h)) == Widen(h)
  {
    NumberWord(h);
    hide Number;
  }

  method Init(data: Data, ghost kc: seq<Smbuf>, ghost vc: seq<Smbuf>, ghost k: seq<byte>, ghost v: seq<byte>) returns (ret: Tree)
    requires Holds(kc, k) && Holds(vc, v) && |kc| <= 2 && |vc| <= 2
    requires data == Data(kc[0], vc[0])
    ensures fresh(ret) && ret.hash < 0x1_0000_0000 && ret.hash as bv64 == ChunkXor(ChunksOf(k) + ChunksOf(v))
    ensures ret.hash == Number(NodeHash(k, v))
    ensures ret.data == data && ret.key == k && ret.value == v
    ensures ret.parent == null && ret.left == null && ret.right == null
  {
    ret := Hashed(data, kc, vc, k, v);
    StoredWord(k, v);
    hide *;
  }

  /** The body of `Init`. */
  method Hashed(data: Data, ghost kc: seq<Smbuf>, ghost vc: seq<Smbuf>, ghost k: seq<byte>, ghost v: seq<byte>) returns (ret: Tree)
    requires Holds(kc, k) && Holds(vc, v) && |kc| <= 2 && |vc| <= 2
    requires data == Data(kc[0], vc[0])
    ensures fresh(ret) && ret.hash == Number(NodeHash(k, v))
    ensures ret.data == data && ret.key == k && ret.value == v
    ensures ret.parent == null && ret.left == null && ret.right == null
  {
    hide Widen, Plus, HashOf, XorHash, ChunksOf, InParts, Number;
    HeldParts(kc, k);
    HeldChain(kc, k);
    HeldChain(vc, v);
    ghost var a := XorHash(ChunksOf(k));
    ZeroPlus(a);
    var hash := XorChain(0, data.key, 0, kc, ChunksOf(k));
    HeldParts(vc, v);
    hash := XorChain(hash, data.value, a, vc, ChunksOf(v));
    ret := new Tree(Number(Narrowed(hash, NodeHash(k, v))), data, k, v);
  }

  /** The low half of a register whose high half is clear. */
  function Narrowed(hash: bv64, ghost h: bv32): (r: bv32)
    requires hash == Widen(h)
    ensures r == h
  {
    assert hash <= 0xffff_ffff;
    hash as bv32
  }

  lemma ZeroPlus(h: bv32)
    ensures Plus(0, h) == h && Widen(0) == 0
  {
  }

  lemma HeldChain(ns: seq<Smbuf>, c: seq<byte>)
    requires Holds(ns, c)
    ensures Chain(ns)
  {
  }

  /** The hash does not tell key from value: swapping them keeps it, and an entry of a key to itself hashes to 0. */
  lemma NodeHashSymmetric(k: seq<byte>, v: seq<byte>)
    ensures NodeHash(k, v) == NodeHash(v, k)
    ensures NodeHash(k, k) == 0 && Number(0) == 0
  {
    hide XorHash, ChunksOf;
    PlusLaws(0, XorHash(ChunksOf(k)), XorHash(ChunksOf(v)));
  }

  /** A key and a value of one chunk each that differ, but only within four consecutive bytes, do not cancel out. */
  lemma NodeHashSeen(k: seq<byte>, v: seq<byte>, i: nat, n: nat)
    requires |k| == |v| <= MAXLEN_PER_NODE && i + n <= |k| && n <= 4
    requires k[..i] == v[..i] && k[i + n..] == v[i + n..] && k != v
    ensures NodeHash(k, v) != 0
  {
    BurstSeen(k, v, i, n);
    OneChunk(k);
    OneChunk(v);
    hide XorHash, HashOf, ChunksOf;
    PlusCancels(HashOf(k), HashOf(v));
  }

  lemma OneChunk(c: seq<byte>)
    requires |c| <= MAXLEN_PER_NODE
    ensures XorHash(ChunksOf(c)) == HashOf(c)
  {
    hide HashOf;
    assert Slice(c, 0) == c && [c][..0] == [];
    assert XorHash([c]) == Plus(XorHash([]), HashOf(c));
    ZeroPlus(HashOf(c));
  }

  lemma PlusCancels(a: bv32, b: bv32)
    ensures Plus(a, b) == 0 <==> a == b
  {
  }
}
