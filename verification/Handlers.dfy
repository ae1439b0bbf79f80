/** pd_hdlr: what GET, SET, DEL and an unknown command do to the tree, and what they answer. */
module Handlers {
  import opened CStrings
  import opened Smbufs
  import opened Cmd
  import opened TreeShapes
  import opened Trees
  import opened TreeSearch
  import opened TreeInit
  import opened MachineWords

  datatype Reply =
    | NotFound(key: seq<byte>)
    | Found(value: seq<byte>)
    | Stored
    | Removed(count: nat)
    | Unknown(cmd: seq<byte>, args: seq<seq<byte>>)
    | Silent

  /** The answer to a GET of `k`. */
  ghost function Lookup(s: Shape, k: seq<byte>): Reply {
    var n := KeyFound(s, k);
    if n == null then NotFound(k) else Found(First(n.value))
  }

  lemma FoundLegible(s: Shape, k: seq<byte>)
    requires Readable(Nodes(s))
    ensures KeyFound(s, k) != null ==> KeyFound(s, k) in Nodes(s) && Legible(KeyFound(s, k)) && First(KeyFound(s, k).key) == k
  {
    hide First, KeyFound;
    KeyFoundSound(s, k);
  }

  method HandleGet(root: TreeSlot, key: Smbuf, ghost kc: seq<Smbuf>, ghost k: seq<byte>) returns (reply: Reply)
    requires root.Valid() && Readable(root.repr) && Holds(kc, k) && key == kc[0]
    ensures reply == Lookup(root.shape, First(k))
  {
    HeadText(kc, k);
    FoundLegible(root.shape, First(k));
    hide Holds, First, KeyFound, Readable;
    var ret := SearchKey(root.root, key.buf[..], root.shape);
    if ret == null {
      return NotFound(Text(key.buf[..]));
    }
    return Found(Text(ret.data.value.buf[..]));
  }

  /** A copy of a chain of at most two chunks, with all of its content. */
  method CopyAll(buf: Smbuf, ghost ns: seq<Smbuf>, ghost c: seq<byte>) returns (ret: Smbuf, ghost rs: seq<Smbuf>)
    requires Holds(ns, c) && buf == ns[0] && |c| <= 2 * MAXLEN_PER_NODE
    ensures Holds(rs, c) && ret == rs[0] && |rs| <= 2
    ensures fresh(ret) && fresh(ret.buf) && NUL in ret.buf[..] && Text(ret.buf[..]) == First(c)
  {
    hide First, Slice;
    ret, rs := Copy(buf, ns);
    CopyHolds(ns, rs, c);
    assert c[..|c|] == c;
    HeadText(rs, c);
  }

  lemma ReadableMore(nodes: set<Tree>, n: Tree)
    requires Readable(nodes) && Legible(n)
    ensures Readable(nodes + {n})
  {
  }

  /** Nobody writes to the chunks of a node. */
  twostate lemma ReadableStill(nodes: set<Tree>)
    requires old(Readable(nodes))
    requires forall n | n in nodes :: unchanged(n.data.key.buf) && unchanged(n.data.value.buf)
    ensures Readable(nodes)
  {
    forall n | n in nodes ensures Legible(n) { assert old(Legible(n)); }
  }

  /** Lines 95-111: a node with copies of the key and the value. */
  method NewNode(key: Smbuf, value: Smbuf, ghost kc: seq<Smbuf>, ghost k: seq<byte>, ghost vc: seq<Smbuf>, ghost v: seq<byte>)
    returns (tree: Tree)
    requires Holds(kc, k) && key == kc[0] && |k| <= 2 * MAXLEN_PER_NODE
    requires Holds(vc, v) && value == vc[0] && |v| <= 2 * MAXLEN_PER_NODE
    ensures fresh(tree) && tree.key == k && tree.value == v && tree.hash == Number(NodeHash(k, v))
    ensures tree.parent == null && tree.left == null && tree.right == null
    ensures Legible(tree)
  {
    hide Holds, First, NodeHash, Number;
    var tkey, kr := CopyAll(key, kc, k);
    HoldsStill(vc, v);
    label copied:
    var tval, vr := CopyAll(value, vc, v);
    HoldsStill@copied(kr, k);
    tree := TreeInit.Init(Data(tkey, tval), kr, vr, k, v);
  }

  method HandleSet(root: TreeSlot, key: Smbuf, value: Smbuf,
                   ghost kc: seq<Smbuf>, ghost k: seq<byte>, ghost vc: seq<Smbuf>, ghost v: seq<byte>)
    returns (reply: Reply, ghost node: Tree)
    requires root.Valid() && Readable(root.repr)
    requires Holds(kc, k) && key == kc[0] && |k| <= 2 * MAXLEN_PER_NODE
    requires Holds(vc, v) && value == vc[0] && |v| <= 2 * MAXLEN_PER_NODE
    modifies root, root.repr
    ensures reply == Stored && fresh(node) && node.key == k && node.value == v && node.hash == Number(NodeHash(k, v))
    ensures root.Valid() && Readable(root.repr)
    ensures root.shape == Inserted(old(root.shape), node) && root.repr == old(root.repr) + {node}
    ensures root.root == (if old(root.root) == null then node else old(root.root))
    ensures root.root.parent == old(if root.root == null then null else root.root.parent)
  {
    hide *;
    var tree := NewNode(key, value, kc, k, vc, v);
    ReadableStill(root.repr);
    ReadableMore(root.repr, tree);
    label made:
    root.Insert(tree);
    ReadableStill@made(root.repr);
    node := tree;
    reply := Stored;
  }

  /** What is known of the parent of the root: it is a node that is, or once was, in the tree. */
  ghost predicate RootParent(root: TreeSlot, ever: set<Tree>)
    reads root, root.root
  {
    root.repr <= ever && (root.root == null || root.root.parent == null || root.root.parent in ever)
  }

  lemma ParentKnown(root: TreeSlot, node: Tree, ever: set<Tree>)
    requires root.Valid() && node in root.repr && RootParent(root, ever)
    ensures node.parent == null || node.parent in ever
  {
    if node != root.root {
      ParentInside(root.shape, node, root.root.parent);
    }
  }

  method HandleDelete(root: TreeSlot, key: Smbuf, ghost kc: seq<Smbuf>, ghost k: seq<byte>, ghost ever: set<Tree>)
    returns (reply: Reply, ghost node: Tree?)
    requires root.Valid() && Readable(root.repr) && Holds(kc, k) && key == kc[0] && RootParent(root, ever)
    modifies root, ever
    ensures node == old(KeyFound(root.shape, First(k))) && (node != null ==> node in old(root.repr))
    ensures reply == Removed(if node == null then 0 else 1) && Readable(old(root.repr))
    ensures node == null ==> unchanged(root) && unchanged(ever)
    ensures node != null && old(root.Stuck(node)) ==> root.root == node
    ensures node != null && !old(root.Stuck(node)) ==>
      && root.Valid() && RootParent(root, ever)
      && root.shape == Deleted(old(root.shape), node) && root.repr == old(root.repr) - {node}
      && (node != old(root.root) ==> root.root == old(root.root) && root.root.parent == old(root.root.parent))
      && (node == old(root.root) && root.root != null ==> root.root.parent != null)
  {
    HeadText(kc, k);
    FoundLegible(root.shape, First(k));
    hide Holds, First, KeyFound, Readable;
    var ret := SearchKey(root.root, key.buf[..], root.shape);
    node := ret;
    if ret == null {
      return Removed(0), node;
    }
    ParentKnown(root, ret, ever);
    root.Delete(ret);
    ReadableStill(old(root.repr));
    return Removed(1), node;
  }

  ghost function Firsts(slots: seq<seq<byte>>): seq<seq<byte>> {
    seq(|slots|, i requires 0 <= i < |slots| => First(slots[i]))
  }

  lemma FirstsAt(slots: seq<seq<byte>>)
    requires slots != []
    ensures |Firsts(slots[1..])| == |slots| - 1
    ensures forall i :: 0 <= i < |slots| - 1 ==> Firsts(slots[1..])[i] == First(slots[i + 1])
  {
    hide First;
  }

  method HandleInvalid(cmds: CmdArgs, ghost chains: seq<seq<Smbuf>>, ghost slots: seq<seq<byte>>, ghost mine: set<object>) returns (reply: Reply)
    requires cmds.Slotted(chains) && Within(chains, mine) && Carried(chains, slots, mine)
    requires slots != [] && cmds.plen == |slots| - 1
    ensures reply.Unknown? && reply.cmd == First(slots[0]) && |reply.args| == |slots| - 1
    ensures forall i :: 0 <= i < |reply.args| ==> reply.args[i] == First(slots[i + 1])
    ensures reply == Unknown(First(slots[0]), Firsts(slots[1..]))
  {
    forall i | 0 <= i < |slots| ensures NUL in chains[i][0].buf[..] && Text(chains[i][0].buf[..]) == First(slots[i]) {
      HeadText(chains[i], slots[i]);
    }
    hide Holds, First;
    var args: seq<seq<byte>> := [];
    var n := 0;
    while n < cmds.plen
      invariant 0 <= n <= cmds.plen
      invariant args == Firsts(slots[1..])[..n]
    {
      assert cmds.paux[n] == chains[n + 1][0];
      args := args + [Text(cmds.paux[n].buf[..])];
      n := n + 1;
    }
    FirstsAt(slots);
    return Unknown(Text(cmds.pcmd.buf[..]), args);
  }
}
