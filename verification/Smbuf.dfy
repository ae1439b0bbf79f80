/** pd_smbuf: a string kept as a doubly linked chain of chunks. */
module Smbufs {
  import opened CStrings

  const MAXLEN_PER_NODE := 1024

  class Smbuf {
    const buf: array<byte>
    var buflen: nat
    var prev: Smbuf?
    var next: Smbuf?

    /** pd_smbuf_alloc: every field is zero. */
    constructor ()
      ensures fresh(buf) && buf.Length == 1025
      ensures Chunk(this) && buflen == 0 && prev == null && next == null
    {
      buf := new byte[MAXLEN_PER_NODE + 1](_ => NUL);
      buflen, prev, next := 0, null, null;
    }
  }

  /** A chunk holds `buflen` bytes that are not NUL; the rest of its buffer is zero. */
  ghost predicate Chunk(n: Smbuf)
    reads n`buflen, n.buf
  {
    && n.buf.Length == MAXLEN_PER_NODE + 1 && n.buflen <= MAXLEN_PER_NODE
    && NUL !in n.buf[..n.buflen]
    && forall k :: n.buflen <= k <= MAXLEN_PER_NODE ==> n.buf[k] == NUL
  }

  ghost function Bytes(n: Smbuf): (b: seq<byte>)
    requires Chunk(n)
    reads n`buflen, n.buf
    ensures |b| == n.buflen
  {
    n.buf[..n.buflen]
  }

  ghost function Buffers(ns: seq<Smbuf>): set<array<byte>> {
    set n | n in ns :: n.buf
  }

  /** No node and no buffer occurs twice. */
  ghost predicate Distinct(ns: seq<Smbuf>) {
    forall i, j :: 0 <= i < j < |ns| ==> ns[i] != ns[j] && ns[i].buf != ns[j].buf
  }

  ghost predicate Linked(ns: seq<Smbuf>)
    reads ns`next, ns`prev
  {
    && |ns| > 0
    && (forall i {:trigger ns[i].next} :: 0 <= i < |ns| ==> ns[i].next == if i + 1 < |ns| then ns[i + 1] else null)
    && (forall i {:trigger ns[i].prev} :: 0 < i < |ns| ==> ns[i].prev == ns[i - 1])
  }

  ghost predicate Chain(ns: seq<Smbuf>)
    reads ns`buflen, ns`next, ns`prev, Buffers(ns)
  {
    && Distinct(ns)
    && Linked(ns)
    && forall i :: 0 <= i < |ns| ==> Chunk(ns[i])
  }

  /** The stretch of `c` that belongs in chunk `j`. */
  function Slice(c: seq<byte>, j: nat): (r: seq<byte>)
    ensures MAXLEN_PER_NODE * j <= |c| ==> |r| == if |c| < MAXLEN_PER_NODE * (j + 1) then |c| - MAXLEN_PER_NODE * j else MAXLEN_PER_NODE
  {
    var lo := if |c| < MAXLEN_PER_NODE * j then |c| else MAXLEN_PER_NODE * j;
    var hi := if |c| < MAXLEN_PER_NODE * (j + 1) then |c| else MAXLEN_PER_NODE * (j + 1);
    c[lo..hi]
  }

  /** Each chunk carries its stretch of `c`. */
  ghost predicate Sliced(ns: seq<Smbuf>, c: seq<byte>)
    reads ns`buflen, Buffers(ns)
  {
    forall j :: 0 <= j < |ns| ==> Chunk(ns[j]) && Bytes(ns[j]) == Slice(c, j)
  }

  /** The chain carries `c`: full chunks, then a partial one, then empty ones; and one chunk when one is enough. */
  ghost predicate Holds(ns: seq<Smbuf>, c: seq<byte>)
    reads ns`buflen, ns`next, ns`prev, Buffers(ns)
  {
    && Chain(ns) && Sliced(ns, c)
    && |c| <= MAXLEN_PER_NODE * |ns|
    && (|c| <= MAXLEN_PER_NODE ==> |ns| == 1)
  }

  /** What a string function sees of a chain: the text of its first chunk. */
  function First(c: seq<byte>): seq<byte> {
    Slice(c, 0)
  }

  lemma ChunkText(n: Smbuf)
    requires Chunk(n)
    ensures NUL in n.buf[..] && Text(n.buf[..]) == Bytes(n)
  {
    assert n.buf[..][..n.buflen] == n.buf[..n.buflen];
    TextIs(n.buf[..], n.buflen);
  }

  /** That is all of it, or its first 1024 bytes. */
  lemma FirstIs(c: seq<byte>)
    ensures First(c) == if |c| < 1024 then c else c[..1024]
  {
  }

  lemma HeadText(ns: seq<Smbuf>, c: seq<byte>)
    requires Holds(ns, c)
    ensures NUL in ns[0].buf[..] && Text(ns[0].buf[..]) == First(c)
  {
    ChunkText(ns[0]);
    assert Bytes(ns[0]) == Slice(c, 0);
  }

  /** The assignment `tmp->buf[tmp->buflen++] = b`. */
  method Put(tmp: Smbuf, b: byte)
    requires Chunk(tmp) && tmp.buflen < MAXLEN_PER_NODE && b != NUL
    modifies tmp`buflen, tmp.buf
    ensures Chunk(tmp) && Bytes(tmp) == old(Bytes(tmp)) + [b]
  {
    tmp.buf[tmp.buflen] := b;
    tmp.buflen := tmp.buflen + 1;
    assert tmp.buf[..tmp.buflen] == old(tmp.buf[..tmp.buflen]) + [b];
  }

  /** Hangs the head of the chain `buf` behind the chain `root`; whatever followed that head is cut off. */
  method Append(root: Smbuf, buf: Smbuf?, ghost ns: seq<Smbuf>, ghost at: nat)
    requires Linked(ns) && at < |ns| && root == ns[at]
    requires buf != null ==> Distinct(ns + [buf])
    modifies ns`next, (if buf == null then {} else {buf})`next, (if buf == null then {} else {buf})`prev
    ensures Linked(if buf == null then ns else ns + [buf])
  {
    var tmp := root;
    if buf == null {
      return;
    }
    ghost var i := at;
    while tmp.next != null
      invariant 0 <= i < |ns| && tmp == ns[i] && Linked(ns)
      modifies {}
      decreases |ns| - i
    {
      assert ns[i].next == ns[i + 1];
      tmp := tmp.next;
      i := i + 1;
    }
    assert i == |ns| - 1;
    ghost var all := ns + [buf];
    assert all[|ns|] == buf;
    forall j | 0 <= j < |ns| ensures all[j] == ns[j] && ns[j] != buf && (j < |ns| - 1 ==> ns[j] != tmp) {
      assert all[j] != all[|ns|];
      assert j < |ns| - 1 ==> all[j] != all[|ns| - 1];
    }
    buf.next := null;
    buf.prev := tmp;
    tmp.next := buf;
  }

  lemma SliceNext(c: seq<byte>, b: byte, j: nat)
    ensures Slice(c + [b], j) ==
      if MAXLEN_PER_NODE * j <= |c| < MAXLEN_PER_NODE * (j + 1) then Slice(c, j) + [b] else Slice(c, j)
  {
  }

  lemma SliceEnd(c: seq<byte>, j: nat)
    requires |c| <= MAXLEN_PER_NODE * j
    ensures Slice(c, j) == []
  {
  }

  lemma DistinctMore(ns: seq<Smbuf>, n: Smbuf)
    requires Distinct(ns) && n !in ns && n.buf !in Buffers(ns)
    ensures Distinct(ns + [n])
  {
    forall i | 0 <= i < |ns| ensures ns[i] != n && ns[i].buf != n.buf {
      assert ns[i] in ns && ns[i].buf in Buffers(ns);
    }
  }

  /** The position of the writer: at the first chunk that is not full, or still at a full root in front of it. */
  ghost predicate Writing(c: seq<byte>, at: nat) {
    && MAXLEN_PER_NODE * at <= |c|
    && (|c| <= MAXLEN_PER_NODE * (at + 1) || (at == 0 && |c| < 2 * MAXLEN_PER_NODE))
  }

  lemma WritingStart(s: seq<byte>, ns: seq<Smbuf>, c: seq<byte>)
    requires NUL in s && Holds(ns, c)
    requires |c| < 2 * MAXLEN_PER_NODE || Text(s) == []
    ensures |ns| > 0 && (Writing(c, 0) || s[0] == NUL)
  {
  }

  twostate predicate Extends(new ns': seq<Smbuf>, ns: seq<Smbuf>) {
    && ns <= ns'
    && forall j :: |ns| <= j < |ns'| ==> fresh(ns'[j]) && fresh(ns'[j].buf)
  }

  /** Lines 62-65: from a full chunk the writer appends a new chunk at the end and moves on by one. */
  method Advance(tmp: Smbuf, ghost ns: seq<Smbuf>, ghost c: seq<byte>, ghost at: nat) returns (tmp': Smbuf, ghost ns': seq<Smbuf>)
    requires Holds(ns, c) && at < |ns| && tmp == ns[at] && Writing(c, at)
    requires tmp.buflen == MAXLEN_PER_NODE
    modifies ns`next
    ensures |ns'| == |ns| + 1 && Extends(ns', ns)
    ensures Chain(ns') && Sliced(ns', c) && tmp' == ns'[at + 1]
  {
    hide Distinct, Slice, Chunk, Sliced;
    var buf := new Smbuf();
    DistinctMore(ns, buf);
    ns' := ns + [buf];
    assert Sliced(ns, c);
    Append(tmp, buf, ns, at);
    SlicedMore(ns, buf, c);
    assert ns'[at].next == ns'[at + 1];
    tmp' := tmp.next;
  }

  lemma SlicedMore(ns: seq<Smbuf>, n: Smbuf, c: seq<byte>)
    requires Sliced(ns, c) && |c| <= MAXLEN_PER_NODE * |ns|
    requires Distinct(ns + [n]) && Linked(ns + [n]) && Chunk(n) && n.buflen == 0
    ensures Chain(ns + [n]) && Sliced(ns + [n], c)
  {
    hide Distinct, Linked;
    SliceEnd(c, |ns|);
  }

  /** Line 67: the byte goes to the chunk of the writer. */
  method Write(tmp: Smbuf, b: byte, ghost ns: seq<Smbuf>, ghost c: seq<byte>, ghost at: nat)
    requires Chain(ns) && Sliced(ns, c) && at < |ns| && tmp == ns[at] && b != NUL
    requires MAXLEN_PER_NODE * at <= |c| < MAXLEN_PER_NODE * (at + 1)
    modifies tmp`buflen, tmp.buf
    ensures Chain(ns) && Sliced(ns, c + [b])
  {
    forall j: nat ensures Slice(c + [b], j) == if j == at then Slice(c, j) + [b] else Slice(c, j) { SliceNext(c, b, j); }
    hide Slice;
    assert forall j :: 0 <= j < |ns| && j != at ==> ns[j] != tmp && ns[j].buf != tmp.buf;
    Put(tmp, b);
  }

  /** Where the writer is, in terms of the chunk it is at. */
  twostate lemma FullAt(ns: seq<Smbuf>, new c: seq<byte>, new at: nat)
    requires Holds(ns, c) && at < |ns| && Writing(c, at)
    ensures Chain(ns) && Sliced(ns, c) && Extends(ns, ns)
    ensures if ns[at].buflen == MAXLEN_PER_NODE then MAXLEN_PER_NODE * (at + 1) <= |c| < MAXLEN_PER_NODE * (at + 2)
            else MAXLEN_PER_NODE * at <= |c| < MAXLEN_PER_NODE * (at + 1)
    ensures |c| < MAXLEN_PER_NODE ==> |ns| == 1 && ns[at].buflen < MAXLEN_PER_NODE
  {
    assert ns[at].buflen == |Bytes(ns[at])|;
  }

  /** One turn of the loop. */
  method InsertByte(tmp: Smbuf, b: byte, ghost ns: seq<Smbuf>, ghost c: seq<byte>, ghost at: nat)
    returns (tmp': Smbuf, ghost ns': seq<Smbuf>, ghost at': nat)
    requires Holds(ns, c) && at < |ns| && tmp == ns[at] && Writing(c, at) && b != NUL
    modifies ns, Buffers(ns)
    ensures Extends(ns', ns) && Holds(ns', c + [b])
    ensures at' < |ns'| && tmp' == ns'[at'] && Writing(c + [b], at')
  {
    hide *;
    FullAt(ns, c, at);
    tmp', ns', at' := tmp, ns, at;
    if tmp'.buflen == MAXLEN_PER_NODE {
      tmp', ns' := Advance(tmp', ns, c, at);
      at' := at + 1;
    }
    WrittenAt(ns', ns, at');
    Write(tmp', b, ns', c, at');
    HoldsMore(ns', c, b, at');
  }

  twostate lemma WrittenAt(new ns': seq<Smbuf>, ns: seq<Smbuf>, new at: nat)
    requires Extends(ns', ns) && at < |ns'|
    ensures ns'[at] in ns || fresh(ns'[at])
    ensures ns'[at].buf in Buffers(ns) || fresh(ns'[at].buf)
  {
    if at < |ns| { assert ns'[at] == ns[at]; }
  }

  lemma HoldsMore(ns: seq<Smbuf>, c: seq<byte>, b: byte, at: nat)
    requires Chain(ns) && Sliced(ns, c + [b]) && at < |ns|
    requires MAXLEN_PER_NODE * at <= |c| < MAXLEN_PER_NODE * (at + 1)
    requires |c| < MAXLEN_PER_NODE ==> |ns| == 1
    ensures Holds(ns, c + [b]) && Writing(c + [b], at)
  {
  }

  method InsertBuf(root: Smbuf, s: seq<byte>, ghost ns: seq<Smbuf>, ghost c: seq<byte>) returns (ghost ns': seq<Smbuf>)
    requires NUL in s && Holds(ns, c) && root == ns[0]
    requires |c| < 2048 || Text(s) == []
    modifies ns, Buffers(ns)
    ensures Extends(ns', ns)
    ensures Holds(ns', c + Text(s))
  {
    hide Holds, Writing;
    ns' := ns;
    var tmp := root;
    var i := 0;
    ghost var at: nat := 0;
    ghost var d := c;
    WritingStart(s, ns, c);
    while s[i] != NUL
      invariant i < |s| && NUL !in s[..i] && NUL in s[i..]
      invariant Extends(ns', ns) && d == c + s[..i] && Holds(ns', d)
      invariant at < |ns'| && tmp == ns'[at] && (Writing(d, at) || s[i] == NUL)
      decreases |s| - i
    {
      tmp, ns', at := InsertByte(tmp, s[i], ns', d, at);
      d := d + [s[i]];
      i := i + 1;
    }
    TextIs(s, i);
  }

  /** After the single step of lines 62-65 the writer has room exactly when the content is shorter than two chunks. */
  lemma RoomIff(ns: seq<Smbuf>, c: seq<byte>)
    requires Holds(ns, c)
    ensures |c| < 2048 <==> (ns[0].buflen < 1024 || |ns| == 1 || ns[1].buflen < 1024)
  {
    assert |Bytes(ns[0])| == ns[0].buflen;
    assert |ns| > 1 ==> |Bytes(ns[1])| == ns[1].buflen;
  }

  /** A chain none of whose nodes and buffers changed still holds its content. */
  twostate lemma HoldsStill(ns: seq<Smbuf>, new c: seq<byte>)
    requires old(Holds(ns, c))
    requires forall n | n in ns :: unchanged(n) && unchanged(n.buf)
    ensures Holds(ns, c)
  {
    assert Linked(ns);
  }

  lemma EmptyHolds(n: Smbuf)
    requires Chunk(n) && n.buflen == 0 && n.next == null
    ensures Holds([n], [])
  {
  }

  lemma EmptyFront(s: seq<byte>)
    ensures [] + s == s
  {
  }

  /** The insertion into a chain that has just been started. */
  method InsertFirst(ret: Smbuf, s: seq<byte>) returns (ghost ns: seq<Smbuf>)
    requires NUL in s && Holds([ret], [])
    modifies ret, ret.buf
    ensures Holds(ns, Text(s)) && ns != [] && ret == ns[0]
    ensures forall j :: 1 <= j < |ns| ==> fresh(ns[j]) && fresh(ns[j].buf)
  {
    hide Holds, Text, Slice;
    ghost var start := [ret];
    assert Buffers(start) == {ret.buf};
    ns := InsertBuf(ret, s, start, []);
    EmptyFront(Text(s));
    assert ns[0] == start[0];
  }

  method Init(buf: seq<byte>) returns (ret: Smbuf, ghost ns: seq<Smbuf>)
    requires NUL in buf
    ensures Holds(ns, Text(buf)) && ns != [] && ret == ns[0]
    ensures forall j :: 0 <= j < |ns| ==> fresh(ns[j]) && fresh(ns[j].buf)
  {
    hide *;
    ret := new Smbuf();
    EmptyHolds(ret);
    ns := InsertFirst(ret, buf);
  }

  /** The loop of lines 100-101. */
  method CopyChunk(sbuf: Smbuf) returns (ret: Smbuf)
    requires Chunk(sbuf)
    ensures fresh(ret) && fresh(ret.buf) && Chunk(ret) && Bytes(ret) == Bytes(sbuf)
    ensures ret.prev == null && ret.next == null
  {
    ret := new Smbuf();
    var i := 0;
    while i < sbuf.buflen
      invariant 0 <= i <= sbuf.buflen && Chunk(ret) && Bytes(ret) == sbuf.buf[..i]
      modifies ret`buflen, ret.buf
    {
      assert sbuf.buf[i] in sbuf.buf[..sbuf.buflen];
      Put(ret, sbuf.buf[i]);
      assert sbuf.buf[..i + 1] == sbuf.buf[..i] + [sbuf.buf[i]];
      i := i + 1;
    }
  }

  /** The copy keeps the first two chunks: the append of each copied tail cuts off what follows its head. */
  method Copy(sbuf: Smbuf?, ghost ns: seq<Smbuf>) returns (ret: Smbuf?, ghost rs: seq<Smbuf>)
    requires sbuf == if ns == [] then null else ns[0]
    requires ns != [] ==> Linked(ns)
    requires forall j :: 0 <= j < |ns| ==> Chunk(ns[j])
    ensures |rs| == if |ns| < 2 then |ns| else 2
    ensures ret == if rs == [] then null else rs[0]
    ensures rs != [] ==> Chain(rs) && ret.prev == null
    ensures forall j :: 0 <= j < |rs| ==> fresh(rs[j]) && fresh(rs[j].buf) && Bytes(rs[j]) == Bytes(ns[j])
    decreases |ns|
  {
    hide Chunk, Bytes, Linked, Distinct;
    if sbuf == null {
      return null, [];
    }
    TailLinked(ns);
    ret := CopyChunk(sbuf);
    ghost var tail: seq<Smbuf>;
    var next;
    next, tail := Copy(sbuf.next, ns[1..]);
    Alone(ret);
    if next != null { Distinct2(ret, next); }
    Append(ret, next, [ret], 0);
    rs := if next == null then [ret] else [ret] + [next];
  }

  lemma Alone(n: Smbuf)
    requires n.next == null
    ensures Linked([n]) && Distinct([n]) && Buffers([n]) == {n.buf}
  {
  }

  lemma Distinct2(a: Smbuf, b: Smbuf)
    requires a != b && a.buf != b.buf
    ensures Distinct([a] + [b])
  {
  }

  lemma TailLinked(ns: seq<Smbuf>)
    requires |ns| > 0 && Linked(ns)
    ensures |ns| > 1 ==> Linked(ns[1..])
    ensures ns[0].next == if |ns| > 1 then ns[1] else null
  {
    var t := ns[1..];
    forall i | 0 <= i < |t| ensures t[i].next == if i + 1 < |t| then t[i + 1] else null {
      assert ns[i + 1].next == if i + 2 < |ns| then ns[i + 2] else null;
    }
    forall i | 0 < i < |t| ensures t[i].prev == t[i - 1] {
      assert ns[i + 1].prev == ns[i];
    }
  }

  /** A copy holds the first 2048 bytes: all of them, and nothing else, whenever there are no more. */
  lemma CopyHolds(ns: seq<Smbuf>, rs: seq<Smbuf>, c: seq<byte>)
    requires Holds(ns, c) && Chain(rs)
    requires |rs| == if |ns| < 2 then |ns| else 2
    requires forall j :: 0 <= j < |rs| ==> Bytes(rs[j]) == Bytes(ns[j])
    ensures Holds(rs, if |c| < 2048 then c else c[..2048])
  {
  }

  method Nodelen(buf: Smbuf?, ghost ns: seq<Smbuf>) returns (ncnt: nat)
    requires buf == if ns == [] then null else ns[0]
    requires ns != [] ==> Linked(ns)
    ensures ncnt == |ns|
  {
    var b := buf;
    ncnt := 0;
    while b != null
      invariant ncnt <= |ns| && b == if ncnt < |ns| then ns[ncnt] else null
      decreases |ns| - ncnt
    {
      assert ns[ncnt].next == if ncnt + 1 < |ns| then ns[ncnt + 1] else null;
      ncnt := ncnt + 1;
      b := b.next;
    }
  }
}
