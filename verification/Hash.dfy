/** pd_hash: a register folded over the bytes of a C string. */
module Hash {
  import opened CStrings
  import opened HashTable

  const INITIAL: bv32 := 0xffff_ffff

  // ---- One turn of the loop, on the 32 bits that can be set

  function Index(h: bv32, c: byte): byte {
    (h & 0xff) as byte ^ c
  }

  function Down(h: bv32): bv32 {
    h >> 8
  }

  function Plus(e: bv32, h: bv32): bv32 {
    e ^ h
  }

  function Mix(e: bv32, h: bv32): bv32 {
    Plus(e, Down(h))
  }

  function Step(h: bv32, c: byte): bv32 {
    Mix(Entry(Index(h, c)), h)
  }

  function Fold(h: bv32, s: seq<byte>): bv32 {
    if s == [] then h else Step(Fold(h, s[..|s| - 1]), s[|s| - 1])
  }

  function HashOf(s: seq<byte>): bv32 {
    Fold(INITIAL, s)
  }

  // ---- The loop on the 64-bit register of the source

  /** `char` is signed: the source widens each byte with its sign. */
  function WidenByte(c: byte): bv64 {
    if c & 0x80 != 0 then 0xffff_ffff_ffff_ff00 | (c as bv64) else c as bv64
  }

  function Widen(h: bv32): bv64 {
    h as bv64
  }

  function WideIndex(hash: bv64, c: byte): byte {
    ((hash ^ WidenByte(c)) & 0xff) as byte
  }

  function WideMix(e: bv32, hash: bv64): bv64 {
    (e as bv64) ^ ((hash >> 8) & 0x00ff_ffff)
  }

  /** The assignment of the loop body. */
  function Turn(hash: bv64, c: byte): bv64 {
    WideMix(Entry(WideIndex(hash, c)), hash)
  }

  lemma LowByte(h: bv32, c: byte, w: bv64)
    requires w == c as bv64 || w == 0xffff_ffff_ffff_ff00 | (c as bv64)
    ensures (((h as bv64) ^ w) & 0xff) as byte == (h & 0xff) as byte ^ c
  {
  }

  lemma WideIndexIs(h: bv32, c: byte)
    ensures WideIndex(Widen(h), c) == Index(h, c)
  {
    LowByte(h, c, WidenByte(c));
  }

  lemma WideMixIs(e: bv32, h: bv32)
    ensures WideMix(e, Widen(h)) == Widen(Mix(e, h))
    ensures Widen(INITIAL) == 0xffff_ffff
  {
  }

  lemma WideTurn(h: bv32, c: byte)
    ensures Turn(Widen(h), c) == Widen(Step(h, c))
  {
    hide Entry, Index, WideIndex, Mix, WideMix, Widen;
    WideIndexIs(h, c);
    WideMixIs(Entry(Index(h, c)), h);
  }

  lemma FoldNext(h: bv32, s: seq<byte>, i: nat)
    requires i < |s|
    ensures Fold(h, s[..i + 1]) == Step(Fold(h, s[..i]), s[i])
  {
    hide Step;
    assert s[..i + 1][..i] == s[..i];
  }

  /** The register ends as the hash of the text, so its upper 32 bits stay clear. */
  method PdHash(buf: seq<byte>) returns (hash: bv64)
    requires NUL in buf
    ensures hash == Widen(HashOf(Text(buf)))
  {
    hide Step, Turn, Widen;
    hash := 0xffff_ffff;
    WideMixIs(0, 0);
    var i := 0;
    while buf[i] != NUL
      invariant i < |buf| && NUL !in buf[..i] && NUL in buf[i..]
      invariant hash == Widen(HashOf(buf[..i]))
      decreases |buf| - i
    {
      FoldNext(INITIAL, buf, i);
      WideTurn(HashOf(buf[..i]), buf[i]);
      hash := Turn(hash, buf[i]);
      i := i + 1;
    }
    TextIs(buf, i);
  }

  // ---- Each step is a bijection

  function Shifted(x: bv32, low: byte): bv32 {
    (x << 8) | (low as bv32)
  }

  /** The state whose step with `c` took entry `e` at index `i` and led to `g`. */
  function Rebuilt(g: bv32, e: bv32, i: byte, c: byte): bv32 {
    Shifted(g ^ e, i ^ c)
  }

  /** The state from which the byte `c` leads to `g`. */
  function Unstep(g: bv32, c: byte): bv32 {
    var i := IndexOfTop(Top(g));
    Rebuilt(g, Entry(i), i, c)
  }

  lemma MixBack(e: bv32, h: bv32, c: byte)
    ensures Top(Mix(e, h)) == Top(e)
    ensures Rebuilt(Mix(e, h), e, Index(h, c), c) == h
  {
  }

  lemma MixForth(g: bv32, e: bv32, i: byte, c: byte, h: bv32)
    requires Top(g) == Top(e) && h == Rebuilt(g, e, i, c)
    ensures Index(h, c) == i
    ensures Mix(e, h) == g
  {
  }

  lemma StepBack(h: bv32, c: byte)
    ensures Unstep(Step(h, c), c) == h
  {
    hide Entry, IndexOfTop, Top, Index, Mix, Rebuilt;
    TopPermutation(Index(h, c));
    MixBack(Entry(Index(h, c)), h, c);
  }

  lemma StepForth(g: bv32, c: byte, h: bv32)
    requires h == Unstep(g, c)
    ensures Step(h, c) == g
  {
    hide Entry, IndexOfTop, Top, Index, Mix, Rebuilt;
    var i := IndexOfTop(Top(g));
    var e := Entry(i);
    assert Top(e) == Top(g) by { TopPermutation(Top(g)); }
    assert Index(h, c) == i by { MixForth(g, e, i, c, h); }
    assert Mix(e, h) == g by { MixForth(g, e, i, c, h); }
  }

  /** For every byte, a step is a bijection on the 32-bit states, with inverse `Unstep`. */
  lemma StepBijective(c: byte)
    ensures forall h: bv32 :: Unstep(Step(h, c), c) == h
    ensures forall g: bv32 :: Step(Unstep(g, c), c) == g
  {
    hide Step, Unstep;
    forall h: bv32 ensures Unstep(Step(h, c), c) == h { StepBack(h, c); }
    forall g: bv32 ensures Step(Unstep(g, c), c) == g { StepForth(g, c, Unstep(g, c)); }
  }

  lemma {:induction false} FoldInjective(h: bv32, g: bv32, s: seq<byte>)
    requires Fold(h, s) == Fold(g, s)
    ensures h == g
  {
    hide Step, Unstep;
    if s != [] {
      var c := s[|s| - 1];
      StepBack(Fold(h, s[..|s| - 1]), c);
      StepBack(Fold(g, s[..|s| - 1]), c);
      FoldInjective(h, g, s[..|s| - 1]);
    }
  }

  lemma {:induction false} FoldAppend(h: bv32, a: seq<byte>, b: seq<byte>)
    ensures Fold(h, a + b) == Fold(Fold(h, a), b)
  {
    hide Step;
    if b == [] {
      assert a + b == a;
    } else {
      assert (a + b)[..|a + b| - 1] == a + b[..|b| - 1];
      FoldAppend(h, a, b[..|b| - 1]);
    }
  }

  // ---- Sums of words and of bytes over XOR

  predicate Sum(a: bv32, b: bv32, d: bv32) {
    Plus(a, b) == d
  }

  predicate ByteSum(x: byte, y: byte, d: byte) {
    x ^ y == d
  }

  // ---- Short bursts are always seen

  predicate ClearTop(d: bv32) {
    d & 0xff00_0000 == 0
  }

  lemma SameTop(g: bv32, g': bv32, d: bv32)
    requires Sum(g, g', d) && ClearTop(d)
    ensures Top(g) == Top(g')
  {
  }

  lemma RebuiltSum(g: bv32, g': bv32, d: bv32, e: bv32, i: byte, c: byte, c': byte, x: byte)
    requires Sum(g, g', d) && ByteSum(c, c', x)
    ensures Sum(Rebuilt(g, e, i, c), Rebuilt(g', e, i, c'), Shifted(d, x))
  {
  }

  lemma UnstepSum(g: bv32, g': bv32, d: bv32, c: byte, c': byte, x: byte)
    requires Sum(g, g', d) && ClearTop(d) && ByteSum(c, c', x)
    ensures Sum(Unstep(g, c), Unstep(g', c'), Shifted(d, x))
  {
    hide Entry, IndexOfTop, Top, Sum, ByteSum, ClearTop, Shifted, Rebuilt;
    SameTop(g, g', d);
    var i := IndexOfTop(Top(g));
    RebuiltSum(g, g', d, Entry(i), i, c, c', x);
  }

  /** One step back from two states that differ by `d`, whose top byte is clear: the difference moves up by that of the bytes. */
  lemma StepApart(h: bv32, h': bv32, c: byte, c': byte, d: bv32, x: byte)
    requires Sum(Step(h, c), Step(h', c'), d) && ClearTop(d) && ByteSum(c, c', x)
    ensures Sum(h, h', Shifted(d, x))
  {
    hide Step, Unstep, Sum, ByteSum, ClearTop, Shifted;
    StepBack(h, c);
    StepBack(h', c');
    UnstepSum(Step(h, c), Step(h', c'), d, c, c', x);
  }

  lemma Packed(x: seq<byte>)
    requires |x| == 4
    ensures var d3 := Shifted(0, x[3]); var d2 := Shifted(d3, x[2]); var d1 := Shifted(d2, x[1]);
      && ClearTop(0) && ClearTop(d3) && ClearTop(d2) && ClearTop(d1)
      && (Shifted(d1, x[0]) == 0 ==> x[0] == 0 && x[1] == 0 && x[2] == 0 && x[3] == 0)
  {
  }

  lemma ZeroSum(g: bv32, d: bv32)
    ensures Sum(g, g, d) <==> d == 0
  {
  }

  lemma ByteZeroSum(x: byte, y: byte)
    ensures ByteSum(x, y, 0) <==> x == y
    ensures ByteSum(x, y, x ^ y)
  {
  }

  /** From one state, two different runs of four bytes lead to different states. */
  lemma FourBytes(h: bv32, s: seq<byte>, t: seq<byte>)
    requires |s| == |t| == 4 && Fold(h, s) == Fold(h, t)
    ensures s == t
  {
    hide Step, Shifted, Sum, ByteSum, ClearTop;
    FoldFour(h, s);
    FoldFour(h, t);
    var x := Xor(s, t);
    forall i | 0 <= i < 4 ensures ByteSum(s[i], t[i], x[i]) && (x[i] == 0 ==> s[i] == t[i]) {
      ByteZeroSum(s[i], t[i]);
    }
    Packed(x);
    var d3 := Shifted(0, x[3]);
    var d2 := Shifted(d3, x[2]);
    var d1 := Shifted(d2, x[1]);
    ZeroSum(Fold(h, s), 0);
    StepApart(Fold(h, s[..3]), Fold(h, t[..3]), s[3], t[3], 0, x[3]);
    StepApart(Fold(h, s[..2]), Fold(h, t[..2]), s[2], t[2], d3, x[2]);
    StepApart(Fold(h, s[..1]), Fold(h, t[..1]), s[1], t[1], d2, x[1]);
    StepApart(h, h, s[0], t[0], d1, x[0]);
    ZeroSum(h, Shifted(d1, x[0]));
  }

  lemma FoldFour(h: bv32, s: seq<byte>)
    requires |s| == 4
    ensures Fold(h, s) == Step(Fold(h, s[..3]), s[3])
    ensures Fold(h, s[..3]) == Step(Fold(h, s[..2]), s[2])
    ensures Fold(h, s[..2]) == Step(Fold(h, s[..1]), s[1])
    ensures Fold(h, s[..1]) == Step(h, s[0])
  {
    hide Step;
    assert s[..4] == s;
    FoldNext(h, s, 3);
    FoldNext(h, s, 2);
    FoldNext(h, s, 1);
    FoldNext(h, s, 0);
  }

  lemma BurstInjective(s: seq<byte>, t: seq<byte>, i: nat, k: nat)
    requires |s| == |t| && i + k <= |s| && k <= 4
    requires s[..i] == t[..i] && s[i + k..] == t[i + k..]
    requires HashOf(s) == HashOf(t)
    ensures s == t
  {
    hide Step;
    var head, ms, mt, tail := s[..i], s[i..i + k], t[i..i + k], s[i + k..];
    var pad: seq<byte> := seq(4 - k, _ => 0);
    assert s == head + (ms + tail) && t == head + (mt + tail);
    FoldAppend(INITIAL, head, ms + tail);
    FoldAppend(INITIAL, head, mt + tail);
    var h := Fold(INITIAL, head);
    FoldAppend(h, ms, tail);
    FoldAppend(h, mt, tail);
    FoldInjective(Fold(h, ms), Fold(h, mt), tail);
    FoldAppend(h, ms, pad);
    FoldAppend(h, mt, pad);
    FourBytes(h, ms + pad, mt + pad);
    assert ms == (ms + pad)[..k] && mt == (mt + pad)[..k];
  }

  /** Two strings of equal length that differ, but only within four consecutive bytes, hash differently. */
  lemma BurstSeen(s: seq<byte>, t: seq<byte>, i: nat, k: nat)
    requires |s| == |t| && i + k <= |s| && k <= 4
    requires s[..i] == t[..i] && s[i + k..] == t[i + k..]
    requires s != t
    ensures HashOf(s) != HashOf(t)
  {
    if HashOf(s) == HashOf(t) {
      BurstInjective(s, t, i, k);
    }
  }

  // ---- The hash is affine

  function Xor(a: seq<byte>, b: seq<byte>): (r: seq<byte>)
    requires |a| == |b|
    ensures |r| == |a|
  {
    seq(|a|, i requires 0 <= i < |a| => a[i] ^ b[i])
  }

  lemma IndexSum(a: bv32, b: bv32, h: bv32, x: byte, y: byte, w: byte)
    requires Sum(a, b, h) && ByteSum(x, y, w)
    ensures ByteSum(Index(a, x), Index(b, y), Index(h, w))
  {
  }

  lemma EntrySum(i: byte, j: byte, k: byte)
    requires ByteSum(i, j, k)
    ensures Sum(Entry(i), Entry(j), Entry(k))
  {
    hide Entry;
    EntryLinear(i, j);
  }

  lemma DownSum(a: bv32, b: bv32, h: bv32)
    requires Sum(a, b, h)
    ensures Sum(Down(a), Down(b), Down(h))
  {
  }

  lemma PlusLaws(a: bv32, b: bv32, c: bv32)
    ensures Plus(Plus(a, b), c) == Plus(a, Plus(b, c))
    ensures Plus(b, c) == Plus(c, b)
  {
  }

  lemma PlusExchange(a: bv32, b: bv32, c: bv32, d: bv32)
    ensures Plus(Plus(a, b), Plus(c, d)) == Plus(Plus(a, c), Plus(b, d))
  {
    hide Plus;
    PlusLaws(a, b, Plus(c, d));
    PlusLaws(a, b, c);
    PlusLaws(b, c, d);
    PlusLaws(c, b, d);
    PlusLaws(a, c, Plus(b, d));
  }

  lemma MixSum(a: bv32, b: bv32, h: bv32, d: bv32, e: bv32, f: bv32)
    requires Sum(a, b, h) && Sum(d, e, f)
    ensures Sum(Mix(d, a), Mix(e, b), Mix(f, h))
  {
    DownSum(a, b, h);
    hide Down, Plus;
    PlusExchange(d, Down(a), e, Down(b));
  }

  lemma StepSum(a: bv32, b: bv32, h: bv32, x: byte, y: byte, w: byte)
    requires Sum(a, b, h) && ByteSum(x, y, w)
    ensures Sum(Step(a, x), Step(b, y), Step(h, w))
  {
    hide Entry, Index, Mix, Sum, ByteSum;
    IndexSum(a, b, h, x, y, w);
    EntrySum(Index(a, x), Index(b, y), Index(h, w));
    MixSum(a, b, h, Entry(Index(a, x)), Entry(Index(b, y)), Entry(Index(h, w)));
  }

  lemma {:induction false} FoldSum(a: bv32, b: bv32, h: bv32, s: seq<byte>, t: seq<byte>)
    requires |s| == |t| && Sum(a, b, h)
    ensures Sum(Fold(a, s), Fold(b, t), Fold(h, Xor(s, t)))
  {
    hide Step, Sum, ByteSum;
    if s != [] {
      var n := |s| - 1;
      FoldSum(a, b, h, s[..n], t[..n]);
      assert Xor(s, t)[..n] == Xor(s[..n], t[..n]);
      ByteZeroSum(s[n], t[n]);
      StepSum(Fold(a, s[..n]), Fold(b, t[..n]), Fold(h, Xor(s[..n], t[..n])), s[n], t[n], Xor(s, t)[n]);
    }
  }

  /** For byte sequences of equal length, the hash of the sum of three is the sum of the three hashes. */
  lemma HashAffine(r: seq<byte>, s: seq<byte>, t: seq<byte>)
    requires |r| == |s| == |t|
    ensures HashOf(Xor(Xor(r, s), t)) == (HashOf(r) ^ HashOf(s)) ^ HashOf(t)
  {
    hide Step;
    FoldSum(INITIAL, INITIAL, 0, r, s);
    FoldSum(0, INITIAL, INITIAL, Xor(r, s), t);
  }
}
