/** 32-bit words as numbers. */
module MachineWords {
  import opened CStrings

  function Number(h: bv32): (n: nat)
    ensures n < 0x1_0000_0000
  {
    h as nat
  }

  /** The number is that of the word. */
  lemma NumberBack(h: bv32)
    ensures Number(h) as bv32 == h
  {
  }

  // ---- Byte by byte

  function ByteNumber(b: byte): (n: nat)
    ensures n < 256
  {
    b as nat
  }

  function Byte3(h: bv32): byte {
    (h >> 24) as byte
  }

  function Byte2(h: bv32): byte {
    ((h >> 16) & 0xff) as byte
  }

  function Byte1(h: bv32): byte {
    ((h >> 8) & 0xff) as byte
  }

  function Byte0(h: bv32): byte {
    (h & 0xff) as byte
  }

  function Low3(h: bv32): bv32 {
    h & 0x00ff_ffff
  }

  function Low2(h: bv32): bv32 {
    h & 0xffff
  }

  lemma Peel3(h: bv32)
    ensures h as nat == ((h & 0x00ff_ffff) as nat) + 0x100_0000 * ((h >> 24) as byte) as nat
  {
  }

  lemma Peel2(h: bv32)
    ensures (h & 0x00ff_ffff) as nat == ((h & 0xffff) as nat) + 0x1_0000 * (((h >> 16) & 0xff) as byte) as nat
  {
  }

  lemma Peel1(h: bv32)
    ensures (h & 0xffff) as nat == ((h & 0xff) as byte) as nat + 0x100 * (((h >> 8) & 0xff) as byte) as nat
  {
  }

  lemma NumberPeeled(h: bv32)
    ensures Number(h) == Number(Low3(h)) + 0x100_0000 * ByteNumber(Byte3(h))
    ensures Number(Low3(h)) == Number(Low2(h)) + 0x1_0000 * ByteNumber(Byte2(h))
    ensures Number(Low2(h)) == ByteNumber(Byte0(h)) + 0x100 * ByteNumber(Byte1(h))
  {
    Peel3(h);
    Peel2(h);
    Peel1(h);
  }

  // ---- The order of words is that of their numbers

  predicate Under(g: bv32, h: bv32) {
    g < h
  }

  predicate ByteUnder(a: byte, b: byte) {
    a < b
  }

  /** The first byte that differs decides. */
  lemma At3(g: bv32, h: bv32)
    requires ByteUnder(Byte3(g), Byte3(h))
    ensures Under(g, h)
  {
  }

  lemma At2(g: bv32, h: bv32)
    requires Byte3(g) == Byte3(h) && ByteUnder(Byte2(g), Byte2(h))
    ensures Under(g, h)
  {
  }

  lemma At1(g: bv32, h: bv32)
    requires Byte3(g) == Byte3(h) && Byte2(g) == Byte2(h) && ByteUnder(Byte1(g), Byte1(h))
    ensures Under(g, h)
  {
  }

  lemma At0(g: bv32, h: bv32)
    requires Byte3(g) == Byte3(h) && Byte2(g) == Byte2(h) && Byte1(g) == Byte1(h) && ByteUnder(Byte0(g), Byte0(h))
    ensures Under(g, h)
  {
  }

  lemma UnderOneWay(g: bv32, h: bv32)
    ensures !(Under(g, h) && Under(h, g)) && !Under(g, g)
  {
  }

  lemma Decided(g: bv32, h: bv32)
    requires Number(g) < Number(h)
    ensures Under(g, h)
  {
    hide *;
    NumberPeeled(g);
    NumberPeeled(h);
    ByteOrder(Byte3(g), Byte3(h));
    ByteOrder(Byte2(g), Byte2(h));
    ByteOrder(Byte1(g), Byte1(h));
    ByteOrder(Byte0(g), Byte0(h));
    if Byte3(g) != Byte3(h) {
      At3(g, h);
    } else if Byte2(g) != Byte2(h) {
      At2(g, h);
    } else if Byte1(g) != Byte1(h) {
      At1(g, h);
    } else {
      At0(g, h);
    }
  }

  lemma ByteOrder(a: byte, b: byte)
    ensures ByteUnder(a, b) <==> ByteNumber(a) < ByteNumber(b)
    ensures a == b <==> ByteNumber(a) == ByteNumber(b)
  {
  }

  lemma NotUnder(g: bv32, h: bv32)
    requires Number(g) >= Number(h)
    ensures !Under(g, h)
  {
    UnderOneWay(g, h);
    if Number(g) > Number(h) {
      Decided(h, g);
    } else {
      NumberBack(g);
      NumberBack(h);
    }
    hide *;
  }

  /** Words compare as their numbers do. */
  lemma NumberOrder(g: bv32, h: bv32)
    ensures Number(g) < Number(h) <==> g < h
  {
    if Number(g) < Number(h) {
      Decided(g, h);
    } else {
      NotUnder(g, h);
    }
    hide Number;
  }

  // ---- In 64 bits

  function Number64(w: bv64): nat {
    w as nat
  }

  function Word64(n: nat): bv64
    requires n < 0x1_0000_0000_0000_0000
  {
    n as bv64
  }

  lemma Number64Back(w: bv64)
    ensures Number64(w) < 0x1_0000_0000_0000_0000 && Word64(Number64(w)) == w
  {
  }

  lemma NumberWide(h: bv32)
    ensures Number(h) == Number64(h as bv64)
  {
  }

  /** As a 64-bit word, the number of a word is that word, widened. */
  lemma NumberWord(h: bv32)
    ensures Number(h) as bv64 == h as bv64
  {
    NumberWide(h);
    Number64Back(h as bv64);
    hide Number, Number64;
  }
}
