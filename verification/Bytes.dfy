/** Bytes and 32-bit and 64-bit integers in either byte order. */
module Bytes {
  type Byte = b: int | 0 <= b < 0x100
  type Word32 = w: int | 0 <= w < 0x1_0000_0000

  datatype Endian = Big | Little {
    function Other(): Endian { if Big? then Little else Big }
  }

  function Put32(e: Endian, w: Word32): (b: seq<Byte>)
    ensures |b| == 4
  {
    var b0, b1, b2, b3 := w / 0x100_0000, w / 0x1_0000 % 0x100, w / 0x100 % 0x100, w % 0x100;
    if e.Big? then [b0, b1, b2, b3] else [b3, b2, b1, b0]
  }

  function Join(b0: Byte, b1: Byte, b2: Byte, b3: Byte): Word32 {
    var w: int := b0;
    ((w * 0x100 + b1) * 0x100 + b2) * 0x100 + b3
  }

  function Get32(e: Endian, b: seq<Byte>): (w: Word32)
    requires |b| == 4
  {
    if e.Big? then Join(b[0], b[1], b[2], b[3]) else Join(b[3], b[2], b[1], b[0])
  }

  /** The quotients and remainders that take a word apart. */
  lemma TakenApart(w: int, b0: Byte, b1: Byte, b2: Byte, b3: Byte)
    requires w == ((b0 * 0x100 + b1) * 0x100 + b2) * 0x100 + b3
    ensures w / 0x100_0000 == b0 && w / 0x1_0000 % 0x100 == b1 && w / 0x100 % 0x100 == b2 && w % 0x100 == b3
  {
    var x: int, y: int := b0 * 0x100 + b1, (b0 * 0x100 + b1) * 0x100 + b2;
    assert w / 0x100 == y;
    assert w / 0x1_0000 == x;
  }

  lemma Together(w: Word32)
    ensures Join(w / 0x100_0000, w / 0x1_0000 % 0x100, w / 0x100 % 0x100, w % 0x100) == w
  {
    var x: int, y: int := w / 0x1_0000, w / 0x100;
    assert x / 0x100 == w / 0x100_0000 && x == x / 0x100 * 0x100 + x % 0x100;
    assert y / 0x100 == x && y == x * 0x100 + y % 0x100;
  }

  /** Most significant byte first, or last. */
  lemma PutIs(w: Word32)
    ensures var b := Put32(Big, w);
            && w == b[0] as int * 0x100_0000 + b[1] as int * 0x1_0000 + b[2] as int * 0x100 + b[3] as int
            && Put32(Little, w) == [b[3], b[2], b[1], b[0]]
  {
    Together(w);
  }

  lemma GetOfPut(e: Endian, w: Word32)
    ensures Get32(e, Put32(e, w)) == w
  {
    hide Join;
    Together(w);
  }

  lemma PutOfGet(e: Endian, b: seq<Byte>)
    requires |b| == 4
    ensures Put32(e, Get32(e, b)) == b
  {
    if e.Big? {
      TakenApart(Get32(e, b), b[0], b[1], b[2], b[3]);
    } else {
      TakenApart(Get32(e, b), b[3], b[2], b[1], b[0]);
    }
  }
}
