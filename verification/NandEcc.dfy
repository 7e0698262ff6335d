/** The Hamming code that protects each 256-byte half of a NAND page: table-driven column
    parity, line parity as an exclusive-or of byte indices, and the corrector that decodes the
    difference between the stored and the recomputed code. */
module NandEcc {

  type Byte = bv8

  const BLOCK := 256

  // -------------------------------------------------------------------------
  // Column parity

  /** The precalculated table, row by row as the driver lays it out: eight entries a row. */
  const PRECALC_ROWS: seq<seq<Byte>> := [
    [0x00, 0x55, 0x56, 0x03, 0x59, 0x0c, 0x0f, 0x5a],
    [0x5a, 0x0f, 0x0c, 0x59, 0x03, 0x56, 0x55, 0x00],
    [0x65, 0x30, 0x33, 0x66, 0x3c, 0x69, 0x6a, 0x3f],
    [0x3f, 0x6a, 0x69, 0x3c, 0x66, 0x33, 0x30, 0x65],
    [0x66, 0x33, 0x30, 0x65, 0x3f, 0x6a, 0x69, 0x3c],
    [0x3c, 0x69, 0x6a, 0x3f, 0x65, 0x30, 0x33, 0x66],
    [0x03, 0x56, 0x55, 0x00, 0x5a, 0x0f, 0x0c, 0x59],
    [0x59, 0x0c, 0x0f, 0x5a, 0x00, 0x55, 0x56, 0x03],
    [0x69, 0x3c, 0x3f, 0x6a, 0x30, 0x65, 0x66, 0x33],
    [0x33, 0x66, 0x65, 0x30, 0x6a, 0x3f, 0x3c, 0x69],
    [0x0c, 0x59, 0x5a, 0x0f, 0x55, 0x00, 0x03, 0x56],
    [0x56, 0x03, 0x00, 0x55, 0x0f, 0x5a, 0x59, 0x0c],
    [0x0f, 0x5a, 0x59, 0x0c, 0x56, 0x03, 0x00, 0x55],
    [0x55, 0x00, 0x03, 0x56, 0x0c, 0x59, 0x5a, 0x0f],
    [0x6a, 0x3f, 0x3c, 0x69, 0x33, 0x66, 0x65, 0x30],
    [0x30, 0x65, 0x66, 0x33, 0x69, 0x3c, 0x3f, 0x6a],
    [0x6a, 0x3f, 0x3c, 0x69, 0x33, 0x66, 0x65, 0x30],
    [0x30, 0x65, 0x66, 0x33, 0x69, 0x3c, 0x3f, 0x6a],
    [0x0f, 0x5a, 0x59, 0x0c, 0x56, 0x03, 0x00, 0x55],
    [0x55, 0x00, 0x03, 0x56, 0x0c, 0x59, 0x5a, 0x0f],
    [0x0c, 0x59, 0x5a, 0x0f, 0x55, 0x00, 0x03, 0x56],
    [0x56, 0x03, 0x00, 0x55, 0x0f, 0x5a, 0x59, 0x0c],
    [0x69, 0x3c, 0x3f, 0x6a, 0x30, 0x65, 0x66, 0x33],
    [0x33, 0x66, 0x65, 0x30, 0x6a, 0x3f, 0x3c, 0x69],
    [0x03, 0x56, 0x55, 0x00, 0x5a, 0x0f, 0x0c, 0x59],
    [0x59, 0x0c, 0x0f, 0x5a, 0x00, 0x55, 0x56, 0x03],
    [0x66, 0x33, 0x30, 0x65, 0x3f, 0x6a, 0x69, 0x3c],
    [0x3c, 0x69, 0x6a, 0x3f, 0x65, 0x30, 0x33, 0x66],
    [0x65, 0x30, 0x33, 0x66, 0x3c, 0x69, 0x6a, 0x3f],
    [0x3f, 0x6a, 0x69, 0x3c, 0x66, 0x33, 0x30, 0x65],
    [0x00, 0x55, 0x56, 0x03, 0x59, 0x0c, 0x0f, 0x5a],
    [0x5a, 0x0f, 0x0c, 0x59, 0x03, 0x56, 0x55, 0x00]
  ]

  /** nand_ecc_precalc_table[b] */
  function Precalc(b: Byte): Byte {
    PRECALC_ROWS[(b >> 3) as int][(b & 7) as int]
  }

  // -------------------------------------------------------------------------
  // Bytes as vectors of bits

  /** The mask of a bit number, 1 << i. */
  function Mask(i: nat): Byte
    requires i < 8
  {
    if i == 0 then 0x01 else if i == 1 then 0x02 else if i == 2 then 0x04 else if i == 3 then 0x08
    else if i == 4 then 0x10 else if i == 5 then 0x20 else if i == 6 then 0x40 else 0x80
  }

  predicate Bit(b: Byte, i: nat)
    requires i < 8
  {
    b & Mask(i) != 0
  }

  lemma MaskIsSingle(i: nat)
    requires i < 8
    ensures Mask(i) & (Mask(i) - 1) == 0
  {
  }

  lemma XorMasked(a: Byte, b: Byte, m: Byte)
    requires m & (m - 1) == 0
    ensures (a ^ b) & m != 0 <==> (a & m != 0) != (b & m != 0)
  {
  }

  /** Exclusive-or, named so that proofs can keep it folded. */
  function Xor(a: Byte, b: Byte): Byte {
    a ^ b
  }

  lemma XorBit(a: Byte, b: Byte, i: nat)
    requires i < 8
    ensures Bit(Xor(a, b), i) <==> Bit(a, i) != Bit(b, i)
  {
    hide Mask;
    MaskIsSingle(i);
    XorMasked(a, b, Mask(i));
  }

  lemma EqualMasked(a: Byte, b: Byte)
    requires a & 0x01 != 0 <==> b & 0x01 != 0
    requires a & 0x02 != 0 <==> b & 0x02 != 0
    requires a & 0x04 != 0 <==> b & 0x04 != 0
    requires a & 0x08 != 0 <==> b & 0x08 != 0
    requires a & 0x10 != 0 <==> b & 0x10 != 0
    requires a & 0x20 != 0 <==> b & 0x20 != 0
    requires a & 0x40 != 0 <==> b & 0x40 != 0
    requires a & 0x80 != 0 <==> b & 0x80 != 0
    ensures a == b
  {
  }

  lemma BitMasks(b: Byte)
    ensures Bit(b, 0) == (b & 0x01 != 0) && Bit(b, 1) == (b & 0x02 != 0)
    ensures Bit(b, 2) == (b & 0x04 != 0) && Bit(b, 3) == (b & 0x08 != 0)
    ensures Bit(b, 4) == (b & 0x10 != 0) && Bit(b, 5) == (b & 0x20 != 0)
    ensures Bit(b, 6) == (b & 0x40 != 0) && Bit(b, 7) == (b & 0x80 != 0)
  {
  }

  ghost predicate SameBits(a: Byte, b: Byte) {
    forall i :: 0 <= i < 8 ==> (Bit(a, i) <==> Bit(b, i))
  }

  lemma EqualByBits(a: Byte, b: Byte)
    requires SameBits(a, b)
    ensures a == b
  {
    hide Bit;
    BitMasks(a);
    BitMasks(b);
    EqualMasked(a, b);
  }

  /** The byte with the given bits. */
  function FromBits(b7: bool, b6: bool, b5: bool, b4: bool, b3: bool, b2: bool, b1: bool, b0: bool): Byte {
    (if b7 then 0x80 else 0 as Byte) | (if b6 then 0x40 else 0 as Byte)
    | (if b5 then 0x20 else 0 as Byte) | (if b4 then 0x10 else 0 as Byte)
    | (if b3 then 0x08 else 0 as Byte) | (if b2 then 0x04 else 0 as Byte)
    | (if b1 then 0x02 else 0 as Byte) | (if b0 then 0x01 else 0 as Byte)
  }

  lemma FromBitsMasked(b7: bool, b6: bool, b5: bool, b4: bool, b3: bool, b2: bool, b1: bool, b0: bool)
    ensures var r := FromBits(b7, b6, b5, b4, b3, b2, b1, b0);
      && (r & 0x80 != 0 <==> b7) && (r & 0x40 != 0 <==> b6) && (r & 0x20 != 0 <==> b5) && (r & 0x10 != 0 <==> b4)
      && (r & 0x08 != 0 <==> b3) && (r & 0x04 != 0 <==> b2) && (r & 0x02 != 0 <==> b1) && (r & 0x01 != 0 <==> b0)
  {
  }

  lemma FromBitsBit(b7: bool, b6: bool, b5: bool, b4: bool, b3: bool, b2: bool, b1: bool, b0: bool)
    ensures var r := FromBits(b7, b6, b5, b4, b3, b2, b1, b0);
      && Bit(r, 7) == b7 && Bit(r, 6) == b6 && Bit(r, 5) == b5 && Bit(r, 4) == b4
      && Bit(r, 3) == b3 && Bit(r, 2) == b2 && Bit(r, 1) == b1 && Bit(r, 0) == b0
  {
    hide Bit, FromBits;
    FromBitsMasked(b7, b6, b5, b4, b3, b2, b1, b0);
    BitMasks(FromBits(b7, b6, b5, b4, b3, b2, b1, b0));
  }

  function One(b: bool): nat {
    if b then 1 else 0
  }

  function Nibble(b3: bool, b2: bool, b1: bool, b0: bool): (j: nat)
    ensures j < 16
  {
    8 * One(b3) + 4 * One(b2) + 2 * One(b1) + One(b0)
  }

  /** The number with the given binary digits. */
  function Number(b7: bool, b6: bool, b5: bool, b4: bool, b3: bool, b2: bool, b1: bool, b0: bool): (j: nat)
    ensures j < BLOCK
  {
    16 * Nibble(b7, b6, b5, b4) + Nibble(b3, b2, b1, b0)
  }

  function Halved(j: nat, i: nat): nat
    decreases i
  {
    if i == 0 then j else Halved(j, i - 1) / 2
  }

  /** Binary digit i of a byte index. */
  predicate Digit(j: nat, i: nat)
    requires j < BLOCK && i < 8
  {
    Halved(j, i) % 2 == 1
  }

  /** The index as a byte: (u_char) j. */
  function ByteOf(j: nat): Byte
    requires j < BLOCK
  {
    FromBits(Digit(j, 7), Digit(j, 6), Digit(j, 5), Digit(j, 4),
             Digit(j, 3), Digit(j, 2), Digit(j, 1), Digit(j, 0))
  }

  /** The byte as an index, the inverse of ByteOf. */
  function IndexOf(b: Byte): (j: nat)
    ensures j < BLOCK
  {
    Number(Bit(b, 7), Bit(b, 6), Bit(b, 5), Bit(b, 4), Bit(b, 3), Bit(b, 2), Bit(b, 1), Bit(b, 0))
  }

  lemma ByteOfBit(j: nat, i: nat)
    requires j < BLOCK && i < 8
    ensures Bit(ByteOf(j), i) <==> Digit(j, i)
  {
    hide Bit, FromBits, Digit;
    FromBitsBit(Digit(j, 7), Digit(j, 6), Digit(j, 5), Digit(j, 4),
                Digit(j, 3), Digit(j, 2), Digit(j, 1), Digit(j, 0));
  }

  lemma HalvedStep(j: nat, i: nat)
    requires j < BLOCK && i < 8
    ensures Halved(j, i) == 2 * Halved(j, i + 1) + One(Digit(j, i))
  {
  }

  lemma HalvedFour(j: nat, i: nat)
    requires j < BLOCK && i < 5
    ensures Halved(j, i) == 16 * Halved(j, i + 4)
                            + Nibble(Digit(j, i + 3), Digit(j, i + 2), Digit(j, i + 1), Digit(j, i))
  {
    hide Halved, Digit, One;
    HalvedStep(j, i);
    HalvedStep(j, i + 1);
    HalvedStep(j, i + 2);
    HalvedStep(j, i + 3);
  }

  lemma TwoNibbles(j: nat, h4: nat, h8: nat, lo: nat, hi: nat)
    requires j < BLOCK && j == 16 * h4 + lo && h4 == 16 * h8 + hi
    ensures j == 16 * hi + lo
  {
    assert h8 == 0;
  }

  lemma DigitsSpellIndex(j: nat)
    requires j < BLOCK
    ensures j == Number(Digit(j, 7), Digit(j, 6), Digit(j, 5), Digit(j, 4),
                        Digit(j, 3), Digit(j, 2), Digit(j, 1), Digit(j, 0))
  {
    hide Digit, Nibble;
    HalvedFour(j, 0);
    HalvedFour(j, 4);
    TwoNibbles(j, Halved(j, 4), Halved(j, 8),
               Nibble(Digit(j, 3), Digit(j, 2), Digit(j, 1), Digit(j, 0)),
               Nibble(Digit(j, 7), Digit(j, 6), Digit(j, 5), Digit(j, 4)));
  }

  // -------------------------------------------------------------------------
  // The table computes column parities

  /** Whether column parity c covers bit i: CP(2k) and CP(2k+1) cover the bits whose number has
      0 and 1 as its binary digit k; column 6 stands for the parity of the whole byte. */
  predicate InColumn(c: nat, i: nat)
    requires c < 7 && i < 8
  {
    if c < 2 then i % 2 == c
    else if c < 4 then (i / 2) % 2 == c - 2
    else if c < 6 then i / 4 == c - 4
    else true
  }

  /** Parity of the bits of b below n that column c covers. */
  predicate ColumnBit(b: Byte, c: nat, n: nat := 8)
    requires c < 7 && n <= 8
    decreases n
  {
    if n == 0 then false
    else ColumnBit(b, c, n - 1) != (InColumn(c, n - 1) && Bit(b, n - 1))
  }

  lemma {:induction false} ColumnBitLinear(x: Byte, y: Byte, c: nat, n: nat := 8)
    requires c < 7 && n <= 8
    ensures ColumnBit(Xor(x, y), c, n) <==> ColumnBit(x, c, n) != ColumnBit(y, c, n)
  {
    hide Bit, InColumn, Xor;
    if n > 0 {
      XorBit(x, y, n - 1);
      ColumnBitLinear(x, y, c, n - 1);
    }
  }

  /** v when mask m of b is set, otherwise nothing. */
  function Pick(b: Byte, m: Byte, v: Byte): Byte {
    if b & m != 0 then v else 0
  }

  function ColumnSum(b: Byte): Byte {
    Pick(b, 0x01, 0x55) ^ Pick(b, 0x02, 0x56) ^ Pick(b, 0x04, 0x59) ^ Pick(b, 0x08, 0x5a)
    ^ Pick(b, 0x10, 0x65) ^ Pick(b, 0x20, 0x66) ^ Pick(b, 0x40, 0x69) ^ Pick(b, 0x80, 0x6a)
  }

  lemma PrecalcIsColumnSum(b: Byte)
    ensures Precalc(b) == ColumnSum(b)
  {
    if b < 128 {
      if b < 64 {} else {}
    } else {
      if b < 192 {} else {}
    }
  }

  lemma ColumnSumMasked(b: Byte)
    ensures ColumnSum(b) & 0x01 != 0 <==> ((b & 0x01 != 0) != (b & 0x04 != 0)) != ((b & 0x10 != 0) != (b & 0x40 != 0))
    ensures ColumnSum(b) & 0x02 != 0 <==> ((b & 0x02 != 0) != (b & 0x08 != 0)) != ((b & 0x20 != 0) != (b & 0x80 != 0))
    ensures ColumnSum(b) & 0x04 != 0 <==> ((b & 0x01 != 0) != (b & 0x02 != 0)) != ((b & 0x10 != 0) != (b & 0x20 != 0))
    ensures ColumnSum(b) & 0x08 != 0 <==> ((b & 0x04 != 0) != (b & 0x08 != 0)) != ((b & 0x40 != 0) != (b & 0x80 != 0))
    ensures ColumnSum(b) & 0x10 != 0 <==> ((b & 0x01 != 0) != (b & 0x02 != 0)) != ((b & 0x04 != 0) != (b & 0x08 != 0))
    ensures ColumnSum(b) & 0x20 != 0 <==> ((b & 0x10 != 0) != (b & 0x20 != 0)) != ((b & 0x40 != 0) != (b & 0x80 != 0))
    ensures ColumnSum(b) & 0x40 != 0 <==>
      ((((b & 0x01 != 0) != (b & 0x02 != 0)) != ((b & 0x04 != 0) != (b & 0x08 != 0)))
       != (((b & 0x10 != 0) != (b & 0x20 != 0)) != ((b & 0x40 != 0) != (b & 0x80 != 0))))
  {
  }

  lemma {:induction false} ColumnBitUnrolled(b: Byte, c: nat)
    requires c < 7
    ensures ColumnBit(b, c) <==>
      ((((((((InColumn(c, 0) && Bit(b, 0)) != (InColumn(c, 1) && Bit(b, 1)))
      != (InColumn(c, 2) && Bit(b, 2))) != (InColumn(c, 3) && Bit(b, 3)))
      != (InColumn(c, 4) && Bit(b, 4))) != (InColumn(c, 5) && Bit(b, 5)))
      != (InColumn(c, 6) && Bit(b, 6))) != (InColumn(c, 7) && Bit(b, 7)))
  {
    hide Bit, InColumn;
  }

  /** Table bit c of b is the parity of the bits of b that column c covers, for all 256 bytes. */
  lemma {:induction false} PrecalcIsParity(b: Byte, c: nat)
    requires c < 7
    ensures Bit(Precalc(b), c) <==> ColumnBit(b, c)
  {
    hide Precalc, ColumnSum, ColumnBit, Bit, Mask;
    PrecalcIsColumnSum(b);
    ColumnSumMasked(b);
    BitMasks(b);
    BitMasks(ColumnSum(b));
    ColumnBitUnrolled(b, c);
    if c == 0 {} else if c == 1 {} else if c == 2 {} else if c == 3 {}
    else if c == 4 {} else if c == 5 {} else {}
  }

  lemma {:induction false} ColumnOfMask(bit: nat, c: nat)
    requires bit < 8 && c < 7
    ensures ColumnBit(Mask(bit), c) <==> InColumn(c, bit)
  {
    hide ColumnBit, InColumn, Bit;
    forall i: nat | i < 8 ensures Bit(Mask(bit), i) <==> i == bit {
      MaskBit(bit, i);
    }
    ColumnBitUnrolled(Mask(bit), c);
  }

  lemma MaskBit(bit: nat, i: nat)
    requires bit < 8 && i < 8
    ensures Bit(Mask(bit), i) <==> i == bit
  {
  }

  // -------------------------------------------------------------------------
  // Parities of a block

  /** Parity of the bits of the block that column c covers; column 6 is the overall parity. */
  predicate ColumnParity(s: seq<Byte>, c: nat)
    requires c < 7
  {
    if s == [] then false
    else ColumnParity(s[..|s| - 1], c) != ColumnBit(s[|s| - 1], c)
  }

  /** Parity of the bits in the bytes whose index has binary digit i set. */
  predicate LineParity(s: seq<Byte>, i: nat)
    requires |s| <= BLOCK && i < 8
  {
    if s == [] then false
    else LineParity(s[..|s| - 1], i) != (ColumnBit(s[|s| - 1], 6) && Digit(|s| - 1, i))
  }

  function Flip(s: seq<Byte>, k: nat, bit: nat): (r: seq<Byte>)
    requires k < |s| && bit < 8
    ensures |r| == |s|
  {
    s[k := Xor(s[k], Mask(bit))]
  }

  lemma {:induction false} ColumnBitFlip(x: Byte, bit: nat, c: nat)
    requires bit < 8 && c < 7
    ensures ColumnBit(Xor(x, Mask(bit)), c) <==> ColumnBit(x, c) != InColumn(c, bit)
  {
    hide *;
    ColumnBitLinear(x, Mask(bit), c);
    ColumnOfMask(bit, c);
  }

  lemma {:induction false} ColumnParityFlip(s: seq<Byte>, k: nat, bit: nat, c: nat)
    requires k < |s| && bit < 8 && c < 7
    ensures ColumnParity(Flip(s, k, bit), c) <==> ColumnParity(s, c) != InColumn(c, bit)
  {
    hide ColumnBit, InColumn, Mask, Xor;
    var n := |s| - 1;
    if k == n {
      assert Flip(s, k, bit)[..n] == s[..n];
      ColumnBitFlip(s[n], bit, c);
    } else {
      assert Flip(s, k, bit)[..n] == Flip(s[..n], k, bit);
      ColumnParityFlip(s[..n], k, bit, c);
    }
  }

  lemma {:induction false} LineParityFlip(s: seq<Byte>, k: nat, bit: nat, i: nat)
    requires k < |s| <= BLOCK && bit < 8 && i < 8
    ensures LineParity(Flip(s, k, bit), i) <==> LineParity(s, i) != Digit(k, i)
  {
    hide ColumnBit, Mask, Digit, Xor;
    var n := |s| - 1;
    if k == n {
      assert Flip(s, k, bit)[..n] == s[..n];
      ColumnBitFlip(s[n], bit, 6);
    } else {
      assert Flip(s, k, bit)[..n] == Flip(s[..n], k, bit);
      LineParityFlip(s[..n], k, bit, i);
    }
  }
}
