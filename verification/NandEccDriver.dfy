/** The ECC routines of the driver, working in place on its buffers. */
module NandEccDriver {
  import opened NandEcc
  import opened NandCode

  // The three mask operations of the loops, named so that proofs can keep them folded.

  predicate Test(reg: Byte, mask: Byte) {
    reg & mask != 0
  }

  function Set(t: Byte, mask: Byte): Byte {
    t | mask
  }

  function Shift(mask: Byte): Byte {
    mask >> 1
  }

  lemma OrMasked(a: Byte, m: Byte, n: Byte)
    requires m & (m - 1) == 0 && n & (n - 1) == 0 && m != 0 && n != 0
    ensures (a | m) & n != 0 <==> a & n != 0 || m == n
  {
  }

  lemma MasksDiffer(p: nat, q: nat)
    requires p < 8 && q < 8
    ensures Mask(p) != 0 && (Mask(p) == Mask(q) ==> p == q)
  {
  }

  lemma SetBit(t: Byte, p: nat, q: nat)
    requires p < 8 && q < 8
    ensures Bit(Set(t, Mask(p)), q) <==> p == q || Bit(t, q)
  {
    MasksDiffer(p, q);
    MasksDiffer(q, p);
    hide Mask;
    MaskIsSingle(p);
    MaskIsSingle(q);
    OrMasked(t, Mask(p), Mask(q));
  }

  lemma ShiftMask(p: nat)
    requires p < 8
    ensures p > 0 ==> Shift(Mask(p)) == Mask(p - 1)
  {
  }

  lemma TestMask(b: Byte, i: nat)
    requires i < 8
    ensures Test(b, Mask(i)) <==> Bit(b, i)
  {
    hide Mask;
  }

  lemma ZeroBit(q: nat)
    requires q < 8
    ensures !Bit(0, q)
  {
    hide Mask;
  }

  /** Bit q of the interleaving of the upper (base 4) or lower (base 0) halves of reg3 and reg2. */
  predicate Interleaved(reg2: Byte, reg3: Byte, base: nat, q: nat)
    requires base <= 4 && q < 8
  {
    Bit(if q % 2 == 1 then reg3 else reg2, base + q / 2)
  }

  /** t holds the top n bits of the interleaving. */
  ghost predicate Spread(t: Byte, n: nat, reg2: Byte, reg3: Byte, base: nat)
    requires n <= 8 && base <= 4
  {
    forall q :: 0 <= q < 8 ==> (Bit(t, q) <==> q >= 8 - n && Interleaved(reg2, reg3, base, q))
  }

  lemma SpreadStart(reg2: Byte, reg3: Byte, base: nat)
    requires base <= 4
    ensures Spread(0, 0, reg2, reg3, base)
  {
    hide Bit;
    forall q | 0 <= q < 8 ensures !Bit(0, q) { ZeroBit(q); }
  }

  lemma SpreadStep(t: Byte, n: nat, reg2: Byte, reg3: Byte, base: nat)
    requires n < 8 && base <= 4 && Spread(t, n, reg2, reg3, base)
    ensures Spread(if Interleaved(reg2, reg3, base, 7 - n) then Set(t, Mask(7 - n)) else t, n + 1, reg2, reg3, base)
  {
    hide Bit, Mask, Set, Interleaved;
    forall q | 0 <= q < 8 ensures Bit(Set(t, Mask(7 - n)), q) <==> 7 - n == q || Bit(t, q) {
      SetBit(t, 7 - n, q);
    }
  }

  /** Testing one register bit and or-ing it in extends the interleaving by one bit. */
  lemma PutBit(t: Byte, n: nat, reg: Byte, reg2: Byte, reg3: Byte, base: nat)
    requires n < 8 && base <= 4 && Spread(t, n, reg2, reg3, base)
    requires reg == if n % 2 == 0 then reg3 else reg2
    ensures Spread(if Test(reg, Mask(base + (7 - n) / 2)) then Set(t, Mask(7 - n)) else t, n + 1, reg2, reg3, base)
  {
    hide Bit, Mask, Spread, Set, Test;
    SpreadStep(t, n, reg2, reg3, base);
    TestMask(reg, base + (7 - n) / 2);
  }

  lemma TopMask()
    ensures Mask(7) == 0x80
  {
  }

  method TransResult(reg2: Byte, reg3: Byte, ecc: array<Byte>, at: nat)
    requires at + 3 <= ecc.Length
    modifies ecc
    ensures Spread(ecc[at], 8, reg2, reg3, 4) && Spread(ecc[at + 1], 8, reg2, reg3, 0)
    ensures forall j :: 0 <= j < ecc.Length && j != at && j != at + 1 ==> ecc[j] == old(ecc[j])
  {
    TopMask();
    hide Bit, Mask, Spread, Set, Test, Shift;
    var a: Byte, b: Byte := 0x80, 0x80;
    var tmp1: Byte, tmp2: Byte := 0, 0;
    SpreadStart(reg2, reg3, 4);
    SpreadStart(reg2, reg3, 0);
    var i := 0;
    while i < 4
      invariant 0 <= i <= 4
      invariant a == Mask(7 - i) && (i < 4 ==> b == Mask(7 - 2 * i))
      invariant Spread(tmp1, 2 * i, reg2, reg3, 4)
      modifies {}
    {
      PutBit(tmp1, 2 * i, reg3, reg2, reg3, 4);
      if Test(reg3, a) { tmp1 := Set(tmp1, b); }
      ShiftMask(7 - 2 * i);
      b := Shift(b);
      PutBit(tmp1, 2 * i + 1, reg2, reg2, reg3, 4);
      if Test(reg2, a) { tmp1 := Set(tmp1, b); }
      ShiftMask(6 - 2 * i);
      b := Shift(b);
      ShiftMask(7 - i);
      a := Shift(a);
      i := i + 1;
    }
    b := 0x80;
    i := 0;
    while i < 4
      invariant 0 <= i <= 4
      invariant i < 4 ==> a == Mask(3 - i) && b == Mask(7 - 2 * i)
      invariant Spread(tmp2, 2 * i, reg2, reg3, 0)
      modifies {}
    {
      PutBit(tmp2, 2 * i, reg3, reg2, reg3, 0);
      if Test(reg3, a) { tmp2 := Set(tmp2, b); }
      ShiftMask(7 - 2 * i);
      b := Shift(b);
      PutBit(tmp2, 2 * i + 1, reg2, reg2, reg3, 0);
      if Test(reg2, a) { tmp2 := Set(tmp2, b); }
      ShiftMask(6 - 2 * i);
      b := Shift(b);
      ShiftMask(3 - i);
      a := Shift(a);
      i := i + 1;
    }
    ecc[at] := tmp1;
    ecc[at + 1] := tmp2;
    assert ecc[at] == tmp1 && ecc[at + 1] == tmp2;
  }

  // -------------------------------------------------------------------------
  // nand_calculate_ecc

  function Inverse(a: Byte): Byte {
    !a
  }

  /** ((~reg1) << 2) | 0x03 */
  function LastByte(reg1: Byte): Byte {
    ((!reg1) << 2) | 0x03
  }

  lemma InverseBit(a: Byte, i: nat)
    requires i < 8
    ensures Bit(Inverse(a), i) <==> !Bit(a, i)
  {
    BitMasks(a);
    BitMasks(Inverse(a));
    hide Bit, Mask;
    if i == 0 {} else if i == 1 {} else if i == 2 {} else if i == 3 {}
    else if i == 4 {} else if i == 5 {} else if i == 6 {} else {}
  }

  lemma LastByteMasked(a: Byte)
    ensures LastByte(a) & 0x01 != 0 && LastByte(a) & 0x02 != 0
    ensures LastByte(a) & 0x04 != 0 <==> a & 0x01 == 0
    ensures LastByte(a) & 0x08 != 0 <==> a & 0x02 == 0
    ensures LastByte(a) & 0x10 != 0 <==> a & 0x04 == 0
    ensures LastByte(a) & 0x20 != 0 <==> a & 0x08 == 0
    ensures LastByte(a) & 0x40 != 0 <==> a & 0x10 == 0
    ensures LastByte(a) & 0x80 != 0 <==> a & 0x20 == 0
  {
  }

  lemma LastByteBit(a: Byte, i: nat)
    requires i < 8
    ensures Bit(LastByte(a), i) <==> i < 2 || !Bit(a, i - 2)
  {
    hide Bit, LastByte;
    LastByteMasked(a);
    BitMasks(a);
    BitMasks(LastByte(a));
    if i == 0 {} else if i == 1 {} else if i == 2 {} else if i == 3 {}
    else if i == 4 {} else if i == 5 {} else if i == 6 {} else {}
  }

  ghost predicate HoldsColumns(reg1: Byte, s: seq<Byte>) {
    forall c :: 0 <= c < 7 ==> (Bit(reg1, c) <==> ColumnParity(s, c))
  }

  ghost predicate HoldsLines(reg3: Byte, s: seq<Byte>)
    requires |s| <= BLOCK
  {
    forall i :: 0 <= i < 8 ==> (Bit(reg3, i) <==> LineParity(s, i))
  }

  /** Table bit 6 says whether the byte is odd. */
  lemma AllBitsSummed(idx: Byte)
    ensures Test(idx, 0x40) <==> Bit(idx, 6)
  {
    BitMasks(idx);
  }

  lemma RegistersStart()
    ensures HoldsColumns(0, []) && HoldsLines(0, [])
  {
    hide Bit;
    forall c | 0 <= c < 8 ensures !Bit(0, c) { ZeroBit(c); }
  }

  lemma ColumnsStep(reg1: Byte, s: seq<Byte>, b: Byte)
    requires HoldsColumns(reg1, s)
    ensures HoldsColumns(Xor(reg1, Precalc(b)), s + [b])
  {
    hide Bit, Precalc, ColumnBit, Xor;
    assert (s + [b])[..|s|] == s;
    forall c | 0 <= c < 7 ensures Bit(Xor(reg1, Precalc(b)), c) <==> ColumnParity(s + [b], c) {
      XorBit(reg1, Precalc(b), c);
      PrecalcIsParity(b, c);
    }
  }

  lemma LinesStep(reg3: Byte, s: seq<Byte>, b: Byte)
    requires |s| < BLOCK && HoldsLines(reg3, s)
    ensures HoldsLines(if Test(Precalc(b), 0x40) then Xor(reg3, ByteOf(|s|)) else reg3, s + [b])
  {
    hide Bit, Precalc, ColumnBit, Digit, ByteOf, Xor, Test;
    assert (s + [b])[..|s|] == s;
    PrecalcIsParity(b, 6);
    AllBitsSummed(Precalc(b));
    forall i | 0 <= i < 8 ensures LineParity(s + [b], i) <==> LineParity(s, i) != (Bit(Precalc(b), 6) && Digit(|s|, i)) {
    }
    forall i | 0 <= i < 8 ensures Bit(Xor(reg3, ByteOf(|s|)), i) <==> Bit(reg3, i) != Digit(|s|, i) {
      XorBit(reg3, ByteOf(|s|), i);
      ByteOfBit(|s|, i);
    }
  }

  /** The register the even line-parity bits come from. */
  function Complemented(reg1: Byte, reg3: Byte): Byte {
    if Test(reg1, 0x40) then Inverse(reg3) else reg3
  }

  lemma LineBytesAreCode(reg1: Byte, reg3: Byte, t: Byte, s: seq<Byte>, p: nat)
    requires |s| == BLOCK && p < 2 && HoldsColumns(reg1, s) && HoldsLines(reg3, s)
    requires Spread(t, 8, Complemented(reg1, reg3), reg3, if p == 0 then 4 else 0)
    ensures Inverse(t) == EccOf(s)[p]
  {
    hide Bit, Inverse, Test, EccOf, ColumnParity, LineParity;
    AllBitsSummed(reg1);
    forall i | 0 <= i < 8 ensures Bit(Inverse(t), i) <==> Bit(EccOf(s)[p], i) {
      var line := i / 2 + (if p == 0 then 4 else 0);
      InverseBit(t, i);
      InverseBit(reg3, line);
      EccOfBit(s, p, i);
      assert Interleaved(Complemented(reg1, reg3), reg3, if p == 0 then 4 else 0, i)
        <==> Bit(if i % 2 == 1 then reg3 else Complemented(reg1, reg3), line);
      assert Bit(reg1, 6) <==> ColumnParity(s, 6);
      assert Bit(reg3, line) <==> LineParity(s, line);
    }
    EqualByBits(Inverse(t), EccOf(s)[p]);
  }

  lemma LastByteIsCode(reg1: Byte, s: seq<Byte>)
    requires |s| == BLOCK && HoldsColumns(reg1, s)
    ensures LastByte(reg1) == EccOf(s)[2]
  {
    hide Bit, LastByte, EccOf, ColumnParity;
    forall i | 0 <= i < 8 ensures Bit(LastByte(reg1), i) <==> Bit(EccOf(s)[2], i) {
      LastByteBit(reg1, i);
      EccOfBit(s, 2, i);
      if i >= 2 { assert Bit(reg1, i - 2) <==> ColumnParity(s, i - 2); }
    }
    EqualByBits(LastByte(reg1), EccOf(s)[2]);
  }

  method CalculateEcc(dat: array<Byte>, off: nat, ecc: array<Byte>, at: nat)
    requires dat != ecc && off + BLOCK <= dat.Length && at + 3 <= ecc.Length
    modifies ecc
    ensures ecc[at..at + 3] == EccOf(dat[off..off + BLOCK])
    ensures ecc[..at] == old(ecc[..at]) && ecc[at + 3..] == old(ecc[at + 3..])
  {
    hide Bit, Precalc, Xor, Test, ByteOf, Inverse, LastByte, HoldsColumns, HoldsLines, Spread, EccOf;
    ghost var s := dat[off..off + BLOCK];
    var reg1: Byte, reg3: Byte := 0, 0;
    ecc[at], ecc[at + 1], ecc[at + 2] := 0, 0, 0;
    RegistersStart();
    assert s[..0] == [];
    for j := 0 to BLOCK
      invariant HoldsColumns(reg1, s[..j]) && HoldsLines(reg3, s[..j])
      modifies {}
    {
      assert s[..j + 1] == s[..j] + [dat[off + j]];
      var idx := Precalc(dat[off + j]);
      ColumnsStep(reg1, s[..j], dat[off + j]);
      LinesStep(reg3, s[..j], dat[off + j]);
      reg1 := Xor(reg1, idx);
      if Test(idx, 0x40) {
        reg3 := Xor(reg3, ByteOf(j));
      }
    }
    assert s[..BLOCK] == s;
    TransResult(Complemented(reg1, reg3), reg3, ecc, at);
    LineBytesAreCode(reg1, reg3, ecc[at], s, 0);
    LineBytesAreCode(reg1, reg3, ecc[at + 1], s, 1);
    LastByteIsCode(reg1, s);
    ecc[at] := Inverse(ecc[at]);
    ecc[at + 1] := Inverse(ecc[at + 1]);
    ecc[at + 2] := LastByte(reg1);
  }

  // -------------------------------------------------------------------------
  // nand_correct_data

  /** (d ^ (d >> 1)) & mask: the even positions in which a bit and its upper neighbour differ. */
  function PairMask(d: Byte, mask: Byte): Byte {
    (d ^ (d >> 1)) & mask
  }

  lemma PairMasksRaw(d: Byte)
    ensures PairMask(d, 0x55) == 0x55 <==>
      (d & 0x02 != 0) != (d & 0x01 != 0) && (d & 0x08 != 0) != (d & 0x04 != 0)
      && (d & 0x20 != 0) != (d & 0x10 != 0) && (d & 0x80 != 0) != (d & 0x40 != 0)
    ensures PairMask(d, 0x54) == 0x54 <==>
      (d & 0x08 != 0) != (d & 0x04 != 0)
      && (d & 0x20 != 0) != (d & 0x10 != 0) && (d & 0x80 != 0) != (d & 0x40 != 0)
  {
  }

  lemma PairMasksBits(d: Byte)
    ensures PairMask(d, 0x55) == 0x55 <==>
      Bit(d, 1) != Bit(d, 0) && Bit(d, 3) != Bit(d, 2) && Bit(d, 5) != Bit(d, 4) && Bit(d, 7) != Bit(d, 6)
    ensures PairMask(d, 0x54) == 0x54 <==>
      Bit(d, 3) != Bit(d, 2) && Bit(d, 5) != Bit(d, 4) && Bit(d, 7) != Bit(d, 6)
  {
    hide Bit, PairMask;
    PairMasksRaw(d);
    BitMasks(d);
  }

  lemma PairMasks(d: Ecc)
    ensures AllPairsDiffer(d) <==>
      PairMask(d[0], 0x55) == 0x55 && PairMask(d[1], 0x55) == 0x55 && PairMask(d[2], 0x54) == 0x54
  {
    hide Bit, PairMask;
    PairMasksBits(d[0]);
    PairMasksBits(d[1]);
    PairMasksBits(d[2]);
  }

  predicate NoneSet(d1: Byte, d2: Byte, d3: Byte) {
    (d1 | d2) | d3 == 0
  }

  lemma NoneSetIsZero(d: Ecc)
    ensures NoneSet(d[0], d[1], d[2]) <==> d == [0, 0, 0]
  {
    OrZero(d[0], d[1], d[2]);
  }

  lemma OrZero(a: Byte, b: Byte, c: Byte)
    ensures NoneSet(a, b, c) <==> a == 0 && b == 0 && c == 0
  {
  }

  /** c >>= 2 */
  function Shift2(mask: Byte): Byte {
    mask >> 2
  }

  lemma Shift2Mask(p: nat)
    requires p < 8
    ensures p > 1 ==> Shift2(Mask(p)) == Mask(p - 2)
  {
  }

  /** Bit q of the byte address that a syndrome spells. */
  predicate AddressBit(d: Ecc, q: nat)
    requires q < 8
  {
    if q >= 4 then At(d, 0, 2 * (q - 4) + 1) else At(d, 1, 2 * q + 1)
  }

  /** add holds the top n bits of the address. */
  ghost predicate HoldsAddress(add: Byte, n: nat, d: Ecc)
    requires n <= 8
  {
    forall q :: 0 <= q < 8 ==> (Bit(add, q) <==> q >= 8 - n && AddressBit(d, q))
  }

  /** What or-ing in one mask does to every bit. */
  lemma SetBits(t: Byte, p: nat, yes: bool, u: Byte)
    requires p < 8 && u == if yes then Set(t, Mask(p)) else t
    ensures forall q :: 0 <= q < 8 ==> (Bit(u, q) <==> (yes && p == q) || Bit(t, q))
  {
    hide Bit, Mask, Set;
    if yes {
      forall q | 0 <= q < 8 ensures Bit(u, q) <==> p == q || Bit(t, q) {
        SetBit(t, p, q);
      }
    }
  }

  lemma AddressStep(add: Byte, p: nat, i: nat, d: Ecc)
    requires p < 2 && i < 4 && HoldsAddress(add, 4 * p + i, d)
    ensures HoldsAddress(if Test(d[p], Mask(7 - 2 * i)) then Set(add, Mask(7 - 4 * p - i)) else add, 4 * p + i + 1, d)
  {
    hide Bit, Mask, Set, Test;
    var r, yes := 7 - 4 * p - i, Test(d[p], Mask(7 - 2 * i));
    TestMask(d[p], 7 - 2 * i);
    assert AddressBit(d, r) <==> yes;
    SetBits(add, r, yes, if yes then Set(add, Mask(r)) else add);
  }

  lemma AddressStart(d: Ecc)
    ensures HoldsAddress(0, 0, d)
  {
    hide Bit;
    forall q | 0 <= q < 8 ensures !Bit(0, q) { ZeroBit(q); }
  }

  lemma AddressDone(add: Byte, d: Ecc)
    requires HoldsAddress(add, 8, d)
    ensures IndexOf(add) == Address(d)
  {
    hide Bit;
    assert Bit(add, 7) == AddressBit(d, 7) && Bit(add, 6) == AddressBit(d, 6) && Bit(add, 5) == AddressBit(d, 5);
    assert Bit(add, 4) == AddressBit(d, 4) && Bit(add, 3) == AddressBit(d, 3) && Bit(add, 2) == AddressBit(d, 2);
    assert Bit(add, 1) == AddressBit(d, 1) && Bit(add, 0) == AddressBit(d, 0);
  }

  /** Bit q of the bit number that a syndrome spells. */
  predicate NumberBit(d: Ecc, q: nat)
    requires q < 3
  {
    At(d, 2, 2 * q + 3)
  }

  /** bit holds the top n of its three bits. */
  ghost predicate HoldsNumber(bit: Byte, n: nat, d: Ecc)
    requires n <= 3
  {
    forall q :: 0 <= q < 8 ==> (Bit(bit, q) <==> 3 - n <= q < 3 && NumberBit(d, q))
  }

  lemma NumberStart(d: Ecc)
    ensures HoldsNumber(0, 0, d)
  {
    hide Bit;
    forall q | 0 <= q < 8 ensures !Bit(0, q) { ZeroBit(q); }
  }

  lemma NumberStep(bit: Byte, n: nat, d: Ecc)
    requires n < 3 && HoldsNumber(bit, n, d)
    ensures HoldsNumber(if Test(d[2], Mask(7 - 2 * n)) then Set(bit, Mask(2 - n)) else bit, n + 1, d)
  {
    hide Bit, Mask, Set, Test;
    var r, yes := 2 - n, Test(d[2], Mask(7 - 2 * n));
    TestMask(d[2], 7 - 2 * n);
    assert 2 * r + 3 == 7 - 2 * n;
    assert NumberBit(d, r) <==> yes;
    SetBits(bit, r, yes, if yes then Set(bit, Mask(r)) else bit);
  }

  /** 1 << bit */
  function OneShifted(bit: Byte): Byte
    requires bit < 8
  {
    1 << bit
  }

  lemma SmallByte(bit: Byte, n: nat)
    requires n < 8 && bit == [0, 1, 2, 3, 4, 5, 6, 7][n]
    ensures bit < 8 && OneShifted(bit) == Mask(n)
  {
  }

  lemma ThreeBits(bit: Byte, b2: bool, b1: bool, b0: bool)
    requires bit & 0x80 == 0 && bit & 0x40 == 0 && bit & 0x20 == 0 && bit & 0x10 == 0 && bit & 0x08 == 0
    requires (bit & 0x04 != 0 <==> b2) && (bit & 0x02 != 0 <==> b1) && (bit & 0x01 != 0 <==> b0)
    ensures bit == if b2 then (if b1 then (if b0 then 7 else 6) else (if b0 then 5 else 4))
                   else (if b1 then (if b0 then 3 else 2) else (if b0 then 1 else 0))
  {
  }

  lemma NumberDone(bit: Byte, d: Ecc)
    requires HoldsNumber(bit, 3, d)
    ensures bit < 8 && OneShifted(bit) == Mask(BitNumber(d))
  {
    hide Bit, Mask, OneShifted;
    BitMasks(bit);
    assert !Bit(bit, 7) && !Bit(bit, 6) && !Bit(bit, 5) && !Bit(bit, 4) && !Bit(bit, 3);
    assert Bit(bit, 2) == NumberBit(d, 2) && Bit(bit, 1) == NumberBit(d, 1) && Bit(bit, 0) == NumberBit(d, 0);
    ThreeBits(bit, At(d, 2, 7), At(d, 2, 5), At(d, 2, 3));
    SmallByte(bit, BitNumber(d));
  }

  lemma NumberHalves(b7: bool, b6: bool, b5: bool, b4: bool, b3: bool, b2: bool, b1: bool, b0: bool)
    ensures Number(b7, b6, b5, b4, b3, b2, b1, b0) == 2 * Number(false, b7, b6, b5, b4, b3, b2, b1) + One(b0)
  {
  }

  lemma IndexZero(d: Byte)
    requires IndexOf(d) == 0
    ensures d == 0
  {
    hide Bit;
    forall i | 0 <= i < 8 ensures Bit(d, i) <==> Bit(0, i) { ZeroBit(i); }
    EqualByBits(d, 0);
  }

  lemma ShiftedOnes(d: Byte)
    ensures OnesOf(d) == One(Test(d, 0x01)) + OnesOf(Shift(d))
  {
    hide Bit, Shift, Test;
    ShiftedBits(d);
  }

  lemma ShiftedIndex(d: Byte)
    ensures IndexOf(d) == 2 * IndexOf(Shift(d)) + One(Bit(d, 0))
  {
    hide Bit, Shift, Test, Number;
    ShiftedBits(d);
    NumberHalves(Bit(d, 7), Bit(d, 6), Bit(d, 5), Bit(d, 4), Bit(d, 3), Bit(d, 2), Bit(d, 1), Bit(d, 0));
  }

  lemma ShiftedByte(d: Byte)
    ensures OnesOf(d) == One(Test(d, 0x01)) + OnesOf(Shift(d))
    ensures d != 0 ==> IndexOf(Shift(d)) < IndexOf(d)
  {
    hide Bit, Shift, Test, IndexOf, OnesOf;
    ShiftedOnes(d);
    ShiftedIndex(d);
    if IndexOf(d) == 0 { IndexZero(d); }
  }

  lemma ShiftedMasked(d: Byte)
    ensures Shift(d) & 0x80 == 0 && (Shift(d) & 0x40 != 0 <==> d & 0x80 != 0) && (Shift(d) & 0x20 != 0 <==> d & 0x40 != 0)
    ensures (Shift(d) & 0x10 != 0 <==> d & 0x20 != 0) && (Shift(d) & 0x08 != 0 <==> d & 0x10 != 0)
    ensures (Shift(d) & 0x04 != 0 <==> d & 0x08 != 0) && (Shift(d) & 0x02 != 0 <==> d & 0x04 != 0)
    ensures Shift(d) & 0x01 != 0 <==> d & 0x02 != 0
  {
  }

  lemma ShiftedBits(d: Byte)
    ensures !Bit(Shift(d), 7) && Bit(Shift(d), 6) == Bit(d, 7) && Bit(Shift(d), 5) == Bit(d, 6)
    ensures Bit(Shift(d), 4) == Bit(d, 5) && Bit(Shift(d), 3) == Bit(d, 4) && Bit(Shift(d), 2) == Bit(d, 3)
    ensures Bit(Shift(d), 1) == Bit(d, 2) && Bit(Shift(d), 0) == Bit(d, 1) && Bit(d, 0) == Test(d, 0x01)
  {
    hide Bit, Shift;
    ShiftedMasked(d);
    BitMasks(d);
    BitMasks(Shift(d));
  }

  method CountOnes(d0: Byte) returns (i: nat)
    ensures i == OnesOf(d0)
  {
    hide Bit, Shift, Test, OnesOf, IndexOf;
    var d := d0;
    i := 0;
    while d != 0
      invariant i + OnesOf(d) == OnesOf(d0)
      decreases IndexOf(d)
    {
      ShiftedByte(d);
      if Test(d, 0x01) {
        i := i + 1;
      }
      d := Shift(d);
    }
    ZeroOnesOf();
  }

  lemma ZeroOnesOf()
    ensures OnesOf(0) == 0
  {
    hide Bit;
    forall i | 0 <= i < 8 ensures !Bit(0, i) { ZeroBit(i); }
  }

  /** Steps the address loops take: four bits from d1, then four from d2. */
  method ReadAddress(d1: Byte, d2: Byte, d3: Byte) returns (add: Byte)
    ensures IndexOf(add) == Address([d1, d2, d3])
  {
    TopMask();
    hide Bit, Mask, Set, Test, Shift, Shift2, HoldsAddress, IndexOf, Address;
    ghost var d: Ecc := [d1, d2, d3];
    add := 0;
    AddressStart(d);
    var a: Byte, c: Byte := 0x80, 0x80;
    for i := 0 to 4
      invariant a == Mask(7 - i) && (i < 4 ==> c == Mask(7 - 2 * i)) && HoldsAddress(add, i, d)
    {
      AddressStep(add, 0, i, d);
      if Test(d1, c) { add := Set(add, a); }
      Shift2Mask(7 - 2 * i);
      c := Shift2(c);
      ShiftMask(7 - i);
      a := Shift(a);
    }
    c := 0x80;
    for i := 0 to 4
      invariant (i < 4 ==> a == Mask(3 - i) && c == Mask(7 - 2 * i)) && HoldsAddress(add, 4 + i, d)
    {
      AddressStep(add, 1, i, d);
      if Test(d2, c) { add := Set(add, a); }
      Shift2Mask(7 - 2 * i);
      c := Shift2(c);
      ShiftMask(3 - i);
      a := Shift(a);
    }
    AddressDone(add, d);
  }

  lemma LowMask()
    ensures Mask(2) == 0x04
  {
  }

  method ReadBitNumber(d1: Byte, d2: Byte, d3: Byte) returns (bit: Byte)
    ensures bit < 8 && OneShifted(bit) == Mask(BitNumber([d1, d2, d3]))
  {
    TopMask();
    LowMask();
    hide Bit, Mask, Set, Test, Shift, Shift2, HoldsNumber, OneShifted, BitNumber;
    ghost var d: Ecc := [d1, d2, d3];
    bit := 0;
    NumberStart(d);
    var b: Byte, c: Byte := 0x04, 0x80;
    for i := 0 to 3
      invariant (i < 3 ==> b == Mask(2 - i) && c == Mask(7 - 2 * i)) && HoldsNumber(bit, i, d)
    {
      NumberStep(bit, i, d);
      if Test(d3, c) { bit := Set(bit, b); }
      Shift2Mask(7 - 2 * i);
      c := Shift2(c);
      ShiftMask(2 - i);
      b := Shift(b);
    }
    NumberDone(bit, d);
  }

  /** The verdict on a syndrome, in the terms the loops compute. */
  lemma ClassifyMasks(d: Ecc)
    ensures Classify(d) ==
      if NoneSet(d[0], d[1], d[2]) then Clean
      else if PairMask(d[0], 0x55) == 0x55 && PairMask(d[1], 0x55) == 0x55 && PairMask(d[2], 0x54) == 0x54 then
        DataBit(Address(d), BitNumber(d))
      else if OnesOf(d[0]) + OnesOf(d[1]) + OnesOf(d[2]) == 1 then StoredBit
      else Uncorrectable
  {
    hide Bit, PairMask, NoneSet, AllPairsDiffer, Address, BitNumber, OnesOf;
    NoneSetIsZero(d);
    PairMasks(d);
  }

  /** The error detection on the three difference bytes: status, and for status 1 where to flip. */
  method Diagnose(d1: Byte, d2: Byte, d3: Byte) returns (status: int, add: Byte, bit: Byte)
    ensures bit < 8
    ensures match Classify([d1, d2, d3])
      case Clean => status == 0
      case DataBit(k, n) => status == 1 && IndexOf(add) == k && OneShifted(bit) == Mask(n)
      case StoredBit => status == 2
      case Uncorrectable => status == -1
  {
    hide Mask, PairMask, NoneSet, OneShifted, Classify, Address, BitNumber, OnesOf, IndexOf;
    ClassifyMasks([d1, d2, d3]);
    add, bit := 0, 0;
    if NoneSet(d1, d2, d3) {
      status := 0;
    } else if PairMask(d1, 0x55) == 0x55 && PairMask(d2, 0x55) == 0x55 && PairMask(d3, 0x54) == 0x54 {
      add := ReadAddress(d1, d2, d3);
      bit := ReadBitNumber(d1, d2, d3);
      status := 1;
    } else {
      var i1 := CountOnes(d1);
      var i2 := CountOnes(d2);
      var i3 := CountOnes(d3);
      status := if i1 + i2 + i3 == 1 then 2 else -1;
    }
  }

  lemma SyndromeBytes(c: Ecc, r: Ecc)
    ensures XorEcc(c, r) == [Xor(c[0], r[0]), Xor(c[1], r[1]), Xor(c[2], r[2])]
  {
    hide Xor;
  }

  /** Flips one bit of one byte of a block in place. */
  method FlipInPlace(dat: array<Byte>, off: nat, add: Byte, bit: Byte)
    requires off + BLOCK <= dat.Length && bit < 8
    modifies dat
    ensures dat[off..off + BLOCK]
         == old(dat[off..off + BLOCK])[IndexOf(add) := Xor(old(dat[off..off + BLOCK])[IndexOf(add)], OneShifted(bit))]
    ensures dat[..off] == old(dat[..off]) && dat[off + BLOCK..] == old(dat[off + BLOCK..])
  {
    hide Xor, IndexOf, OneShifted;
    dat[off + IndexOf(add)] := Xor(dat[off + IndexOf(add)], OneShifted(bit));
  }

  method CorrectData(dat: array<Byte>, off: nat, readEcc: array<Byte>, at: nat, calcEcc: array<Byte>, from: nat)
    returns (status: int)
    requires dat != readEcc && dat != calcEcc && readEcc != calcEcc
    requires off + BLOCK <= dat.Length && at + 3 <= readEcc.Length && from + 3 <= calcEcc.Length
    modifies dat, readEcc
    ensures var o := Corrected(old(dat[off..off + BLOCK]), old(readEcc[at..at + 3]), calcEcc[from..from + 3]);
      status == o.status && dat[off..off + BLOCK] == o.data && readEcc[at..at + 3] == o.stored
    ensures dat[..off] == old(dat[..off]) && dat[off + BLOCK..] == old(dat[off + BLOCK..])
    ensures readEcc[..at] == old(readEcc[..at]) && readEcc[at + 3..] == old(readEcc[at + 3..])
  {
    hide Mask, Xor, OneShifted, Classify, IndexOf, XorEcc;
    SyndromeBytes(calcEcc[from..from + 3], readEcc[at..at + 3]);
    var add, bit;
    status, add, bit := Diagnose(Xor(calcEcc[from], readEcc[at]), Xor(calcEcc[from + 1], readEcc[at + 1]),
                                 Xor(calcEcc[from + 2], readEcc[at + 2]));
    if status == 1 {
      FlipInPlace(dat, off, add, bit);
    } else if status == 2 {
      readEcc[at], readEcc[at + 1], readEcc[at + 2] := calcEcc[from], calcEcc[from + 1], calcEcc[from + 2];
    }
  }
}
