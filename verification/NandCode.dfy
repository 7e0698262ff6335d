/** The 3-byte code of a 256-byte block and the decoder. */
module NandCode {
  import opened NandEcc

  type Ecc = e: seq<Byte> | |e| == 3 witness [0, 0, 0]

  /** Bit i of code byte p, as the driver lays the parities out: inverted line parities of index
      digits 7..4 and 3..0, each odd position paired with the complementary parity below it,
      then the inverted column parities, and two filler bits. */
  predicate CodeBit(s: seq<Byte>, p: nat, i: nat)
    requires |s| <= BLOCK && p < 3 && i < 8
  {
    if p == 2 then i < 2 || !ColumnParity(s, i - 2)
    else var line := LineParity(s, i / 2 + (if p == 0 then 4 else 0));
      if i % 2 == 1 then !line else line == ColumnParity(s, 6)
  }

  function CodeByte(s: seq<Byte>, p: nat): Byte
    requires |s| <= BLOCK && p < 3
  {
    FromBits(CodeBit(s, p, 7), CodeBit(s, p, 6), CodeBit(s, p, 5), CodeBit(s, p, 4),
             CodeBit(s, p, 3), CodeBit(s, p, 2), CodeBit(s, p, 1), CodeBit(s, p, 0))
  }

  function EccOf(s: seq<Byte>): Ecc
    requires |s| <= BLOCK
  {
    [CodeByte(s, 0), CodeByte(s, 1), CodeByte(s, 2)]
  }

  function XorEcc(a: Ecc, b: Ecc): Ecc {
    seq(3, p requires 0 <= p < 3 => Xor(a[p], b[p]))
  }

  lemma EccOfBit(s: seq<Byte>, p: nat, i: nat)
    requires |s| <= BLOCK && p < 3 && i < 8
    ensures At(EccOf(s), p, i) <==> CodeBit(s, p, i)
  {
    hide CodeBit, Bit, FromBits;
    FromBitsBit(CodeBit(s, p, 7), CodeBit(s, p, 6), CodeBit(s, p, 5), CodeBit(s, p, 4),
                CodeBit(s, p, 3), CodeBit(s, p, 2), CodeBit(s, p, 1), CodeBit(s, p, 0));
  }

  predicate At(e: Ecc, p: nat, i: nat)
    requires p < 3 && i < 8
  {
    Bit(e[p], i)
  }

  lemma XorEccBit(a: Ecc, b: Ecc, p: nat, i: nat)
    requires p < 3 && i < 8
    ensures At(XorEcc(a, b), p, i) <==> At(a, p, i) != At(b, p, i)
  {
    hide Bit, Xor;
    XorBit(a[p], b[p], i);
  }

  // -------------------------------------------------------------------------
  // Decoding a syndrome

  /** Number of set bits. */
  function OnesOf(b: Byte): nat {
    One(Bit(b, 0)) + One(Bit(b, 1)) + One(Bit(b, 2)) + One(Bit(b, 3))
    + One(Bit(b, 4)) + One(Bit(b, 5)) + One(Bit(b, 6)) + One(Bit(b, 7))
  }

  /** Number of set bits of syndrome byte p. */
  function Ones(d: Ecc, p: nat): (n: nat)
    requires p < 3
    ensures n == One(At(d, p, 0)) + One(At(d, p, 1)) + One(At(d, p, 2)) + One(At(d, p, 3))
                 + One(At(d, p, 4)) + One(At(d, p, 5)) + One(At(d, p, 6)) + One(At(d, p, 7))
  {
    OnesOf(d[p])
  }

  function Weight(d: Ecc): nat {
    Ones(d, 0) + Ones(d, 1) + Ones(d, 2)
  }

  predicate PairDiffers(d: Ecc, p: nat, n: nat)
    requires p < 3 && n < 4
  {
    At(d, p, 2 * n + 1) != At(d, p, 2 * n)
  }

  /** Every parity and its complementary partner disagree: the mark of one flipped data bit. */
  predicate AllPairsDiffer(d: Ecc) {
    && PairDiffers(d, 0, 0) && PairDiffers(d, 0, 1) && PairDiffers(d, 0, 2) && PairDiffers(d, 0, 3)
    && PairDiffers(d, 1, 0) && PairDiffers(d, 1, 1) && PairDiffers(d, 1, 2) && PairDiffers(d, 1, 3)
    && PairDiffers(d, 2, 1) && PairDiffers(d, 2, 2) && PairDiffers(d, 2, 3)
  }

  /** The byte index spelled by the odd line-parity bits of a syndrome. */
  function Address(d: Ecc): (k: nat)
    ensures k < BLOCK
  {
    Number(At(d, 0, 7), At(d, 0, 5), At(d, 0, 3), At(d, 0, 1), At(d, 1, 7), At(d, 1, 5), At(d, 1, 3), At(d, 1, 1))
  }

  function BitNumber(d: Ecc): (n: nat)
    ensures n < 8
  {
    4 * One(At(d, 2, 7)) + 2 * One(At(d, 2, 5)) + One(At(d, 2, 3))
  }

  datatype Verdict = Clean | DataBit(k: nat, bit: nat) | StoredBit | Uncorrectable

  function Classify(d: Ecc): (v: Verdict)
    ensures v.DataBit? ==> v.k < BLOCK && v.bit < 8
  {
    if d == [0, 0, 0] then Clean
    else if AllPairsDiffer(d) then DataBit(Address(d), BitNumber(d))
    else if Weight(d) == 1 then StoredBit
    else Uncorrectable
  }

  /** Whether flipping data bit (k, bit) flips code bit (p, i). */
  predicate Touches(k: nat, bit: nat, p: nat, i: nat)
    requires k < BLOCK && bit < 8 && p < 3 && i < 8
  {
    if p == 2 then i >= 2 && InColumn(i - 2, bit)
    else Digit(k, i / 2 + (if p == 0 then 4 else 0)) == (i % 2 == 1)
  }

  lemma CodeBitFlip(s: seq<Byte>, k: nat, bit: nat, p: nat, i: nat)
    requires k < |s| <= BLOCK && bit < 8 && p < 3 && i < 8
    ensures CodeBit(Flip(s, k, bit), p, i) <==> CodeBit(s, p, i) != Touches(k, bit, p, i)
  {
    hide Flip, ColumnParity, LineParity, Digit;
    if p == 2 {
      if i >= 2 { ColumnParityFlip(s, k, bit, i - 2); }
    } else {
      LineParityFlip(s, k, bit, i / 2 + (if p == 0 then 4 else 0));
      ColumnParityFlip(s, k, bit, 6);
    }
  }

  lemma AddressIs(d: Ecc, k: nat)
    requires k < BLOCK
    requires forall i {:trigger At(d, 0, i)} :: 0 <= i < 8 && i % 2 == 1 ==> (At(d, 0, i) <==> Digit(k, i / 2 + 4))
    requires forall i {:trigger At(d, 1, i)} :: 0 <= i < 8 && i % 2 == 1 ==> (At(d, 1, i) <==> Digit(k, i / 2))
    ensures Address(d) == k
  {
    hide At, Digit;
    DigitsSpellIndex(k);
  }

  lemma BitNumberIs(d: Ecc, bit: nat)
    requires bit < 8
    requires forall i {:trigger At(d, 2, i)} :: 2 <= i < 8 ==> (At(d, 2, i) <==> InColumn(i - 2, bit))
    ensures BitNumber(d) == bit
  {
    hide At;
  }

  /** The two bits of a pair, never both touched by a data bit and never both left alone. */
  lemma TouchesOneOfPair(k: nat, bit: nat, p: nat, n: nat)
    requires k < BLOCK && bit < 8 && p < 3 && n < 4 && (p == 2 ==> n > 0)
    ensures Touches(k, bit, p, 2 * n + 1) <==> !Touches(k, bit, p, 2 * n)
  {
    hide Digit;
  }

  /** The two bits of the last code byte that carry no parity. */
  predicate Filler(p: nat, i: nat) {
    p == 2 && i < 2
  }

  /** A syndrome that, filler bits aside, one data bit causes. */
  ghost predicate CausedBy(d: Ecc, k: nat, bit: nat)
    requires k < BLOCK && bit < 8
  {
    forall p, i :: 0 <= p < 3 && 0 <= i < 8 && !Filler(p, i) ==> (At(d, p, i) <==> Touches(k, bit, p, i))
  }

  lemma DataBitPairs(d: Ecc, k: nat, bit: nat)
    requires k < BLOCK && bit < 8 && CausedBy(d, k, bit)
    ensures AllPairsDiffer(d)
  {
    hide At, Touches;
    forall p: nat, n: nat | p < 3 && n < 4 && (p == 2 ==> n > 0)
      ensures PairDiffers(d, p, n)
    {
      TouchesOneOfPair(k, bit, p, n);
    }
  }

  lemma DataBitPlace(d: Ecc, k: nat, bit: nat)
    requires k < BLOCK && bit < 8 && CausedBy(d, k, bit)
    ensures Address(d) == k && BitNumber(d) == bit
  {
    hide At, Address, BitNumber;
    AddressIs(d, k);
    BitNumberIs(d, bit);
  }

  lemma ZeroHasNoBits(p: nat, i: nat)
    requires p < 3 && i < 8
    ensures !At([0, 0, 0], p, i)
  {
    hide Mask;
  }

  lemma NoBitsIsZero(d: Ecc)
    requires forall p, i :: 0 <= p < 3 && 0 <= i < 8 ==> !At(d, p, i)
    ensures d == [0, 0, 0]
  {
    hide Bit;
    forall p: nat | p < 3 ensures d[p] == 0 {
      forall i: nat | i < 8 ensures Bit(d[p], i) == Bit(0, i) {
        assert !At(d, p, i);
        ZeroHasNoBits(p, i);
      }
      EqualByBits(d[p], 0);
    }
  }

  lemma ClassifyDataBit(d: Ecc, k: nat, bit: nat)
    requires k < BLOCK && bit < 8 && CausedBy(d, k, bit)
    ensures Classify(d) == DataBit(k, bit)
  {
    hide At, Address, BitNumber;
    DataBitPairs(d, k, bit);
    DataBitPlace(d, k, bit);
    ZeroHasNoBits(0, 0);
    ZeroHasNoBits(0, 1);
  }

  ghost predicate PairsEqual(d: Ecc) {
    forall p: nat, n: nat :: p < 3 && n < 4 ==> !PairDiffers(d, p, n)
  }

  lemma EqualPairsAreEven(d: Ecc, p: nat)
    requires PairsEqual(d) && p < 3
    ensures Ones(d, p) % 2 == 0
  {
    hide At;
    assert !PairDiffers(d, p, 0) && !PairDiffers(d, p, 1) && !PairDiffers(d, p, 2) && !PairDiffers(d, p, 3);
    assert Ones(d, p) == 2 * (One(At(d, p, 0)) + One(At(d, p, 2)) + One(At(d, p, 4)) + One(At(d, p, 6)));
  }

  /** Bits that come in equal pairs: an even number of data bits, hence never corrected. */
  lemma ClassifyEven(d: Ecc)
    requires PairsEqual(d) && d != [0, 0, 0]
    ensures Classify(d) == Uncorrectable
  {
    hide At, Ones, PairDiffers, Address, BitNumber;
    assert !PairDiffers(d, 0, 0);
    EqualPairsAreEven(d, 0);
    EqualPairsAreEven(d, 1);
    EqualPairsAreEven(d, 2);
  }

  /** One bit of the stored code. */
  ghost predicate OnlyBit(d: Ecc, p0: nat, i0: nat)
    requires p0 < 3 && i0 < 8
  {
    forall p, i :: 0 <= p < 3 && 0 <= i < 8 ==> (At(d, p, i) <==> p == p0 && i == i0)
  }

  lemma ClassifyStoredBit(d: Ecc, p0: nat, i0: nat)
    requires p0 < 3 && i0 < 8 && OnlyBit(d, p0, i0)
    ensures Classify(d) == StoredBit
  {
    hide At;
    assert At(d, p0, i0);
    ZeroHasNoBits(p0, i0);
    assert !PairDiffers(d, 0, 0) || !PairDiffers(d, 0, 1);
    forall p: nat | p < 3 ensures Ones(d, p) == One(p == p0) {
      OnesOfOnlyBit(d, p0, i0, p);
    }
    assert Ones(d, 0) == One(0 == p0) && Ones(d, 1) == One(1 == p0) && Ones(d, 2) == One(2 == p0);
  }

  lemma OnesOfOnlyBit(d: Ecc, p0: nat, i0: nat, p: nat)
    requires p0 < 3 && i0 < 8 && p < 3 && OnlyBit(d, p0, i0)
    ensures Ones(d, p) == One(p == p0)
  {
    hide At;
  }

  /** Two bits of the stored code. */
  lemma ClassifyTwoStoredBits(d: Ecc, p0: nat, i0: nat, p1: nat, i1: nat)
    requires p0 < 3 && i0 < 8 && p1 < 3 && i1 < 8 && (p0 != p1 || i0 != i1)
    requires forall p, i :: 0 <= p < 3 && 0 <= i < 8 ==> (At(d, p, i) <==> (p == p0 && i == i0) != (p == p1 && i == i1))
    ensures Classify(d) == Uncorrectable
  {
    hide At, Address, BitNumber;
    assert At(d, p0, i0);
    ZeroHasNoBits(p0, i0);
    assert !PairDiffers(d, 0, 0) || !PairDiffers(d, 0, 1) || !PairDiffers(d, 0, 2);
    forall p: nat | p < 3 ensures Ones(d, p) == One(p == p0) + One(p == p1) {
      OnesOfTwoBits(d, p0, i0, p1, i1, p);
    }
    assert Ones(d, 0) == One(0 == p0) + One(0 == p1) && Ones(d, 1) == One(1 == p0) + One(1 == p1)
        && Ones(d, 2) == One(2 == p0) + One(2 == p1);
  }

  lemma OnesOfTwoBits(d: Ecc, p0: nat, i0: nat, p1: nat, i1: nat, p: nat)
    requires p0 < 3 && i0 < 8 && p1 < 3 && i1 < 8 && (p0 != p1 || i0 != i1) && p < 3
    requires forall p, i :: 0 <= p < 3 && 0 <= i < 8 ==> (At(d, p, i) <==> (p == p0 && i == i0) != (p == p1 && i == i1))
    ensures Ones(d, p) == One(p == p0) + One(p == p1)
  {
    hide At;
  }

  /** A data bit and a bit of the stored code. */
  ghost predicate CausedByBoth(d: Ecc, k: nat, bit: nat, p0: nat, i0: nat)
    requires k < BLOCK && bit < 8 && p0 < 3 && i0 < 8
  {
    forall p, i :: 0 <= p < 3 && 0 <= i < 8 ==> (At(d, p, i) <==> Touches(k, bit, p, i) != (p == p0 && i == i0))
  }

  lemma PairOfData(d: Ecc, k: nat, bit: nat, p0: nat, i0: nat, p: nat, n: nat)
    requires k < BLOCK && bit < 8 && p0 < 3 && i0 < 8 && p < 3 && n < 4 && (p == 2 ==> n > 0)
    requires CausedByBoth(d, k, bit, p0, i0)
    ensures PairDiffers(d, p, n) <==> p != p0 || n != i0 / 2
  {
    hide At, Touches;
    TouchesOneOfPair(k, bit, p, n);
  }

  lemma OnesOfDataPair(d: Ecc, k: nat, bit: nat, p0: nat, i0: nat, p: nat)
    requires k < BLOCK && bit < 8 && p0 < 3 && i0 < 8 && p < 2 && CausedByBoth(d, k, bit, p0, i0)
    ensures Ones(d, p) >= 3
  {
    hide At;
    PairOfData(d, k, bit, p0, i0, p, 0);
    PairOfData(d, k, bit, p0, i0, p, 1);
    PairOfData(d, k, bit, p0, i0, p, 2);
    PairOfData(d, k, bit, p0, i0, p, 3);
  }

  lemma ClassifyDataAndStored(d: Ecc, k: nat, bit: nat, p0: nat, i0: nat)
    requires k < BLOCK && bit < 8 && p0 < 3 && i0 < 8 && !Filler(p0, i0) && CausedByBoth(d, k, bit, p0, i0)
    ensures Classify(d) == Uncorrectable
  {
    hide At, Touches, Ones, Address, BitNumber;
    OnesOfDataPair(d, k, bit, p0, i0, 0);
    OnesOfDataPair(d, k, bit, p0, i0, 1);
    PairOfData(d, k, bit, p0, i0, p0, i0 / 2);
    assert !PairDiffers(d, p0, i0 / 2);
    if d == [0, 0, 0] {
      ZeroOnes(0);
    }
  }

  lemma ZeroOnes(p: nat)
    requires p < 3
    ensures Ones([0, 0, 0], p) == 0
  {
    hide At;
    ZeroHasNoBits(p, 0);
    ZeroHasNoBits(p, 1);
    ZeroHasNoBits(p, 2);
    ZeroHasNoBits(p, 3);
    ZeroHasNoBits(p, 4);
    ZeroHasNoBits(p, 5);
    ZeroHasNoBits(p, 6);
    ZeroHasNoBits(p, 7);
  }

  // -------------------------------------------------------------------------
  // nand_correct_data on words of data and stored code

  datatype Word = Word(data: seq<Byte>, stored: Ecc)

  datatype Outcome = Outcome(status: int, data: seq<Byte>, stored: Ecc)

  /** What nand_correct_data leaves behind, given the code it was handed and the one it was to match. */
  function Corrected(data: seq<Byte>, stored: Ecc, actual: Ecc): Outcome
    requires |data| == BLOCK
  {
    match Classify(XorEcc(actual, stored))
    case Clean => Outcome(0, data, stored)
    case DataBit(k, bit) => Outcome(1, Flip(data, k, bit), stored)
    case StoredBit => Outcome(2, data, actual)
    case Uncorrectable => Outcome(-1, data, stored)
  }

  /** Recompute the code of what was read, then correct. */
  function Decode(w: Word): Outcome
    requires |w.data| == BLOCK
  {
    Corrected(w.data, w.stored, EccOf(w.data))
  }

  function Encode(s: seq<Byte>): (w: Word)
    requires |s| == BLOCK
    ensures |w.data| == BLOCK
  {
    Word(s, EccOf(s))
  }

  datatype Error = InData(k: nat, bit: nat) | InStored(p: nat, i: nat) {
    predicate Valid() {
      match this
      case InData(k, bit) => k < BLOCK && bit < 8
      case InStored(p, i) => p < 3 && i < 8
    }
  }

  /** A word after one of its bits flipped. */
  function Hit(w: Word, e: Error): (r: Word)
    requires |w.data| == BLOCK && e.Valid()
    ensures |r.data| == BLOCK
  {
    match e
    case InData(k, bit) => w.(data := Flip(w.data, k, bit))
    case InStored(p, i) => w.(stored := w.stored[p := Xor(w.stored[p], Mask(i))])
  }

  function Syndrome(w: Word): Ecc
    requires |w.data| == BLOCK
  {
    XorEcc(EccOf(w.data), w.stored)
  }

  /** Whether an error changes syndrome bit (p, i). */
  predicate Changes(e: Error, p: nat, i: nat)
    requires e.Valid() && p < 3 && i < 8
  {
    match e
    case InData(k, bit) => Touches(k, bit, p, i)
    case InStored(p0, i0) => p == p0 && i == i0
  }

  lemma SyndromeBit(w: Word, p: nat, i: nat)
    requires |w.data| == BLOCK && p < 3 && i < 8
    ensures At(Syndrome(w), p, i) <==> CodeBit(w.data, p, i) != At(w.stored, p, i)
  {
    hide At, CodeBit, XorEcc;
    XorEccBit(EccOf(w.data), w.stored, p, i);
    EccOfBit(w.data, p, i);
  }

  lemma StoredFlipBit(e: Ecc, p0: nat, i0: nat, p: nat, i: nat)
    requires p0 < 3 && i0 < 8 && p < 3 && i < 8
    ensures At(e[p0 := Xor(e[p0], Mask(i0))], p, i) <==> At(e, p, i) != (p == p0 && i == i0)
  {
    hide Bit, Mask, Xor;
    if p == p0 {
      XorBit(e[p], Mask(i0), i);
      MaskBit(i0, i);
    }
  }

  /** Every error adds its own pattern to the syndrome. */
  lemma HitSyndrome(w: Word, e: Error, p: nat, i: nat)
    requires |w.data| == BLOCK && e.Valid() && p < 3 && i < 8
    ensures At(Syndrome(Hit(w, e)), p, i) <==> At(Syndrome(w), p, i) != Changes(e, p, i)
  {
    hide At, CodeBit, Syndrome, Flip, Mask, Touches;
    SyndromeBit(w, p, i);
    SyndromeBit(Hit(w, e), p, i);
    match e {
      case InData(k, bit) => CodeBitFlip(w.data, k, bit, p, i);
      case InStored(p0, i0) => StoredFlipBit(w.stored, p0, i0, p, i);
    }
  }

  lemma EncodedSyndrome(s: seq<Byte>, p: nat, i: nat)
    requires |s| == BLOCK && p < 3 && i < 8
    ensures !At(Syndrome(Encode(s)), p, i)
  {
    hide At, CodeBit, Syndrome;
    SyndromeBit(Encode(s), p, i);
    EccOfBit(s, p, i);
  }

  lemma FlipTwice(s: seq<Byte>, k: nat, bit: nat)
    requires k < |s| && bit < 8
    ensures Flip(Flip(s, k, bit), k, bit) == s
  {
    hide Mask;
    assert Xor(Xor(s[k], Mask(bit)), Mask(bit)) == s[k];
  }

  /** No error: status 0 and nothing changed. */
  lemma NoError(s: seq<Byte>)
    requires |s| == BLOCK
    ensures Decode(Encode(s)) == Outcome(0, s, EccOf(s))
  {
    hide At, Syndrome;
    forall p, i | 0 <= p < 3 && 0 <= i < 8 ensures !At(Syndrome(Encode(s)), p, i) {
      EncodedSyndrome(s, p, i);
    }
    NoBitsIsZero(Syndrome(Encode(s)));
  }

  /** Single error correction: one flipped bit anywhere in the 256 data bytes is restored with
      status 1; one flipped bit of the stored code leaves the data alone, repairs the code and
      gives status 2. */
  lemma OneError(s: seq<Byte>, e: Error)
    requires |s| == BLOCK && e.Valid()
    ensures Decode(Hit(Encode(s), e)).data == s
    ensures Decode(Hit(Encode(s), e)).status == if e.InData? then 1 else 2
    ensures Decode(Hit(Encode(s), e)).stored == EccOf(s)
  {
    var d := Syndrome(Hit(Encode(s), e));
    hide At, Syndrome, Touches, EccOf, Classify, Flip;
    forall p, i | 0 <= p < 3 && 0 <= i < 8 ensures At(d, p, i) <==> Changes(e, p, i) {
      HitSyndrome(Encode(s), e, p, i);
      EncodedSyndrome(s, p, i);
    }
    match e {
      case InData(k, bit) =>
        ClassifyDataBit(d, k, bit);
        FlipTwice(s, k, bit);
      case InStored(p0, i0) =>
        ClassifyStoredBit(d, p0, i0);
    }
  }

  lemma TwoErrorSyndrome(s: seq<Byte>, e: Error, f: Error, p: nat, i: nat)
    requires |s| == BLOCK && e.Valid() && f.Valid() && p < 3 && i < 8
    ensures At(Syndrome(Hit(Hit(Encode(s), e), f)), p, i) <==> Changes(e, p, i) != Changes(f, p, i)
  {
    hide At, Syndrome, Hit, Changes;
    EncodedSyndrome(s, p, i);
    HitSyndrome(Encode(s), e, p, i);
    HitSyndrome(Hit(Encode(s), e), f, p, i);
  }

  lemma SameDigits(k: nat, k': nat)
    requires k < BLOCK && k' < BLOCK && forall i :: 0 <= i < 8 ==> (Digit(k, i) <==> Digit(k', i))
    ensures k == k'
  {
    hide Digit, Number;
    DigitsSpellIndex(k);
    DigitsSpellIndex(k');
  }

  lemma SameColumns(bit: nat, bit': nat)
    requires bit < 8 && bit' < 8 && forall c :: 0 <= c < 6 ==> (InColumn(c, bit) <==> InColumn(c, bit'))
    ensures bit == bit'
  {
    assert InColumn(1, bit) == InColumn(1, bit') && InColumn(3, bit) == InColumn(3, bit')
        && InColumn(5, bit) == InColumn(5, bit');
  }

  /** Two data bits that touch the same code bits are the same bit. */
  lemma TouchesInjective(k: nat, bit: nat, k': nat, bit': nat)
    requires k < BLOCK && bit < 8 && k' < BLOCK && bit' < 8
    requires forall p, i :: 0 <= p < 3 && 0 <= i < 8 ==> (Touches(k, bit, p, i) <==> Touches(k', bit', p, i))
    ensures k == k' && bit == bit'
  {
    hide Digit, InColumn;
    forall i | 0 <= i < 8 ensures Digit(k, i) <==> Digit(k', i) {
      var p, n := if i < 4 then 1 else 0, if i < 4 then 2 * i + 1 else 2 * (i - 4) + 1;
      assert Touches(k, bit, p, n) <==> Touches(k', bit', p, n);
    }
    SameDigits(k, k');
    forall c | 0 <= c < 6 ensures InColumn(c, bit) <==> InColumn(c, bit') {
      assert Touches(k, bit, 2, c + 2) <==> Touches(k', bit', 2, c + 2);
    }
    SameColumns(bit, bit');
  }

  lemma TwoDataBits(d: Ecc, k: nat, bit: nat, k': nat, bit': nat)
    requires k < BLOCK && bit < 8 && k' < BLOCK && bit' < 8 && (k != k' || bit != bit')
    requires forall p, i :: 0 <= p < 3 && 0 <= i < 8 ==> (At(d, p, i) <==> Touches(k, bit, p, i) != Touches(k', bit', p, i))
    ensures Classify(d) == Uncorrectable
  {
    hide At, Touches, Classify;
    forall p: nat, n: nat | p < 3 && n < 4 ensures !PairDiffers(d, p, n) {
      if p == 2 && n == 0 {
        FillerUntouched(k, bit);
        FillerUntouched(k', bit');
      } else {
        TouchesOneOfPair(k, bit, p, n);
        TouchesOneOfPair(k', bit', p, n);
      }
    }
    if d == [0, 0, 0] {
      forall p, i | 0 <= p < 3 && 0 <= i < 8 ensures Touches(k, bit, p, i) <==> Touches(k', bit', p, i) {
        ZeroHasNoBits(p, i);
        assert !At(d, p, i);
      }
      TouchesInjective(k, bit, k', bit');
    }
    ClassifyEven(d);
  }

  lemma FillerUntouched(k: nat, bit: nat)
    requires k < BLOCK && bit < 8
    ensures !Touches(k, bit, 2, 0) && !Touches(k, bit, 2, 1)
  {
  }

  /** One error in the data and one in a code bit that carries no parity. */
  predicate Harmless(e: Error, f: Error) {
    || (e.InData? && f.InStored? && Filler(f.p, f.i))
    || (f.InData? && e.InStored? && Filler(e.p, e.i))
  }

  ghost predicate BothChange(d: Ecc, e: Error, f: Error)
    requires e.Valid() && f.Valid()
  {
    forall p, i :: 0 <= p < 3 && 0 <= i < 8 ==> (At(d, p, i) <==> Changes(e, p, i) != Changes(f, p, i))
  }

  lemma ClassifyMixed(d: Ecc, k: nat, bit: nat, p0: nat, i0: nat)
    requires k < BLOCK && bit < 8 && p0 < 3 && i0 < 8 && CausedByBoth(d, k, bit, p0, i0)
    ensures Classify(d) == if Filler(p0, i0) then DataBit(k, bit) else Uncorrectable
  {
    hide At, Touches, Classify;
    if Filler(p0, i0) {
      ClassifyDataBit(d, k, bit);
    } else {
      ClassifyDataAndStored(d, k, bit, p0, i0);
    }
  }

  lemma TwoErrorVerdict(d: Ecc, e: Error, f: Error)
    requires e.Valid() && f.Valid() && e != f && BothChange(d, e, f)
    ensures Classify(d) == if !Harmless(e, f) then Uncorrectable
                           else if e.InData? then DataBit(e.k, e.bit) else DataBit(f.k, f.bit)
  {
    hide At, Touches, Classify;
    match (e, f) {
      case (InData(k, bit), InData(k', bit')) => TwoDataBits(d, k, bit, k', bit');
      case (InData(k, bit), InStored(p, i)) => ClassifyMixed(d, k, bit, p, i);
      case (InStored(p, i), InData(k, bit)) => ClassifyMixed(d, k, bit, p, i);
      case (InStored(p, i), InStored(p', i')) => ClassifyTwoStoredBits(d, p, i, p', i');
    }
  }

  /** Double error detection: any two different flipped bits of data or code give status -1 and
      leave the data as read, except that an error in a filler bit does not keep a data error
      from being restored. */
  lemma TwoErrors(s: seq<Byte>, e: Error, f: Error)
    requires |s| == BLOCK && e.Valid() && f.Valid() && e != f
    ensures var w := Hit(Hit(Encode(s), e), f);
      if Harmless(e, f) then Decode(w).status == 1 && Decode(w).data == s
      else Decode(w) == Outcome(-1, w.data, w.stored)
  {
    var w := Hit(Hit(Encode(s), e), f);
    hide Classify, EccOf, Flip, XorEcc, At, Changes;
    forall p, i | 0 <= p < 3 && 0 <= i < 8
      ensures At(Syndrome(w), p, i) <==> Changes(e, p, i) != Changes(f, p, i)
    {
      TwoErrorSyndrome(s, e, f, p, i);
    }
    TwoErrorVerdict(Syndrome(w), e, f);
    if Harmless(e, f) {
      if e.InData? { FlipTwice(s, e.k, e.bit); } else { FlipTwice(s, f.k, f.bit); }
    }
  }

  // -------------------------------------------------------------------------
  // Exactly when the decoder changes the data

  /** Equal in every code bit that carries a parity. */
  ghost predicate SameCode(a: Ecc, b: Ecc) {
    forall p, i :: 0 <= p < 3 && 0 <= i < 8 && !Filler(p, i) ==> (At(a, p, i) <==> At(b, p, i))
  }

  /** A data bit explains a received word when flipping it makes the code match. */
  ghost predicate Explains(w: Word, k: nat, bit: nat)
    requires |w.data| == BLOCK && k < BLOCK && bit < 8
  {
    SameCode(EccOf(Flip(w.data, k, bit)), w.stored)
  }

  lemma ExplainsIsCause(w: Word, k: nat, bit: nat)
    requires |w.data| == BLOCK && k < BLOCK && bit < 8
    ensures Explains(w, k, bit) <==> CausedBy(Syndrome(w), k, bit)
  {
    var c := EccOf(Flip(w.data, k, bit));
    var d := Syndrome(w);
    hide At, Syndrome, Touches, EccOf, Flip, CodeBit;
    forall p, i | 0 <= p < 3 && 0 <= i < 8
      ensures (At(c, p, i) <==> At(w.stored, p, i)) <==> (At(d, p, i) <==> Touches(k, bit, p, i))
    {
      SyndromeBit(w, p, i);
      EccOfBit(Flip(w.data, k, bit), p, i);
      CodeBitFlip(w.data, k, bit, p, i);
    }
  }

  lemma NibbleInjective(a3: bool, a2: bool, a1: bool, a0: bool, b3: bool, b2: bool, b1: bool, b0: bool)
    requires Nibble(a3, a2, a1, a0) == Nibble(b3, b2, b1, b0)
    ensures a3 == b3 && a2 == b2 && a1 == b1 && a0 == b0
  {
  }

  lemma DigitsOfNumber(b7: bool, b6: bool, b5: bool, b4: bool, b3: bool, b2: bool, b1: bool, b0: bool)
    ensures var k := Number(b7, b6, b5, b4, b3, b2, b1, b0);
      && Digit(k, 7) == b7 && Digit(k, 6) == b6 && Digit(k, 5) == b5 && Digit(k, 4) == b4
      && Digit(k, 3) == b3 && Digit(k, 2) == b2 && Digit(k, 1) == b1 && Digit(k, 0) == b0
  {
    hide Digit, Nibble;
    var k := Number(b7, b6, b5, b4, b3, b2, b1, b0);
    DigitsSpellIndex(k);
    NibbleInjective(b7, b6, b5, b4, Digit(k, 7), Digit(k, 6), Digit(k, 5), Digit(k, 4));
    NibbleInjective(b3, b2, b1, b0, Digit(k, 3), Digit(k, 2), Digit(k, 1), Digit(k, 0));
  }

  lemma ColumnsOfBitNumber(d: Ecc)
    ensures InColumn(5, BitNumber(d)) == At(d, 2, 7) && InColumn(3, BitNumber(d)) == At(d, 2, 5)
         && InColumn(1, BitNumber(d)) == At(d, 2, 3)
  {
    hide At;
  }

  lemma OddBitsLocate(d: Ecc, p: nat, n: nat)
    requires p < 3 && n < 4 && (p == 2 ==> n > 0)
    ensures Touches(Address(d), BitNumber(d), p, 2 * n + 1) <==> At(d, p, 2 * n + 1)
  {
    hide Digit, At, BitNumber, InColumn, Number;
    DigitsOfNumber(At(d, 0, 7), At(d, 0, 5), At(d, 0, 3), At(d, 0, 1), At(d, 1, 7), At(d, 1, 5), At(d, 1, 3), At(d, 1, 1));
    ColumnsOfBitNumber(d);
  }

  /** Whenever all pairs differ, there is a data bit that causes exactly this syndrome. */
  lemma LocatedIsCause(d: Ecc)
    requires AllPairsDiffer(d)
    ensures CausedBy(d, Address(d), BitNumber(d))
  {
    var k, bit := Address(d), BitNumber(d);
    hide At, Touches, Address, BitNumber;
    forall p, i | 0 <= p < 3 && 0 <= i < 8 && !Filler(p, i) ensures At(d, p, i) <==> Touches(k, bit, p, i) {
      OddBitsLocate(d, p, i / 2);
      TouchesOneOfPair(k, bit, p, i / 2);
      assert PairDiffers(d, p, i / 2);
      if i % 2 == 1 { assert i == 2 * (i / 2) + 1; } else { assert i == 2 * (i / 2); }
    }
  }

  lemma ZeroSyndrome(w: Word)
    requires |w.data| == BLOCK
    ensures Syndrome(w) == [0, 0, 0] <==> w.stored == EccOf(w.data)
  {
    var a, b := EccOf(w.data), w.stored;
    hide EccOf, Xor;
    assert Syndrome(w)[0] == Xor(a[0], b[0]) && Syndrome(w)[1] == Xor(a[1], b[1]) && Syndrome(w)[2] == Xor(a[2], b[2]);
    XorZero(a[0], b[0]);
    XorZero(a[1], b[1]);
    XorZero(a[2], b[2]);
  }

  lemma XorZero(a: Byte, b: Byte)
    ensures Xor(a, b) == 0 <==> a == b
  {
  }

  lemma NoBit(j: nat)
    requires j < 8
    ensures !Bit(0, j)
  {
    hide Mask;
  }

  /** A byte without set bits is 0. */
  lemma NoOnes(b: Byte)
    requires OnesOf(b) == 0
    ensures b == 0
  {
    hide Bit;
    forall j | 0 <= j < 8 ensures Bit(b, j) <==> Bit(0, j) { NoBit(j); }
    EqualByBits(b, 0);
  }

  /** A byte with one set bit is its mask. */
  lemma SingleOne(b: Byte) returns (i: nat)
    requires OnesOf(b) == 1
    ensures i < 8 && b == Mask(i)
  {
    hide Bit, Mask;
    i := if Bit(b, 0) then 0 else if Bit(b, 1) then 1 else if Bit(b, 2) then 2 else if Bit(b, 3) then 3
         else if Bit(b, 4) then 4 else if Bit(b, 5) then 5 else if Bit(b, 6) then 6 else 7;
    forall j | 0 <= j < 8 ensures Bit(b, j) <==> Bit(Mask(i), j) { MaskBit(i, j); }
    EqualByBits(b, Mask(i));
  }

  lemma XorBack(a: Byte, b: Byte, m: Byte)
    requires Xor(a, b) == m
    ensures b == Xor(a, m)
  {
  }

  /** Two codes whose exclusive-or has one bit set differ in just that bit. */
  lemma LoneBit(a: Ecc, b: Ecc) returns (p: nat, i: nat)
    requires Weight(XorEcc(a, b)) == 1
    ensures p < 3 && i < 8 && b == a[p := Xor(a[p], Mask(i))]
  {
    var d := XorEcc(a, b);
    assert d[0] == Xor(a[0], b[0]) && d[1] == Xor(a[1], b[1]) && d[2] == Xor(a[2], b[2]);
    hide Xor, OnesOf, Mask, XorEcc, At;
    p := if Ones(d, 0) == 1 then 0 else if Ones(d, 1) == 1 then 1 else 2;
    i := SingleOne(d[p]);
    XorBack(a[p], b[p], d[p]);
    if p != 0 { SameByte(a[0], b[0]); }
    if p != 1 { SameByte(a[1], b[1]); }
    if p != 2 { SameByte(a[2], b[2]); }
  }

  lemma SameByte(a: Byte, b: Byte)
    requires OnesOf(Xor(a, b)) == 0
    ensures a == b
  {
    hide OnesOf, Xor;
    NoOnes(Xor(a, b));
    XorZero(a, b);
  }

  lemma HitStored(w: Word, p: nat, i: nat)
    requires |w.data| == BLOCK && p < 3 && i < 8 && w.stored == EccOf(w.data)[p := Xor(EccOf(w.data)[p], Mask(i))]
    ensures w == Hit(Encode(w.data), InStored(p, i))
  {
    hide EccOf, Xor, Mask;
  }

  /** What status 2 means: one flipped bit of the stored code, which is then put right. */
  lemma StoredExactly(w: Word)
    requires |w.data| == BLOCK
    ensures Decode(w).status == 2 <==> exists p, i :: 0 <= p < 3 && 0 <= i < 8 && w == Hit(Encode(w.data), InStored(p, i))
    ensures Decode(w).status == 2 ==> Decode(w).stored == EccOf(w.data)
  {
    hide EccOf, Weight, AllPairsDiffer, Address, BitNumber, Hit, Encode;
    if Decode(w).status == 2 {
      var p, i := LoneBit(EccOf(w.data), w.stored);
      HitStored(w, p, i);
    }
    forall p, i | 0 <= p < 3 && 0 <= i < 8 && w == Hit(Encode(w.data), InStored(p, i)) ensures Decode(w).status == 2 {
      OneError(w.data, InStored(p, i));
    }
  }

  /** The decoder on every received word, whatever happened to it: status 0 exactly when data and
      code agree, status 1 exactly when one flipped data bit explains the disagreement, and then
      that flip, and no other, is what it applies; status 2 exactly when the stored code is the
      computed one but for a single bit; and -1 otherwise. */
  lemma DecodesExactly(w: Word)
    requires |w.data| == BLOCK
    ensures Decode(w).status == 0 <==> w.stored == EccOf(w.data)
    ensures Decode(w).status == 1 <==> exists k, bit :: 0 <= k < BLOCK && 0 <= bit < 8 && Explains(w, k, bit)
    ensures forall k, bit :: 0 <= k < BLOCK && 0 <= bit < 8 && Explains(w, k, bit) ==>
              Decode(w) == Outcome(1, Flip(w.data, k, bit), w.stored)
    ensures Decode(w).status == 2 <==> exists p, i :: 0 <= p < 3 && 0 <= i < 8 && w == Hit(Encode(w.data), InStored(p, i))
    ensures Decode(w).status in {0, 1, 2, -1}
    ensures Decode(w).status != 1 ==> Decode(w).data == w.data
    ensures Decode(w).stored == if Decode(w).status == 2 then EccOf(w.data) else w.stored
  {
    var d := Syndrome(w);
    ZeroSyndrome(w);
    hide CausedBy, Explains, EccOf, Flip, AllPairsDiffer, Address, BitNumber, Hit, Encode, Weight;
    StoredExactly(w);
    forall k, bit | 0 <= k < BLOCK && 0 <= bit < 8 && Explains(w, k, bit)
      ensures Decode(w) == Outcome(1, Flip(w.data, k, bit), w.stored)
    {
      ExplainsIsCause(w, k, bit);
      ClassifyDataBit(d, k, bit);
    }
    if Decode(w).status == 1 {
      LocatedIsCause(d);
      ExplainsIsCause(w, Address(d), BitNumber(d));
    }
  }

  // -------------------------------------------------------------------------
  // The code is affine over exclusive-or

  function XorBlocks(s: seq<Byte>, t: seq<Byte>): (r: seq<Byte>)
    requires |s| == |t|
    ensures |r| == |s|
  {
    seq(|s|, j requires 0 <= j < |s| => Xor(s[j], t[j]))
  }

  lemma XorBlocksLast(s: seq<Byte>, t: seq<Byte>, n: nat)
    requires |s| == |t| == n + 1
    ensures XorBlocks(s, t)[..n] == XorBlocks(s[..n], t[..n])
    ensures XorBlocks(s, t)[n] == Xor(s[n], t[n])
  {
  }

  lemma {:induction false} ColumnParityLinear(s: seq<Byte>, t: seq<Byte>, c: nat)
    requires |s| == |t| && c < 7
    ensures ColumnParity(XorBlocks(s, t), c) <==> ColumnParity(s, c) != ColumnParity(t, c)
  {
    hide ColumnBit, XorBlocks, Xor;
    if s != [] {
      var n := |s| - 1;
      XorBlocksLast(s, t, n);
      ColumnParityLinear(s[..n], t[..n], c);
      ColumnBitLinear(s[n], t[n], c);
    }
  }

  lemma {:induction false} LineParityLinear(s: seq<Byte>, t: seq<Byte>, i: nat)
    requires |s| == |t| <= BLOCK && i < 8
    ensures LineParity(XorBlocks(s, t), i) <==> LineParity(s, i) != LineParity(t, i)
  {
    hide ColumnBit, Digit, XorBlocks, Xor;
    if s != [] {
      var n := |s| - 1;
      XorBlocksLast(s, t, n);
      LineParityLinear(s[..n], t[..n], i);
      ColumnBitLinear(s[n], t[n], 6);
    }
  }

  /** The code of an exclusive-or is the exclusive-or of the codes, inverted. */
  lemma EccAffine(s: seq<Byte>, t: seq<Byte>, p: nat, i: nat)
    requires |s| == |t| == BLOCK && p < 3 && i < 8
    ensures At(EccOf(XorBlocks(s, t)), p, i) <==> At(EccOf(s), p, i) == At(EccOf(t), p, i)
  {
    hide At, EccOf, ColumnParity, LineParity, XorBlocks;
    EccOfBit(s, p, i);
    EccOfBit(t, p, i);
    EccOfBit(XorBlocks(s, t), p, i);
    if p == 2 {
      if i >= 2 { ColumnParityLinear(s, t, i - 2); }
    } else {
      ColumnParityLinear(s, t, 6);
      LineParityLinear(s, t, i / 2 + (if p == 0 then 4 else 0));
    }
  }

  lemma {:induction false} ErasedParities(n: nat, c: nat, i: nat)
    requires n <= BLOCK && c < 7 && i < 8
    ensures !ColumnParity(seq(n, _ => 0xff), c) && !LineParity(seq(n, _ => 0xff), i)
  {
    if n > 0 {
      var s: seq<Byte> := seq(n, _ => 0xff);
      assert s[..n - 1] == seq(n - 1, _ => 0xff);
      ErasedParities(n - 1, c, i);
      ErasedByte(c);
      ErasedByte(6);
    }
  }

  lemma {:induction false} ErasedByte(c: nat)
    requires c < 7
    ensures !ColumnBit(0xff, c)
  {
    BitMasks(0xff);
    hide ColumnBit, Bit;
    ColumnBitUnrolled(0xff, c);
  }

  /** An erased block, all bytes 0xff, has the erased code 0xff 0xff 0xff. */
  lemma ErasedBlock()
    ensures EccOf(seq(BLOCK, _ => 0xff)) == [0xff, 0xff, 0xff]
  {
    var s: seq<Byte> := seq(BLOCK, _ => 0xff);
    forall p: nat | p < 3 ensures EccOf(s)[p] == 0xff {
      forall i: nat | i < 8 ensures Bit(EccOf(s)[p], i) <==> Bit(0xff, i) {
        EccOfBit(s, p, i);
        if p == 2 {
          if i >= 2 { ErasedParities(BLOCK, i - 2, 0); }
        } else {
          ErasedParities(BLOCK, 6, i / 2 + (if p == 0 then 4 else 0));
        }
        BitMasks(0xff);
      }
      EqualByBits(EccOf(s)[p], 0xff);
    }
  }
}
