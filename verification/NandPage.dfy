/** A 512-byte NAND page with its 16 out-of-band bytes: what the driver programs into it and what
    it makes of what it reads back. */
module NandPage {
  import opened NandEcc
  import opened NandCode

  const OOBBLOCK := 512
  const OOBSIZE := 16
  const RAW := OOBBLOCK + OOBSIZE

  /** Where the driver keeps its bytes in the out-of-band area; -1 switches the last two off. */
  datatype OobConfig = OobConfig(eccPos: seq<nat>, badblockPos: int, eccvalidPos: int)

  ghost predicate ValidConfig(c: OobConfig) {
    && |c.eccPos| == 6
    && (forall i :: 0 <= i < 6 ==> c.eccPos[i] < OOBSIZE && c.eccPos[i] != c.badblockPos && c.eccPos[i] != c.eccvalidPos)
    && (forall i, j :: 0 <= i < j < 6 ==> c.eccPos[i] != c.eccPos[j])
    && -1 <= c.badblockPos < OOBSIZE && -1 <= c.eccvalidPos < OOBSIZE
    && (c.badblockPos != -1 ==> c.badblockPos != c.eccvalidPos)
  }

  type Raw = r: seq<Byte> | |r| == RAW witness seq(RAW, _ => 0xff)

  /** n erased bytes. */
  function Erased(n: nat): (r: seq<Byte>)
    ensures |r| == n && forall i :: 0 <= i < n ==> r[i] == 0xff
  {
    seq(n, _ => 0xff)
  }

  function And(a: Byte, b: Byte): Byte {
    a & b
  }

  // -------------------------------------------------------------------------
  // Writing

  /** The out-of-band area with three code bytes stored at the positions of one half. */
  function PutCode(c: OobConfig, oob: seq<Byte>, h: nat, e: Ecc): (r: seq<Byte>)
    requires ValidConfig(c) && |oob| == OOBSIZE && h < 2
    ensures |r| == OOBSIZE
  {
    oob[c.eccPos[3 * h] := e[0]][c.eccPos[3 * h + 1] := e[1]][c.eccPos[3 * h + 2] := e[2]]
  }

  function PutValid(c: OobConfig, oob: seq<Byte>, v: Byte): (r: seq<Byte>)
    requires ValidConfig(c) && |oob| == OOBSIZE
    ensures |r| == OOBSIZE
  {
    if c.eccvalidPos == -1 then oob else oob[c.eccvalidPos := v]
  }

  /** The out-of-band area after the first half's code, if enough data was given for it. */
  function FirstOob(c: OobConfig, d: seq<Byte>, last: nat): (r: seq<Byte>)
    requires ValidConfig(c) && |d| == OOBBLOCK
    ensures |r| == OOBSIZE
  {
    if last < BLOCK then Erased(OOBSIZE)
    else PutValid(c, PutCode(c, Erased(OOBSIZE), 0, EccOf(d[..BLOCK])), 0xf0)
  }

  function OobOf(c: OobConfig, d: seq<Byte>, last: nat): (r: seq<Byte>)
    requires ValidConfig(c) && |d| == OOBBLOCK
    ensures |r| == OOBSIZE
  {
    var oob := FirstOob(c, d, last);
    if last != OOBBLOCK then oob
    else
      var oob' := PutCode(c, oob, 1, EccOf(d[BLOCK..]));
      if c.eccvalidPos == -1 then oob' else oob'[c.eccvalidPos := And(oob'[c.eccvalidPos], 0x0f)]
  }

  /** What nand_write_page sends to the chip for a page-aligned write of the first last bytes of d. */
  function PageImage(c: OobConfig, d: seq<Byte>, last: nat): (r: Raw)
    requires ValidConfig(c) && |d| == OOBBLOCK && 0 < last <= OOBBLOCK
  {
    d[..last] + Erased(OOBBLOCK - last) + OobOf(c, d, last)
  }

  /** Programming can only clear bits. */
  function Program(cell: Raw, image: Raw): (r: Raw) {
    seq(RAW, i requires 0 <= i < RAW => And(cell[i], image[i]))
  }

  lemma AndErased(b: Byte)
    ensures And(0xff, b) == b && And(b, 0xff) == b
  {
  }

  lemma ProgramErased(image: Raw)
    ensures Program(Erased(RAW), image) == image
  {
    hide And;
    forall i | 0 <= i < RAW ensures Program(Erased(RAW), image)[i] == image[i] {
      AndErased(image[i]);
    }
  }

  // -------------------------------------------------------------------------
  // Reading

  /** Half h of a raw page: 256 data bytes and the three code bytes stored for them. */
  function HalfWord(c: OobConfig, r: Raw, h: nat): (w: Word)
    requires ValidConfig(c) && h < 2
    ensures |w.data| == BLOCK
  {
    Word(r[BLOCK * h..BLOCK * (h + 1)],
         [r[OOBBLOCK + c.eccPos[3 * h]], r[OOBBLOCK + c.eccPos[3 * h + 1]], r[OOBBLOCK + c.eccPos[3 * h + 2]]])
  }

  /** Whether the half was written with a code: its nibble of the valid marker was cleared. */
  predicate HasCode(c: OobConfig, r: Raw, h: nat)
    requires ValidConfig(c) && h < 2
  {
    c.eccvalidPos != -1 && MarksHalf(r[OOBBLOCK + c.eccvalidPos], h)
  }

  predicate MarksHalf(v: Byte, h: nat) {
    if h == 0 then And(v, 0x0f) != 0x0f else And(v, 0xf0) != 0xf0
  }

  function ReadHalf(c: OobConfig, r: Raw, h: nat): (o: Outcome)
    requires ValidConfig(c) && h < 2
    ensures |o.data| == BLOCK
  {
    var w := HalfWord(c, r, h);
    if HasCode(c, r, h) then Decode(w) else Outcome(0, w.data, w.stored)
  }

  /** The data nand_read_ecc delivers for a page. */
  function PageData(c: OobConfig, r: Raw): (d: seq<Byte>)
    requires ValidConfig(c)
    ensures |d| == OOBBLOCK
  {
    ReadHalf(c, r, 0).data + ReadHalf(c, r, 1).data
  }

  /** Whether both halves are readable. */
  predicate PageReadable(c: OobConfig, r: Raw)
    requires ValidConfig(c)
  {
    ReadHalf(c, r, 0).status != -1 && ReadHalf(c, r, 1).status != -1
  }

  // -------------------------------------------------------------------------
  // Round trip through a chip that flips bits

  /** One half of a page after at most one of its data or code bits flipped. */
  ghost predicate HalfDisturbed(before: Word, after: Word)
    requires |before.data| == BLOCK
  {
    after == before || exists e: Error :: e.Valid() && after == Hit(before, e)
  }

  /** A page after at most one flipped bit per half, its valid marker intact. */
  ghost predicate Disturbed(c: OobConfig, before: Raw, after: Raw)
    requires ValidConfig(c)
  {
    && (forall h :: 0 <= h < 2 ==> HalfDisturbed(HalfWord(c, before, h), HalfWord(c, after, h)))
    && (c.eccvalidPos != -1 ==> after[OOBBLOCK + c.eccvalidPos] == before[OOBBLOCK + c.eccvalidPos])
  }

  lemma PutCodeHolds(c: OobConfig, oob: seq<Byte>, h: nat, e: Ecc)
    requires ValidConfig(c) && |oob| == OOBSIZE && h < 2
    ensures var r := PutCode(c, oob, h, e);
      && r[c.eccPos[3 * h]] == e[0] && r[c.eccPos[3 * h + 1]] == e[1] && r[c.eccPos[3 * h + 2]] == e[2]
      && forall i :: 0 <= i < OOBSIZE && i != c.eccPos[3 * h] && i != c.eccPos[3 * h + 1] && i != c.eccPos[3 * h + 2]
           ==> r[i] == oob[i]
  {
  }

  lemma CodesOfFullPage(c: OobConfig, d: seq<Byte>)
    requires ValidConfig(c) && |d| == OOBBLOCK
    ensures var r, e0, e1 := OobOf(c, d, OOBBLOCK), EccOf(d[..BLOCK]), EccOf(d[BLOCK..]);
      && r[c.eccPos[0]] == e0[0] && r[c.eccPos[1]] == e0[1] && r[c.eccPos[2]] == e0[2]
      && r[c.eccPos[3]] == e1[0] && r[c.eccPos[4]] == e1[1] && r[c.eccPos[5]] == e1[2]
      && (c.eccvalidPos != -1 ==> r[c.eccvalidPos] == And(0xf0, 0x0f))
      && (c.badblockPos != -1 ==> r[c.badblockPos] == 0xff)
  {
    var e0, e1 := EccOf(d[..BLOCK]), EccOf(d[BLOCK..]);
    hide And, EccOf, PutCode;
    PutCodeHolds(c, Erased(OOBSIZE), 0, e0);
    PutCodeHolds(c, FirstOob(c, d, OOBBLOCK), 1, e1);
  }

  /** The out-of-band area of a full write: both codes, the marker with both nibbles cleared, and
      every other byte, the bad-block marker among them, erased. */
  lemma OobOfFullPage(c: OobConfig, d: seq<Byte>)
    requires ValidConfig(c) && |d| == OOBBLOCK
    ensures var r, e0, e1 := OobOf(c, d, OOBBLOCK), EccOf(d[..BLOCK]), EccOf(d[BLOCK..]);
      && r[c.eccPos[0]] == e0[0] && r[c.eccPos[1]] == e0[1] && r[c.eccPos[2]] == e0[2]
      && r[c.eccPos[3]] == e1[0] && r[c.eccPos[4]] == e1[1] && r[c.eccPos[5]] == e1[2]
      && (c.eccvalidPos != -1 ==> r[c.eccvalidPos] == And(0xf0, 0x0f))
      && forall i :: 0 <= i < OOBSIZE && i !in c.eccPos && i != c.eccvalidPos ==> r[i] == 0xff
  {
    hide And, EccOf, PutCode;
    var e0, e1 := EccOf(d[..BLOCK]), EccOf(d[BLOCK..]);
    CodesOfFullPage(c, d);
    PutCodeHolds(c, Erased(OOBSIZE), 0, e0);
    PutCodeHolds(c, FirstOob(c, d, OOBBLOCK), 1, e1);
  }

  /** A fully written page holds, for each half, its data with the matching code, and its marker
      says so. */
  lemma ImageIsEncoded(c: OobConfig, d: seq<Byte>, h: nat)
    requires ValidConfig(c) && |d| == OOBBLOCK && h < 2
    ensures HalfWord(c, PageImage(c, d, OOBBLOCK), h) == Encode(d[BLOCK * h..BLOCK * (h + 1)])
    ensures HasCode(c, PageImage(c, d, OOBBLOCK), h) <==> c.eccvalidPos != -1
  {
    hide EccOf, And, MarksHalf, OobOf;
    CodesOfFullPage(c, d);
    assert d[..BLOCK] == d[BLOCK * 0..BLOCK * 1];
    assert d[BLOCK..] == d[BLOCK * 1..BLOCK * 2];
    assert PageImage(c, d, OOBBLOCK)[BLOCK * h..BLOCK * (h + 1)] == d[BLOCK * h..BLOCK * (h + 1)];
    ValidMarker(h);
  }

  lemma ValidMarker(h: nat)
    requires h < 2
    ensures MarksHalf(And(0xf0, 0x0f), h)
  {
  }

  lemma DisturbedHalf(s: seq<Byte>, w: Word)
    requires |s| == BLOCK && HalfDisturbed(Encode(s), w)
    ensures |w.data| == BLOCK && Decode(w).data == s && Decode(w).status != -1
  {
    hide Decode, Hit;
    if w == Encode(s) {
      NoError(s);
    } else {
      var e: Error :| e.Valid() && w == Hit(Encode(s), e);
      OneError(s, e);
    }
  }

  /** A written page survives one flipped bit in each half: it reads back as written, readable. */
  lemma PageRoundTrip(c: OobConfig, d: seq<Byte>, after: Raw)
    requires ValidConfig(c) && c.eccvalidPos != -1 && |d| == OOBBLOCK
    requires Disturbed(c, PageImage(c, d, OOBBLOCK), after)
    ensures PageReadable(c, after) && PageData(c, after) == d
  {
    hide PageImage, HalfWord, Decode, EccOf, MarksHalf;
    forall h: nat | h < 2
      ensures ReadHalf(c, after, h).status != -1 && ReadHalf(c, after, h).data == d[BLOCK * h..BLOCK * (h + 1)]
    {
      ImageIsEncoded(c, d, h);
      DisturbedHalf(d[BLOCK * h..BLOCK * (h + 1)], HalfWord(c, after, h));
    }
    assert d == d[BLOCK * 0..BLOCK * 1] + d[BLOCK * 1..BLOCK * 2];
  }

  // -------------------------------------------------------------------------
  // Pages written in part

  /** Of a page of which the first half was written, but not all of the second, the first half is a code
      word, and the marker claims a code for that half alone. */
  lemma PartIsEncoded(c: OobConfig, d: seq<Byte>, last: nat)
    requires ValidConfig(c) && |d| == OOBBLOCK && BLOCK <= last < OOBBLOCK
    ensures var image := PageImage(c, d, last);
      && HalfWord(c, image, 0) == Encode(d[..BLOCK])
      && (c.eccvalidPos != -1 ==> image[OOBBLOCK + c.eccvalidPos] == 0xf0)
      && image[BLOCK..OOBBLOCK] == d[BLOCK..last] + Erased(OOBBLOCK - last)
  {
    hide EccOf, PutCode;
    PutCodeHolds(c, Erased(OOBSIZE), 0, EccOf(d[..BLOCK]));
    assert PageImage(c, d, last)[BLOCK * 0..BLOCK * 1] == d[..BLOCK];
  }

  /** What the nibbles of the marker claim. */
  lemma MarkerClaims()
    ensures MarksHalf(0xf0, 0) && !MarksHalf(0xf0, 1) && !MarksHalf(0xff, 0) && !MarksHalf(0xff, 1)
  {
  }

  /** The first half, after at most one flipped bit in it, reads back as written; the second half is handed
      out as it is, unchecked, and does not make the page unreadable. */
  lemma PartRoundTrip(c: OobConfig, d: seq<Byte>, last: nat, after: Raw)
    requires ValidConfig(c) && c.eccvalidPos != -1 && |d| == OOBBLOCK && BLOCK <= last < OOBBLOCK
    requires HalfDisturbed(HalfWord(c, PageImage(c, d, last), 0), HalfWord(c, after, 0))
    requires after[OOBBLOCK + c.eccvalidPos] == PageImage(c, d, last)[OOBBLOCK + c.eccvalidPos]
    ensures PageReadable(c, after) && PageData(c, after) == d[..BLOCK] + after[BLOCK..OOBBLOCK]
  {
    hide PageImage, Decode, EccOf, MarksHalf, HalfDisturbed;
    PartIsEncoded(c, d, last);
    MarkerClaims();
    DisturbedHalf(d[..BLOCK], HalfWord(c, after, 0));
    assert after[BLOCK * 1..BLOCK * 2] == after[BLOCK..OOBBLOCK];
  }

  /** A page of which less than a half was written is handed out as it is. */
  lemma ShortUnchecked(c: OobConfig, d: seq<Byte>, last: nat, after: Raw)
    requires ValidConfig(c) && |d| == OOBBLOCK && 0 < last < BLOCK
    requires c.eccvalidPos != -1 ==> after[OOBBLOCK + c.eccvalidPos] == PageImage(c, d, last)[OOBBLOCK + c.eccvalidPos]
    ensures PageReadable(c, after) && PageData(c, after) == after[..OOBBLOCK]
  {
    hide Decode, EccOf, MarksHalf;
    MarkerClaims();
    assert after[..OOBBLOCK] == after[BLOCK * 0..BLOCK * 1] + after[BLOCK * 1..BLOCK * 2];
  }
}
