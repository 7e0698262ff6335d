/** The NAND driver on an array-backed chip: page buffer, page program and read, and nand_rw. */
module NandDevice {
  import opened Slices
  import opened NandEcc
  import opened NandCode
  import opened NandEccDriver
  import opened NandPage
  import opened NandWalk
  import opened Division

  /** The chip after pages k, k + 1, .. of a run of n were written from data. */
  ghost function WriteFrom(c: OobConfig, f: Flash, page: nat, n: nat, data: seq<Byte>, k: nat): Flash
    requires ValidConfig(c) && k <= n && |data| == OOBBLOCK * n
  {
    WriteAll(c, f, Run(page + k, n - k), data[OOBBLOCK * k..])
  }

  lemma WriteOneMore(c: OobConfig, f: Flash, page: nat, n: nat, data: seq<Byte>, k: nat)
    requires ValidConfig(c) && k < n && |data| == OOBBLOCK * n
    ensures WriteFrom(c, f, page, n, data, k)
         == WriteFrom(c, WriteStep(c, f, Page(page + k), Chunk(data, k)), page, n, data, k + 1)
  {
    hide WriteStep;
    assert Run(page + k, n - k)[1..] == Run(page + k + 1, n - k - 1);
    assert data[OOBBLOCK * k..][..OOBBLOCK] == Chunk(data, k);
    assert data[OOBBLOCK * k..][OOBBLOCK..] == data[OOBBLOCK * (k + 1)..];
  }

  lemma {:induction false} WriteEnds(c: OobConfig, f: Flash, g: Flash, page: nat, n: nat, data: seq<Byte>)
    requires ValidConfig(c) && |data| == OOBBLOCK * n
    ensures WriteFrom(c, g, page, n, data, n) == g
    ensures WriteFrom(c, f, page, n, data, 0) == WriteAll(c, f, Run(page, n), data)
  {
    hide WriteStep;
    assert data[OOBBLOCK * 0..] == data;
  }

  class NandChip {
    const config: OobConfig
    const ppb: nat                 // pages per erase block
    const dataBuf: array<Byte>     // one page and its out-of-band bytes
    var flash: Flash               // the cells

    ghost predicate Valid()
      reads this
    {
      ValidConfig(config) && ppb > 1 && WholeBlocks(flash, ppb) && dataBuf.Length == RAW
    }

    constructor (config: OobConfig, ppb: nat, blocks: nat)
      requires ValidConfig(config) && ppb > 1
      ensures Valid() && fresh(dataBuf) && this.config == config && this.ppb == ppb
      ensures |flash| == blocks * ppb && forall i :: 0 <= i < |flash| ==> flash[i] == Erased(RAW)
    {
      this.config := config;
      this.ppb := ppb;
      dataBuf := new Byte[RAW];
      flash := seq(blocks * ppb, _ => Erased(RAW));
      new;
      DivUnique(blocks * ppb, blocks, 0, ppb);
    }

    /** Loop that sets dataBuf[lo..hi] to v. */
    method FillBuffer(lo: nat, hi: nat, v: Byte)
      requires Valid() && lo <= hi <= RAW
      modifies dataBuf
      ensures dataBuf[..] == old(dataBuf[..lo]) + seq(hi - lo, _ => v) + old(dataBuf[hi..])
    {
      for i := lo to hi
        invariant dataBuf[..] == old(dataBuf[..lo]) + seq(i - lo, _ => v) + old(dataBuf[i..])
        modifies dataBuf
      {
        dataBuf[i] := v;
      }
    }

    /** Copies one half's code bytes to their places in the out-of-band area. */
    method StoreCode(h: nat, eccCode: array<Byte>)
      requires Valid() && h < 2 && eccCode.Length == 6 && eccCode != dataBuf
      modifies dataBuf
      ensures dataBuf[..OOBBLOCK] == old(dataBuf[..OOBBLOCK])
      ensures dataBuf[OOBBLOCK..] == PutCode(config, old(dataBuf[OOBBLOCK..]), h, eccCode[3 * h..3 * h + 3])
    {
      dataBuf[OOBBLOCK + config.eccPos[3 * h]] := eccCode[3 * h];
      dataBuf[OOBBLOCK + config.eccPos[3 * h + 1]] := eccCode[3 * h + 1];
      dataBuf[OOBBLOCK + config.eccPos[3 * h + 2]] := eccCode[3 * h + 2];
    }

    /** Computes one half's code and stores it. */
    method EncodeHalf(h: nat, eccCode: array<Byte>)
      requires Valid() && h < 2 && eccCode.Length == 6 && eccCode != dataBuf
      modifies dataBuf, eccCode
      ensures dataBuf[..OOBBLOCK] == old(dataBuf[..OOBBLOCK])
      ensures dataBuf[OOBBLOCK..]
           == PutCode(config, old(dataBuf[OOBBLOCK..]), h, EccOf(old(dataBuf[BLOCK * h..BLOCK * (h + 1)])))
    {
      hide EccOf, PutCode;
      CalculateEcc(dataBuf, BLOCK * h, eccCode, 3 * h);
      assert dataBuf[BLOCK * h..BLOCK * h + BLOCK] == dataBuf[BLOCK * h..BLOCK * (h + 1)];
      StoreCode(h, eccCode);
    }

    method MarkValid(v: Byte)
      requires Valid()
      modifies dataBuf
      ensures dataBuf[..OOBBLOCK] == old(dataBuf[..OOBBLOCK])
      ensures dataBuf[OOBBLOCK..] == PutValid(config, old(dataBuf[OOBBLOCK..]), v)
    {
      if config.eccvalidPos != -1 {
        dataBuf[OOBBLOCK + config.eccvalidPos] := v;
      }
    }

    method EncodeFirst(last: nat, eccCode: array<Byte>)
      requires Valid() && last <= OOBBLOCK && eccCode.Length == 6 && eccCode != dataBuf
      requires dataBuf[OOBBLOCK..] == Erased(OOBSIZE)
      modifies dataBuf, eccCode
      ensures dataBuf[..OOBBLOCK] == old(dataBuf[..OOBBLOCK])
      ensures dataBuf[OOBBLOCK..] == FirstOob(config, old(dataBuf[..OOBBLOCK]), last)
    {
      hide EccOf, PutCode, PutValid;
      if last >= BLOCK {
        assert dataBuf[BLOCK * 0..BLOCK * 1] == dataBuf[..OOBBLOCK][..BLOCK];
        EncodeHalf(0, eccCode);
        MarkValid(0xf0);
      }
    }

    method EncodeSecond(ghost d: seq<Byte>, last: nat, eccCode: array<Byte>)
      requires Valid() && last <= OOBBLOCK && eccCode.Length == 6 && eccCode != dataBuf
      requires dataBuf[..OOBBLOCK] == d && dataBuf[OOBBLOCK..] == FirstOob(config, d, last)
      modifies dataBuf, eccCode
      ensures dataBuf[..OOBBLOCK] == d
      ensures dataBuf[OOBBLOCK..] == OobOf(config, d, last)
    {
      hide EccOf, PutCode, And, FirstOob;
      if last == OOBBLOCK {
        assert dataBuf[BLOCK * 1..BLOCK * 2] == d[BLOCK..];
        EncodeHalf(1, eccCode);
        if config.eccvalidPos != -1 {
          dataBuf[OOBBLOCK + config.eccvalidPos] := And(dataBuf[OOBBLOCK + config.eccvalidPos], 0x0f);
        }
      }
    }

    /** nand_write_page from column 0: pads and encodes the buffer, then programs the page. */
    method WritePage(page: nat, last: nat, eccCode: array<Byte>)
      requires Valid() && page < |flash| && 0 < last <= OOBBLOCK && eccCode.Length == 6 && eccCode != dataBuf
      modifies this`flash, dataBuf, eccCode
      ensures Valid()
      ensures flash == old(flash)[page := Program(old(flash[page]), PageImage(config, old(dataBuf[..OOBBLOCK]), last))]
    {
      hide FirstOob, OobOf, Program;
      ghost var d := dataBuf[..OOBBLOCK];
      FillBuffer(OOBBLOCK, RAW, 0xff);
      eccCode[0], eccCode[1], eccCode[2], eccCode[3], eccCode[4], eccCode[5] := 0, 0, 0, 0, 0, 0;
      assert dataBuf[OOBBLOCK..] == Erased(OOBSIZE) && dataBuf[..OOBBLOCK] == d;
      EncodeFirst(last, eccCode);
      EncodeSecond(d, last, eccCode);
      FillBuffer(last, OOBBLOCK, 0xff);
      assert dataBuf[..] == PageImage(config, d, last);
      flash := flash[page := Program(flash[page], dataBuf[..])];
    }

    /** One turn of the loop in nand_write_ecc: fill the page buffer, write the page. */
    method CopyAndWrite(page: nat, buf: array<Byte>, from: nat, eccCode: array<Byte>)
      requires Valid() && page < |flash| && eccCode.Length == 6 && eccCode != dataBuf && buf != dataBuf && buf != eccCode
      requires from + OOBBLOCK <= buf.Length
      modifies this`flash, dataBuf, eccCode
      ensures Valid()
      ensures flash == WriteStep(config, old(flash), Page(page), buf[from..from + OOBBLOCK])
    {
      hide Program, PageImage;
      for i := 0 to OOBBLOCK
        invariant dataBuf[..i] == buf[from..from + i]
        modifies dataBuf
      {
        dataBuf[i] := buf[from + i];
      }
      WritePage(page, OOBBLOCK, eccCode);
    }

    /** nand_write_ecc for whole pages. */
    method WriteEcc(page: nat, n: nat, buf: array<Byte>, off: nat, eccCode: array<Byte>) returns (ret: int)
      requires Valid() && eccCode.Length == 6 && eccCode != dataBuf && buf != dataBuf && buf != eccCode
      requires off + OOBBLOCK * n <= buf.Length
      modifies this`flash, dataBuf, eccCode
      ensures Valid()
      ensures ret == if page + n > |old(flash)| then -1 else 0
      ensures ret == -1 ==> flash == old(flash)
      ensures ret == 0 ==> flash == WriteAll(config, old(flash), Run(page, n), buf[off..off + OOBBLOCK * n])
    {
      hide WriteStep, WriteAll, Run, WriteFrom, WholeBlocks, ValidConfig;
      if page + n > |flash| {
        return -1;
      }
      ghost var data := buf[off..off + OOBBLOCK * n];
      var k := 0;
      while k < n
        invariant 0 <= k <= n && Valid() && |flash| == |old(flash)|
        invariant WriteFrom(config, old(flash), page, n, data, 0) == WriteFrom(config, flash, page, n, data, k)
        modifies this`flash, dataBuf, eccCode
      {
        WriteOneMore(config, flash, page, n, data, k);
        SliceOfSlice(buf[..], off, n * OOBBLOCK, OOBBLOCK * k, OOBBLOCK * (k + 1));
        assert buf[off + OOBBLOCK * k..off + OOBBLOCK * k + OOBBLOCK] == Chunk(data, k);
        CopyAndWrite(page + k, buf, off + OOBBLOCK * k, eccCode);
        k := k + 1;
      }
      WriteEnds(config, old(flash), flash, page, n, data);
      return 0;
    }

    /** Reads a raw page into the buffer and corrects it half by half; failed counts the halves
        beyond repair. */
    method ReadPage(page: nat, eccCode: array<Byte>, eccCalc: array<Byte>) returns (failed: nat)
      requires Valid() && page < |flash| && eccCode.Length == 6 && eccCalc.Length == 6
      requires eccCode != dataBuf && eccCalc != dataBuf && eccCode != eccCalc
      modifies dataBuf, eccCode, eccCalc
      ensures dataBuf[..OOBBLOCK] == PageData(config, flash[page])
      ensures failed == 0 <==> PageReadable(config, flash[page])
    {
      hide ReadHalf, And;
      ghost var r := flash[page];
      for i := 0 to RAW
        invariant dataBuf[..i] == r[..i]
        modifies dataBuf
      {
        dataBuf[i] := flash[page][i];
      }
      for j := 0 to 6
        invariant forall i :: 0 <= i < j ==> eccCode[i] == r[OOBBLOCK + config.eccPos[i]]
        modifies eccCode
      {
        eccCode[j] := dataBuf[OOBBLOCK + config.eccPos[j]];
      }
      assert dataBuf[..][BLOCK * 0..] == r[BLOCK * 0..];
      var status0 := CorrectHalf(r, 0, eccCode, eccCalc);
      var status1 := CorrectHalf(r, 1, eccCode, eccCalc);
      assert dataBuf[..OOBBLOCK] == dataBuf[BLOCK * 0..BLOCK * 1] + dataBuf[BLOCK * 1..BLOCK * 2];
      failed := (if status0 == -1 then 1 else 0) + (if status1 == -1 then 1 else 0);
    }

    /** Checks and corrects one half in the buffer, if it was written with a code. */
    method CorrectHalf(ghost r: Raw, h: nat, eccCode: array<Byte>, eccCalc: array<Byte>) returns (status: int)
      requires Valid() && h < 2 && eccCode.Length == 6 && eccCalc.Length == 6
      requires eccCode != dataBuf && eccCalc != dataBuf && eccCode != eccCalc
      requires dataBuf[..][BLOCK * h..] == r[BLOCK * h..]
      requires forall i :: 3 * h <= i < 6 ==> eccCode[i] == r[OOBBLOCK + config.eccPos[i]]
      modifies dataBuf, eccCode, eccCalc
      ensures dataBuf[BLOCK * h..BLOCK * (h + 1)] == ReadHalf(config, r, h).data
      ensures status == ReadHalf(config, r, h).status
      ensures dataBuf[..BLOCK * h] == old(dataBuf[..BLOCK * h])
      ensures dataBuf[..][BLOCK * (h + 1)..] == r[BLOCK * (h + 1)..]
      ensures forall i :: 3 * (h + 1) <= i < 6 ==> eccCode[i] == r[OOBBLOCK + config.eccPos[i]]
    {
      hide And, EccOf, Corrected, MarksHalf;
      SameTail(dataBuf[..], r, BLOCK * h, BLOCK * (h + 1));
      status := 0;
      if config.eccvalidPos != -1 && MarksHalf(dataBuf[OOBBLOCK + config.eccvalidPos], h) {
        status := DecodeHalf(h, eccCode, eccCalc);
        assert HalfWord(config, r, h).stored == old(eccCode[3 * h..3 * h + 3]);
      }
    }

    /** Recomputes one half's code and corrects the half against the code that was read. */
    method DecodeHalf(h: nat, eccCode: array<Byte>, eccCalc: array<Byte>) returns (status: int)
      requires Valid() && h < 2 && eccCode.Length == 6 && eccCalc.Length == 6
      requires eccCode != dataBuf && eccCalc != dataBuf && eccCode != eccCalc
      modifies dataBuf, eccCode, eccCalc
      ensures var o := Decode(Word(old(dataBuf[BLOCK * h..BLOCK * (h + 1)]), old(eccCode[3 * h..3 * h + 3])));
        status == o.status && dataBuf[BLOCK * h..BLOCK * (h + 1)] == o.data
      ensures dataBuf[..BLOCK * h] == old(dataBuf[..BLOCK * h])
      ensures dataBuf[..][BLOCK * (h + 1)..] == old(dataBuf[..][BLOCK * (h + 1)..])
      ensures forall i :: 3 * (h + 1) <= i < 6 ==> eccCode[i] == old(eccCode[i])
    {
      hide EccOf, Corrected;
      ghost var code := eccCode[3 * h + 3..];
      CalculateEcc(dataBuf, BLOCK * h, eccCalc, 3 * h);
      status := CorrectData(dataBuf, BLOCK * h, eccCode, 3 * h, eccCalc, 3 * h);
      assert BLOCK * h + BLOCK == BLOCK * (h + 1);
      forall i | 3 * (h + 1) <= i < 6 ensures eccCode[i] == old(eccCode[i]) {
        assert eccCode[3 * h + 3..][i - (3 * h + 3)] == code[i - (3 * h + 3)];
      }
    }

    /** One turn of the loop in nand_read_ecc: read and correct a page, copy its data out. */
    method ReadAndCopy(page: nat, buf: array<Byte>, from: nat, eccCode: array<Byte>, eccCalc: array<Byte>) returns (failed: nat)
      requires Valid() && page < |flash| && eccCode.Length == 6 && eccCalc.Length == 6
      requires eccCode != dataBuf && eccCalc != dataBuf && eccCode != eccCalc
      requires buf != dataBuf && buf != eccCode && buf != eccCalc && from + OOBBLOCK <= buf.Length
      modifies dataBuf, buf, eccCode, eccCalc
      ensures buf[..] == old(buf[..from]) + PageData(config, flash[page]) + old(buf[from + OOBBLOCK..])
      ensures failed == 0 <==> PageReadable(config, flash[page])
    {
      hide PageData, PageReadable;
      ghost var data := PageData(config, flash[page]);
      failed := ReadPage(page, eccCode, eccCalc);
      for i := 0 to OOBBLOCK
        invariant buf[..] == old(buf[..from]) + data[..i] + old(buf[from + i..])
        modifies buf
      {
        buf[from + i] := dataBuf[i];
        assert data[i] == dataBuf[..OOBBLOCK][i];
      }
    }

    /** nand_read_ecc for whole pages: -1 when some page is beyond repair, and still all the data. */
    method ReadEcc(page: nat, n: nat, buf: array<Byte>, off: nat, eccCode: array<Byte>) returns (ret: int)
      requires Valid() && eccCode.Length == 6 && eccCode != dataBuf && buf != dataBuf && buf != eccCode
      requires off + OOBBLOCK * n <= buf.Length
      modifies dataBuf, buf, eccCode
      ensures ret == if page + n > |flash| || !AllReadable(config, flash, Run(page, n)) then -1 else 0
      ensures page + n <= |flash| ==>
                buf[..] == old(buf[..off]) + ReadAll(config, flash, Run(page, n)) + old(buf[off + OOBBLOCK * n..])
    {
      hide PageData, PageReadable, AllReadable, ReadInto, ReadAll, Run, ValidConfig, StepReadable;
      if page + n > |flash| {
        return -1;
      }
      var eccCalc := new Byte[6];
      var failed := 0;
      var k := 0;
      ReadNothing(config, flash, page, buf[..], off);
      while k < n
        invariant 0 <= k <= n
        invariant buf[..] == ReadInto(config, flash, page, k, old(buf[..]), off)
        invariant failed == 0 <==> AllReadable(config, flash, Run(page, k))
        modifies dataBuf, buf, eccCode, eccCalc
      {
        ghost var before := buf[..];
        var bad := ReadAndCopy(page + k, buf, off + OOBBLOCK * k, eccCode, eccCalc);
        ReadIntoStep(config, flash, page, k, old(buf[..]), off, before, buf[..]);
        failed := failed + bad;
        k := k + 1;
      }
      ReadIntoAll(config, flash, page, n, old(buf[..]), off);
      return if failed > 0 then -1 else 0;
    }

    /** check_block */
    method CheckBlock(q: nat) returns (bad: bool)
      requires Valid()
      ensures bad <==> BadBlock(config, flash, q)
      ensures q + 1 >= |flash| ==> bad
      ensures q + 1 < |flash| && config.badblockPos != -1 ==>
                (!bad <==> forall k :: q <= k <= q + 1 ==> flash[k][OOBBLOCK + config.badblockPos] == 0xff)
      ensures q + 1 < |flash| && config.badblockPos == -1 ==> !bad
    {
      if q + 1 >= |flash| {
        return true;
      }
      if config.badblockPos < 0 {
        return false;
      }
      return flash[q][OOBBLOCK + config.badblockPos] != 0xff || flash[q + 1][OOBBLOCK + config.badblockPos] != 0xff;
    }

    /** The inner loop of a filling read: 0xff up to the end of the bad block. */
    method FillBlock(ghost r: Request, eblk: nat, p0: nat, n0: nat, total0: nat, buf: array<Byte>)
      returns (p: nat, n: nat, total: nat)
      requires Valid() && buf != dataBuf && n0 > 0 && eblk == BlockStart(p0, ppb) && r.cmd == READ_FILL
      requires BadBlock(config, r.f, eblk) && Progress(config, ppb, r, flash, p0, n0, total0, buf[..])
      modifies buf
      ensures Progress(config, ppb, r, flash, p, n, total, buf[..])
      ensures n < n0 && (n > 0 ==> BlockStart(p, ppb) != eblk)
    {
      hide BadBlock, BlockStart, Plan, Progress, ValidConfig, WholeBlocks;
      p, n, total := p0, n0, total0;
      BlockStep(p, ppb);
      while n > 0 && p - eblk < ppb
        invariant eblk <= p && p0 <= p && n <= n0 && (p == p0 ==> n == n0) && (p > p0 ==> n < n0)
        invariant p - eblk < ppb ==> BlockStart(p, ppb) == eblk
        invariant p - eblk >= ppb ==> BlockStart(p, ppb) != eblk
        invariant Progress(config, ppb, r, flash, p, n, total, buf[..])
        modifies buf
      {
        BufferBounds(config, ppb, r, flash, p, n, total, buf[..]);
        BlockStep(p, ppb);
        ghost var before := buf[..];
        for i := OOBBLOCK * total to OOBBLOCK * (total + 1)
          invariant buf[..] == before[..OOBBLOCK * total] + Erased(i - OOBBLOCK * total) + before[i..]
          modifies buf
        {
          buf[i] := 0xff;
        }
        BlankProgress(config, ppb, r, flash, p, n, total, before, buf[..]);
        p, n, total := p + 1, n - 1, total + 1;
      }
    }

    /** nand_rw, counting in whole pages: start and len are page-aligned in the chip. */
    method ReadWrite(cmd: nat, start: nat, len: nat, buf: array<Byte>) returns (ret: int, total: nat)
      requires Valid() && buf != dataBuf && OOBBLOCK * len <= buf.Length
      // for a skipping walk there must be enough good blocks, or the driver never returns
      requires IsSkip(cmd) ==> HasRoom(config, flash, ppb, start, len)
      modifies this`flash, dataBuf, buf
      ensures Valid()
      ensures var r := Request(cmd, start, len, old(flash), old(buf[..]));
        if Reads(cmd) && !AllReadable(config, r.f, Whole(config, ppb, r)) then ret != 0 && flash == old(flash)
        else Finished(config, ppb, r, ret, total, flash, buf[..])
    {
      hide BadBlock, BlockStart, Plan, Progress, Finished, AllReadable, ReadAll, WriteAll, Run, ValidConfig, WholeBlocks, HasRoom;
      if IsSkip(cmd) { CapacityExactly(config, flash, ppb, cmd, start, len); }
      ghost var r := Request(cmd, start, len, flash, buf[..]);
      var eccbuf := new Byte[6];
      var p: nat, n: nat := start, len;
      var eblk: int := -1;
      total := 0;
      ProgressStarts(config, ppb, r);
      while n > 0
        invariant Valid() && Progress(config, ppb, r, flash, p, n, total, buf[..])
        invariant n > 0 ==> BlockStart(p, ppb) != eblk
        decreases n, if p < |r.f| then |r.f| - p else 0
        modifies this`flash, dataBuf, buf, eccbuf
      {
        MarkersInProgress(config, ppb, r, flash, p, n, total, buf[..]);
        BlockStep(p, ppb);
        eblk := BlockStart(p, ppb);
        SameBadBlock(config, r.f, flash, eblk);
        var bad := CheckBlock(eblk);
        if bad {
          if cmd == READ_FILL {
            p, n, total := FillBlock(r, eblk, p, n, total, buf);
          } else if cmd == READ_SKIP || cmd == WRITE_SKIP {
            SkipProgress(config, ppb, r, flash, p, n, total, buf[..]);
            p := p + ppb;
          } else {
            ProgressEnds(config, ppb, r, flash, p, n, total, buf[..]);
            return 1, total;
          }
        } else {
          var m := if n < eblk + ppb - p then n else eblk + ppb - p;
          RunFacts(config, flash, ppb, p, m);
          if Reads(cmd) {
            ReadProgress(config, ppb, r, flash, p, n, total, buf[..], m,
                         buf[..OOBBLOCK * total] + ReadAll(config, flash, Run(p, m)) + buf[OOBBLOCK * total + OOBBLOCK * m..]);
            ret := ReadEcc(p, m, buf, OOBBLOCK * total, eccbuf);
            if ret != 0 {
              return ret, total;
            }
          } else {
            WriteProgress(config, ppb, r, flash, p, n, total, buf[..], m);
            ret := WriteEcc(p, m, buf, OOBBLOCK * total, eccbuf);
          }
          p, n, total := p + m, n - m, total + m;
        }
      }
      ProgressEnds(config, ppb, r, flash, p, n, total, buf[..]);
      return 0, total;
    }
  }

  lemma MarkersInProgress(c: OobConfig, ppb: nat, r: Request, f: Flash, p: nat, n: nat, total: nat, b: seq<Byte>)
    requires ValidConfig(c) && ppb > 0 && Progress(c, ppb, r, f, p, n, total, b)
    ensures SameMarkers(c, r.f, f) && OOBBLOCK * (total + n) <= |b| && (Reads(r.cmd) ==> f == r.f)
  {
    hide Plan;
  }

  lemma BufferBounds(c: OobConfig, ppb: nat, r: Request, f: Flash, p: nat, n: nat, total: nat, b: seq<Byte>)
    requires ValidConfig(c) && ppb > 0 && Progress(c, ppb, r, f, p, n, total, b)
    ensures OOBBLOCK * (total + n) <= |b|
  {
    hide Plan;
  }

  lemma {:induction false} ReadOneMore(c: OobConfig, f: Flash, page: nat, k: nat)
    requires ValidConfig(c) && page + k < |f|
    ensures ReadAll(c, f, Run(page, k + 1)) == ReadAll(c, f, Run(page, k)) + PageData(c, f[page + k])
    ensures AllReadable(c, f, Run(page, k + 1)) <==> AllReadable(c, f, Run(page, k)) && PageReadable(c, f[page + k])
    ensures |ReadAll(c, f, Run(page, k))| == OOBBLOCK * k
  {
    hide PageData, PageReadable;
    assert Run(page, k + 1) == Run(page, k) + [Page(page + k)];
    ReadAllAppend(c, f, Run(page, k), [Page(page + k)]);
    assert AllReadable(c, f, Run(page, k + 1)) ==> StepReadable(c, f, Run(page, k + 1)[k]);
    assert forall i :: 0 <= i < k ==> Run(page, k + 1)[i] == Run(page, k)[i];
  }

  /** A buffer b0 after the data of k pages was copied to off. */
  ghost function ReadInto(c: OobConfig, f: Flash, page: nat, k: nat, b0: seq<Byte>, off: nat): seq<Byte>
    requires ValidConfig(c) && off + OOBBLOCK * k <= |b0|
  {
    b0[..off] + ReadAll(c, f, Run(page, k)) + b0[off + OOBBLOCK * k..]
  }

  lemma {:induction false} ReadIntoAll(c: OobConfig, f: Flash, page: nat, k: nat, b0: seq<Byte>, off: nat)
    requires ValidConfig(c) && off + OOBBLOCK * k <= |b0|
    ensures ReadInto(c, f, page, k, b0, off) == b0[..off] + ReadAll(c, f, Run(page, k)) + b0[off + OOBBLOCK * k..]
  {
  }

  lemma ReadIntoStep(c: OobConfig, f: Flash, page: nat, k: nat, b0: seq<Byte>, off: nat, b: seq<Byte>, b': seq<Byte>)
    requires ValidConfig(c) && page + k < |f| && off + OOBBLOCK * (k + 1) <= |b0| == |b|
    requires b == ReadInto(c, f, page, k, b0, off)
    requires b' == b[..off + OOBBLOCK * k] + PageData(c, f[page + k]) + b[off + OOBBLOCK * k + OOBBLOCK..]
    ensures b' == ReadInto(c, f, page, k + 1, b0, off)
    ensures AllReadable(c, f, Run(page, k + 1)) <==> AllReadable(c, f, Run(page, k)) && PageReadable(c, f[page + k])
  {
    hide PageData, PageReadable, AllReadable, ReadAll, Run;
    ReadOneMore(c, f, page, k);
    Splice(b, b0[..off], ReadAll(c, f, Run(page, k)), b0[off + OOBBLOCK * k..], PageData(c, f[page + k]), b');
    TailOfTail(b0, off + OOBBLOCK * k, OOBBLOCK);
  }

  lemma ReadNothing(c: OobConfig, f: Flash, page: nat, b0: seq<Byte>, off: nat)
    requires ValidConfig(c) && off <= |b0|
    ensures ReadInto(c, f, page, 0, b0, off) == b0 && AllReadable(c, f, Run(page, 0))
  {
  }
}
