/** EEPROM access in bursts, against a device whose address counter wraps within a page. */
module Eeprom {
  import opened Words
  import opened Division

  // -------------------------------------------------------------------------
  // The device address octet

  /** a | b */
  function Or(a: nat, b: nat): nat {
    if a == 0 && b == 0 then 0 else (if a % 2 == 1 || b % 2 == 1 then 1 else 0) + 2 * Or(a / 2, b / 2)
  }

  /** a & ~b */
  function Clear(a: nat, b: nat): nat {
    if a == 0 then 0 else (if a % 2 == 1 && b % 2 == 0 then 1 else 0) + 2 * Clear(a / 2, b / 2)
  }

  /** (a & b) == 0 */
  predicate Disjoint(a: nat, b: nat) {
    if a == 0 then true else !(a % 2 == 1 && b % 2 == 1) && Disjoint(a / 2, b / 2)
  }

  /** The device takes the block number out of the octet that selects it. */
  lemma {:induction false} BlockSelected(block: nat, dev: nat)
    requires Disjoint(block, dev)
    ensures Clear(Or(block, dev), dev) == block
    decreases block + dev
  {
    if block != 0 || dev != 0 {
      BlockSelected(block / 2, dev / 2);
    }
  }

  // -------------------------------------------------------------------------
  // Bursts on the device

  /** The memory after data went in one after the other from base + off on, wrapping after size. */
  function Burst(mem: seq<Octet>, base: nat, off: nat, size: nat, data: seq<Octet>): (r: seq<Octet>)
    requires 0 < size && base + size <= |mem|
    ensures |r| == |mem|
  {
    if data == [] then mem
    else
      var n := |data| - 1;
      Burst(mem, base, off, size, data[..n])[base + (off + n) % size := data[n]]
  }

  /** What comes out. */
  function Fetch(mem: seq<Octet>, base: nat, off: nat, size: nat, len: nat): (r: seq<Octet>)
    requires 0 < size && base + size <= |mem|
    ensures |r| == len && forall i :: 0 <= i < len ==> r[i] == mem[base + (off + i) % size]
  {
    seq(len, i requires 0 <= i => mem[base + (off + i) % size])
  }

  /** The memory with data at a position. */
  function Patched(mem: seq<Octet>, at: nat, data: seq<Octet>): (r: seq<Octet>)
    requires at + |data| <= |mem|
    ensures |r| == |mem|
  {
    mem[..at] + data + mem[at + |data|..]
  }

  /** A burst that stays inside the page does what is wanted. */
  lemma {:induction false} BurstInside(mem: seq<Octet>, base: nat, off: nat, size: nat, data: seq<Octet>)
    requires 0 < size && base + size <= |mem| && off + |data| <= size
    ensures Burst(mem, base, off, size, data) == Patched(mem, base + off, data)
  {
    hide Patched;
    if data == [] {
      PatchedNothing(mem, base + off);
    } else {
      var n := |data| - 1;
      BurstInside(mem, base, off, size, data[..n]);
      SmallMod(off + n, size);
      PatchedMore(mem, base + off, data, n);
    }
  }

  lemma PatchedNothing(mem: seq<Octet>, at: nat)
    requires at <= |mem|
    ensures Patched(mem, at, []) == mem
  {
  }

  lemma SmallMod(x: nat, size: nat)
    requires x < size
    ensures x % size == x
  {
  }

  lemma PatchedMore(mem: seq<Octet>, at: nat, data: seq<Octet>, n: nat)
    requires n + 1 == |data| && at + |data| <= |mem|
    ensures Patched(mem, at, data[..n])[at + n := data[n]] == Patched(mem, at, data)
  {
  }

  lemma FetchInside(mem: seq<Octet>, base: nat, off: nat, size: nat, len: nat)
    requires 0 < size && base + size <= |mem| && off + len <= size
    ensures Fetch(mem, base, off, size, len) == mem[base + off..base + off + len]
  {
    var r, w := Fetch(mem, base, off, size, len), mem[base + off..base + off + len];
    forall i | 0 <= i < len ensures r[i] == w[i] {
      assert (off + i) % size == off + i;
    }
  }

  /** A burst that runs over the end of its page goes astray: from the second place of a page of two,
      the second octet lands in front of the first. */
  lemma {:induction false} BurstWraps(mem: seq<Octet>)
    requires |mem| >= 2
    ensures Burst(mem, 0, 1, 2, [7, 8])[0] == 8
  {
  }

  /** Patching two parts one after the other is patching the whole. */
  lemma PatchedJoin(mem: seq<Octet>, at: nat, a: seq<Octet>, b: seq<Octet>)
    requires at + |a| + |b| <= |mem|
    ensures Patched(Patched(mem, at, a), at + |a|, b) == Patched(mem, at, a + b)
  {
    var p := Patched(mem, at, a);
    assert p[..at + |a|] == mem[..at] + a;
    assert p[at + |a| + |b|..] == mem[at + |a| + |b|..];
  }

  lemma PatchedRead(mem: seq<Octet>, at: nat, data: seq<Octet>)
    requires at + |data| <= |mem|
    ensures Patched(mem, at, data)[at..at + |data|] == data
  {
  }

  /** One of the first k transfers of a script is not acknowledged. */
  ghost predicate Faulty(script: seq<bool>, k: int) {
    exists i :: 0 <= i < k && i < |script| && script[i]
  }

  /** The transfers used up, which are those that are not left, were all acknowledged iff nothing was
      reported. */
  ghost predicate Reported(script: seq<bool>, left: seq<bool>, rcode: int) {
    |left| <= |script| && left == script[|script| - |left|..] && (rcode == 0 <==> !Faulty(script, |script| - |left|))
  }

  lemma ReportNothing(script: seq<bool>)
    ensures Reported(script, script, 0)
  {
  }

  /** One more transfer. */
  lemma ReportNext(script: seq<bool>, left: seq<bool>, rcode: int, rc: int)
    requires Reported(script, left, rcode) && (rc == 0 <==> left == [] || !left[0])
    ensures Reported(script, if left == [] then [] else left[1..], if rc != 0 then 1 else rcode)
  {
    if left != [] {
      var k := |script| - |left|;
      assert left[0] == script[k];
      if Faulty(script, k + 1) && rc == 0 {
        var i :| 0 <= i < k + 1 && i < |script| && script[i];
        assert i != k;
      }
    }
  }

  // -------------------------------------------------------------------------
  // The driver

  class Bus {
    const dev: nat              // the bits that select the device
    const addrLen: nat          // octets of address on the bus: 1 or 2
    const pageSize: nat         // write page
    const maxTransfer: nat      // I2C_RXTX_LEN
    var mem: seq<Octet>
    var faults: seq<bool>       // which of the next transfers are not acknowledged

    function BlockSize(): nat {
      if addrLen == 1 then 0x100 else 0x10000
    }

    /** Pages divide the 256-octet blocks, and the memory is made of whole blocks. */
    predicate Valid()
      reads this
    {
      && (addrLen == 1 || addrLen == 2) && dev < 256 && 0 < maxTransfer
      && 0 < pageSize <= 256 && 256 % pageSize == 0 && |mem| % 256 == 0
      && |mem| <= 256 * BlockSize()
      && forall block :: 0 <= block < 256 && block * BlockSize() < |mem| ==> Disjoint(block, dev)
    }

    constructor (dev: nat, addrLen: nat, pageSize: nat, maxTransfer: nat, mem: seq<Octet>, faults: seq<bool>)
      ensures this.dev == dev && this.addrLen == addrLen && this.pageSize == pageSize && this.maxTransfer == maxTransfer
      ensures this.mem == mem && this.faults == faults
    {
      this.dev, this.addrLen, this.pageSize, this.maxTransfer := dev, addrLen, pageSize, maxTransfer;
      this.mem, this.faults := mem, faults;
    }

    /** Where the device is told to start: block from the selecting octet, the rest from the address. */
    function Location(chip: nat, offset: nat): nat {
      Clear(chip, dev) * BlockSize() + offset % BlockSize()
    }

    method NextFault() returns (fault: bool)
      modifies this`faults
      ensures fault == (old(faults) != [] && old(faults)[0])
      ensures faults == if old(faults) == [] then [] else old(faults)[1..]
    {
      fault := faults != [] && faults[0];
      faults := if faults == [] then [] else faults[1..];
    }

    /** i2c_write: the address counter only increments within a page. */
    method I2cWrite(chip: nat, offset: nat, data: seq<Octet>) returns (rc: int)
      requires Valid() && Location(chip, offset) < |mem| && |data| <= maxTransfer
      modifies this`mem, this`faults
      ensures var a := Location(chip, offset);
        var base := a - a % pageSize;
        && 0 <= base && base + pageSize <= |mem| == |old(mem)|
        && (rc == 0 ==> mem == Burst(old(mem), base, a % pageSize, pageSize, data))
        && (rc != 0 ==> mem == old(mem))
      ensures rc == 0 <==> old(faults) == [] || !old(faults)[0]
      ensures faults == if old(faults) == [] then [] else old(faults)[1..]
    {
      var a := Location(chip, offset);
      PageFits(a, pageSize, |mem|);
      var fault := NextFault();
      if fault { return 1; }
      mem := Burst(mem, a - a % pageSize, a % pageSize, pageSize, data);
      rc := 0;
    }

    /** i2c_read: the address counter wraps within a block of 256. */
    method I2cRead(chip: nat, offset: nat, len: nat) returns (rc: int, data: seq<Octet>)
      requires Valid() && Location(chip, offset) < |mem| && len <= maxTransfer
      modifies this`faults
      ensures var a := Location(chip, offset);
        && a - a % 256 + 256 <= |mem| && |data| == len
        && (rc == 0 ==> data == Fetch(mem, a - a % 256, a % 256, 256, len))
      ensures rc == 0 <==> old(faults) == [] || !old(faults)[0]
      ensures faults == if old(faults) == [] then [] else old(faults)[1..]
    {
      var a := Location(chip, offset);
      PageFits(a, 256, |mem|);
      data := seq(len, _ => 0);
      var fault := NextFault();
      if fault { return 1, data; }
      return 0, Fetch(mem, a - a % 256, a % 256, 256, len);
    }

    /** addr[0], the octet that selects device and block. */
    function Selector(offset: nat): nat {
      Or(offset / BlockSize() % 256, dev)
    }

    lemma Located(offset: nat)
      requires Valid() && offset < |mem|
      ensures Location(Selector(offset), offset) == offset
    {
      hide Or, Clear, Disjoint;
      var block := offset / BlockSize();
      assert block < 256 && block * BlockSize() <= offset;
      BlockSelected(block, dev);
    }

    /** The length of the next transfer: what is left, but no more than fits the page or the bus. */
    method Cut(room: nat, left: nat) returns (len: nat)
      ensures len == if left <= room && left <= maxTransfer then left else if room <= maxTransfer then room else maxTransfer
    {
      var maxlen := room;
      if maxlen > maxTransfer { maxlen := maxTransfer; }
      len := left;
      if len > maxlen { len := maxlen; }
    }

    /** eeprom_read; 0 iff every transfer it made was acknowledged. */
    method EepromRead(offset0: nat, cnt: nat) returns (rcode: int, buffer: seq<Octet>)
      requires Valid() && offset0 + cnt <= |mem|
      modifies this`faults
      ensures |buffer| == cnt && (rcode == 0 ==> buffer == mem[offset0..offset0 + cnt])
      ensures Reported(old(faults), faults, rcode)
    {
      hide Fetch, Or, Clear, Disjoint, Reported, Selector, Location, BlockSize;
      ReportNothing(faults);
      var offset, end := offset0, offset0 + cnt;
      rcode, buffer := 0, [];
      while offset < end
        invariant offset0 <= offset <= end && |buffer| == offset - offset0
        invariant rcode == 0 ==> buffer == mem[offset0..offset]
        invariant Reported(old(faults), faults, rcode)
        modifies this`faults
      {
        var len := Cut(0x100 - offset % 256, end - offset);
        Located(offset);
        ghost var left := faults;
        var rc, data := I2cRead(Selector(offset), offset, len);
        ReportNext(old(faults), left, rcode, rc);
        if rc != 0 { rcode := 1; }
        Fetched(mem, offset, len);
        SliceJoin(mem, offset0, offset, offset + len);
        buffer := buffer + data;
        offset := offset + len;
      }
    }

    /** eeprom_write: on success exactly the octets from offset on are those of the buffer; in any case
        nothing outside them changes. It succeeds iff every transfer it made was acknowledged. */
    method EepromWrite(offset0: nat, buffer: seq<Octet>) returns (rcode: int)
      requires Valid() && offset0 + |buffer| <= |mem|
      modifies this`mem, this`faults
      ensures Valid() && |mem| == |old(mem)|
      ensures rcode == 0 ==> mem == Patched(old(mem), offset0, buffer)
      ensures mem[..offset0] == old(mem)[..offset0] && mem[offset0 + |buffer|..] == old(mem)[offset0 + |buffer|..]
      ensures Reported(old(faults), faults, rcode)
    {
      hide Burst, Or, Clear, Disjoint, Patched, Reported, Selector, Location, BlockSize;
      ReportNothing(faults);
      var offset, end := offset0, offset0 + |buffer|;
      rcode := 0;
      PatchedNothing(mem, offset0);
      assert buffer[..0] == [];
      while offset < end
        invariant offset0 <= offset <= end && Valid() && |mem| == |old(mem)|
        invariant rcode == 0 ==> mem == Patched(old(mem), offset0, buffer[..offset - offset0])
        invariant mem[..offset0] == old(mem)[..offset0] && mem[end..] == old(mem)[end..]
        invariant Reported(old(faults), faults, rcode)
        modifies this`mem, this`faults
      {
        PageOffset(offset, pageSize);
        var len := Cut(pageSize - offset % 256 % pageSize, end - offset);
        Located(offset);
        var done := offset - offset0;
        var data := buffer[done..done + len];
        PageFits(offset, pageSize, |mem|);
        BurstInside(mem, offset - offset % pageSize, offset % pageSize, pageSize, data);
        PatchedOutside(mem, offset, data, offset0, end);
        ghost var left := faults;
        var rc := I2cWrite(Selector(offset), offset, data);
        ReportNext(old(faults), left, rcode, rc);
        if rc != 0 { rcode := 1; }
        PatchedJoin(old(mem), offset0, buffer[..done], data);
        assert buffer[..done + len] == buffer[..done] + data;
        offset := offset + len;
      }
      assert buffer[..|buffer|] == buffer;
    }
  }

  /** What a read inside a block of 256 fetches. */
  lemma Fetched(mem: seq<Octet>, a: nat, len: nat)
    requires a - a % 256 + 256 <= |mem| && a % 256 + len <= 256
    ensures Fetch(mem, a - a % 256, a % 256, 256, len) == mem[a..a + len]
  {
    hide Fetch;
    FetchInside(mem, a - a % 256, a % 256, 256, len);
  }

  lemma SliceJoin(mem: seq<Octet>, a: nat, b: nat, c: nat)
    requires a <= b <= c <= |mem|
    ensures mem[a..c] == mem[a..b] + mem[b..c]
  {
  }

  lemma PageOffset(offset: nat, size: nat)
    requires 0 < size && 256 % size == 0
    ensures offset % 256 % size == offset % size
  {
    var k, q := offset / 256, 256 / size;
    assert offset == offset % 256 + k * 256 && q * size == 256;
    assert k * 256 == k * q * size;
    ModDrop(offset % 256, k * q, size);
  }

  lemma PatchedOutside(mem: seq<Octet>, at: nat, data: seq<Octet>, lo: nat, hi: nat)
    requires lo <= at && at + |data| <= hi <= |mem|
    ensures Patched(mem, at, data)[..lo] == mem[..lo] && Patched(mem, at, data)[hi..] == mem[hi..]
  {
  }

  /** What was written is read back, and reading changes nothing. */
  method WriteThenRead(bus: Bus, offset: nat, buffer: seq<Octet>) returns (ok: bool, back: seq<Octet>)
    requires bus.Valid() && offset + |buffer| <= |bus.mem|
    modifies bus`mem, bus`faults
    ensures ok ==> back == buffer && bus.mem == Patched(old(bus.mem), offset, buffer)
    ensures true !in old(bus.faults) ==> ok
  {
    var written := bus.EepromWrite(offset, buffer);
    var read;
    read, back := bus.EepromRead(offset, |buffer|);
    PatchedRead(old(bus.mem), offset, buffer);
    ok := written == 0 && read == 0;
  }

  lemma PageFits(a: nat, size: nat, total: nat)
    requires 0 < size <= 256 && 256 % size == 0 && total % 256 == 0 && a < total
    ensures 0 <= a - a % size && a - a % size + size <= total
  {
    var k, q, t := a / size, 256 / size, total / 256;
    assert q * size == 256 && total == t * q * size;
    assert k < t * q by {
      if k >= t * q { MulGrows(t * q, k, size); }
    }
    MulGrows(k + 1, t * q, size);
    assert a - a % size == k * size;
  }
}
