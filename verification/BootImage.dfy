/** Booting a multi-file image: where its parts are, and where command line, board info and initial
    ramdisk go. */
module BootImage {
  import opened Words
  import opened Division

  // -------------------------------------------------------------------------
  // Multi-file images

  /** A word in network byte order. */
  function Bytes4(x: u32): (r: seq<Octet>)
    ensures |r| == 4
  {
    [x / 0x100_0000, x / 0x1_0000 % 0x100, x / 0x100 % 0x100, x % 0x100]
  }

  lemma NetworkOrder()
    ensures Bytes4(0x0102_0304) == [1, 2, 3, 4]
  {
  }

  function WordAt(mem: seq<Octet>, a: nat): u32
    requires a + 4 <= |mem|
  {
    mem[a] as int * 0x100_0000 + mem[a + 1] as int * 0x1_0000 + mem[a + 2] as int * 0x100 + mem[a + 3] as int
  }

  type Part = seq<Octet>

  /** What a part can be: not empty, and of a length that fits a word. */
  predicate Sized(parts: seq<Part>) {
    forall i :: 0 <= i < |parts| ==> 0 < |parts[i]| < WORD
  }

  function Table(parts: seq<Part>): (r: seq<Octet>)
    requires Sized(parts)
    ensures |r| == 4 * |parts|
  {
    if parts == [] then [] else Table(parts[..|parts| - 1]) + Bytes4(|parts[|parts| - 1]|)
  }

  /** The length rounded up to a multiple of four. */
  function RoundUp(n: nat): nat {
    if n % 4 == 0 then n else n + 4 - n % 4
  }

  function Padded(p: Part): (r: seq<Octet>)
    ensures |r| == RoundUp(|p|)
  {
    p + seq(RoundUp(|p|) - |p|, _ => 0)
  }

  function Bodies(parts: seq<Part>): seq<Octet> {
    if parts == [] then [] else Bodies(parts[..|parts| - 1]) + Padded(parts[|parts| - 1])
  }

  /** The table of lengths, a zero word, and the parts, each on a word boundary. */
  function Image(parts: seq<Part>): seq<Octet>
    requires Sized(parts)
  {
    Table(parts) + [0, 0, 0, 0] + Bodies(parts)
  }

  /** Where a part starts. */
  function PartStart(parts: seq<Part>, k: nat): nat
    requires k <= |parts|
  {
    4 * |parts| + 4 + |Bodies(parts[..k])|
  }

  lemma WordBack(mem: seq<Octet>, a: nat, x: u32)
    requires a + 4 <= |mem| && mem[a..a + 4] == Bytes4(x)
    ensures WordAt(mem, a) == x
  {
    var b := Bytes4(x);
    assert mem[a] == mem[a..a + 4][0] && mem[a + 1] == mem[a..a + 4][1];
    assert mem[a + 2] == mem[a..a + 4][2] && mem[a + 3] == mem[a..a + 4][3];
    Digits(x);
  }

  lemma Digits(x: u32)
    ensures x / 0x100_0000 * 0x100_0000 + x / 0x1_0000 % 0x100 * 0x1_0000 + x / 0x100 % 0x100 * 0x100 + x % 0x100 == x
  {
    var a := x / 0x100;
    var b := a / 0x100;
    assert x == a * 0x100 + x % 0x100;
    assert a == b * 0x100 + a % 0x100 && b == x / 0x1_0000;
    assert b == b / 0x100 * 0x100 + b % 0x100 && b / 0x100 == x / 0x100_0000;
  }

  lemma {:induction false} TableSlice(parts: seq<Part>, i: nat)
    requires Sized(parts) && i < |parts|
    ensures Table(parts)[4 * i..4 * i + 4] == Bytes4(|parts[i]|)
  {
    hide Bytes4;
    var n := |parts| - 1;
    if i < n {
      TableSlice(parts[..n], i);
      assert Table(parts)[4 * i..4 * i + 4] == Table(parts[..n])[4 * i..4 * i + 4];
    }
  }

  lemma {:induction false} BodySlice(parts: seq<Part>, k: nat)
    requires k < |parts|
    ensures var s := |Bodies(parts[..k])|; s + |parts[k]| <= |Bodies(parts)| && Bodies(parts)[s..s + |parts[k]|] == parts[k]
  {
    var n := |parts| - 1;
    if k < n {
      BodySlice(parts[..n], k);
      assert parts[..n][..k] == parts[..k] && parts[..n][k] == parts[k];
      var s := |Bodies(parts[..k])|;
      assert Bodies(parts)[s..s + |parts[k]|] == Bodies(parts[..n])[s..s + |parts[k]|];
    } else {
      var s := |Bodies(parts[..n])|;
      assert Bodies(parts)[s..s + |parts[n]|] == parts[n];
    }
  }

  /** The words of the table, and the zero behind it, in memory. */
  lemma TableInMemory(parts: seq<Part>, rest: seq<Octet>, i: nat)
    requires Sized(parts) && i <= |parts|
    ensures |Image(parts)| >= 4 * |parts| + 4
    ensures WordAt(Image(parts) + rest, 4 * i) == if i < |parts| then |parts[i]| else 0
  {
    hide WordAt, Bytes4, Table, Bodies;
    var mem := Image(parts) + rest;
    if i < |parts| {
      TableSlice(parts, i);
      assert mem[4 * i..4 * i + 4] == Table(parts)[4 * i..4 * i + 4];
      WordBack(mem, 4 * i, |parts[i]|);
    } else {
      assert mem[4 * i..4 * i + 4] == [0, 0, 0, 0];
      ZeroWord();
      WordBack(mem, 4 * i, 0);
    }
  }

  lemma ZeroWord()
    ensures Bytes4(0) == [0, 0, 0, 0]
  {
  }

  /** Each part in memory. */
  lemma PartInMemory(parts: seq<Part>, rest: seq<Octet>, k: nat)
    requires Sized(parts) && k < |parts|
    ensures var a, mem := PartStart(parts, k), Image(parts) + rest;
      a + |parts[k]| <= |mem| && mem[a..a + |parts[k]|] == parts[k]
  {
    hide Table, Bodies;
    var a, s, mem := PartStart(parts, k), |Bodies(parts[..k])|, Image(parts) + rest;
    BodySlice(parts, k);
    assert mem[a..a + |parts[k]|] == Bodies(parts)[s..s + |parts[k]|];
  }

  lemma FirstStarts(parts: seq<Part>)
    requires |parts| >= 1
    ensures PartStart(parts, 0) == 4 * |parts| + 4
    ensures |parts| >= 2 ==> PartStart(parts, 1) == 4 * |parts| + 4 + RoundUp(|parts[0]|)
  {
    assert parts[..0] == [];
    if |parts| >= 2 { assert parts[..1] == [parts[0]] && parts[..1][..0] == []; }
  }

  /** Whatever bytes the image is part of, do_bootm loads exactly its first part. */
  method Kernel(ghost parts: seq<Part>, ghost rest: seq<Octet>, mem: seq<Octet>) returns (data: nat, len: nat)
    requires Sized(parts) && parts != [] && mem == Image(parts) + rest
    ensures data + len <= |mem| && mem[data..data + len] == parts[0]
  {
    hide WordAt, Image;
    TableInMemory(parts, rest, 0);
    len := WordAt(mem, 0);
    data := SkipTable(parts, rest, mem);
    FirstStarts(parts);
    PartInMemory(parts, rest, 0);
  }

  /** The loop over the table that both users of an image share: past the terminator. */
  method SkipTable(ghost parts: seq<Part>, ghost rest: seq<Octet>, mem: seq<Octet>) returns (data: nat)
    requires Sized(parts) && parts != [] && mem == Image(parts) + rest
    ensures data == 4 * |parts| + 4
  {
    hide WordAt, Image;
    data := 8;
    var i := 1;
    TableInMemory(parts, rest, 1);
    while WordAt(mem, 4 * i) != 0
      invariant 1 <= i <= |parts| && data == 4 + 4 * i && 4 * |parts| + 4 <= |mem|
      invariant WordAt(mem, 4 * i) == if i < |parts| then |parts[i]| else 0
      decreases |parts| - i
    {
      data := data + 4;
      i := i + 1;
      TableInMemory(parts, rest, i);
    }
  }

  /** do_bootm_linux takes exactly the second part for its initial ramdisk. */
  method Ramdisk(ghost parts: seq<Part>, ghost rest: seq<Octet>, mem: seq<Octet>) returns (data: nat, len: nat)
    requires Sized(parts) && |parts| >= 2 && mem == Image(parts) + rest
    ensures data + len <= |mem| && mem[data..data + len] == parts[1]
  {
    hide WordAt, Image;
    TableInMemory(parts, rest, 0);
    TableInMemory(parts, rest, 1);
    var tail := WordAt(mem, 0) % 4;
    data := SkipTable(parts, rest, mem);
    data := data + WordAt(mem, 0);
    if tail != 0 { data := data + 4 - tail; }
    len := WordAt(mem, 4);
    FirstStarts(parts);
    PartInMemory(parts, rest, 1);
  }

  // -------------------------------------------------------------------------
  // Placement

  /** x & ~(size - 1), for a power of two */
  function Down(x: u32, size: nat): (r: u32)
    requires size > 0
    ensures r <= x
  {
    x - x % size
  }

  /** The board: reach of the kernel's early mapping, room for the command line, size of bd_t. */
  datatype Board = Board(bootMapSize: u32, bargSize: u32, bdSize: u32)

  datatype Layout = Layout(limit: u32, cmdline: u32, kbd: u32, initrdStart: u32, initrdEnd: u32)

  /** The stack as it is kept clear: 2048 below the stack pointer. */
  function StackLimit(stack: u32): u32 {
    (stack - 2048) % WORD
  }

  /** Where a ramdisk goes below the stack, or below initrd_high. */
  function HighTop(stack: u32, initrdHigh: u32): u32 {
    var top := Down(StackLimit(stack), 16);
    if top > initrdHigh then initrdHigh else top
  }

  function HighStart(stack: u32, initrdHigh: u32, len: u32): u32 {
    Down((HighTop(stack, initrdHigh) - len) % WORD, 4096)
  }

  function PlacedAt(b: Board, stack: u32, initrdHigh: u32, len: u32): Layout {
    var limit := Down(if StackLimit(stack) > b.bootMapSize then b.bootMapSize else StackLimit(stack), 16);
    var cmdline := Down((limit - b.bargSize) % WORD, 16);
    var kbd := Down((cmdline - b.bdSize) % WORD, 16);
    var high := HighStart(stack, initrdHigh, len);
    var start := if initrdHigh != 0 && high >= limit then high else Down((kbd - len) % WORD, 4096);
    Layout(limit, cmdline, kbd, start, (start + len) % WORD)
  }

  /** Two ranges of addresses have nothing in common. */
  predicate Apart(a: int, m: int, b: int, n: int) {
    a + m <= b || b + n <= a
  }

  /** Board info, command line and ramdisk are whole, apart from each other and below the stack; the
      first two are within reach of the kernel; the ramdisk is aligned to a page, ends where its end is
      said to be, and at or below initrd_high if it was put above the command line. */
  predicate Fine(b: Board, stack: u32, initrdHigh: u32, len: u32, l: Layout) {
    && stack >= 2048
    && l.kbd + b.bdSize <= l.cmdline && l.cmdline + b.bargSize <= l.limit <= b.bootMapSize && l.limit <= stack - 2048
    && l.initrdStart % 4096 == 0 && l.initrdStart + len == l.initrdEnd <= stack - 2048
    && Apart(l.initrdStart, len, l.kbd, b.bdSize) && Apart(l.initrdStart, len, l.cmdline, b.bargSize)
    && (l.initrdStart >= l.limit ==> l.initrdStart + len <= initrdHigh)
  }

  /** There is room for command line and board info below the stack and within the kernel's reach, and
      above the first page. */
  predicate Roomy(b: Board, stack: u32) {
    && stack >= 2048 && 0 < b.bdSize && 0 < b.bargSize
    && var limit := Down(if stack - 2048 > b.bootMapSize then b.bootMapSize else stack - 2048, 16);
       b.bargSize <= limit && 4096 + b.bdSize as int <= Down(limit - b.bargSize, 16)
  }

  lemma TextFine(b: Board, stack: u32, initrdHigh: u32, len: u32)
    requires Roomy(b, stack)
    ensures var l := PlacedAt(b, stack, initrdHigh, len);
      && 4096 <= l.kbd && l.kbd + b.bdSize <= l.cmdline && l.cmdline + b.bargSize <= l.limit <= b.bootMapSize
      && l.limit <= Down(stack - 2048, 16)
  {
    hide HighStart, Down;
    var top := if StackLimit(stack) > b.bootMapSize then b.bootMapSize else StackLimit(stack);
    assert StackLimit(stack) == stack - 2048;
    DownBounds(stack - 2048, 16);
    DownBounds(top, 16);
    DownGrows(top, stack - 2048);
    var limit := Down(top, 16);
    DownBounds(limit - b.bargSize, 16);
    DownBounds(Down(limit - b.bargSize, 16) - b.bdSize, 16);
    DownGrows(4096, Down(limit - b.bargSize, 16) - b.bdSize);
    assert Down(4096, 16) == 4096 by { DownPage(); }
  }

  lemma DownPage()
    ensures Down(4096, 16) == 4096
  {
  }

  lemma DownBounds(x: u32, size: nat)
    requires size > 0
    ensures x - size < Down(x, size) <= x
  {
  }

  lemma DownGrows(x: u32, y: u32)
    requires x <= y
    ensures Down(x, 16) <= Down(y, 16)
  {
  }

  /** A wrapped subtraction leads close below the end of the address space. */
  lemma Wrapped(top: u32, len: u32)
    requires top < len
    ensures Down((top - len) % WORD, 4096) + len > WORD + top - 4096
  {
  }

  lemma Unwrapped(top: u32, len: u32)
    requires len <= top
    ensures var s := Down((top - len) % WORD, 4096); s % 4096 == 0 && s + len <= top
  {
  }

  lemma TopBounds(stack: u32, initrdHigh: u32)
    requires stack >= 2048
    ensures var top := HighTop(stack, initrdHigh);
      top <= stack - 2048 && top <= initrdHigh && (top == initrdHigh || stack - 2048 < top + 16)
  {
    hide Down;
    DownBounds(stack - 2048, 16);
  }

  lemma HighFine(b: Board, stack: u32, initrdHigh: u32, len: u32, l: Layout)
    requires Roomy(b, stack) && 0 < len && l.limit <= Down(stack - 2048, 16)
    requires l.kbd + b.bdSize <= l.cmdline && l.cmdline + b.bargSize <= l.limit <= b.bootMapSize
    requires l.initrdStart == HighStart(stack, initrdHigh, len) >= l.limit && l.initrdEnd == (l.initrdStart + len) % WORD
    ensures Fine(b, stack, initrdHigh, len, l) <==> len <= HighTop(stack, initrdHigh)
  {
    hide HighTop, Down;
    var top := HighTop(stack, initrdHigh);
    TopBounds(stack, initrdHigh);
    DownBounds(stack - 2048, 16);
    if top < len { Wrapped(top, len); } else { Unwrapped(top, len); }
  }

  lemma LowFine(b: Board, stack: u32, initrdHigh: u32, len: u32, l: Layout)
    requires Roomy(b, stack) && 0 < len && l.limit <= Down(stack - 2048, 16)
    requires 4096 <= l.kbd && l.kbd + b.bdSize <= l.cmdline && l.cmdline + b.bargSize <= l.limit <= b.bootMapSize
    requires l.initrdStart == Down((l.kbd - len) % WORD, 4096) && l.initrdEnd == (l.initrdStart + len) % WORD
    ensures Fine(b, stack, initrdHigh, len, l) <==> len <= l.kbd
  {
    hide Down;
    DownBounds(stack - 2048, 16);
    if l.kbd < len { Wrapped(l.kbd, len); } else { Unwrapped(l.kbd, len); }
  }

  /** Placement comes out fine exactly when the subtraction that decides it does not wrap: the length of
      a ramdisk put high must not exceed the top it is put under, that of one put low not the address of
      the board info. */
  lemma PlacementExactly(b: Board, stack: u32, initrdHigh: u32, len: u32)
    requires Roomy(b, stack) && 0 < len
    ensures var l := PlacedAt(b, stack, initrdHigh, len);
      Fine(b, stack, initrdHigh, len, l) <==>
        if initrdHigh != 0 && HighStart(stack, initrdHigh, len) >= l.limit then len <= HighTop(stack, initrdHigh)
        else len <= l.kbd
  {
    TextFine(b, stack, initrdHigh, len);
    var l := PlacedAt(b, stack, initrdHigh, len);
    if initrdHigh != 0 && HighStart(stack, initrdHigh, len) >= l.limit {
      HighFine(b, stack, initrdHigh, len, l);
    } else {
      LowFine(b, stack, initrdHigh, len, l);
    }
  }

  /** Limit, command line and board info are aligned, and each less than 16 below what it goes under. */
  lemma TextTight(b: Board, stack: u32, initrdHigh: u32, len: u32)
    requires Roomy(b, stack)
    ensures var l := PlacedAt(b, stack, initrdHigh, len);
      && l.limit % 16 == l.cmdline % 16 == l.kbd % 16 == 0
      && (stack - 2048 < l.limit + 16 || b.bootMapSize < l.limit + 16)
      && l.limit < l.cmdline + b.bargSize + 16 && l.cmdline < l.kbd + b.bdSize + 16
  {
    hide Down, HighStart;
    TextFine(b, stack, initrdHigh, len);
    var l := PlacedAt(b, stack, initrdHigh, len);
    Aligned(if StackLimit(stack) > b.bootMapSize then b.bootMapSize else StackLimit(stack), 16);
    Aligned(l.limit - b.bargSize, 16);
    Aligned(l.cmdline - b.bdSize, 16);
  }

  /** A ramdisk that comes out fine ends less than a page below what it goes under: the stack, initrd_high
      or the board info. */
  lemma RamdiskTight(b: Board, stack: u32, initrdHigh: u32, len: u32)
    requires Roomy(b, stack) && 0 < len && Fine(b, stack, initrdHigh, len, PlacedAt(b, stack, initrdHigh, len))
    ensures var l := PlacedAt(b, stack, initrdHigh, len);
      if l.initrdStart >= l.limit then stack - 2048 < l.initrdEnd + 16 + 4096 || initrdHigh < l.initrdEnd + 4096
      else l.kbd < l.initrdEnd + 4096
  {
    hide Down, HighTop, Roomy;
    PlacementExactly(b, stack, initrdHigh, len);
    RoomyStack(b, stack);
    TopBounds(stack, initrdHigh);
    var l := PlacedAt(b, stack, initrdHigh, len);
    if initrdHigh != 0 && HighStart(stack, initrdHigh, len) >= l.limit {
      Aligned(HighTop(stack, initrdHigh) - len, 4096);
    } else {
      Aligned(l.kbd - len, 4096);
    }
  }

  lemma RoomyStack(b: Board, stack: u32)
    requires Roomy(b, stack)
    ensures stack >= 2048 && 0 < b.bdSize && 0 < b.bargSize
  {
  }

  lemma Aligned(x: u32, size: nat)
    requires size > 0
    ensures Down(x, size) % size == 0 && x < Down(x, size) + size
  {
    DivUnique(x - x % size, x / size, 0, size);
  }

  /** The arithmetic of do_bootm_linux, for a ramdisk that is copied; all of it wraps. */
  method Place(b: Board, stack: u32, initrdHigh: u32, len: u32) returns (l: Layout)
    ensures l == PlacedAt(b, stack, initrdHigh, len)
    ensures Roomy(b, stack) && 0 < len ==>
      (Fine(b, stack, initrdHigh, len, l) <==>
         if initrdHigh != 0 && HighStart(stack, initrdHigh, len) >= l.limit then len <= HighTop(stack, initrdHigh)
         else len <= l.kbd)
  {
    hide Down, Fine, Roomy;
    var sp := (stack - 2048) % WORD;
    if sp > b.bootMapSize { sp := b.bootMapSize; }
    sp := Down(sp, 16);
    var cmdline := Down((sp - b.bargSize) % WORD, 16);
    var kbd := Down((cmdline - b.bdSize) % WORD, 16);
    var initrdStart := Down((kbd - len) % WORD, 4096);
    if initrdHigh != 0 {
      var nsp := Down((stack - 2048) % WORD, 16);
      if nsp > initrdHigh { nsp := initrdHigh; }
      nsp := Down((nsp - len) % WORD, 4096);
      if nsp >= sp { initrdStart := nsp; }
    }
    l := Layout(sp, cmdline, kbd, initrdStart, (initrdStart + len) % WORD);
    if Roomy(b, stack) && 0 < len { PlacementExactly(b, stack, initrdHigh, len); }
  }

  /** A limit on the ramdisk's end that is smaller than the ramdisk: the subtraction wraps, and instead
      of going below the command line the ramdisk goes to the end of the address space. */
  lemma SmallLimitAstray()
    ensures var b := Board(0x80_0000, 512, 128); var l := PlacedAt(b, 0x200_0000, 0x10_0000, 0x20_0000);
      Roomy(b, 0x200_0000) && l.initrdStart == 0xFFF0_0000 && !Fine(b, 0x200_0000, 0x10_0000, 0x20_0000, l)
  {
    hide Down;
    var b := Board(0x80_0000, 512, 128);
    SmallTop();
    SmallRoom();
    TextFine(b, 0x200_0000, 0x10_0000, 0x20_0000);
    PlacementExactly(b, 0x200_0000, 0x10_0000, 0x20_0000);
  }

  lemma SmallRoom()
    ensures Roomy(Board(0x80_0000, 512, 128), 0x200_0000)
  {
    assert Down(0x80_0000, 16) == 0x80_0000 && Down(0x7F_FE00, 16) == 0x7F_FE00;
  }

  lemma SmallTop()
    ensures HighTop(0x200_0000, 0x10_0000) == 0x10_0000 && HighStart(0x200_0000, 0x10_0000, 0x20_0000) == 0xFFF0_0000
  {
    assert StackLimit(0x200_0000) == 0x1FF_F800;
    assert Down(0x1FF_F800, 16) == 0x1FF_F800;
    assert HighTop(0x200_0000, 0x10_0000) == 0x10_0000;
    hide HighTop;
  }
}
