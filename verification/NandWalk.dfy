/** The walk over erase blocks that nand_rw makes, as a plan of pages, and what carrying the plan
    out means for the chip and for the caller's buffer. */
module NandWalk {
  import opened NandEcc
  import opened NandPage
  import opened Division

  type Flash = seq<Raw>

  const READ_FILL := 3   // NANDRW_READ | NANDRW_JFFS2
  const READ_SKIP := 7   // NANDRW_READ | NANDRW_JFFS2 | NANDRW_JFFS2_SKIP
  const WRITE_SKIP := 2  // NANDRW_WRITE | NANDRW_JFFS2

  predicate WholeBlocks(f: Flash, ppb: nat) {
    ppb > 0 && |f| % ppb == 0
  }

  /** First page of the erase block of page p. */
  function BlockStart(p: nat, ppb: nat): (q: nat)
    requires ppb > 0
    ensures q <= p
  {
    p - p % ppb
  }

  /** check_block: the block starting at page q is invalid or carries a bad-block marker on its
      first or second page. */
  predicate BadBlock(c: OobConfig, f: Flash, q: nat)
    requires ValidConfig(c)
  {
    if q + 1 >= |f| then true
    else c.badblockPos != -1 && (f[q][OOBBLOCK + c.badblockPos] != 0xff || f[q + 1][OOBBLOCK + c.badblockPos] != 0xff)
  }

  datatype Step = Page(p: nat) | Blank | Stop

  /** The pages visited for n pages from page p, in order: Blank is a page of a bad block reported
      as erased, Stop a bad block that ends the request. A request that would skip beyond the end
      of the chip, where the driver would walk on for ever, also ends in Stop. */
  function Plan(c: OobConfig, f: Flash, ppb: nat, cmd: nat, p: nat, n: nat): (plan: seq<Step>)
    requires ValidConfig(c) && ppb > 0
    ensures |plan| <= n
    decreases n, if p < |f| then |f| - p else 0
  {
    if n == 0 then []
    else if !BadBlock(c, f, BlockStart(p, ppb)) then [Page(p)] + Plan(c, f, ppb, cmd, p + 1, n - 1)
    else if cmd == READ_FILL then [Blank] + Plan(c, f, ppb, cmd, p + 1, n - 1)
    else if cmd == READ_SKIP || cmd == WRITE_SKIP then
      if p >= |f| then [Stop] else Plan(c, f, ppb, cmd, p + ppb, n)
    else [Stop]
  }

  /** The chip after one step of a plan was programmed with one page of data. */
  function WriteStep(c: OobConfig, f: Flash, s: Step, d: seq<Byte>): (r: Flash)
    requires ValidConfig(c) && |d| == OOBBLOCK
    ensures |r| == |f|
  {
    if s.Page? && s.p < |f| then f[s.p := Program(f[s.p], PageImage(c, d, OOBBLOCK))] else f
  }

  /** The chip after the plan's pages were programmed from buf. */
  function WriteAll(c: OobConfig, f: Flash, plan: seq<Step>, buf: seq<Byte>): (r: Flash)
    requires ValidConfig(c) && |buf| >= OOBBLOCK * |plan|
    ensures |r| == |f|
    decreases |plan|
  {
    if plan == [] || plan[0].Stop? then f
    else WriteAll(c, WriteStep(c, f, plan[0], buf[..OOBBLOCK]), plan[1..], buf[OOBBLOCK..])
  }

  function StepData(c: OobConfig, f: Flash, s: Step): (d: seq<Byte>)
    requires ValidConfig(c)
    ensures |d| == OOBBLOCK
  {
    if s.Page? && s.p < |f| then PageData(c, f[s.p]) else Erased(OOBBLOCK)
  }

  /** The data the plan's pages deliver. */
  function ReadAll(c: OobConfig, f: Flash, plan: seq<Step>): seq<Byte>
    requires ValidConfig(c)
  {
    if plan == [] || plan[0].Stop? then []
    else StepData(c, f, plan[0]) + ReadAll(c, f, plan[1..])
  }

  predicate StepReadable(c: OobConfig, f: Flash, s: Step)
    requires ValidConfig(c)
  {
    s.Page? && s.p < |f| ==> PageReadable(c, f[s.p])
  }

  predicate AllReadable(c: OobConfig, f: Flash, plan: seq<Step>)
    requires ValidConfig(c)
  {
    forall i :: 0 <= i < |plan| ==> StepReadable(c, f, plan[i])
  }

  // -------------------------------------------------------------------------
  // What plans look like

  lemma ModFacts(p: nat, ppb: nat)
    requires ppb > 0
    ensures (p + ppb) % ppb == p % ppb
    ensures p % ppb + 1 < ppb ==> (p + 1) % ppb == p % ppb + 1
    ensures p % ppb + 1 == ppb ==> (p + 1) % ppb == 0
  {
    var d, m := p / ppb, p % ppb;
    Distribute(d, 1, ppb);
    DivUnique(p + ppb, d + 1, m, ppb);
    if m + 1 < ppb {
      DivUnique(p + 1, d, m + 1, ppb);
    } else {
      DivUnique(p + 1, d + 1, 0, ppb);
    }
  }

  ghost predicate Ascending(plan: seq<Step>) {
    forall i, j :: 0 <= i < j < |plan| && plan[i].Page? && plan[j].Page? ==> plan[i].p < plan[j].p
  }

  /** Every page of a plan lies in a good block, and the pages ascend. */
  lemma {:induction false} PlanPages(c: OobConfig, f: Flash, ppb: nat, cmd: nat, p: nat, n: nat)
    requires ValidConfig(c) && ppb > 1 && WholeBlocks(f, ppb)
    ensures |Plan(c, f, ppb, cmd, p, n)| <= n
    ensures forall i :: 0 <= i < |Plan(c, f, ppb, cmd, p, n)| && Plan(c, f, ppb, cmd, p, n)[i].Page? ==>
              var q := Plan(c, f, ppb, cmd, p, n)[i].p;
              p <= q < |f| && !BadBlock(c, f, BlockStart(q, ppb))
    ensures Ascending(Plan(c, f, ppb, cmd, p, n))
    decreases n, if p < |f| then |f| - p else 0
  {
    hide BadBlock;
    if n > 0 {
      if !BadBlock(c, f, BlockStart(p, ppb)) {
        BlockInside(c, f, ppb, p);
        PlanPages(c, f, ppb, cmd, p + 1, n - 1);
      } else if cmd == READ_FILL {
        PlanPages(c, f, ppb, cmd, p + 1, n - 1);
      } else if (cmd == READ_SKIP || cmd == WRITE_SKIP) && p < |f| {
        PlanPages(c, f, ppb, cmd, p + ppb, n);
      }
    }
  }

  /** The pages of a block that starts inside the chip all lie inside it. */
  lemma BlockInside(c: OobConfig, f: Flash, ppb: nat, p: nat)
    requires ValidConfig(c) && ppb > 1 && WholeBlocks(f, ppb) && !BadBlock(c, f, BlockStart(p, ppb))
    ensures BlockStart(p, ppb) + ppb <= |f|
  {
    hide BadBlock;
    InsideBlock(c, f, ppb, p);
    NextMultiple(p / ppb, |f| / ppb, ppb);
  }

  lemma InsideBlock(c: OobConfig, f: Flash, ppb: nat, p: nat)
    requires ValidConfig(c) && ppb > 0 && WholeBlocks(f, ppb) && !BadBlock(c, f, BlockStart(p, ppb))
    ensures BlockStart(p, ppb) == p / ppb * ppb < |f| == |f| / ppb * ppb
  {
  }

  // -------------------------------------------------------------------------
  // Skip-write, then skip-read

  /** Block markers are the same on two chips. */
  ghost predicate SameMarkers(c: OobConfig, f: Flash, g: Flash)
    requires ValidConfig(c)
  {
    && |f| == |g|
    && (c.badblockPos != -1 ==>
          forall i :: 0 <= i < |f| ==> f[i][OOBBLOCK + c.badblockPos] == g[i][OOBBLOCK + c.badblockPos])
  }

  predicate IsSkip(cmd: nat) {
    cmd == READ_SKIP || cmd == WRITE_SKIP
  }

  /** The same markers give the same walk, reading or writing. */
  lemma {:induction false} SamePlan(c: OobConfig, f: Flash, g: Flash, ppb: nat, cmd: nat, cmd': nat, p: nat, n: nat)
    requires ValidConfig(c) && ppb > 0 && SameMarkers(c, f, g)
    requires cmd == cmd' || (IsSkip(cmd) && IsSkip(cmd'))
    ensures Plan(c, f, ppb, cmd, p, n) == Plan(c, g, ppb, cmd', p, n)
    decreases n, if p < |f| then |f| - p else 0
  {
    if n > 0 {
      SamePlan(c, f, g, ppb, cmd, cmd', p + 1, n - 1);
      if p < |f| { SamePlan(c, f, g, ppb, cmd, cmd', p + ppb, n); }
    }
  }

  /** Good blocks from the block that starts at page q up to the end of the chip. */
  function GoodBlocks(c: OobConfig, f: Flash, ppb: nat, q: nat): nat
    requires ValidConfig(c) && ppb > 0
    decreases if q < |f| then |f| - q else 0
  {
    if q >= |f| then 0 else (if BadBlock(c, f, q) then 0 else 1) + GoodBlocks(c, f, ppb, q + ppb)
  }

  /** There are n good pages to come: the first good block is entered at the place of p in its block,
      the others at their first page. */
  predicate HasRoom(c: OobConfig, f: Flash, ppb: nat, p: nat, n: nat)
    requires ValidConfig(c) && ppb > 0
  {
    var g := GoodBlocks(c, f, ppb, BlockStart(p, ppb));
    n > 0 ==> g > 0 && n <= g * ppb - p % ppb
  }

  /** Beyond the end of a chip of whole blocks there is no block. */
  lemma StartsBeyond(f: Flash, ppb: nat, p: nat)
    requires WholeBlocks(f, ppb)
    ensures p >= |f| ==> BlockStart(p, ppb) >= |f|
  {
    if p >= |f| && BlockStart(p, ppb) < |f| {
      NextMultiple(p / ppb, |f| / ppb, ppb);
    }
  }

  /** What one page more of a block leaves. */
  lemma RoomStep(c: OobConfig, f: Flash, ppb: nat, p: nat, n: nat)
    requires ValidConfig(c) && ppb > 1 && WholeBlocks(f, ppb) && n > 0 && !BadBlock(c, f, BlockStart(p, ppb))
    ensures HasRoom(c, f, ppb, p, n) <==> HasRoom(c, f, ppb, p + 1, n - 1)
  {
    hide BadBlock;
    var q := BlockStart(p, ppb);
    BlockInside(c, f, ppb, p);
    ModFacts(p, ppb);
    BlockStep(p, ppb);
    var g, h := GoodBlocks(c, f, ppb, q), GoodBlocks(c, f, ppb, q + ppb);
    assert g == 1 + h;
    Distribute(h, 1, ppb);
    if n > 1 && h > 0 { MulGrows(1, h, ppb); }
  }

  lemma RoomSkip(c: OobConfig, f: Flash, ppb: nat, p: nat, n: nat)
    requires ValidConfig(c) && ppb > 0 && WholeBlocks(f, ppb) && p < |f| && BadBlock(c, f, BlockStart(p, ppb))
    ensures HasRoom(c, f, ppb, p, n) <==> HasRoom(c, f, ppb, p + ppb, n)
  {
    hide BadBlock;
    ModFacts(p, ppb);
  }

  /** The exact condition for a skipping walk to come to its end: the good blocks from the start on have
      room for the pages asked for. */
  lemma {:induction false} CapacityExactly(c: OobConfig, f: Flash, ppb: nat, cmd: nat, p: nat, n: nat)
    requires ValidConfig(c) && ppb > 1 && WholeBlocks(f, ppb) && IsSkip(cmd)
    ensures Stop !in Plan(c, f, ppb, cmd, p, n) <==> HasRoom(c, f, ppb, p, n)
    decreases n, if p < |f| then |f| - p else 0
  {
    hide BadBlock, HasRoom, GoodBlocks;
    if n == 0 {
      NoRoomNeeded(c, f, ppb, p);
    } else if !BadBlock(c, f, BlockStart(p, ppb)) {
      CapacityExactly(c, f, ppb, cmd, p + 1, n - 1);
      RoomStep(c, f, ppb, p, n);
    } else if p < |f| {
      CapacityExactly(c, f, ppb, cmd, p + ppb, n);
      RoomSkip(c, f, ppb, p, n);
    } else {
      StartsBeyond(f, ppb, p);
      NoRoomBeyond(c, f, ppb, p, n);
      BeyondStops(c, f, ppb, cmd, p, n);
    }
  }

  lemma NoRoomNeeded(c: OobConfig, f: Flash, ppb: nat, p: nat)
    requires ValidConfig(c) && ppb > 0
    ensures HasRoom(c, f, ppb, p, 0)
  {
  }

  lemma NoRoomBeyond(c: OobConfig, f: Flash, ppb: nat, p: nat, n: nat)
    requires ValidConfig(c) && ppb > 0 && n > 0 && BlockStart(p, ppb) >= |f|
    ensures !HasRoom(c, f, ppb, p, n)
  {
  }

  /** A skipping walk that does not run off the chip visits as many good pages as were asked for. */
  lemma {:induction false} SkipIsComplete(c: OobConfig, f: Flash, ppb: nat, cmd: nat, p: nat, n: nat)
    requires ValidConfig(c) && ppb > 0 && IsSkip(cmd)
    requires Stop !in Plan(c, f, ppb, cmd, p, n)
    ensures |Plan(c, f, ppb, cmd, p, n)| == n
    ensures forall i :: 0 <= i < n ==> Plan(c, f, ppb, cmd, p, n)[i].Page?
    decreases n, if p < |f| then |f| - p else 0
  {
    if n > 0 {
      if !BadBlock(c, f, BlockStart(p, ppb)) {
        assert Plan(c, f, ppb, cmd, p, n)[1..] == Plan(c, f, ppb, cmd, p + 1, n - 1);
        SkipIsComplete(c, f, ppb, cmd, p + 1, n - 1);
      } else if p < |f| {
        SkipIsComplete(c, f, ppb, cmd, p + ppb, n);
      }
    }
  }

  lemma ProgramKeepsMarker(c: OobConfig, cell: Raw, d: seq<Byte>)
    requires ValidConfig(c) && |d| == OOBBLOCK && c.badblockPos != -1
    ensures Program(cell, PageImage(c, d, OOBBLOCK))[OOBBLOCK + c.badblockPos] == cell[OOBBLOCK + c.badblockPos]
  {
    hide And, OobOf;
    OobOfFullPage(c, d);
    AndErased(cell[OOBBLOCK + c.badblockPos]);
  }

  /** Writing never changes which blocks are bad. */
  lemma {:induction false} WriteAllKeepsMarkers(c: OobConfig, f: Flash, plan: seq<Step>, buf: seq<Byte>)
    requires ValidConfig(c) && |buf| >= OOBBLOCK * |plan|
    ensures SameMarkers(c, f, WriteAll(c, f, plan, buf))
    decreases |plan|
  {
    if plan != [] && !plan[0].Stop? {
      var d := buf[..OOBBLOCK];
      var g := WriteStep(c, f, plan[0], d);
      if plan[0].Page? && plan[0].p < |f| && c.badblockPos != -1 {
        ProgramKeepsMarker(c, f[plan[0].p], d);
      }
      hide WriteStep, Program, PageImage;
      WriteAllKeepsMarkers(c, g, plan[1..], buf[OOBBLOCK..]);
    }
  }

  function Chunk(buf: seq<Byte>, i: nat): (d: seq<Byte>)
    requires OOBBLOCK * (i + 1) <= |buf|
    ensures |d| == OOBBLOCK
  {
    buf[OOBBLOCK * i..OOBBLOCK * (i + 1)]
  }

  ghost predicate AllPages(f: Flash, plan: seq<Step>) {
    forall i :: 0 <= i < |plan| ==> plan[i].Page? && plan[i].p < |f|
  }

  /** Carrying out a plan over erased pages leaves the image of each chunk on its page and does not
      touch any other page. */
  lemma {:induction false} WriteAllResult(c: OobConfig, f: Flash, plan: seq<Step>, buf: seq<Byte>)
    requires ValidConfig(c) && |buf| >= OOBBLOCK * |plan| && AllPages(f, plan) && Ascending(plan)
    ensures forall q :: 0 <= q < |f| && (forall i :: 0 <= i < |plan| ==> plan[i].p != q) ==> WriteAll(c, f, plan, buf)[q] == f[q]
    ensures forall i :: 0 <= i < |plan| ==>
              WriteAll(c, f, plan, buf)[plan[i].p] == Program(f[plan[i].p], PageImage(c, Chunk(buf, i), OOBBLOCK))
    decreases |plan|
  {
    hide Program, PageImage;
    if plan != [] {
      var g := WriteStep(c, f, plan[0], buf[..OOBBLOCK]);
      var rest, tail := plan[1..], buf[OOBBLOCK..];
      WriteAllResult(c, g, rest, tail);
      var r := WriteAll(c, g, rest, tail);
      assert buf[..OOBBLOCK] == Chunk(buf, 0);
      assert forall i :: 0 <= i < |rest| ==> rest[i] == plan[i + 1] && plan[i + 1].p != plan[0].p;
      forall i | 0 <= i < |plan|
        ensures r[plan[i].p] == Program(f[plan[i].p], PageImage(c, Chunk(buf, i), OOBBLOCK))
      {
        if i > 0 {
          assert rest[i - 1] == plan[i];
          ChunkOfTail(buf, i - 1);
        }
      }
      forall q | 0 <= q < |f| && (forall i :: 0 <= i < |plan| ==> plan[i].p != q) ensures r[q] == f[q] {
        assert plan[0].p != q;
        assert forall i :: 0 <= i < |rest| ==> rest[i].p != q;
      }
    }
  }

  lemma ChunkOfTail(buf: seq<Byte>, i: nat)
    requires OOBBLOCK * (i + 2) <= |buf|
    ensures Chunk(buf[OOBBLOCK..], i) == Chunk(buf, i + 1)
  {
    var tail, at := buf[OOBBLOCK..], OOBBLOCK * i;
    assert tail[at..at + OOBBLOCK] == buf[OOBBLOCK + at..OOBBLOCK + at + OOBBLOCK];
  }

  /** If every page of the plan delivers its chunk, the plan delivers the buffer. */
  lemma {:induction false} ReadAllResult(c: OobConfig, f: Flash, plan: seq<Step>, buf: seq<Byte>)
    requires ValidConfig(c) && |buf| == OOBBLOCK * |plan| && AllPages(f, plan)
    requires forall i :: 0 <= i < |plan| ==> PageData(c, f[plan[i].p]) == Chunk(buf, i)
    ensures ReadAll(c, f, plan) == buf
  {
    if plan != [] {
      var rest, tail := plan[1..], buf[OOBBLOCK..];
      forall i | 0 <= i < |rest| ensures PageData(c, f[rest[i].p]) == Chunk(tail, i) {
        assert rest[i] == plan[i + 1];
        ChunkOfTail(buf, i);
      }
      ReadAllResult(c, f, rest, tail);
      assert buf == Chunk(buf, 0) + tail;
    }
  }

  /** The pages a plan is about to write are erased. */
  ghost predicate ErasedTargets(f: Flash, plan: seq<Step>) {
    forall i :: 0 <= i < |plan| && plan[i].Page? && plan[i].p < |f| ==> f[plan[i].p] == Erased(RAW)
  }

  /** A chip whose bad-block markers are intact, and on which the pages of a plan each took at most one
      flipped bit per half. What happened to other pages does not matter. */
  ghost predicate Aged(c: OobConfig, f: Flash, g: Flash, plan: seq<Step>)
    requires ValidConfig(c)
  {
    SameMarkers(c, f, g) && forall i :: 0 <= i < |plan| && plan[i].Page? && plan[i].p < |f| ==> Disturbed(c, f[plan[i].p], g[plan[i].p])
  }

  lemma {:induction false} AgedReadBack(c: OobConfig, f: Flash, plan: seq<Step>, buf: seq<Byte>, g: Flash)
    requires ValidConfig(c) && c.eccvalidPos != -1 && |buf| == OOBBLOCK * |plan|
    requires AllPages(f, plan) && Ascending(plan) && ErasedTargets(f, plan)
    requires Aged(c, WriteAll(c, f, plan, buf), g, plan)
    ensures AllReadable(c, g, plan) && ReadAll(c, g, plan) == buf
  {
    var written := WriteAll(c, f, plan, buf);
    hide Program, PageImage, PageData, PageReadable, WriteAll, Disturbed, Erased;
    WriteAllResult(c, f, plan, buf);
    forall i | 0 <= i < |plan| ensures PageReadable(c, g[plan[i].p]) && PageData(c, g[plan[i].p]) == Chunk(buf, i) {
      ProgramErased(PageImage(c, Chunk(buf, i), OOBBLOCK));
      PageRoundTrip(c, Chunk(buf, i), g[plan[i].p]);
    }
    ReadAllResult(c, g, plan, buf);
  }

  /** End to end: over any bad-block map with enough good blocks, a skip-write of buf onto erased pages,
      then at most one flipped bit in each half of each page written, then a skip-read from the same
      page visits the same good pages and returns buf, every page readable. */
  lemma {:induction false} SkipRoundTrip(c: OobConfig, f: Flash, ppb: nat, p: nat, n: nat, buf: seq<Byte>, g: Flash, plan: seq<Step>)
    requires ValidConfig(c) && c.eccvalidPos != -1 && ppb > 1 && WholeBlocks(f, ppb) && |buf| == OOBBLOCK * n
    requires HasRoom(c, f, ppb, p, n) && plan == Plan(c, f, ppb, WRITE_SKIP, p, n) && ErasedTargets(f, plan)
    requires Aged(c, WriteAll(c, f, plan, buf), g, plan)
    ensures Plan(c, g, ppb, READ_SKIP, p, n) == plan
    ensures AllReadable(c, g, plan) && ReadAll(c, g, plan) == buf
  {
    hide PageImage, PageData, PageReadable, WriteAll, Disturbed, Erased, HasRoom;
    CapacityExactly(c, f, ppb, WRITE_SKIP, p, n);
    PlanPages(c, f, ppb, WRITE_SKIP, p, n);
    SkipIsComplete(c, f, ppb, WRITE_SKIP, p, n);
    WriteAllKeepsMarkers(c, f, plan, buf);
    SamePlan(c, f, g, ppb, WRITE_SKIP, READ_SKIP, p, n);
    AgedReadBack(c, f, plan, buf, g);
  }

  // -------------------------------------------------------------------------
  // Runs of pages inside one block

  function Run(p: nat, m: nat): (r: seq<Step>)
    ensures |r| == m
  {
    seq(m, i requires 0 <= i < m => Page(p + i))
  }

  /** Steps carried out before a Stop. */
  function Done(plan: seq<Step>): (n: nat)
    ensures n <= |plan|
  {
    if plan == [] || plan[0].Stop? then 0 else 1 + Done(plan[1..])
  }

  lemma BlockStep(p: nat, ppb: nat)
    requires ppb > 0
    ensures p + 1 < BlockStart(p, ppb) + ppb ==> BlockStart(p + 1, ppb) == BlockStart(p, ppb)
    ensures p + 1 == BlockStart(p, ppb) + ppb ==> BlockStart(p + 1, ppb) == p + 1
    ensures p < BlockStart(p, ppb) + ppb
    ensures BlockStart(p + ppb, ppb) == BlockStart(p, ppb) + ppb
  {
    ModFacts(p, ppb);
  }

  /** Inside a good block a plan is a run of pages, then whatever follows. */
  lemma {:induction false} PlanRun(c: OobConfig, f: Flash, ppb: nat, cmd: nat, p: nat, n: nat, m: nat)
    requires ValidConfig(c) && ppb > 0 && m <= n && p + m <= BlockStart(p, ppb) + ppb
    requires !BadBlock(c, f, BlockStart(p, ppb))
    ensures Plan(c, f, ppb, cmd, p, n) == Run(p, m) + Plan(c, f, ppb, cmd, p + m, n - m)
    ensures m > 0 ==> BlockStart(p + m, ppb) == if p + m == BlockStart(p, ppb) + ppb then p + m else BlockStart(p, ppb)
    decreases m
  {
    hide BadBlock, BlockStart;
    if m > 0 {
      BlockStep(p, ppb);
      if m > 1 { PlanRun(c, f, ppb, cmd, p + 1, n - 1, m - 1); }
      assert Run(p, m) == [Page(p)] + Run(p + 1, m - 1);
    }
  }

  lemma {:induction false} ReadAllAppend(c: OobConfig, f: Flash, a: seq<Step>, b: seq<Step>)
    requires ValidConfig(c) && Stop !in a
    ensures ReadAll(c, f, a + b) == ReadAll(c, f, a) + ReadAll(c, f, b)
    ensures |ReadAll(c, f, a)| == OOBBLOCK * |a|
    ensures Done(a + b) == |a| + Done(b)
  {
    hide StepData;
    if a == [] {
      assert a + b == b;
    } else {
      assert (a + b)[1..] == a[1..] + b;
      ReadAllAppend(c, f, a[1..], b);
    }
  }

  lemma {:induction false} WriteAllAppend(c: OobConfig, f: Flash, a: seq<Step>, b: seq<Step>, buf: seq<Byte>)
    requires ValidConfig(c) && Stop !in a && |buf| >= OOBBLOCK * |a + b|
    ensures WriteAll(c, f, a + b, buf)
         == WriteAll(c, WriteAll(c, f, a, buf[..OOBBLOCK * |a|]), b, buf[OOBBLOCK * |a|..])
    decreases |a|
  {
    hide WriteStep;
    if a == [] {
      assert a + b == b && buf[OOBBLOCK * 0..] == buf;
    } else {
      assert (a + b)[1..] == a[1..] + b;
      var cut := OOBBLOCK * |a|;
      assert buf[..cut][..OOBBLOCK] == buf[..OOBBLOCK];
      assert buf[..cut][OOBBLOCK..] == buf[OOBBLOCK..][..cut - OOBBLOCK];
      assert buf[OOBBLOCK..][cut - OOBBLOCK..] == buf[cut..];
      WriteAllAppend(c, WriteStep(c, f, a[0], buf[..OOBBLOCK]), a[1..], b, buf[OOBBLOCK..]);
    }
  }

  // -------------------------------------------------------------------------
  // The state of nand_rw's loop: what is done, and the plan that is left

  /** A request: the chip and the buffer as they were at the call. */
  datatype Request = Request(cmd: nat, start: nat, len: nat, f: Flash, buf: seq<Byte>)

  /** The command has the bit NANDRW_READ. */
  predicate Reads(cmd: nat) {
    cmd % 2 == 1
  }

  ghost function Whole(c: OobConfig, ppb: nat, r: Request): seq<Step>
    requires ValidConfig(c) && ppb > 0
  {
    Plan(c, r.f, ppb, r.cmd, r.start, r.len)
  }

  ghost predicate ReadSoFar(c: OobConfig, r: Request, plan: seq<Step>, left: seq<Step>, f: Flash, total: nat, b: seq<Byte>)
    requires ValidConfig(c) && OOBBLOCK * total <= |b| == |r.buf|
  {
    && f == r.f
    && b[OOBBLOCK * total..] == r.buf[OOBBLOCK * total..]
    && ReadAll(c, f, plan) == b[..OOBBLOCK * total] + ReadAll(c, f, left)
    && (AllReadable(c, f, plan) <==> AllReadable(c, f, left))
  }

  ghost predicate WrittenSoFar(c: OobConfig, r: Request, plan: seq<Step>, left: seq<Step>, f: Flash, total: nat, b: seq<Byte>)
    requires ValidConfig(c) && OOBBLOCK * |plan| <= |r.buf| && OOBBLOCK * (total + |left|) <= |r.buf|
  {
    b == r.buf && WriteAll(c, r.f, plan, r.buf) == WriteAll(c, f, left, r.buf[OOBBLOCK * total..])
  }

  /** After total pages, with n pages to go from page p. */
  ghost predicate Progress(c: OobConfig, ppb: nat, r: Request, f: Flash, p: nat, n: nat, total: nat, b: seq<Byte>)
    requires ValidConfig(c) && ppb > 0
  {
    var plan, left := Whole(c, ppb, r), Plan(c, r.f, ppb, r.cmd, p, n);
    && total + n == r.len && |b| == |r.buf| && OOBBLOCK * r.len <= |r.buf|
    && |plan| <= r.len && |left| <= n
    && SameMarkers(c, r.f, f)
    && Done(plan) == total + Done(left)
    && (Stop in plan <==> Stop in left)
    && if Reads(r.cmd) then ReadSoFar(c, r, plan, left, f, total, b) else WrittenSoFar(c, r, plan, left, f, total, b)
  }

  lemma ProgressStarts(c: OobConfig, ppb: nat, r: Request)
    requires ValidConfig(c) && ppb > 1 && WholeBlocks(r.f, ppb) && OOBBLOCK * r.len <= |r.buf|
    ensures Progress(c, ppb, r, r.f, r.start, r.len, 0, r.buf)
  {
    hide ReadAll, WriteAll, AllReadable;
    PlanPages(c, r.f, ppb, r.cmd, r.start, r.len);
    assert r.buf[OOBBLOCK * 0..] == r.buf;
  }

  lemma {:induction false} BeyondStops(c: OobConfig, f: Flash, ppb: nat, cmd: nat, p: nat, n: nat)
    requires ValidConfig(c) && ppb > 0 && n > 0 && p >= |f| && IsSkip(cmd) && BadBlock(c, f, BlockStart(p, ppb))
    ensures Stop in Plan(c, f, ppb, cmd, p, n)
  {
    hide BadBlock;
    assert Plan(c, f, ppb, cmd, p, n)[0] == Stop;
  }

  /** A bad block is skipped. */
  lemma SkipProgress(c: OobConfig, ppb: nat, r: Request, f: Flash, p: nat, n: nat, total: nat, b: seq<Byte>)
    requires ValidConfig(c) && ppb > 0 && n > 0 && Progress(c, ppb, r, f, p, n, total, b)
    requires BadBlock(c, r.f, BlockStart(p, ppb)) && IsSkip(r.cmd) && Stop !in Whole(c, ppb, r)
    ensures p < |r.f| && Progress(c, ppb, r, f, p + ppb, n, total, b)
  {
    hide ReadAll, WriteAll, AllReadable, BadBlock;
    if p >= |r.f| { BeyondStops(c, r.f, ppb, r.cmd, p, n); }
  }

  /** A page of a bad block is delivered as erased. */
  lemma BlankProgress(c: OobConfig, ppb: nat, r: Request, f: Flash, p: nat, n: nat, total: nat, b: seq<Byte>, b': seq<Byte>)
    requires ValidConfig(c) && ppb > 0 && n > 0 && Progress(c, ppb, r, f, p, n, total, b)
    requires BadBlock(c, r.f, BlockStart(p, ppb)) && r.cmd == READ_FILL
    requires b' == b[..OOBBLOCK * total] + Erased(OOBBLOCK) + b[OOBBLOCK * (total + 1)..]
    ensures Progress(c, ppb, r, f, p + 1, n - 1, total + 1, b')
  {
    hide AllReadable, BadBlock, Erased, ReadAll, WriteAll, Done, Plan, SameMarkers;
    var left, rest := Plan(c, r.f, ppb, r.cmd, p, n), Plan(c, r.f, ppb, r.cmd, p + 1, n - 1);
    PlanBlank(c, r.f, ppb, p, n);
    BlankStep(c, f, rest);
    SplitOff(b[..OOBBLOCK * total], Erased(OOBBLOCK), ReadAll(c, f, rest));
    assert b'[..OOBBLOCK * (total + 1)] == b[..OOBBLOCK * total] + Erased(OOBBLOCK);
    assert b'[OOBBLOCK * (total + 1)..] == b[OOBBLOCK * total..][OOBBLOCK..];
    assert r.buf[OOBBLOCK * (total + 1)..] == r.buf[OOBBLOCK * total..][OOBBLOCK..];
  }

  lemma SplitOff(x: seq<Byte>, y: seq<Byte>, z: seq<Byte>)
    ensures x + (y + z) == x + y + z
  {
  }

  lemma PlanBlank(c: OobConfig, f: Flash, ppb: nat, p: nat, n: nat)
    requires ValidConfig(c) && ppb > 0 && n > 0 && BadBlock(c, f, BlockStart(p, ppb))
    ensures Plan(c, f, ppb, READ_FILL, p, n) == [Blank] + Plan(c, f, ppb, READ_FILL, p + 1, n - 1)
  {
    hide BadBlock;
  }

  lemma {:induction false} BlankStep(c: OobConfig, f: Flash, rest: seq<Step>)
    requires ValidConfig(c)
    ensures ReadAll(c, f, [Blank] + rest) == Erased(OOBBLOCK) + ReadAll(c, f, rest)
    ensures AllReadable(c, f, [Blank] + rest) <==> AllReadable(c, f, rest)
    ensures Done([Blank] + rest) == 1 + Done(rest)
  {
    assert ([Blank] + rest)[1..] == rest;
    AllReadableAppend(c, f, [Blank], rest);
    assert [Blank][0] == Blank;
  }

  lemma AllReadableAppend(c: OobConfig, f: Flash, a: seq<Step>, b: seq<Step>)
    requires ValidConfig(c)
    ensures AllReadable(c, f, a + b) <==> AllReadable(c, f, a) && AllReadable(c, f, b)
  {
    hide StepReadable;
    if AllReadable(c, f, a + b) {
      forall i | 0 <= i < |a| ensures StepReadable(c, f, a[i]) { assert (a + b)[i] == a[i]; }
      forall i | 0 <= i < |b| ensures StepReadable(c, f, b[i]) { assert (a + b)[|a| + i] == b[i]; }
    }
  }

  /** A run of good pages was written. */
  lemma {:induction false} WriteProgress(c: OobConfig, ppb: nat, r: Request, f: Flash, p: nat, n: nat, total: nat, b: seq<Byte>, m: nat)
    requires ValidConfig(c) && ppb > 0 && Progress(c, ppb, r, f, p, n, total, b) && !Reads(r.cmd)
    requires !BadBlock(c, r.f, BlockStart(p, ppb)) && 0 < m <= n && p + m <= BlockStart(p, ppb) + ppb
    ensures Progress(c, ppb, r, WriteAll(c, f, Run(p, m), b[OOBBLOCK * total..OOBBLOCK * total + OOBBLOCK * m]),
                     p + m, n - m, total + m, b)
  {
    hide BadBlock, ReadAll, WriteAll, AllReadable;
    var data := b[OOBBLOCK * total..OOBBLOCK * total + OOBBLOCK * m];
    var rest := Plan(c, r.f, ppb, r.cmd, p + m, n - m);
    var tail := b[OOBBLOCK * total..];
    PlanRun(c, r.f, ppb, r.cmd, p, n, m);
    RunSteps(p, m, rest);
    assert OOBBLOCK * |Run(p, m) + rest| <= |tail|;
    WriteAllAppend(c, f, Run(p, m), rest, tail);
    assert tail[..OOBBLOCK * m] == data;
    assert tail[OOBBLOCK * m..] == b[OOBBLOCK * (total + m)..];
    WriteAllKeepsMarkers(c, f, Run(p, m), data);
  }

  lemma {:induction false} RunSteps(p: nat, m: nat, rest: seq<Step>)
    ensures Stop !in Run(p, m)
    ensures Done(Run(p, m) + rest) == m + Done(rest)
    ensures Stop in Run(p, m) + rest <==> Stop in rest
    decreases m
  {
    if m > 0 {
      RunSteps(p + 1, m - 1, rest);
      assert (Run(p, m) + rest)[1..] == Run(p + 1, m - 1) + rest;
    } else {
      assert Run(p, m) + rest == rest;
    }
  }

  /** A run of good pages was read. */
  lemma {:induction false} ReadProgress(c: OobConfig, ppb: nat, r: Request, f: Flash, p: nat, n: nat, total: nat,
                                        b: seq<Byte>, m: nat, b': seq<Byte>)
    requires ValidConfig(c) && ppb > 0 && Progress(c, ppb, r, f, p, n, total, b) && Reads(r.cmd)
    requires !BadBlock(c, r.f, BlockStart(p, ppb)) && 0 < m <= n && p + m <= BlockStart(p, ppb) + ppb
    requires b' == b[..OOBBLOCK * total] + ReadAll(c, f, Run(p, m)) + b[OOBBLOCK * total + OOBBLOCK * m..]
    ensures !AllReadable(c, f, Run(p, m)) ==> !AllReadable(c, r.f, Whole(c, ppb, r))
    ensures AllReadable(c, f, Run(p, m)) ==> Progress(c, ppb, r, f, p + m, n - m, total + m, b')
  {
    hide BadBlock, ReadAll, WriteAll, AllReadable;
    var rest := Plan(c, r.f, ppb, r.cmd, p + m, n - m);
    PlanRun(c, r.f, ppb, r.cmd, p, n, m);
    RunSteps(p, m, rest);
    AllReadableAppend(c, f, Run(p, m), rest);
    ReadAllAppend(c, f, Run(p, m), rest);
    assert b'[..OOBBLOCK * (total + m)] == b[..OOBBLOCK * total] + ReadAll(c, f, Run(p, m));
    assert b'[OOBBLOCK * (total + m)..] == b[OOBBLOCK * total..][OOBBLOCK * m..];
    assert r.buf[OOBBLOCK * (total + m)..] == r.buf[OOBBLOCK * total..][OOBBLOCK * m..];
  }

  /** What a request leaves behind when it ends with ret after total pages. */
  ghost predicate Finished(c: OobConfig, ppb: nat, r: Request, ret: int, total: nat, f: Flash, b: seq<Byte>)
    requires ValidConfig(c) && ppb > 0
  {
    var plan := Whole(c, ppb, r);
    && OOBBLOCK * r.len <= |r.buf| == |b| && total == Done(plan) <= |plan| <= r.len
    && ret == (if Stop in plan then 1 else 0)
    && if Reads(r.cmd) then
         f == r.f && AllReadable(c, f, plan)
         && b == ReadAll(c, f, plan) + r.buf[OOBBLOCK * total..]
       else b == r.buf && f == WriteAll(c, r.f, plan, r.buf)
  }

  lemma NothingLeft(c: OobConfig, f: Flash, left: seq<Step>, buf: seq<Byte>)
    requires ValidConfig(c) && (left == [] || left == [Stop]) && |buf| >= OOBBLOCK * |left|
    ensures ReadAll(c, f, left) == [] && WriteAll(c, f, left, buf) == f && AllReadable(c, f, left) && Done(left) == 0
  {
    assert left != [] ==> left[0] == Stop;
  }

  /** All pages served, or the walk met a bad block it must not pass. */
  lemma ProgressEnds(c: OobConfig, ppb: nat, r: Request, f: Flash, p: nat, n: nat, total: nat, b: seq<Byte>)
    requires ValidConfig(c) && ppb > 0 && Progress(c, ppb, r, f, p, n, total, b)
    requires n == 0 || (BadBlock(c, r.f, BlockStart(p, ppb)) && !IsSkip(r.cmd) && r.cmd != READ_FILL)
    ensures Finished(c, ppb, r, if n == 0 then 0 else 1, total, f, b)
    ensures Reads(r.cmd) ==> AllReadable(c, r.f, Whole(c, ppb, r))
  {
    hide BadBlock, ReadAll, WriteAll, AllReadable, Done, SameMarkers;
    var left := Plan(c, r.f, ppb, r.cmd, p, n);
    assert left == if n == 0 then [] else [Stop];
    assert b == b[..OOBBLOCK * total] + b[OOBBLOCK * total..];
    NothingLeft(c, f, left, r.buf[OOBBLOCK * total..]);
  }

  /** From request to request: a skipping write for which there are enough good blocks, any ageing of
      the chip within the strength of the code, and a skipping read from the same start. Both serve
      every page, no half page is beyond repair, and the caller gets back the bytes that were written. */
  lemma RequestsRoundTrip(c: OobConfig, ppb: nat, w: Request, ret: int, total: nat, written: Flash, b: seq<Byte>,
                          rd: Request, ret2: int, total2: nat, after: Flash, out: seq<Byte>)
    requires ValidConfig(c) && c.eccvalidPos != -1 && ppb > 1 && WholeBlocks(w.f, ppb)
    requires w.cmd == WRITE_SKIP && |w.buf| == OOBBLOCK * w.len
    requires HasRoom(c, w.f, ppb, w.start, w.len) && ErasedTargets(w.f, Whole(c, ppb, w))
    requires Finished(c, ppb, w, ret, total, written, b)
    requires Aged(c, written, rd.f, Whole(c, ppb, w)) && rd.cmd == READ_SKIP && rd.start == w.start && rd.len == w.len && |rd.buf| == |w.buf|
    ensures ret == 0 && total == w.len && AllReadable(c, rd.f, Whole(c, ppb, rd))
    ensures Finished(c, ppb, rd, ret2, total2, after, out) ==> ret2 == 0 && total2 == w.len && out == w.buf
  {
    hide WriteAll, ReadAll, AllReadable, Plan, Aged, ErasedTargets, WholeBlocks, HasRoom;
    var plan := Whole(c, ppb, w);
    CapacityExactly(c, w.f, ppb, w.cmd, w.start, w.len);
    SkipIsComplete(c, w.f, ppb, w.cmd, w.start, w.len);
    SkipRoundTrip(c, w.f, ppb, w.start, w.len, w.buf, rd.f, plan);
    AllDone(plan);
    assert w.buf + rd.buf[OOBBLOCK * w.len..] == w.buf;
  }

  lemma {:induction false} AllDone(plan: seq<Step>)
    requires Stop !in plan
    ensures Done(plan) == |plan|
  {
    if plan != [] { AllDone(plan[1..]); }
  }

  lemma SameBadBlock(c: OobConfig, f: Flash, g: Flash, q: nat)
    requires ValidConfig(c) && SameMarkers(c, f, g)
    ensures BadBlock(c, f, q) <==> BadBlock(c, g, q)
  {
  }

  /** A run up to the end of its block stays inside the chip and leaves the block. */
  lemma RunFacts(c: OobConfig, f: Flash, ppb: nat, p: nat, m: nat)
    requires ValidConfig(c) && ppb > 1 && WholeBlocks(f, ppb) && !BadBlock(c, f, BlockStart(p, ppb))
    requires 0 < m && p + m <= BlockStart(p, ppb) + ppb
    ensures p + m <= |f|
    ensures p + m == BlockStart(p, ppb) + ppb ==> BlockStart(p + m, ppb) != BlockStart(p, ppb)
  {
    BlockInside(c, f, ppb, p);
    PlanRun(c, f, ppb, 0, p, m, m);
  }
}
