/** What the bytes of the bad-block markers decide: which pages a request serves, blanks or passes over,
    and how it ends. */
module NandMarks {
  import opened NandEcc
  import opened NandPage
  import opened NandWalk
  import opened Division

  /** A block with a marker in its first two pages. */
  lemma MarkedIsBad(c: OobConfig, f: Flash, ppb: nat, q: nat)
    requires ValidConfig(c) && ppb > 0
    ensures q - q % ppb + 1 >= |f| ==> BadBlock(c, f, BlockStart(q, ppb))
    ensures q - q % ppb + 1 < |f| && c.badblockPos != -1 ==>
              (BadBlock(c, f, BlockStart(q, ppb)) <==>
                 !(f[q - q % ppb][OOBBLOCK + c.badblockPos] == 0xff && f[q - q % ppb + 1][OOBBLOCK + c.badblockPos] == 0xff))
    ensures q - q % ppb + 1 < |f| && c.badblockPos == -1 ==> !BadBlock(c, f, BlockStart(q, ppb))
  {
  }

  /** In every mode, each page served lies in a block whose first two pages hold 0xff at the marker. */
  lemma ServedAreUnmarked(c: OobConfig, f: Flash, ppb: nat, cmd: nat, p: nat, n: nat, i: nat)
    requires ValidConfig(c) && c.badblockPos != -1 && ppb > 1 && WholeBlocks(f, ppb)
    requires i < |Plan(c, f, ppb, cmd, p, n)| && Plan(c, f, ppb, cmd, p, n)[i].Page?
    ensures var q := Plan(c, f, ppb, cmd, p, n)[i].p; var b := q - q % ppb;
      && b + 1 < |f| && q < |f|
      && f[b][OOBBLOCK + c.badblockPos] == 0xff && f[b + 1][OOBBLOCK + c.badblockPos] == 0xff
  {
    hide BadBlock, BlockStart, Plan;
    var q := Plan(c, f, ppb, cmd, p, n)[i].p;
    PlanPages(c, f, ppb, cmd, p, n);
    MarkedIsBad(c, f, ppb, q);
  }

  /** The block of page q is inside the chip, and no marker in it is cleared. */
  ghost predicate Unmarked(c: OobConfig, f: Flash, ppb: nat, q: nat)
    requires ValidConfig(c) && ppb > 0
  {
    var b := q - q % ppb;
    b + 1 < |f| && (c.badblockPos != -1 ==> forall k :: b <= k <= b + 1 ==> f[k][OOBBLOCK + c.badblockPos] == 0xff)
  }

  lemma UnmarkedIsGood(c: OobConfig, f: Flash, ppb: nat, q: nat)
    requires ValidConfig(c) && ppb > 0
    ensures Unmarked(c, f, ppb, q) <==> !BadBlock(c, f, BlockStart(q, ppb))
  {
    MarkedIsBad(c, f, ppb, q);
    hide BadBlock;
    if Unmarked(c, f, ppb, q) && c.badblockPos != -1 {
      var b := q - q % ppb;
      assert f[b][OOBBLOCK + c.badblockPos] == 0xff && f[b + 1][OOBBLOCK + c.badblockPos] == 0xff;
    }
  }

  /** A filling read, command 3: page for page, served from unmarked blocks and blank from others. */
  lemma {:induction false} FillingPlan(c: OobConfig, f: Flash, ppb: nat, p: nat, n: nat)
    requires ValidConfig(c) && ppb > 0
    ensures |Plan(c, f, ppb, 3, p, n)| == n
    ensures forall i :: 0 <= i < n ==> Plan(c, f, ppb, 3, p, n)[i] == if Unmarked(c, f, ppb, p + i) then Page(p + i) else Blank
    decreases n
  {
    hide BadBlock, BlockStart, Unmarked;
    if n > 0 {
      UnmarkedIsGood(c, f, ppb, p);
      FillingPlan(c, f, ppb, p + 1, n - 1);
      var plan, rest := Plan(c, f, ppb, 3, p, n), Plan(c, f, ppb, 3, p + 1, n - 1);
      assert plan[1..] == rest;
      forall i | 0 <= i < n ensures plan[i] == if Unmarked(c, f, ppb, p + i) then Page(p + i) else Blank {
        if i > 0 { assert plan[i] == rest[i - 1] && p + 1 + (i - 1) == p + i; }
      }
    }
  }

  /** A plain command: page after page, up to the first one in a marked block, where it stops. */
  lemma {:induction false} PlainPlan(c: OobConfig, f: Flash, ppb: nat, cmd: nat, p: nat, n: nat, k: nat)
    requires ValidConfig(c) && ppb > 0 && cmd != 3 && cmd != 7 && cmd != 2
    requires k <= n && (forall q: nat :: p <= q < p + k ==> Unmarked(c, f, ppb, q)) && (k < n ==> !Unmarked(c, f, ppb, p + k))
    ensures Plan(c, f, ppb, cmd, p, n) == Run(p, k) + if k < n then [Stop] else []
    decreases n
  {
    hide BadBlock, BlockStart, Unmarked;
    if n > 0 {
      UnmarkedIsGood(c, f, ppb, p);
      if k > 0 {
        PlainPlan(c, f, ppb, cmd, p + 1, n - 1, k - 1);
        assert Run(p, k) == [Page(p)] + Run(p + 1, k - 1);
      }
    }
  }

  /** A skipping command, 7 or 2, for which there is room: it passes over whole marked blocks, keeping its
      place in the block, and serves the first page that lies in an unmarked one. */
  lemma {:induction false} SkippingPlan(c: OobConfig, f: Flash, ppb: nat, cmd: nat, p: nat, n: nat) returns (k: nat)
    requires ValidConfig(c) && ppb > 1 && WholeBlocks(f, ppb) && (cmd == 7 || cmd == 2) && n > 0 && HasRoom(c, f, ppb, p, n)
    ensures Plan(c, f, ppb, cmd, p, n) == [Page(p + k * ppb)] + Plan(c, f, ppb, cmd, p + k * ppb + 1, n - 1)
    ensures Unmarked(c, f, ppb, p + k * ppb) && forall j: nat :: j < k ==> !Unmarked(c, f, ppb, p + j * ppb)
    decreases n, if p < |f| then |f| - p else 0
  {
    hide BadBlock, BlockStart, Unmarked, HasRoom;
    UnmarkedIsGood(c, f, ppb, p);
    CapacityExactly(c, f, ppb, cmd, p, n);
    if Unmarked(c, f, ppb, p) {
      k := 0;
    } else {
      if p >= |f| { BeyondStops(c, f, ppb, cmd, p, n); }
      CapacityExactly(c, f, ppb, cmd, p + ppb, n);
      var k' := SkippingPlan(c, f, ppb, cmd, p + ppb, n);
      k := k' + 1;
      assert p + ppb + k' * ppb == p + k * ppb;
      forall j: nat | j < k ensures !Unmarked(c, f, ppb, p + j * ppb) {
        if j > 0 { assert p + ppb + (j - 1) * ppb == p + j * ppb; } else { assert p + 0 * ppb == p; }
      }
    }
  }

  /** The first pages of the unmarked blocks from page q on. */
  ghost function UnmarkedFrom(c: OobConfig, f: Flash, ppb: nat, q: nat): set<nat>
    requires ValidConfig(c) && ppb > 0
  {
    set b: nat | q <= b < |f| && b % ppb == 0 && Unmarked(c, f, ppb, b)
  }

  /** The room a skipping walk needs is counted in unmarked blocks. */
  lemma {:induction false} RoomCounted(c: OobConfig, f: Flash, ppb: nat, q: nat)
    requires ValidConfig(c) && ppb > 0 && q % ppb == 0
    ensures GoodBlocks(c, f, ppb, q) == |UnmarkedFrom(c, f, ppb, q)|
    decreases if q < |f| then |f| - q else 0
  {
    hide BadBlock, Unmarked;
    if q < |f| {
      ModFacts(q, ppb);
      RoomCounted(c, f, ppb, q + ppb);
      UnmarkedIsGood(c, f, ppb, q);
      var here, behind := UnmarkedFrom(c, f, ppb, q), UnmarkedFrom(c, f, ppb, q + ppb);
      forall b: nat | b in here && b != q ensures b in behind { NextBlock(q, b, ppb); }
      assert here == (if Unmarked(c, f, ppb, q) then {q} else {}) + behind;
    } else {
      assert UnmarkedFrom(c, f, ppb, q) == {};
    }
  }

  lemma NextBlock(q: nat, b: nat, ppb: nat)
    requires ppb > 0 && q % ppb == 0 && b % ppb == 0 && q < b
    ensures q + ppb <= b
  {
    NextMultiple(q / ppb, b / ppb, ppb);
  }

  // -------------------------------------------------------------------------
  // Requests

  lemma {:induction false} WriteAllElsewhere(c: OobConfig, f: Flash, plan: seq<Step>, buf: seq<Byte>, q: nat)
    requires ValidConfig(c) && |buf| >= OOBBLOCK * |plan| && q < |f| && Page(q) !in plan
    ensures WriteAll(c, f, plan, buf)[q] == f[q]
    decreases |plan|
  {
    hide Program, PageImage;
    if plan != [] && !plan[0].Stop? {
      assert plan[0] in plan && forall s :: s in plan[1..] ==> s in plan;
      WriteAllElsewhere(c, WriteStep(c, f, plan[0], buf[..OOBBLOCK]), plan[1..], buf[OOBBLOCK..], q);
    }
  }

  /** A finished write, in whatever mode, has left every page of a marked block alone. */
  lemma MarkedKept(c: OobConfig, ppb: nat, r: Request, ret: int, total: nat, f: Flash, b: seq<Byte>, q: nat)
    requires ValidConfig(c) && ppb > 1 && WholeBlocks(r.f, ppb) && Finished(c, ppb, r, ret, total, f, b) && !Reads(r.cmd)
    requires q < |r.f| && !Unmarked(c, r.f, ppb, q)
    ensures |f| == |r.f| && f[q] == r.f[q]
  {
    hide Plan, WriteAll, AllReadable, ReadAll, BadBlock, BlockStart, Unmarked;
    var plan := Whole(c, ppb, r);
    PlanPages(c, r.f, ppb, r.cmd, r.start, r.len);
    UnmarkedIsGood(c, r.f, ppb, q);
    WriteAllElsewhere(c, r.f, plan, r.buf, q);
  }

  lemma {:induction false} ReadAllChunk(c: OobConfig, f: Flash, plan: seq<Step>, i: nat)
    requires ValidConfig(c) && Stop !in plan && i < |plan|
    ensures |ReadAll(c, f, plan)| == OOBBLOCK * |plan| && Chunk(ReadAll(c, f, plan), i) == StepData(c, f, plan[i])
  {
    hide StepData;
    var a, b := plan[..i + 1], plan[i + 1..];
    assert plan == a + b && a == plan[..i] + [plan[i]];
    ReadAllAppend(c, f, a, b);
    ReadAllAppend(c, f, b, []);
    ReadAllAppend(c, f, plan[..i], [plan[i]]);
    assert b + [] == b;
    assert ReadAll(c, f, [plan[i]]) == StepData(c, f, plan[i]) + [];
    var all, before := ReadAll(c, f, plan), ReadAll(c, f, plan[..i]);
    assert all == before + StepData(c, f, plan[i]) + ReadAll(c, f, b);
    assert |before| == OOBBLOCK * i;
  }

  /** A plain request over unmarked blocks is served in full, with status 0. */
  lemma PlainServed(c: OobConfig, ppb: nat, r: Request, ret: int, total: nat, f: Flash, b: seq<Byte>)
    requires ValidConfig(c) && ppb > 1 && WholeBlocks(r.f, ppb) && Finished(c, ppb, r, ret, total, f, b)
    requires r.cmd != 3 && r.cmd != 7 && r.cmd != 2
    requires forall q: nat :: r.start <= q < r.start + r.len ==> Unmarked(c, r.f, ppb, q)
    ensures ret == 0 && total == r.len && Whole(c, ppb, r) == Run(r.start, r.len)
    ensures r.len > 0 ==> r.start + r.len <= |r.f|
  {
    hide Plan, WriteAll, AllReadable, ReadAll, BadBlock, BlockStart, Unmarked;
    PlanPages(c, r.f, ppb, r.cmd, r.start, r.len);
    PlainPlan(c, r.f, ppb, r.cmd, r.start, r.len, r.len);
    var plan := Run(r.start, r.len);
    assert plan + [] == plan == Whole(c, ppb, r);
    AllDone(plan);
    if r.len > 0 { assert plan[r.len - 1] == Page(r.start + r.len - 1); }
  }

  /** A plain read of them delivers page after page. */
  lemma PlainRead(c: OobConfig, ppb: nat, r: Request, ret: int, total: nat, f: Flash, b: seq<Byte>, i: nat)
    requires ValidConfig(c) && ppb > 1 && WholeBlocks(r.f, ppb) && Finished(c, ppb, r, ret, total, f, b)
    requires r.cmd != 3 && r.cmd != 7 && r.cmd % 2 == 1 && i < r.len
    requires forall q: nat :: r.start <= q < r.start + r.len ==> Unmarked(c, r.f, ppb, q)
    ensures ret == 0 && f == r.f && r.start + i < |f| && Chunk(b, i) == PageData(c, f[r.start + i])
  {
    hide Plan, WriteAll, AllReadable, ReadAll, BadBlock, BlockStart, Unmarked, PageData;
    PlainServed(c, ppb, r, ret, total, f, b);
    var plan := Run(r.start, r.len);
    ReadAllChunk(c, r.f, plan, i);
    assert plan[i] == Page(r.start + i);
  }

  /** A plain write of them programs page after page, and no other page. */
  lemma PlainWritten(c: OobConfig, ppb: nat, r: Request, ret: int, total: nat, f: Flash, b: seq<Byte>, q: nat)
    requires ValidConfig(c) && ppb > 1 && WholeBlocks(r.f, ppb) && Finished(c, ppb, r, ret, total, f, b)
    requires r.cmd != 2 && r.cmd % 2 == 0 && q < |r.f|
    requires forall q: nat :: r.start <= q < r.start + r.len ==> Unmarked(c, r.f, ppb, q)
    ensures ret == 0 && |f| == |r.f|
    ensures f[q] == if r.start <= q < r.start + r.len then Program(r.f[q], PageImage(c, Chunk(r.buf, q - r.start), OOBBLOCK)) else r.f[q]
  {
    hide Plan, WriteAll, AllReadable, ReadAll, BadBlock, BlockStart, Unmarked, Program, PageImage;
    PlainServed(c, ppb, r, ret, total, f, b);
    var plan := Run(r.start, r.len);
    if r.start <= q < r.start + r.len {
      RunWritten(c, r.f, r.start, r.len, r.buf, q - r.start);
    } else {
      WriteAllElsewhere(c, r.f, plan, r.buf, q);
    }
  }

  lemma RunWritten(c: OobConfig, f: Flash, p: nat, n: nat, buf: seq<Byte>, i: nat)
    requires ValidConfig(c) && |buf| >= OOBBLOCK * n && i < n && p + n <= |f|
    ensures WriteAll(c, f, Run(p, n), buf)[p + i] == Program(f[p + i], PageImage(c, Chunk(buf, i), OOBBLOCK))
  {
    hide WriteAll, Program, PageImage;
    WriteAllResult(c, f, Run(p, n), buf);
    assert Run(p, n)[i] == Page(p + i);
  }

  /** A plain request ends with status 1 at the first page that lies in a marked block. */
  lemma PlainStops(c: OobConfig, ppb: nat, r: Request, ret: int, total: nat, f: Flash, b: seq<Byte>, k: nat)
    requires ValidConfig(c) && ppb > 0 && Finished(c, ppb, r, ret, total, f, b) && r.cmd != 3 && r.cmd != 7 && r.cmd != 2
    requires k < r.len && !Unmarked(c, r.f, ppb, r.start + k)
    requires forall q: nat :: r.start <= q < r.start + k ==> Unmarked(c, r.f, ppb, q)
    ensures ret == 1 && total == k
  {
    hide Plan, WriteAll, AllReadable, ReadAll, BadBlock, BlockStart, Unmarked;
    PlainPlan(c, r.f, ppb, r.cmd, r.start, r.len, k);
    RunSteps(r.start, k, [Stop]);
    assert [Stop][0].Stop?;
  }

  /** A filling read delivers every page asked for: what it reads from unmarked blocks, and 0xff for the
      pages of marked ones. */
  lemma FillingServed(c: OobConfig, ppb: nat, r: Request, ret: int, total: nat, f: Flash, b: seq<Byte>)
    requires ValidConfig(c) && ppb > 1 && WholeBlocks(r.f, ppb) && Finished(c, ppb, r, ret, total, f, b) && r.cmd == 3
    ensures ret == 0 && total == r.len && f == r.f
    ensures forall i :: 0 <= i < r.len ==>
      if Unmarked(c, r.f, ppb, r.start + i) then r.start + i < |f| && Chunk(b, i) == PageData(c, f[r.start + i])
      else forall j :: 0 <= j < OOBBLOCK ==> Chunk(b, i)[j] == 0xff
  {
    hide Plan, WriteAll, AllReadable, ReadAll, BadBlock, BlockStart, Unmarked, PageData;
    var plan := Whole(c, ppb, r);
    PlanPages(c, r.f, ppb, 3, r.start, r.len);
    FillingPlan(c, r.f, ppb, r.start, r.len);
    assert Stop !in plan;
    AllDone(plan);
    forall i | 0 <= i < r.len
      ensures Chunk(b, i) == StepData(c, f, plan[i]) && (plan[i].Page? ==> plan[i].p < |f|)
    {
      ReadAllChunk(c, r.f, plan, i);
    }
  }
}
