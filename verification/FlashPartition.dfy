/** From partitions to sectors: erasing a NOR partition by its addresses touches that partition. */
module FlashPartition {
  import opened Options
  import opened Words
  import opened MtdSize
  import opened MtdParts
  import opened FlashBanks
  import opened FlashRanges
  import opened FlashDriver

  /** A range from the start of sector i to the end of sector j of bank n, the chips in any order: just
      these sectors are picked, unless the range ends at the last address of all, where the next address
      wraps, and a chip behind bank n starts at address 0. */
  lemma {:induction false} OneBank(banks: seq<Bank>, n: nat, i: nat, j: nat, first: u32, last: u32)
    requires Separate(banks) && Chips(banks) && n < |banks| && banks[n].known
    requires i <= j < |banks[n].start| && first == banks[n].start[i] && last == SectorEnd(banks[n], j)
    ensures Fill(banks, first, last) == Plan(NoPicks(|banks|)[n := Pick(i, j)], j - i + 1, 0)
      <==> !(last == WORD - 1 && ZeroBehind(banks, n))
    decreases n
  {
    hide ShareOf, Fill, SectorEnd, ScanFirst, ScanLast, WellFormed, ZeroBehind, Separate;
    var b, rest := banks[n], banks[1..];
    SeparateRest(banks);
    SeparateAt(banks, n);
    InOneBank(b, i, j);
    FillStep(banks, first, last);
    if n == 0 {
      OneShare(b, i, j, first, last);
      BehindFirst(banks, last);
      assert [Pick(i, j)] + NoPicks(|banks| - 1) == NoPicks(|banks|)[0 := Pick(i, j)];
      if [Pick(i, j)] + Fill(rest, (last + 1) % WORD, last).picks == NoPicks(|banks|)[0 := Pick(i, j)] {
        assert ([Pick(i, j)] + Fill(rest, (last + 1) % WORD, last).picks)[1..] == NoPicks(|banks| - 1);
      }
    } else {
      OtherBank(banks, n, first, last);
      OneBank(rest, n - 1, i, j, first, last);
      ZeroShift(banks, n);
      ShiftPicks(Fill(rest, first, last).picks, n, Pick(i, j));
    }
  }

  lemma ShiftPicks(picks: seq<Pick>, n: nat, p: Pick)
    requires 0 < n <= |picks|
    ensures [NO_PICK] + picks == NoPicks(|picks| + 1)[n := p] <==> picks == NoPicks(|picks|)[n - 1 := p]
  {
    var a, b := [NO_PICK] + picks, NoPicks(|picks| + 1)[n := p];
    assert a[1..] == picks && b[1..] == NoPicks(|picks|)[n - 1 := p] && b == [NO_PICK] + b[1..];
  }

  /** A chip in front of bank n contributes nothing. */
  lemma OtherBank(banks: seq<Bank>, n: nat, first: u32, last: u32)
    requires Separate(banks) && Chips(banks) && 0 < n < |banks| && banks[n].known && banks[n].start != []
    requires banks[n].start[0] <= first <= last < Limit(banks[n])
    ensures ShareOf(banks[0], first, last) == Share(NO_PICK, first, false)
  {
    hide ShareOf;
    var b := banks[0];
    if b.known && banks[n].start[0] < Limit(b) {
      NothingBelow(b, first, last);
      BankApart(b, first, last);
    } else {
      BankBelow(b, first, last);
    }
  }

  /** A chip above a range has neither its start nor its end. */
  lemma NothingBelow(b: Bank, first: int, last: int)
    requires b.known && WellFormed(b) && first <= last < b.start[0]
    ensures !StartsIn(b, first) && !EndsIn(b, last)
  {
    forall k | 0 <= k < |b.start| ensures b.start[k] != first && SectorEnd(b, k) != last { SectorFacts(b, k); }
  }

  lemma InOneBank(b: Bank, i: nat, j: nat)
    requires WellFormed(b) && i <= j < |b.start|
    ensures b.start[0] <= b.start[i] <= SectorEnd(b, j) < Limit(b)
  {
    SectorFacts(b, i);
    SectorFacts(b, j);
  }

  lemma OneShare(b: Bank, i: nat, j: nat, first: u32, last: u32)
    requires b.known && WellFormed(b) && i <= j < |b.start| && first == b.start[i] && last == SectorEnd(b, j)
    ensures ShareOf(b, first, last) == Share(Pick(i, j), (last + 1) % WORD, false)
  {
    hide ScanFirst, ScanLast;
    InOneBank(b, i, j);
    SectorFacts(b, j);
    ScanFirstFinds(b, first, last, |b.start|, i);
    ScanLastFinds(b, first, last, |b.start|, j);
  }

  /** The addresses do_flerase computes for a partition of a bank. */
  function AddrFirst(b: Bank, part: Part): u32
    requires b.start != []
  {
    (part.offset + b.start[0]) % WORD
  }

  function AddrLast(b: Bank, part: Part): u32
    requires b.start != []
  {
    (AddrFirst(b, part) + part.size - 1) % WORD
  }

  /** A partition accepted by validation occupies whole sectors. */
  lemma WholeSectors(board: Board, id: MtdId, part: Part) returns (i: nat, j: nat)
    requires id.kind == Nor && Present(board, id) && PartValidate(board, id, part) == Some(part)
    requires var b := board.banks[id.num]; WellFormed(b) && id.size == b.size
    ensures var b := board.banks[id.num];
      && i <= j < |b.start|
      && AddrFirst(b, part) == b.start[i] == b.start[0] + part.offset
      && AddrLast(b, part) == SectorEnd(b, j) == b.start[0] + part.offset + part.size - 1
  {
    hide WellFormed, SectorStart, SectorEnd;
    var b := board.banks[id.num];
    AcceptedPart(board, id, part);
    Aligned(board, id, part);
    var end := part.offset + part.size;
    i := SectorAt(b, part.offset);
    j := SectorBefore(b, end);
    InSpace(b);
    if j < i { StartsRise(b, j, i); }
  }

  lemma Aligned(board: Board, id: MtdId, part: Part)
    requires id.kind == Nor && Present(board, id) && PartValidate(board, id, part) == Some(part)
    ensures var b := board.banks[id.num]; var end := (part.offset + part.size) % WORD;
      SectorStart(b, part.offset) && (SectorStart(b, end) || b.size == end)
  {
    hide SectorStart;
  }

  lemma InSpace(b: Bank)
    requires WellFormed(b)
    ensures b.start != [] && Limit(b) <= WORD
  {
  }

  lemma StartsRise(b: Bank, j: nat, i: nat)
    requires WellFormed(b) && j < i < |b.start|
    ensures SectorEnd(b, j) < b.start[i]
  {
    SectorOrder(b, j, i);
  }

  lemma SectorAt(b: Bank, offset: u32) returns (k: nat)
    requires WellFormed(b) && SectorStart(b, offset)
    ensures k < |b.start| && b.start[k] == b.start[0] + offset
  {
    k :| 0 <= k < |b.start| && (b.start[k] - b.start[0]) % WORD == offset;
    SectorFacts(b, k);
  }

  lemma SectorBefore(b: Bank, end: u32) returns (j: nat)
    requires WellFormed(b) && 0 < end && (SectorStart(b, end) || b.size == end)
    ensures j < |b.start| && SectorEnd(b, j) == b.start[0] + end - 1
  {
    hide SectorStart;
    if SectorStart(b, end) {
      var k := SectorAt(b, end);
      j := k - 1;
      SectorFacts(b, j);
    } else {
      j := |b.start| - 1;
      SectorFacts(b, j);
      assert SectorEnd(b, j) == BankEnd(b);
    }
  }

  /** Sectors i to j of a bank are what lies at an offset from its start. */
  predicate SectorRun(b: Bank, i: int, j: int, offset: int, size: int) {
    0 <= i <= j < |b.start| && b.start[i] == b.start[0] + offset && SectorEnd(b, j) + 1 == b.start[0] + offset + size
  }

  /** A NOR partition is accepted iff it is a run of whole sectors of its bank. */
  lemma NorAccepted(board: Board, id: MtdId, part: Part)
    requires id.kind == Nor && Present(board, id)
    requires var b := board.banks[id.num]; WellFormed(b) && id.size == b.size
    ensures var b, size := board.banks[id.num], MeantSize(id, part);
      && (PartValidate(board, id, part).Some? <==> exists i, j :: SectorRun(b, i, j, part.offset, size))
      && (PartValidate(board, id, part).Some? ==> PartValidate(board, id, part) == Some(part.(size := size)))
  {
    hide SectorRun, WellFormed, PartValidate;
    var b, size := board.banks[id.num], MeantSize(id, part);
    if PartValidate(board, id, part).Some? { AcceptedIsRun(board, id, part); }
    if i, j :| SectorRun(b, i, j, part.offset, size) { RunIsAccepted(board, id, part, i, j); }
  }

  lemma AcceptedIsRun(board: Board, id: MtdId, part: Part)
    requires id.kind == Nor && Present(board, id) && PartValidate(board, id, part).Some?
    requires var b := board.banks[id.num]; WellFormed(b) && id.size == b.size
    ensures PartValidate(board, id, part) == Some(part.(size := MeantSize(id, part)))
    ensures exists i, j :: SectorRun(board.banks[id.num], i, j, part.offset, MeantSize(id, part))
  {
    hide WellFormed, SectorEnd, ChipAligned;
    var p := PartValidate(board, id, part).value;
    AcceptedPart(board, id, part);
    InSpace(board.banks[id.num]);
    var i, j := WholeSectors(board, id, p);
    assert SectorRun(board.banks[id.num], i, j, part.offset, MeantSize(id, part));
  }

  lemma RunIsAccepted(board: Board, id: MtdId, part: Part, i: int, j: int)
    requires id.kind == Nor && Present(board, id)
    requires var b := board.banks[id.num]; WellFormed(b) && id.size == b.size && SectorRun(b, i, j, part.offset, MeantSize(id, part))
    ensures PartValidate(board, id, part) == Some(part.(size := MeantSize(id, part)))
  {
    hide WellFormed, SectorEnd, SectorStart;
    InSpace(board.banks[id.num]);
    RunAligned(board.banks[id.num], i, j, part.offset, MeantSize(id, part));
  }

  /** The ends of a run of sectors pass the alignment test. */
  lemma RunAligned(b: Bank, i: nat, j: nat, offset: u32, size: int)
    requires WellFormed(b) && i <= j < |b.start|
    requires b.start[i] == b.start[0] + offset && SectorEnd(b, j) + 1 == b.start[0] + offset + size
    ensures 0 < size && offset + size <= b.size && SectorStart(b, offset)
    ensures SectorStart(b, offset + size) || b.size == offset + size
  {
    InOneBank(b, i, j);
    SectorFacts(b, j);
    if i < j { SectorFacts(b, i); SectorOrder(b, i, j); }
    assert (b.start[i] - b.start[0]) % WORD == offset;
    if j + 1 < |b.start| {
      assert (b.start[j + 1] - b.start[0]) % WORD == offset + size;
    }
  }

  /** Any NOR partition accepted by part_validate, turned into addresses as the erase command does, is
      accepted by flash_fill_sect_ranges, the chips in any order. Exactly the sectors of that partition
      are picked in its own bank and none in any other, except when it ends at the last address of all
      and a chip at address 0 comes behind its bank: that chip is then picked, too. */
  lemma PartitionErased(board: Board, id: MtdId, part: Part) returns (i: nat, j: nat)
    requires id.kind == Nor && Present(board, id) && PartValidate(board, id, part) == Some(part)
    requires Separate(board.banks) && Chips(board.banks)
    requires board.banks[id.num].known && id.size == board.banks[id.num].size
    ensures var b := board.banks[id.num];
      && i <= j < |b.start|
      && b.start[i] == b.start[0] + part.offset && SectorEnd(b, j) + 1 == b.start[0] + part.offset + part.size
      && (Fill(board.banks, AddrFirst(b, part), AddrLast(b, part))
            == Plan(NoPicks(|board.banks|)[id.num := Pick(i, j)], j - i + 1, 0)
          <==> !(AddrLast(b, part) == WORD - 1 && ZeroBehind(board.banks, id.num)))
  {
    i, j := WholeSectors(board, id, part);
    OneBank(board.banks, id.num, i, j, AddrFirst(board.banks[id.num], part), AddrLast(board.banks[id.num], part));
  }

  /** With the chips in ascending order there is no exception. */
  lemma NoneBehind(banks: seq<Bank>, n: nat)
    requires Ascending(banks) && n < |banks| && banks[n].known
    ensures Separate(banks) && !ZeroBehind(banks, n)
  {
  }

  // -------------------------------------------------------------------------
  // Erasing it

  lemma {:induction false} OneCall(m: nat, n: nat, p: Pick, k: nat)
    requires n < m && k <= m && p.first >= 0
    ensures Calls(NoPicks(m)[n := p], k) == if n < k then [(n, p.first, p.last)] else []
  {
    if k > 0 { OneCall(m, n, p, k - 1); }
  }

  lemma AllCalls(picks: seq<Pick>, n: nat, p: Pick)
    requires n < |picks| && picks == NoPicks(|picks|)[n := p] && p.first >= 0
    ensures forall k :: 0 <= k <= |picks| ==> Calls(picks, k) == if n < k then [(n, p.first, p.last)] else []
  {
    hide Calls;
    forall k | 0 <= k <= |picks| ensures Calls(picks, k) == if n < k then [(n, p.first, p.last)] else [] {
      OneCall(|picks|, n, p, k);
    }
  }

  /** do_flerase for a partition: one call of flash_erase, for the partition's sectors in its own bank, and
      its result is the return code; other chips than NOR cannot be erased. */
  method ErasePartition(chips: FlashChips, board: Board, id: MtdId, part: Part, results: seq<int>) returns (rcode: int)
    requires chips.Valid() && chips.banks == board.banks && |results| == |board.banks|
    requires Present(board, id) && (id.kind == Nor ==> board.banks[id.num].known)
    modifies chips`erasures
    ensures chips.Valid()
    ensures id.kind != Nor ==> rcode == 1 && chips.erasures == old(chips.erasures)
    ensures id.kind == Nor && PartValidate(board, id, part) == Some(part) && Separate(board.banks)
            && id.size == board.banks[id.num].size
            && !(AddrLast(board.banks[id.num], part) == WORD - 1 && ZeroBehind(board.banks, id.num)) ==>
      exists i, j :: SectorRun(board.banks[id.num], i, j, part.offset, part.size)
        && chips.erasures == old(chips.erasures) + [(id.num, i, j)] && rcode == results[id.num]
  {
    hide Fill, PartValidate, Separate, ZeroBehind, SectorEnd, Accepted, StartsSector, Wraps, InRange, Erases, Calls;
    if id.kind != Nor { return 1; }
    var b := board.banks[id.num];
    var addrFirst := (part.offset + b.start[0]) % WORD;
    var addrLast := (addrFirst + part.size - 1) % WORD;
    rcode := chips.SectErase(addrFirst, addrLast, results);
    if PartValidate(board, id, part) == Some(part) && Separate(board.banks) && id.size == b.size
       && !(AddrLast(b, part) == WORD - 1 && ZeroBehind(board.banks, id.num)) {
      ghost var i, j := PartitionErased(board, id, part);
      AllCalls(Fill(board.banks, addrFirst, addrLast).picks, id.num, Pick(i, j));
      assert SectorRun(b, i, j, part.offset, part.size);
    }
  }
}
