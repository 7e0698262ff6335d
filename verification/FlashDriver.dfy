/** The flash commands as they run: the sector ranges of all banks, and protection bits set in place. */
module FlashDriver {
  import opened Words
  import opened MtdSize
  import opened FlashBanks
  import opened FlashRanges

  function PicksOf(sFirst: seq<int>, sLast: seq<int>): (r: seq<Pick>)
    requires |sFirst| == |sLast|
    ensures |r| == |sFirst| && forall i :: 0 <= i < |r| ==> r[i] == Pick(sFirst[i], sLast[i])
  {
    seq(|sFirst|, i requires 0 <= i < |sFirst| => Pick(sFirst[i], sLast[i]))
  }

  /** The loop over the sectors of one bank. */
  method ScanBank(b: Bank, first: u32, last: u32, sFirst: array<int>, sLast: array<int>, bank: nat)
    requires bank < sFirst.Length == sLast.Length && sFirst != sLast
    requires sFirst[bank] == -1 && sLast[bank] == -1 && b.start != []
    modifies sFirst, sLast
    ensures sFirst[..] == old(sFirst[..])[bank := ScanFirst(b, first, last, |b.start|)]
    ensures sLast[..] == old(sLast[..])[bank := ScanLast(b, first, last, |b.start|)]
  {
    hide SectorEnd;
    for sect := 0 to |b.start|
      invariant sFirst[..] == old(sFirst[..])[bank := ScanFirst(b, first, last, sect)]
      invariant sLast[..] == old(sLast[..])[bank := ScanLast(b, first, last, sect)]
      modifies sFirst, sLast
    {
      var end := SectorEnd(b, sect);
      if first > end || last < b.start[sect] { continue; }
      if first == b.start[sect] { sFirst[bank] := sect; }
      if last == end { sLast[bank] := sect; }
    }
  }

  /** The rest of the work on one bank: the end of the range, the next address, the count. */
  method SettleBank(b: Bank, first: u32, last: u32, sFirst: array<int>, sLast: array<int>, bank: nat)
    returns (error: bool, next: u32, chosen: nat)
    requires bank < sFirst.Length == sLast.Length && sFirst != sLast && b.known && b.start != []
    requires sFirst[bank] == ScanFirst(b, first, last, |b.start|) && sLast[bank] == ScanLast(b, first, last, |b.start|)
    modifies sLast
    ensures var share := ShareOf(b, first, last);
      && error == share.error && (!error ==> next == share.next && chosen == PickSize(share.pick))
      && sFirst[bank] == share.pick.first && sLast[..] == old(sLast[..])[bank := share.pick.last]
  {
    hide ScanFirst, ScanLast;
    error, next, chosen := false, first, 0;
    var bEnd, sEnd := BankEnd(b), |b.start| - 1;
    if sFirst[bank] >= 0 {
      if sLast[bank] < 0 {
        if last > bEnd { sLast[bank] := sEnd; } else { error := true; return; }
      }
      if sLast[bank] < sFirst[bank] { error := true; return; }
      var sect := sLast[bank];
      next := if sect == sEnd then (bEnd + 1) % WORD else b.start[sect + 1];
      chosen := sLast[bank] - sFirst[bank] + 1;
    } else if first >= b.start[0] && first < bEnd {
      error := true;
    } else if sLast[bank] >= 0 {
      error := true;
    }
  }

  /** The plan so far, with the rest of the loop still to come. */
  ghost function Onward(picked: seq<Pick>, count: int, rest: Plan): Plan {
    Plan(picked + rest.picks, count + rest.count, rest.rc)
  }

  lemma OnwardStep(picked: seq<Pick>, count: int, p: Pick, rest: Plan)
    ensures Onward(picked, count, With(p, rest)) == Onward(picked + [p], count + PickSize(p), rest)
  {
    assert picked + ([p] + rest.picks) == picked + [p] + rest.picks;
  }

  method ClearRanges(sFirst: array<int>, sLast: array<int>)
    requires sFirst.Length == sLast.Length && sFirst != sLast
    modifies sFirst, sLast
    ensures forall k :: 0 <= k < sFirst.Length ==> sFirst[k] == sLast[k] == -1
  {
    for i := 0 to sFirst.Length
      invariant forall k :: 0 <= k < i ==> sFirst[k] == sLast[k] == -1
      modifies sFirst, sLast
    {
      sFirst[i], sLast[i] := -1, -1;
    }
  }

  /** The body of the loop over the banks. */
  method FillBank(b: Bank, first: u32, last: u32, sFirst: array<int>, sLast: array<int>, bank: nat)
    returns (error: bool, next: u32, chosen: nat)
    requires bank < sFirst.Length == sLast.Length && sFirst != sLast && (b.known ==> b.start != [])
    requires sFirst[bank] == -1 && sLast[bank] == -1
    modifies sFirst, sLast
    ensures var share := ShareOf(b, first, last);
      && error == share.error && (!error ==> next == share.next && chosen == PickSize(share.pick))
      && sFirst[..] == old(sFirst[..])[bank := share.pick.first]
      && sLast[..] == old(sLast[..])[bank := share.pick.last]
  {
    if !b.known { return false, first, 0; }
    ScanBank(b, first, last, sFirst, sLast, bank);
    error, next, chosen := SettleBank(b, first, last, sFirst, sLast, bank);
  }

  ghost predicate Recorded(picked: seq<Pick>, sFirst: seq<int>, sLast: seq<int>) {
    && |picked| <= |sFirst| == |sLast|
    && (forall k :: 0 <= k < |picked| ==> picked[k] == Pick(sFirst[k], sLast[k]))
    && forall k :: |picked| <= k < |sFirst| ==> sFirst[k] == sLast[k] == -1
  }

  lemma RecordedStep(picked: seq<Pick>, sFirst: seq<int>, sLast: seq<int>, p: Pick)
    requires Recorded(picked, sFirst, sLast) && |picked| < |sFirst|
    ensures Recorded(picked + [p], sFirst[|picked| := p.first], sLast[|picked| := p.last])
  {
  }

  lemma RecordedAll(picked: seq<Pick>, sFirst: seq<int>, sLast: seq<int>)
    requires Recorded(picked, sFirst, sLast)
    ensures PicksOf(sFirst, sLast) == picked + NoPicks(|sFirst| - |picked|)
  {
  }

  /** flash_fill_sect_ranges */
  method FillSectRanges(banks: seq<Bank>, addrFirst: u32, last: u32, sFirst: array<int>, sLast: array<int>)
    returns (count: int, rc: int)
    requires Chips(banks) && sFirst.Length == sLast.Length == |banks| && sFirst != sLast
    modifies sFirst, sLast
    ensures Fill(banks, addrFirst, last) == Plan(PicksOf(sFirst[..], sLast[..]), count, rc)
  {
    hide ShareOf, Fill, ScanFirst, ScanLast, Recorded, PickSize;
    var n := |banks|;
    count, rc := 0, 0;
    ClearRanges(sFirst, sLast);
    var bank, first: u32 := 0, addrFirst;
    ghost var plan := Fill(banks, addrFirst, last);
    ghost var picked: seq<Pick> := [];
    Begin(banks, plan, sFirst[..], sLast[..]);
    while bank < n && first <= last
      invariant 0 <= bank <= n && |picked| == bank && rc == 0 && Chips(banks[bank..])
      invariant Recorded(picked, sFirst[..], sLast[..])
      invariant plan == Onward(picked, count, Fill(banks[bank..], first, last))
      decreases n - bank
      modifies sFirst, sLast
    {
      ghost var share := ShareOf(banks[bank], first, last);
      OneBankOn(banks, bank, first, last, picked, count);
      RecordedStep(picked, sFirst[..], sLast[..], share.pick);
      assert sFirst[bank] == sLast[bank] == -1 by { NotYet(picked, sFirst[..], sLast[..]); }
      var error, next, chosen := FillBank(banks[bank], first, last, sFirst, sLast, bank);
      picked := picked + [share.pick];
      if error {
        RecordedAll(picked, sFirst[..], sLast[..]);
        return count, 1;
      }
      count, first, bank := count + chosen, next, bank + 1;
    }
    FillDone(banks[bank..], first, last);
    RecordedAll(picked, sFirst[..], sLast[..]);
  }

  lemma Begin(banks: seq<Bank>, plan: Plan, sFirst: seq<int>, sLast: seq<int>)
    requires |sFirst| == |sLast| && forall k :: 0 <= k < |sFirst| ==> sFirst[k] == sLast[k] == -1
    ensures banks[0..] == banks && Onward([], 0, plan) == plan && Recorded([], sFirst, sLast)
  {
    assert [] + plan.picks == plan.picks;
  }

  lemma NotYet(picked: seq<Pick>, sFirst: seq<int>, sLast: seq<int>)
    requires Recorded(picked, sFirst, sLast) && |picked| < |sFirst|
    ensures sFirst[|picked|] == sLast[|picked|] == -1
  {
  }

  /** One round of the loop, seen from the plan. */
  lemma {:induction false} OneBankOn(banks: seq<Bank>, bank: nat, first: u32, last: u32, picked: seq<Pick>, count: int)
    requires bank < |banks| && Chips(banks[bank..]) && first <= last && |picked| == bank
    ensures Chips(banks[bank + 1..]) && (banks[bank].known ==> banks[bank].start != [])
    ensures var share := ShareOf(banks[bank], first, last);
      Onward(picked, count, Fill(banks[bank..], first, last)) ==
        if share.error then Plan(picked + [share.pick] + NoPicks(|banks| - bank - 1), count, 1)
        else Onward(picked + [share.pick], count + PickSize(share.pick), Fill(banks[bank + 1..], share.next, last))
  {
    hide ShareOf, Fill, PickSize;
    var here, share := banks[bank..], ShareOf(banks[bank], first, last);
    assert here[0] == banks[bank] && here[1..] == banks[bank + 1..];
    FillStep(here, first, last);
    if share.error {
      assert picked + ([share.pick] + NoPicks(|here| - 1)) == picked + [share.pick] + NoPicks(|here| - 1);
    } else {
      OnwardStep(picked, count, share.pick, Fill(here[1..], share.next, last));
    }
  }

  lemma {:induction false} FillDone(banks: seq<Bank>, first: u32, last: u32)
    requires banks == [] || first > last
    ensures Chips(banks) ==> Fill(banks, first, last) == Plan(NoPicks(|banks|), 0, 0)
  {
  }

  /** The sectors that a plan picks in a bank. */
  predicate Picked(p: Pick, sector: int) {
    0 <= p.first <= sector <= p.last
  }

  /** A sector of a chip that belongs to the range, as far as the flash is unbroken. */
  predicate InRange(banks: seq<Bank>, first: int, last: int, b: nat, s: nat)
    requires b < |banks| && s < |banks[b].start|
  {
    banks[b].known && first <= banks[b].start[s] <= last && banks[b].start[s] < Reach(banks, first)
  }

  lemma PickedIsCovered(b: Bank, p: Pick, s: nat)
    requires b.known && WellFormed(b) && s < |b.start| && ProperPick(b, p)
    ensures Picked(p, s) <==> PickCovers(b, p, b.start[s])
  {
    if p != NO_PICK {
      SectorFacts(b, s);
      if s < p.first { assert b.start[s] < b.start[p.first]; }
      if p.last < s { SectorOrder(b, p.last, s); }
      if p.first < s <= p.last { assert b.start[p.first] < b.start[s]; }
      if s < p.last { SectorOrder(b, s, p.last); SectorFacts(b, p.last); }
    }
  }

  /** No two chips share an address. */
  lemma CoveredByOne(banks: seq<Bank>, picks: seq<Pick>, b: nat, x: int)
    requires Separate(banks) && |picks| == |banks| && b < |banks| && Inside(banks[b], x)
    ensures Covers(banks, picks, x) <==> PickCovers(banks[b], picks[b], x)
  {
    if Covers(banks, picks, x) {
      var m :| 0 <= m < |banks| && PickCovers(banks[m], picks[m], x);
      SectorFacts(banks[m], picks[m].first);
      SectorFacts(banks[m], picks[m].last);
      assert Inside(banks[m], x);
    }
  }

  /** The sectors picked for an accepted range are those that belong to it. */
  lemma PickedAreInRange(banks: seq<Bank>, first: u32, last: u32, b: nat, s: nat)
    requires Separate(banks) && Chips(banks) && first <= last && !Wraps(banks, first, last)
    requires Accepted(banks, first, last) && StartsSector(banks, first) && b < |banks| && s < |banks[b].start|
    ensures Picked(Fill(banks, first, last).picks[b], s) <==> InRange(banks, first, last, b, s)
  {
    hide Fill, Covers, PickCovers, Accepted, Reach, StartsSector, Separate, Wraps, WellFormed;
    var picks := Fill(banks, first, last).picks;
    FillMeans(banks, first, last);
    FillCounts(banks, first, last);
    assert ProperPick(banks[b], picks[b]);
    if banks[b].known {
      SeparateAt(banks, b);
      StartIsInside(banks[b], s);
      PickedIsCovered(banks[b], picks[b], s);
      CoveredByOne(banks, picks, b, banks[b].start[s]);
    }
  }

  /** A range that is accepted and starts on a sector is worked on, and no other; what is picked for it
      are its sectors. */
  lemma RangePicked(banks: seq<Bank>, first: u32, last: u32)
    requires Chips(banks)
    ensures Separate(banks) && first <= last && !Wraps(banks, first, last) ==>
      var plan, works := Fill(banks, first, last), Accepted(banks, first, last) && StartsSector(banks, first);
      && (plan.rc == 0 && plan.count != 0 <==> works)
      && (works ==> forall b, s :: 0 <= b < |banks| && 0 <= s < |banks[b].start| ==>
            (Picked(plan.picks[b], s) <==> InRange(banks, first, last, b, s)))
  {
    hide Fill, Covers, Accepted, Reach, StartsSector, Separate, Wraps, Picked, InRange;
    if Separate(banks) && first <= last && !Wraps(banks, first, last) {
      FillMeans(banks, first, last);
      if Accepted(banks, first, last) && StartsSector(banks, first) {
        forall b, s | 0 <= b < |banks| && 0 <= s < |banks[b].start|
          ensures Picked(Fill(banks, first, last).picks[b], s) <==> InRange(banks, first, last, b, s)
        {
          PickedAreInRange(banks, first, last, b, s);
        }
      }
    }
  }

  /** The calls of flash_erase for the picks of the first k banks. */
  ghost function Calls(picks: seq<Pick>, k: nat): seq<(nat, int, int)>
    requires k <= |picks|
  {
    if k == 0 then []
    else Calls(picks, k - 1) + if picks[k - 1].first >= 0 then [(k - 1, picks[k - 1].first, picks[k - 1].last)] else []
  }

  /** Some call erases sector s of bank b. */
  ghost predicate Erases(calls: seq<(nat, int, int)>, b: nat, s: int) {
    exists c :: c in calls && c.0 == b && c.1 <= s <= c.2
  }

  lemma {:induction false} CallsErase(picks: seq<Pick>, k: nat, b: nat, s: nat)
    requires k <= |picks| && forall i :: 0 <= i < |picks| ==> picks[i].first >= -1
    ensures Erases(Calls(picks, k), b, s) <==> b < k && Picked(picks[b], s)
  {
    if k > 0 {
      CallsErase(picks, k - 1, b, s);
      var before := Calls(picks, k - 1);
      if Erases(before, b, s) {
        var c :| c in before && c.0 == b && c.1 <= s <= c.2;
        assert c in Calls(picks, k);
      }
      if b == k - 1 && Picked(picks[b], s) { assert (b, picks[b].first, picks[b].last) in Calls(picks, k); }
    }
  }

  /** All the calls together erase the sectors of the range. */
  lemma CallsInRange(banks: seq<Bank>, first: u32, last: u32)
    requires Separate(banks) && Chips(banks) && first <= last && !Wraps(banks, first, last)
    requires Accepted(banks, first, last) && StartsSector(banks, first)
    ensures forall b, s :: 0 <= b < |banks| && 0 <= s < |banks[b].start| ==>
      (Erases(Calls(Fill(banks, first, last).picks, |banks|), b, s) <==> InRange(banks, first, last, b, s))
  {
    hide Fill, Calls, Erases, InRange, Accepted, StartsSector, Separate, Wraps, Chips;
    var picks := Fill(banks, first, last).picks;
    FillMeans(banks, first, last);
    FillCounts(banks, first, last);
    forall b, s | 0 <= b < |banks| && 0 <= s < |banks[b].start|
      ensures Erases(Calls(picks, |banks|), b, s) <==> InRange(banks, first, last, b, s)
    {
      assert forall i :: 0 <= i < |picks| ==> ProperPick(banks[i], picks[i]);
      CallsErase(picks, |banks|, b, s);
      PickedAreInRange(banks, first, last, b, s);
    }
  }

  class FlashChips {
    const banks: seq<Bank>
    var protect: seq<seq<bool>>                 // a bit for each sector of each bank
    var erasures: seq<(nat, int, int)>          // the calls of flash_erase: bank, first and last sector

    ghost predicate Valid()
      reads this
    {
      && Chips(banks) && |protect| == |banks|
      && forall b :: 0 <= b < |banks| ==> |protect[b]| == |banks[b].start|
    }

    constructor (banks: seq<Bank>)
      requires Chips(banks)
      ensures Valid() && this.banks == banks && erasures == []
    {
      this.banks := banks;
      protect := seq(|banks|, b requires 0 <= b < |banks| => seq(|banks[b].start|, _ => false));
      erasures := [];
    }

    /** The loops that set the bits of the sectors picked. */
    method ProtectPicked(p: bool, sFirst: array<int>, sLast: array<int>, ghost picks: seq<Pick>)
      requires Valid() && sFirst.Length == sLast.Length == |banks| && picks == PicksOf(sFirst[..], sLast[..])
      requires forall b :: 0 <= b < |banks| ==> ProperPick(banks[b], picks[b])
      modifies this`protect
      ensures Valid()
      ensures forall b, s :: 0 <= b < |banks| && 0 <= s < |banks[b].start| ==>
                protect[b][s] == if Picked(picks[b], s) then p else old(protect[b][s])
    {
      for bank := 0 to |banks|
        invariant Valid()
        invariant forall b, s :: 0 <= b < |banks| && 0 <= s < |banks[b].start| ==>
          protect[b][s] == if b < bank && Picked(picks[b], s) then p else old(protect[b][s])
        modifies this`protect
      {
        assert picks[bank] == Pick(sFirst[bank], sLast[bank]) && ProperPick(banks[bank], picks[bank]);
        if !banks[bank].known { continue; }
        if sFirst[bank] >= 0 && sFirst[bank] <= sLast[bank] {
          var row := protect[bank];
          for i := sFirst[bank] to sLast[bank] + 1
            invariant |row| == |banks[bank].start|
            invariant forall s :: 0 <= s < |row| ==> row[s] == if sFirst[bank] <= s < i then p else protect[bank][s]
          {
            row := row[i := p];
          }
          protect := protect[bank := row];
        }
      }
    }

    /** flash_sect_protect, with the bits in memory: code 0 and the bits of the sectors in the range, or
        code 1 and nothing. */
    method SectProtect(p: bool, first: u32, last: u32) returns (rcode: int)
      requires Valid()
      modifies this`protect
      ensures Valid()
      ensures var plan := Fill(banks, first, last);
        && rcode == (if plan.rc == 0 && plan.count != 0 then 0 else 1)
        && forall b, s :: 0 <= b < |banks| && 0 <= s < |banks[b].start| ==>
             protect[b][s] == if rcode == 0 && Picked(plan.picks[b], s) then p else old(protect[b][s])
      ensures Separate(banks) && first <= last && !Wraps(banks, first, last) ==>
        && rcode == (if Accepted(banks, first, last) && StartsSector(banks, first) then 0 else 1)
        && forall b, s :: 0 <= b < |banks| && 0 <= s < |banks[b].start| ==>
             protect[b][s] == if rcode == 0 && InRange(banks, first, last, b, s) then p else old(protect[b][s])
    {
      hide Fill, Accepted, Reach, StartsSector, Separate, Wraps, InRange, Picked;
      RangePicked(banks, first, last);
      FillCounts(banks, first, last);
      FillCodes(banks, first, last);
      var sFirst, sLast := new int[|banks|], new int[|banks|];
      var planned;
      planned, rcode := FillSectRanges(banks, first, last, sFirst, sLast);
      if planned == 0 || rcode != 0 { return 1; }
      ProtectPicked(p, sFirst, sLast, Fill(banks, first, last).picks);
    }

    /** The loop that erases the sectors picked, up to the first failure. */
    method ErasePicked(results: seq<int>, sFirst: array<int>, sLast: array<int>, ghost picks: seq<Pick>) returns (rcode: int)
      requires Valid() && sFirst.Length == sLast.Length == |banks| == |results| && picks == PicksOf(sFirst[..], sLast[..])
      modifies this`erasures
      ensures Valid()
      ensures rcode == 0 ==> erasures == old(erasures) + Calls(picks, |banks|)
                             && forall b :: 0 <= b < |banks| && picks[b].first >= 0 ==> results[b] == 0
      ensures rcode != 0 ==> exists k :: 0 < k <= |banks| && erasures == old(erasures) + Calls(picks, k)
                                         && picks[k - 1].first >= 0 && results[k - 1] == rcode
                                         && forall b :: 0 <= b < k - 1 && picks[b].first >= 0 ==> results[b] == 0
    {
      rcode := 0;
      var bank := 0;
      while bank < |banks| && rcode == 0
        invariant 0 <= bank <= |banks| && erasures == old(erasures) + Calls(picks, bank)
        invariant forall b :: 0 <= b < bank && picks[b].first >= 0 && (b < bank - 1 || rcode == 0) ==> results[b] == 0
        invariant rcode != 0 ==> bank > 0 && picks[bank - 1].first >= 0 && results[bank - 1] == rcode
        modifies this`erasures
      {
        assert picks[bank] == Pick(sFirst[bank], sLast[bank]);
        if sFirst[bank] >= 0 {
          erasures := erasures + [(bank, sFirst[bank], sLast[bank])];
          rcode := results[bank];
        }
        bank := bank + 1;
      }
    }

    /** flash_sect_erase; results says what flash_erase returns in each bank, and the first failure
        ends the work. */
    method SectErase(first: u32, last: u32, results: seq<int>) returns (rcode: int)
      requires Valid() && |results| == |banks|
      modifies this`erasures
      ensures Valid()
      ensures var plan := Fill(banks, first, last);
        if plan.rc != 0 || plan.count == 0 then rcode == 1 && erasures == old(erasures)
        else if rcode == 0 then
          && erasures == old(erasures) + Calls(plan.picks, |banks|)
          && forall b :: 0 <= b < |banks| && plan.picks[b].first >= 0 ==> results[b] == 0
        else exists k :: 0 < k <= |banks| && erasures == old(erasures) + Calls(plan.picks, k)
               && plan.picks[k - 1].first >= 0 && results[k - 1] == rcode
               && forall b :: 0 <= b < k - 1 && plan.picks[b].first >= 0 ==> results[b] == 0
      ensures Separate(banks) && first <= last && !Wraps(banks, first, last) ==>
        var works := Accepted(banks, first, last) && StartsSector(banks, first);
        && (!works ==> rcode == 1 && erasures == old(erasures))
        && (works && (forall b :: 0 <= b < |banks| ==> results[b] == 0) ==> rcode == 0)
        && (works && rcode == 0 ==> forall b, s :: 0 <= b < |banks| && 0 <= s < |banks[b].start| ==>
              (Erases(erasures[|old(erasures)|..], b, s) <==> InRange(banks, first, last, b, s)))
    {
      hide Fill, Accepted, Reach, StartsSector, Separate, Wraps, InRange, Erases, Chips, Calls;
      RangePicked(banks, first, last);
      if Separate(banks) && first <= last && !Wraps(banks, first, last) && Accepted(banks, first, last) && StartsSector(banks, first) {
        CallsInRange(banks, first, last);
      }
      FillCodes(banks, first, last);
      FillCounts(banks, first, last);
      var sFirst, sLast := new int[|banks|], new int[|banks|];
      var planned;
      planned, rcode := FillSectRanges(banks, first, last, sFirst, sLast);
      if planned == 0 || rcode != 0 { return 1; }
      ghost var picks := Fill(banks, first, last).picks;
      rcode := ErasePicked(results, sFirst, sLast, picks);
      assert rcode == 0 ==> erasures[|old(erasures)|..] == Calls(picks, |banks|);
    }
  }

  lemma {:induction false} FillCodes(banks: seq<Bank>, first: u32, last: u32)
    requires Chips(banks)
    ensures Fill(banks, first, last).rc == 0 || Fill(banks, first, last).rc == 1
    decreases |banks|
  {
    hide ShareOf;
    if banks != [] && first <= last { FillCodes(banks[1..], ShareOf(banks[0], first, last).next, last); }
  }
}
