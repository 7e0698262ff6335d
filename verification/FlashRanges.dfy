/** flash_fill_sect_ranges: which sectors an address range stands for, bank by bank. */
module FlashRanges {
  import opened Words
  import opened MtdSize
  import opened FlashBanks

  /** The first and last sector chosen in a bank, -1 for none. */
  datatype Pick = Pick(first: int, last: int)

  const NO_PICK := Pick(-1, -1)

  /** The picks of all banks, the number of sectors, and the return code. */
  datatype Plan = Plan(picks: seq<Pick>, count: int, rc: int)

  /** Sector k of the bank is looked at: the range reaches it. */
  predicate Reached(b: Bank, first: u32, last: u32, k: nat)
    requires k < |b.start|
  {
    first <= SectorEnd(b, k) && b.start[k] <= last
  }

  /** The sector that starts at first, among the first k, the highest if there are several. */
  function ScanFirst(b: Bank, first: u32, last: u32, k: nat): (r: int)
    requires k <= |b.start|
    ensures -1 <= r < k
  {
    if k == 0 then -1
    else if Reached(b, first, last, k - 1) && b.start[k - 1] == first then k - 1
    else ScanFirst(b, first, last, k - 1)
  }

  /** The sector that ends at last. */
  function ScanLast(b: Bank, first: u32, last: u32, k: nat): (r: int)
    requires k <= |b.start|
    ensures -1 <= r < k
  {
    if k == 0 then -1
    else if Reached(b, first, last, k - 1) && SectorEnd(b, k - 1) == last then k - 1
    else ScanLast(b, first, last, k - 1)
  }

  /** What one bank contributes: its pick, the address to go on with, and whether there was an error. */
  datatype Share = Share(pick: Pick, next: u32, error: bool)

  function ShareOf(b: Bank, first: u32, last: u32): Share
    requires b.known ==> b.start != []
  {
    if !b.known then Share(NO_PICK, first, false)
    else
      var sf, sl := ScanFirst(b, first, last, |b.start|), ScanLast(b, first, last, |b.start|);
      var end := BankEnd(b);
      if sf >= 0 then
        if sl < 0 && last <= end then Share(Pick(sf, sl), first, true)
        else
          var sl' := if sl < 0 then |b.start| - 1 else sl;
          if sl' < sf then Share(Pick(sf, sl'), first, true)
          else Share(Pick(sf, sl'), if sl' == |b.start| - 1 then (end + 1) % WORD else b.start[sl' + 1], false)
      else if b.start[0] <= first < end then Share(Pick(sf, sl), first, true)
      else Share(Pick(sf, sl), first, sl >= 0)
  }

  predicate Chips(banks: seq<Bank>) {
    forall i :: 0 <= i < |banks| && banks[i].known ==> banks[i].start != []
  }

  function NoPicks(n: nat): (r: seq<Pick>)
    ensures |r| == n
  {
    seq(n, _ => NO_PICK)
  }

  function PickSize(p: Pick): int {
    if p.first < 0 then 0 else p.last - p.first + 1
  }

  function Fill(banks: seq<Bank>, first: u32, last: u32): (r: Plan)
    requires Chips(banks)
    ensures |r.picks| == |banks|
  {
    if banks == [] || first > last then Plan(NoPicks(|banks|), 0, 0)
    else
      var share := ShareOf(banks[0], first, last);
      if share.error then Plan([share.pick] + NoPicks(|banks| - 1), 0, 1)
      else
        With(share.pick, Fill(banks[1..], share.next, last))
  }

  // -------------------------------------------------------------------------
  // What the range means

  /** A chip has a sector that starts at a. */
  predicate StartsIn(b: Bank, a: int) {
    b.known && exists i :: 0 <= i < |b.start| && b.start[i] == a
  }

  predicate StartsSector(banks: seq<Bank>, a: int) {
    exists b :: 0 <= b < |banks| && StartsIn(banks[b], a)
  }

  predicate EndsIn(b: Bank, a: int) {
    b.known && exists i :: 0 <= i < |b.start| && SectorEnd(b, i) == a
  }

  predicate EndsSector(banks: seq<Bank>, a: int) {
    exists b :: 0 <= b < |banks| && EndsIn(banks[b], a)
  }

  /** The last address of a chip. */
  predicate LastOf(b: Bank, a: int) {
    b.known && b.start != [] && BankEnd(b) == a
  }

  predicate EndsBank(banks: seq<Bank>, a: int) {
    exists b :: 0 <= b < |banks| && LastOf(banks[b], a)
  }

  predicate Inside(b: Bank, a: int) {
    b.known && b.start != [] && b.start[0] <= a < Limit(b)
  }

  predicate InFlash(banks: seq<Bank>, a: int) {
    exists b :: 0 <= b < |banks| && Inside(banks[b], a)
  }

  /** The first address behind the unbroken flash that starts at a, as far as each chip comes behind the
      one below it in the table. */
  function Reach(banks: seq<Bank>, a: int): int {
    if banks == [] then a else Reach(banks[1..], if Inside(banks[0], a) then Limit(banks[0]) else a)
  }

  /** The picked sectors contain an address. */
  predicate Covers(banks: seq<Bank>, picks: seq<Pick>, x: int)
    requires |banks| == |picks|
  {
    exists b :: 0 <= b < |banks| && PickCovers(banks[b], picks[b], x)
  }

  predicate PickCovers(b: Bank, p: Pick, x: int) {
    b.known && 0 <= p.first <= p.last < |b.start| && b.start[p.first] <= x <= SectorEnd(b, p.last)
  }

  /** When the range is accepted. Starting on a sector, it must end on one, unless it runs past the
      unbroken flash: then it must not end on a sector of another chip. Starting elsewhere, it must not
      start inside a chip, except on its very last address, and must not end on a sector. */
  predicate Accepted(banks: seq<Bank>, first: int, last: int) {
    if StartsSector(banks, first) then last < Reach(banks, first) <==> EndsSector(banks, last)
    else (InFlash(banks, first) ==> EndsBank(banks, first)) && !EndsSector(banks, last)
  }

  /** A chip behind bank n starts at address 0. */
  predicate ZeroBehind(banks: seq<Bank>, n: int) {
    exists m :: n < m < |banks| && 0 <= m && banks[m].known && banks[m].start != [] && banks[m].start[0] == 0
  }

  /** A chip ends the address space, so that the address behind it is 0. */
  predicate EndsSpace(b: Bank) {
    b.known && b.start != [] && Limit(b) == WORD
  }

  /** A chip at address 0 comes somewhere behind one that ends the address space. */
  predicate ZeroAfterEnd(banks: seq<Bank>) {
    exists n :: 0 <= n < |banks| && EndsSpace(banks[n]) && ZeroBehind(banks, n)
  }

  /** The walk from first to last comes to the end of the address space and goes on at a chip at 0. */
  predicate Wraps(banks: seq<Bank>, first: int, last: int) {
    last == WORD - 1 && last < Reach(banks, first) && StartsSector(banks, first) && ZeroAfterEnd(banks)
  }

  // -------------------------------------------------------------------------
  // One bank

  lemma {:induction false} ScanFirstFinds(b: Bank, first: u32, last: u32, k: nat, i: nat)
    requires WellFormed(b) && i < k <= |b.start| && b.start[i] == first <= last
    ensures ScanFirst(b, first, last, k) == i
  {
    SectorFacts(b, i);
    if k - 1 != i { ScanFirstFinds(b, first, last, k - 1, i); }
  }

  lemma {:induction false} ScanFirstNone(b: Bank, first: u32, last: u32, k: nat)
    requires k <= |b.start| && forall i :: 0 <= i < |b.start| ==> b.start[i] != first
    ensures ScanFirst(b, first, last, k) == -1
  {
    if k > 0 { ScanFirstNone(b, first, last, k - 1); }
  }

  lemma {:induction false} ScanLastFinds(b: Bank, first: u32, last: u32, k: nat, i: nat)
    requires WellFormed(b) && i < k <= |b.start| && first <= last == SectorEnd(b, i)
    ensures ScanLast(b, first, last, k) == i
  {
    SectorFacts(b, i);
    if k - 1 != i {
      SectorOrder(b, i, k - 1);
      SectorFacts(b, k - 1);
      ScanLastFinds(b, first, last, k - 1, i);
    }
  }

  lemma {:induction false} ScanLastNone(b: Bank, first: u32, last: u32, k: nat)
    requires k <= |b.start| && forall i :: 0 <= i < |b.start| ==> SectorEnd(b, i) != last
    ensures ScanLast(b, first, last, k) == -1
  {
    if k > 0 { ScanLastNone(b, first, last, k - 1); }
  }

  /** A chip below the range, or none at all. */
  lemma BankBelow(b: Bank, first: u32, last: u32)
    requires first <= last && (b.known ==> WellFormed(b) && Limit(b) <= first)
    ensures ShareOf(b, first, last) == Share(NO_PICK, first, false)
    ensures !StartsIn(b, first) && !EndsIn(b, last) && !Inside(b, first) && !LastOf(b, first)
  {
    if b.known {
      forall i | 0 <= i < |b.start| ensures b.start[i] != first && SectorEnd(b, i) != last { SectorFacts(b, i); }
      ScanFirstNone(b, first, last, |b.start|);
      ScanLastNone(b, first, last, |b.start|);
    }
  }

  /** A chip above the start of the range, or one on whose last address the range starts: nothing to
      pick, and an error if the range ends on one of its sectors. */
  lemma BankApart(b: Bank, first: u32, last: u32)
    requires first <= last && b.known && WellFormed(b) && !StartsIn(b, first)
    requires first < b.start[0] || first == BankEnd(b)
    ensures ShareOf(b, first, last).error <==> EndsIn(b, last)
    ensures !EndsIn(b, last) ==> ShareOf(b, first, last) == Share(NO_PICK, first, false)
  {
    ScanFirstNone(b, first, last, |b.start|);
    if EndsIn(b, last) {
      var i :| 0 <= i < |b.start| && SectorEnd(b, i) == last;
      ScanLastFinds(b, first, last, |b.start|, i);
    } else {
      ScanLastNone(b, first, last, |b.start|);
    }
  }

  /** A chip inside which the range starts, but on no sector. */
  lemma BankAstray(b: Bank, first: u32, last: u32)
    requires first <= last && b.known && WellFormed(b) && !StartsIn(b, first) && Inside(b, first) && first != BankEnd(b)
    ensures ShareOf(b, first, last).error
  {
    SectorFacts(b, |b.start| - 1);
    ScanFirstNone(b, first, last, |b.start|);
  }

  /** A chip on whose sector i the range starts, and on one of whose sectors it ends. */
  lemma BankWhole(b: Bank, first: u32, last: u32, i: nat)
    requires first <= last && b.known && WellFormed(b) && i < |b.start| && b.start[i] == first && EndsIn(b, last)
    ensures var share := ShareOf(b, first, last);
      && !share.error && share.next == (last + 1) % WORD && share.pick.first == i && i <= share.pick.last < |b.start|
      && SectorEnd(b, share.pick.last) == last && last < Limit(b)
  {
    hide ScanFirst, ScanLast;
    var j :| 0 <= j < |b.start| && SectorEnd(b, j) == last;
    SectorFacts(b, i);
    SectorFacts(b, j);
    if j < i { SectorOrder(b, j, i); }
    ScanFirstFinds(b, first, last, |b.start|, i);
    ScanLastFinds(b, first, last, |b.start|, j);
  }

  /** A chip on whose sector i the range starts, but does not end. */
  lemma BankPart(b: Bank, first: u32, last: u32, i: nat)
    requires first <= last && b.known && WellFormed(b) && i < |b.start| && b.start[i] == first && !EndsIn(b, last)
    ensures var share := ShareOf(b, first, last);
      if last < Limit(b) then share.error else share == Share(Pick(i, |b.start| - 1), Limit(b), false)
  {
    hide ScanFirst, ScanLast;
    SectorFacts(b, |b.start| - 1);
    ScanFirstFinds(b, first, last, |b.start|, i);
    ScanLastNone(b, first, last, |b.start|);
  }

  // -------------------------------------------------------------------------
  // All banks

  lemma Shift(banks: seq<Bank>, a: int)
    requires banks != []
    ensures StartsSector(banks, a) <==> StartsIn(banks[0], a) || StartsSector(banks[1..], a)
    ensures EndsSector(banks, a) <==> EndsIn(banks[0], a) || EndsSector(banks[1..], a)
    ensures EndsBank(banks, a) <==> LastOf(banks[0], a) || EndsBank(banks[1..], a)
    ensures InFlash(banks, a) <==> Inside(banks[0], a) || InFlash(banks[1..], a)
  {
    hide StartsIn, EndsIn, LastOf, Inside;
    assert forall b :: 0 < b < |banks| ==> banks[b] == banks[1..][b - 1];
    assert forall b :: 0 <= b < |banks| - 1 ==> banks[1..][b] == banks[b + 1];
  }

  /** Where the first chip is, there is no other. */
  lemma RestApart(banks: seq<Bank>, a: int)
    requires Separate(banks) && banks != [] && Inside(banks[0], a)
    ensures !StartsSector(banks[1..], a) && !EndsSector(banks[1..], a) && !InFlash(banks[1..], a)
  {
    var rest := banks[1..];
    forall b | 0 <= b < |rest| ensures !StartsIn(rest[b], a) && !EndsIn(rest[b], a) && !Inside(rest[b], a) {
      assert rest[b] == banks[b + 1];
      if rest[b].known {
        forall i | 0 <= i < |rest[b].start| ensures rest[b].start[i] != a && SectorEnd(rest[b], i) != a {
          SectorFacts(rest[b], i);
        }
      }
    }
  }

  lemma SeparateRest(banks: seq<Bank>)
    requires Separate(banks) && Chips(banks) && banks != []
    ensures Separate(banks[1..]) && Chips(banks[1..])
  {
    hide WellFormed;
    assert forall b :: 0 <= b < |banks| - 1 ==> banks[1..][b] == banks[b + 1];
  }

  lemma SeparateAt(banks: seq<Bank>, n: nat)
    requires Separate(banks) && n < |banks| && banks[n].known
    ensures WellFormed(banks[n])
  {
  }

  lemma {:induction false} ReachFacts(banks: seq<Bank>, a: int)
    ensures a <= Reach(banks, a) && (!InFlash(banks, a) ==> Reach(banks, a) == a)
  {
    if banks != [] {
      Shift(banks, a);
      ReachFacts(banks[1..], if Inside(banks[0], a) then Limit(banks[0]) else a);
    }
  }

  /** Flash that starts behind a chip starts on a sector. */
  lemma NextStarts(banks: seq<Bank>)
    requires Separate(banks) && banks != [] && banks[0].known
    ensures InFlash(banks[1..], Limit(banks[0])) ==> StartsSector(banks[1..], Limit(banks[0]))
  {
    var a, rest := Limit(banks[0]), banks[1..];
    if InFlash(rest, a) {
      var b :| 0 <= b < |rest| && Inside(rest[b], a);
      assert rest[b] == banks[b + 1];
      assert rest[b].start[0] == a;
      assert StartsIn(rest[b], a);
    }
  }

  lemma CoversShift(banks: seq<Bank>, p: Pick, picks: seq<Pick>, x: int)
    requires banks != [] && |picks| == |banks| - 1
    ensures Covers(banks, [p] + picks, x) <==> PickCovers(banks[0], p, x) || Covers(banks[1..], picks, x)
  {
    hide PickCovers;
    var all := [p] + picks;
    assert forall b :: 0 < b < |banks| ==> banks[b] == banks[1..][b - 1] && all[b] == picks[b - 1];
    assert forall b :: 0 <= b < |banks| - 1 ==> banks[1..][b] == banks[b + 1] && picks[b] == all[b + 1];
  }

  lemma CoversNone(banks: seq<Bank>, x: int)
    ensures !Covers(banks, NoPicks(|banks|), x)
  {
  }

  lemma ZeroShift(banks: seq<Bank>, n: nat)
    requires banks != []
    ensures ZeroBehind(banks, n) <==> ZeroBehind(banks[1..], n - 1)
  {
    assert forall m :: 0 < m < |banks| ==> banks[m] == banks[1..][m - 1];
    assert forall m :: 0 <= m < |banks| - 1 ==> banks[1..][m] == banks[m + 1];
  }

  /** What the rest of the chips inherits. */
  lemma NoneAfterRest(banks: seq<Bank>)
    requires banks != []
    ensures ZeroAfterEnd(banks) <==> (EndsSpace(banks[0]) && ZeroBehind(banks, 0)) || ZeroAfterEnd(banks[1..])
  {
    hide EndsSpace, ZeroBehind;
    var rest := banks[1..];
    if ZeroAfterEnd(rest) {
      var n :| 0 <= n < |rest| && EndsSpace(rest[n]) && ZeroBehind(rest, n);
      assert banks[n + 1] == rest[n];
      ZeroShift(banks, n + 1);
    }
    if ZeroAfterEnd(banks) {
      var n :| 0 <= n < |banks| && EndsSpace(banks[n]) && ZeroBehind(banks, n);
      if n > 0 {
        assert banks[n] == rest[n - 1];
        ZeroShift(banks, n);
      }
    }
  }

  /** What happens behind the bank in which the range ended. */
  lemma BehindFirst(banks: seq<Bank>, last: u32)
    requires Separate(banks) && Chips(banks) && banks != [] && banks[0].known && last < Limit(banks[0]) && banks[0].start[0] <= last
    ensures Chips(banks[1..])
    ensures var rest := Fill(banks[1..], (last + 1) % WORD, last);
      if last == WORD - 1 && ZeroBehind(banks, 0) then rest.picks != NoPicks(|banks| - 1)
      else rest == Plan(NoPicks(|banks| - 1), 0, 0)
  {
    hide Fill, ZeroBehind, Separate;
    SeparateRest(banks);
    if last == WORD - 1 {
      SeparateAt(banks, 0);
      InOneBankStart(banks[0]);
      BelowEnd(banks);
      Wrapped(banks[1..]);
      ZeroShift(banks, 0);
    } else {
      PastEnd(banks[1..], last + 1, last);
    }
  }

  lemma {:induction false} PastEnd(banks: seq<Bank>, first: u32, last: u32)
    requires Chips(banks) && first > last
    ensures Fill(banks, first, last) == Plan(NoPicks(|banks|), 0, 0)
  {
  }

  /** Beside a chip that ends the address space all others end below. */
  lemma BelowEnd(banks: seq<Bank>)
    requires Separate(banks) && banks != [] && banks[0].known && Limit(banks[0]) == WORD
    ensures forall m :: 0 <= m < |banks| - 1 && banks[1..][m].known ==> WellFormed(banks[1..][m]) && Limit(banks[1..][m]) < WORD
  {
    hide WellFormed;
    assert forall m :: 0 <= m < |banks| - 1 ==> banks[1..][m] == banks[m + 1];
    SeparateAt(banks, 0);
    assert banks[0].start != [] by { InOneBankStart(banks[0]); }
    forall m | 0 <= m < |banks| - 1 && banks[1..][m].known
      ensures WellFormed(banks[1..][m]) && Limit(banks[1..][m]) < WORD
    {
      InOneBankStart(banks[m + 1]);
    }
  }

  lemma InOneBankStart(b: Bank)
    requires WellFormed(b)
    ensures b.start != [] && b.start[0] < Limit(b) <= WORD
  {
  }

  /** The whole address space as a range, over chips that end below its end: a chip that starts at 0 is
      picked, and without one nothing is. */
  lemma {:induction false} Wrapped(banks: seq<Bank>)
    requires Chips(banks) && forall m :: 0 <= m < |banks| && banks[m].known ==> WellFormed(banks[m]) && Limit(banks[m]) < WORD
    ensures if ZeroBehind(banks, -1) then Fill(banks, 0, WORD - 1).picks != NoPicks(|banks|)
      else Fill(banks, 0, WORD - 1) == Plan(NoPicks(|banks|), 0, 0)
  {
    hide ShareOf, Fill, ZeroBehind, WellFormed;
    if banks == [] {
      AllUnknown(banks, 0, WORD - 1);
      assert !ZeroBehind(banks, -1) by { NoZero(); }
    } else {
      var b, rest := banks[0], banks[1..];
      assert forall m :: 0 <= m < |rest| ==> rest[m] == banks[m + 1];
      FillStep(banks, 0, WORD - 1);
      if b.known && b.start[0] == 0 {
        WrappedShare(b);
        ZeroHere(banks);
        assert Fill(banks, 0, WORD - 1).picks[0] == Pick(0, |b.start| - 1) != NoPicks(|banks|)[0];
      } else {
        Wrapped(rest);
        ZeroFirst(banks);
        WrappedShare(b);
        ShiftNone(Fill(rest, 0, WORD - 1).picks);
      }
    }
  }

  lemma NoZero()
    ensures !ZeroBehind([], -1)
  {
  }

  lemma ZeroHere(banks: seq<Bank>)
    requires banks != [] && banks[0].known && banks[0].start != [] && banks[0].start[0] == 0
    ensures ZeroBehind(banks, -1)
  {
  }

  lemma ShiftNone(picks: seq<Pick>)
    ensures [NO_PICK] + picks == NoPicks(|picks| + 1) <==> picks == NoPicks(|picks|)
  {
    assert ([NO_PICK] + picks)[1..] == picks && NoPicks(|picks| + 1)[1..] == NoPicks(|picks|);
    assert NoPicks(|picks| + 1) == [NO_PICK] + NoPicks(|picks|);
  }

  /** What one chip contributes to the whole address space. */
  lemma WrappedShare(b: Bank)
    requires b.known ==> b.start != [] && WellFormed(b) && Limit(b) < WORD
    ensures ShareOf(b, 0, WORD - 1) ==
      if b.known && b.start[0] == 0 then Share(Pick(0, |b.start| - 1), Limit(b), false) else Share(NO_PICK, 0, false)
  {
    hide ShareOf;
    if b.known {
      EndsBelow(b, WORD - 1);
      if b.start[0] == 0 {
        BankPart(b, 0, WORD - 1, 0);
      } else {
        NothingAtZero(b);
        BankApart(b, 0, WORD - 1);
      }
    } else {
      BankBelow(b, 0, WORD - 1);
    }
  }

  lemma EndsBelow(b: Bank, last: int)
    requires b.known && WellFormed(b) && Limit(b) <= last
    ensures !EndsIn(b, last)
  {
    forall k | 0 <= k < |b.start| ensures SectorEnd(b, k) != last { SectorFacts(b, k); }
  }

  lemma NothingAtZero(b: Bank)
    requires b.known && WellFormed(b) && b.start[0] > 0
    ensures !StartsIn(b, 0)
  {
  }

  lemma ZeroFirst(banks: seq<Bank>)
    requires banks != [] && !(banks[0].known && banks[0].start != [] && banks[0].start[0] == 0)
    ensures ZeroBehind(banks, -1) <==> ZeroBehind(banks[1..], -1)
  {
    assert forall m :: 0 < m < |banks| ==> banks[m] == banks[1..][m - 1];
    assert forall m :: 0 <= m < |banks| - 1 ==> banks[1..][m] == banks[m + 1];
  }

  /** What a plan means: accepted or not, whether it picks anything, and which addresses it covers. */
  ghost predicate Means(banks: seq<Bank>, first: int, last: int, p: Plan)
    requires |p.picks| == |banks|
  {
    && (p.rc == 0 <==> Accepted(banks, first, last)) && (p.rc == 0 || p.rc == 1) && p.count >= 0
    && (p.rc == 0 ==> (p.count > 0 <==> StartsSector(banks, first)))
    && (p.rc == 0 ==> forall x :: Covers(banks, p.picks, x) <==>
          StartsSector(banks, first) && first <= x <= last && x < Reach(banks, first))
  }

  /** The walk over all chips, in whatever order they are, as long as it does not wrap. */
  lemma {:induction false} WalkMeans(banks: seq<Bank>, first: u32, last: u32)
    requires Separate(banks) && Chips(banks) && first <= last && !Wraps(banks, first, last)
    ensures Means(banks, first, last, Fill(banks, first, last))
    decreases |banks|
  {
    hide ShareOf, WellFormed, Inside, StartsIn, EndsIn, LastOf, Means, Reach, Fill, Separate, Wraps;
    if banks == [] {
      NoBanks(first, last);
    } else {
      var b := banks[0];
      SeparateRest(banks);
      WrapsRest(banks, first, last);
      if b.known { SeparateAt(banks, 0); }
      if !b.known || Limit(b) <= first {
        BankBelow(b, first, last);
        WalkMeans(banks[1..], first, last);
        SkipMeans(banks, first, last);
      } else if StartsIn(b, first) {
        if EndsIn(b, last) {
          EndWraps(banks, first, last);
          WholeMeans(banks, first, last);
        } else if last < Limit(b) {
          CutMeans(banks, first, last);
        } else {
          WalkMeans(banks[1..], Limit(b), last);
          PartMeans(banks, first, last);
        }
      } else if Inside(b, first) && first != BankEnd(b) {
        BankAstray(b, first, last);
        AstrayMeans(banks, first, last);
      } else {
        WalkMeans(banks[1..], first, last);
        ApartMeans(banks, first, last);
      }
    }
  }

  lemma {:induction false} NoBanks(first: u32, last: u32)
    ensures Means([], first, last, Fill([], first, last))
  {
  }

  /** One step of the loop. */
  lemma {:induction false} FillStep(banks: seq<Bank>, first: u32, last: u32)
    requires Chips(banks) && banks != [] && first <= last
    ensures Chips(banks[1..])
    ensures var share := ShareOf(banks[0], first, last);
      Fill(banks, first, last) ==
        if share.error then Plan([share.pick] + NoPicks(|banks| - 1), 0, 1)
        else With(share.pick, Fill(banks[1..], share.next, last))
  {
    hide ShareOf;
  }

  function With(p: Pick, rest: Plan): Plan {
    Plan([p] + rest.picks, rest.count + PickSize(p), rest.rc)
  }

  lemma ReachStep(banks: seq<Bank>, a: int)
    requires banks != []
    ensures Reach(banks, a) == Reach(banks[1..], if Inside(banks[0], a) then Limit(banks[0]) else a)
  {
    hide Inside;
  }

  /** A chip that contributes nothing, and has nothing to do with the range. */
  lemma {:induction false} SkipMeans(banks: seq<Bank>, first: u32, last: u32)
    requires Chips(banks) && banks != [] && first <= last
    requires ShareOf(banks[0], first, last) == Share(NO_PICK, first, false)
    requires !StartsIn(banks[0], first) && !EndsIn(banks[0], last) && !Inside(banks[0], first) && !LastOf(banks[0], first)
    requires Chips(banks[1..]) && Means(banks[1..], first, last, Fill(banks[1..], first, last))
    ensures Means(banks, first, last, Fill(banks, first, last))
  {
    hide ShareOf, Inside, StartsIn, EndsIn, LastOf, Reach, Fill, Covers, StartsSector, EndsSector, EndsBank, InFlash;
    FillStep(banks, first, last);
    ReachStep(banks, first);
    Shift(banks, first);
    Shift(banks, last);
    forall x ensures Covers(banks, Fill(banks, first, last).picks, x) <==> Covers(banks[1..], Fill(banks[1..], first, last).picks, x) {
      CoversShift(banks, NO_PICK, Fill(banks[1..], first, last).picks, x);
    }
  }

  /** A range that starts inside a chip but on no sector is refused. */
  lemma {:induction false} AstrayMeans(banks: seq<Bank>, first: u32, last: u32)
    requires Separate(banks) && Chips(banks) && banks != [] && first <= last
    requires Inside(banks[0], first) && !StartsIn(banks[0], first) && first != BankEnd(banks[0])
    requires ShareOf(banks[0], first, last).error
    ensures Means(banks, first, last, Fill(banks, first, last))
  {
    hide ShareOf, StartsIn, EndsIn, Reach, Fill, Covers, StartsSector, EndsSector, EndsBank, InFlash, WellFormed;
    FillStep(banks, first, last);
    Shift(banks, first);
    RestApart(banks, first);
    SeparateRest(banks);
    if EndsBank(banks[1..], first) { LastIsInside(banks[1..], first); }
  }

  lemma LastIsInside(banks: seq<Bank>, a: int)
    requires forall i :: 0 <= i < |banks| && banks[i].known ==> WellFormed(banks[i])
    ensures EndsBank(banks, a) ==> InFlash(banks, a)
  {
    if EndsBank(banks, a) {
      var b :| 0 <= b < |banks| && LastOf(banks[b], a);
      SectorFacts(banks[b], |banks[b].start| - 1);
      assert Inside(banks[b], a);
    }
  }

  lemma {:induction false} ApartFacts(banks: seq<Bank>, first: u32, last: u32)
    requires Separate(banks) && Chips(banks) && banks != [] && first <= last
    requires banks[0].known && first < Limit(banks[0]) && !StartsIn(banks[0], first)
    requires Inside(banks[0], first) ==> first == BankEnd(banks[0])
    ensures ShareOf(banks[0], first, last).error <==> EndsIn(banks[0], last)
    ensures !EndsIn(banks[0], last) ==> ShareOf(banks[0], first, last) == Share(NO_PICK, first, false)
    ensures LastOf(banks[0], first) <==> Inside(banks[0], first)
    ensures Inside(banks[0], first) ==>
              !StartsSector(banks[1..], first) && !InFlash(banks[1..], first) && !EndsBank(banks[1..], first)
    ensures EndsIn(banks[0], last) ==> Reach(banks[1..], first) <= last
  {
    hide ShareOf, StartsIn, StartsSector, EndsSector, EndsBank, InFlash, Reach;
    SectorFacts(banks[0], |banks[0].start| - 1);
    BankApart(banks[0], first, last);
    if Inside(banks[0], first) {
      RestApart(banks, first);
      SeparateRest(banks);
      LastIsInside(banks[1..], first);
    }
    if EndsIn(banks[0], last) {
      EndIsInside(banks[0], last);
      RestApart(banks, last);
      ReachIsFlash(banks[1..], first, last);
    }
  }

  /** The first and last addresses of sectors lie in their chip. */
  lemma EndIsInside(b: Bank, a: int)
    requires b.known ==> WellFormed(b)
    ensures EndsIn(b, a) ==> Inside(b, a)
  {
    if EndsIn(b, a) {
      var i :| 0 <= i < |b.start| && SectorEnd(b, i) == a;
      SectorFacts(b, i);
    }
  }

  /** Up to where the flash breaks off there is flash. */
  lemma {:induction false} ReachIsFlash(banks: seq<Bank>, a: int, x: int)
    ensures a <= x < Reach(banks, a) ==> InFlash(banks, x)
  {
    hide InFlash;
    if banks != [] {
      ReachIsFlash(banks[1..], if Inside(banks[0], a) then Limit(banks[0]) else a, x);
      Shift(banks, x);
    }
  }

  /** A chip above the start of the range, or one on whose last address it starts. */
  lemma {:induction false} ApartMeans(banks: seq<Bank>, first: u32, last: u32)
    requires Separate(banks) && Chips(banks) && banks != [] && first <= last
    requires banks[0].known && first < Limit(banks[0]) && !StartsIn(banks[0], first)
    requires Inside(banks[0], first) ==> first == BankEnd(banks[0])
    requires Chips(banks[1..]) && Means(banks[1..], first, last, Fill(banks[1..], first, last))
    ensures Means(banks, first, last, Fill(banks, first, last))
  {
    hide ShareOf, Inside, StartsIn, EndsIn, LastOf, Reach, Fill, Covers, StartsSector, EndsSector, EndsBank, InFlash, WellFormed, Separate;
    ApartFacts(banks, first, last);
    FillStep(banks, first, last);
    ReachStep(banks, first);
    Shift(banks, first);
    Shift(banks, last);
    if !EndsIn(banks[0], last) && Fill(banks[1..], first, last).rc == 0 {
      forall x ensures Covers(banks, Fill(banks, first, last).picks, x) <==> Covers(banks[1..], Fill(banks[1..], first, last).picks, x) {
        CoversShift(banks, NO_PICK, Fill(banks[1..], first, last).picks, x);
      }
    }
  }

  /** A range that starts on a sector of a chip but ends inside it on none is refused. */
  lemma {:induction false} CutMeans(banks: seq<Bank>, first: u32, last: u32)
    requires Separate(banks) && Chips(banks) && banks != [] && StartsIn(banks[0], first) && !EndsIn(banks[0], last)
    requires first <= last < Limit(banks[0])
    ensures Means(banks, first, last, Fill(banks, first, last))
  {
    var b := banks[0];
    var i :| 0 <= i < |b.start| && b.start[i] == first;
    BankPart(b, first, last, i);
    StartIsInside(b, i);
    RestApart(banks, last);
    hide ShareOf, StartsIn, EndsIn, Reach, Fill, Covers, StartsSector, EndsSector, Inside, WellFormed;
    FillStep(banks, first, last);
    Shift(banks, first);
    Shift(banks, last);
    ReachStep(banks, first);
    ReachFacts(banks[1..], Limit(b));
  }

  lemma StartIsInside(b: Bank, i: nat)
    requires b.known && WellFormed(b) && i < |b.start|
    ensures Inside(b, b.start[i])
  {
    SectorFacts(b, i);
  }

  lemma {:induction false} AllUnknown(banks: seq<Bank>, first: u32, last: u32)
    requires forall i :: 0 <= i < |banks| ==> !banks[i].known
    ensures Fill(banks, first, last) == Plan(NoPicks(|banks|), 0, 0)
  {
    if banks != [] && first <= last {
      AllUnknown(banks[1..], first, last);
      assert [NO_PICK] + NoPicks(|banks| - 1) == NoPicks(|banks|);
    }
  }

  lemma {:induction false} WholeFacts(banks: seq<Bank>, first: u32, last: u32)
    requires Separate(banks) && Chips(banks) && banks != [] && first <= last
    requires StartsIn(banks[0], first) && EndsIn(banks[0], last)
    requires !(last == WORD - 1 && ZeroBehind(banks, 0))
    ensures var share := ShareOf(banks[0], first, last);
      && !share.error && share.next == (last + 1) % WORD && PickSize(share.pick) > 0
      && forall x :: PickCovers(banks[0], share.pick, x) <==> first <= x <= last
    ensures Inside(banks[0], first) && last < Limit(banks[0])
    ensures Chips(banks[1..]) && Fill(banks[1..], (last + 1) % WORD, last) == Plan(NoPicks(|banks| - 1), 0, 0)
  {
    hide ShareOf, Fill, SectorEnd;
    var b := banks[0];
    var i :| 0 <= i < |b.start| && b.start[i] == first;
    BankWhole(b, first, last, i);
    StartIsInside(b, i);
    BehindFirst(banks, last);
  }

  /** A range that starts and ends on sectors of one chip. */
  lemma {:induction false} WholeMeans(banks: seq<Bank>, first: u32, last: u32)
    requires Separate(banks) && Chips(banks) && banks != [] && first <= last
    requires StartsIn(banks[0], first) && EndsIn(banks[0], last)
    requires !(last == WORD - 1 && ZeroBehind(banks, 0))
    ensures Means(banks, first, last, Fill(banks, first, last))
  {
    hide ShareOf, StartsIn, EndsIn, Reach, Fill, Covers, StartsSector, EndsSector, Inside, WellFormed, Separate, PickCovers, PickSize;
    var rest, share := banks[1..], ShareOf(banks[0], first, last);
    HasSectors(banks[0], first);
    WholeFacts(banks, first, last);
    FillStep(banks, first, last);
    Shift(banks, first);
    Shift(banks, last);
    ReachStep(banks, first);
    ReachFacts(rest, Limit(banks[0]));
    forall x ensures Covers(banks, Fill(banks, first, last).picks, x) <==> first <= x <= last {
      CoversShift(banks, share.pick, NoPicks(|rest|), x);
      CoversNone(rest, x);
    }
  }

  lemma PartFacts(banks: seq<Bank>, first: u32, last: u32)
    requires Separate(banks) && Chips(banks) && banks != [] && StartsIn(banks[0], first) && !EndsIn(banks[0], last)
    requires first <= last && Limit(banks[0]) <= last
    ensures var share := ShareOf(banks[0], first, last);
      && !share.error && share.next == Limit(banks[0]) && PickSize(share.pick) > 0
      && forall x :: PickCovers(banks[0], share.pick, x) <==> first <= x < Limit(banks[0])
    ensures Inside(banks[0], first) && first < Limit(banks[0])
    ensures InFlash(banks[1..], Limit(banks[0])) ==> StartsSector(banks[1..], Limit(banks[0]))
  {
    hide ShareOf, SectorEnd, InFlash, StartsSector;
    var b := banks[0];
    var i :| 0 <= i < |b.start| && b.start[i] == first;
    BankPart(b, first, last, i);
    StartIsInside(b, i);
    SectorFacts(b, |b.start| - 1);
    assert SectorEnd(b, |b.start| - 1) == Limit(b) - 1 by { LastSectorEnd(b); }
    NextStarts(banks);
  }

  lemma LastSectorEnd(b: Bank)
    requires WellFormed(b)
    ensures SectorEnd(b, |b.start| - 1) == Limit(b) - 1
  {
    var n := |b.start| - 1;
    SectorFacts(b, n);
    assert SectorEnd(b, n) == BankEnd(b);
  }

  lemma HasSectors(b: Bank, a: int)
    ensures StartsIn(b, a) ==> b.start != []
  {
  }

  /** A range that starts on a sector of a chip and goes on behind it. */
  lemma {:induction false} PartMeans(banks: seq<Bank>, first: u32, last: u32)
    requires Separate(banks) && Chips(banks) && banks != [] && StartsIn(banks[0], first) && !EndsIn(banks[0], last)
    requires first <= last && Limit(banks[0]) <= last && Chips(banks[1..])
    requires Means(banks[1..], Limit(banks[0]), last, Fill(banks[1..], Limit(banks[0]), last))
    ensures Means(banks, first, last, Fill(banks, first, last))
  {
    hide ShareOf, StartsIn, EndsIn, Reach, Fill, Covers, StartsSector, EndsSector, EndsBank, InFlash, Inside, WellFormed, Separate,
      PickCovers, PickSize;
    var b, rest, share := banks[0], banks[1..], ShareOf(banks[0], first, last);
    HasSectors(b, first);
    PartFacts(banks, first, last);
    FillStep(banks, first, last);
    Shift(banks, first);
    Shift(banks, last);
    ReachStep(banks, first);
    ReachFacts(rest, Limit(b));
    forall x ensures Covers(banks, Fill(banks, first, last).picks, x)
      <==> first <= x < Limit(b) || Covers(rest, Fill(rest, Limit(b), last).picks, x) {
      CoversShift(banks, share.pick, Fill(rest, Limit(b), last).picks, x);
    }
  }

  // -------------------------------------------------------------------------
  // Where the address wraps

  /** Flash that ends below the end of the address space does not reach it. */
  lemma {:induction false} ReachBelow(banks: seq<Bank>, a: int)
    requires forall i :: 0 <= i < |banks| && banks[i].known && banks[i].start != [] ==> Limit(banks[i]) < WORD
    ensures a < WORD ==> Reach(banks, a) < WORD
  {
    if banks != [] {
      assert forall i :: 0 <= i < |banks| - 1 ==> banks[1..][i] == banks[i + 1];
      ReachBelow(banks[1..], if Inside(banks[0], a) then Limit(banks[0]) else a);
    }
  }

  /** Whether the walk wraps is decided by the chips behind, unless it ends on the first one. */
  lemma WrapsRest(banks: seq<Bank>, first: u32, last: u32)
    requires Separate(banks) && Chips(banks) && banks != []
    ensures !StartsIn(banks[0], first) ==> (Wraps(banks, first, last) <==> Wraps(banks[1..], first, last))
    ensures StartsIn(banks[0], first) && Limit(banks[0]) < WORD ==>
              (Wraps(banks, first, last) <==> Wraps(banks[1..], Limit(banks[0]), last))
  {
    hide StartsSector, Reach, ZeroAfterEnd, ZeroBehind, Separate, WellFormed, Inside, StartsIn;
    var b, rest := banks[0], banks[1..];
    Shift(banks, first);
    ReachStep(banks, first);
    NoneAfterRest(banks);
    if StartsIn(b, first) {
      StartsInside(banks, first);
      if Limit(b) < WORD {
        NextStarts(banks);
        ReachFacts(rest, Limit(b));
      }
    } else {
      if Inside(b, first) { RestApart(banks, first); }
      if EndsSpace(b) {
        BelowEnd(banks);
        ReachBelow(rest, first);
      }
    }
  }

  lemma StartsInside(banks: seq<Bank>, a: int)
    requires Separate(banks) && banks != [] && StartsIn(banks[0], a)
    ensures Inside(banks[0], a) && banks[0].known && banks[0].start != []
  {
    hide SectorEnd;
    var i :| 0 <= i < |banks[0].start| && banks[0].start[i] == a;
    StartIsInside(banks[0], i);
  }

  /** A walk that ends at the last address of all, on the first chip. */
  lemma EndWraps(banks: seq<Bank>, first: u32, last: u32)
    requires Separate(banks) && banks != [] && StartsIn(banks[0], first) && EndsIn(banks[0], last)
    ensures last == WORD - 1 && ZeroBehind(banks, 0) <==> Wraps(banks, first, last)
  {
    hide ZeroBehind, StartsSector, Reach, Separate, WellFormed, Inside, StartsIn, EndsIn, ZeroAfterEnd;
    var b, rest := banks[0], banks[1..];
    Shift(banks, first);
    ReachStep(banks, first);
    StartsInside(banks, first);
    SeparateAt(banks, 0);
    InOneBankStart(b);
    EndIsInside(b, last);
    InsideBelow(b, last);
    ReachFacts(rest, Limit(b));
    NoneAfterRest(banks);
    if last == WORD - 1 {
      BelowEnd(banks);
      NoEnd(rest);
    }
  }

  lemma InsideBelow(b: Bank, a: int)
    ensures Inside(b, a) ==> b.start != [] && a < Limit(b)
  {
  }

  lemma NoEnd(banks: seq<Bank>)
    requires forall i :: 0 <= i < |banks| && banks[i].known && banks[i].start != [] ==> Limit(banks[i]) < WORD
    ensures !ZeroAfterEnd(banks)
  {
  }

  lemma WrapsSomewhere(banks: seq<Bank>, first: u32, last: u32)
    requires Wraps(banks, first, last)
    ensures banks != [] && last == WORD - 1
  {
  }

  /** The first chip has nothing to do with a walk that wraps behind it. */
  lemma WrapSkips(banks: seq<Bank>, first: u32, last: u32)
    requires Separate(banks) && Chips(banks) && banks != [] && !StartsIn(banks[0], first)
    requires Wraps(banks[1..], first, last)
    ensures ShareOf(banks[0], first, last) == Share(NO_PICK, first, false)
  {
    hide ShareOf, StartsIn, Reach, ZeroAfterEnd, StartsSector;
    var b := banks[0];
    if b.known && first < Limit(b) {
      if Inside(b, first) { RestApart(banks, first); }
      if EndsIn(b, last) {
        EndIsInside(b, last);
        RestApart(banks, last);
        ReachIsFlash(banks[1..], first, last);
      }
      BankApart(b, first, last);
    } else {
      BankBelow(b, first, last);
    }
  }

  /** A walk that wraps goes on behind the chip on which it starts. */
  lemma WrapPasses(banks: seq<Bank>, first: u32, last: u32)
    requires Separate(banks) && Chips(banks) && banks != [] && StartsIn(banks[0], first) && Limit(banks[0]) < WORD
    requires Wraps(banks[1..], Limit(banks[0]), last)
    ensures !ShareOf(banks[0], first, last).error && ShareOf(banks[0], first, last).next == Limit(banks[0])
    ensures first > 0
  {
    hide ShareOf, SectorEnd, Reach, StartsSector;
    var b := banks[0];
    var i :| 0 <= i < |b.start| && b.start[i] == first;
    EndsBelow(b, last);
    BankPart(b, first, last, i);
    StartIsInside(b, i);
    ZeroElsewhere(banks);
  }

  /** If a chip at 0 is yet to come, this one does not contain 0. */
  lemma ZeroElsewhere(banks: seq<Bank>)
    requires Separate(banks) && banks != [] && (ZeroAfterEnd(banks[1..]) || ZeroBehind(banks, 0))
    ensures !Inside(banks[0], 0) && exists m :: 0 <= m < |banks| - 1 && Inside(banks[1..][m], 0)
  {
    var rest := banks[1..];
    assert forall m :: 0 < m < |banks| ==> banks[m] == rest[m - 1];
    var m :| 0 < m < |banks| && banks[m].known && banks[m].start != [] && banks[m].start[0] == 0;
    assert Inside(rest[m - 1], 0);
    if Inside(banks[0], 0) { RestApart(banks, 0); }
  }

  /** Where the walk wraps, it goes on with the chips behind over all addresses. */
  lemma {:induction false} WrapEnds(banks: seq<Bank>, first: u32, last: u32)
    requires Separate(banks) && Chips(banks) && banks != [] && StartsIn(banks[0], first) && Limit(banks[0]) >= WORD
    requires Wraps(banks, first, last) && Chips(banks[1..])
    ensures !ShareOf(banks[0], first, last).error && ShareOf(banks[0], first, last).next == 0 && first > 0
    ensures Fill(banks[1..], 0, last).rc == 0 && Covers(banks[1..], Fill(banks[1..], 0, last).picks, 0)
  {
    hide ShareOf, Fill, Reach, Covers, Accepted;
    var b, rest := banks[0], banks[1..];
    var i :| 0 <= i < |b.start| && b.start[i] == first;
    StartIsInside(b, i);
    LastSectorEnd(b);
    assert EndsIn(b, last);
    BankWhole(b, first, last, i);
    EndWraps(banks, first, last);
    ZeroElsewhere(banks);
    SeparateRest(banks);
    BelowEnd(banks);
    FromZero(rest, last);
  }

  /** From 0 over chips that end below the end of the address space. */
  lemma {:induction false} FromZero(banks: seq<Bank>, last: u32)
    requires Separate(banks) && Chips(banks) && last == WORD - 1
    requires forall m :: 0 <= m < |banks| && banks[m].known ==> WellFormed(banks[m]) && Limit(banks[m]) < WORD
    requires exists m :: 0 <= m < |banks| && Inside(banks[m], 0)
    ensures Fill(banks, 0, last).rc == 0 && Covers(banks, Fill(banks, 0, last).picks, 0)
  {
    hide Fill, Reach, Covers, Separate;
    var m :| 0 <= m < |banks| && Inside(banks[m], 0);
    assert StartsIn(banks[m], 0);
    NoEnd(banks);
    WalkMeans(banks, 0, last);
    ReachBelow(banks, 0);
    forall b | 0 <= b < |banks| ensures !EndsIn(banks[b], last) {
      if banks[b].known { EndsBelow(banks[b], last); }
    }
    StartReaches(banks, 0);
  }

  /** From any address of the flash on there is flash. */
  lemma {:induction false} StartReaches(banks: seq<Bank>, a: int)
    requires InFlash(banks, a)
    ensures a < Reach(banks, a)
  {
    hide InFlash;
    if banks != [] {
      Shift(banks, a);
      if Inside(banks[0], a) {
        ReachFacts(banks[1..], Limit(banks[0]));
      } else {
        StartReaches(banks[1..], a);
      }
    } else {
      NotInFlash(a);
    }
  }

  lemma NotInFlash(a: int)
    ensures !InFlash([], a)
  {
  }

  /** A walk that wraps is accepted and picks the chip at address 0, which lies below the range. */
  lemma {:induction false} WrapPicks(banks: seq<Bank>, first: u32, last: u32)
    requires Separate(banks) && Chips(banks) && Wraps(banks, first, last)
    ensures first > 0 && Fill(banks, first, last).rc == 0 && Covers(banks, Fill(banks, first, last).picks, 0)
    decreases |banks|
  {
    hide ShareOf, WellFormed, Inside, StartsIn, EndsIn, Reach, Fill, Separate, Wraps, Covers, PickCovers, ZeroBehind;
    WrapsSomewhere(banks, first, last);
    var b, rest := banks[0], banks[1..];
    SeparateRest(banks);
    WrapsRest(banks, first, last);
    FillStep(banks, first, last);
    var share := ShareOf(b, first, last);
    CoversShift(banks, share.pick, Fill(rest, share.next, last).picks, 0);
    if StartsIn(b, first) { StartsInside(banks, first); }
    if !StartsIn(b, first) {
      WrapPicks(rest, first, last);
      WrapSkips(banks, first, last);
    } else if Limit(b) < WORD {
      WrapPicks(rest, Limit(b), last);
      WrapPasses(banks, first, last);
    } else {
      WrapEnds(banks, first, last);
    }
  }

  /** The meaning of flash_fill_sect_ranges, for every range and every board whose chips do not overlap,
      in whatever order they are. It succeeds exactly on the accepted ranges; it picks something exactly
      when the range starts on a sector; and the picked sectors then cover the range exactly, up to where
      the flash breaks off. This is so unless the walk wraps to a chip at address 0. */
  lemma {:induction false} FillMeans(banks: seq<Bank>, first: u32, last: u32)
    requires Separate(banks) && Chips(banks) && first <= last
    ensures Means(banks, first, last, Fill(banks, first, last)) <==> !Wraps(banks, first, last)
  {
    hide Fill, Covers, Reach, StartsSector, Accepted, Separate, Wraps;
    if Wraps(banks, first, last) {
      WrapPicks(banks, first, last);
    } else {
      WalkMeans(banks, first, last);
    }
  }

  // -------------------------------------------------------------------------
  // Consequences

  /** With the chips in ascending order a walk never wraps. */
  lemma AscendingNeverWraps(banks: seq<Bank>, first: int, last: int)
    requires Ascending(banks)
    ensures Separate(banks) && !Wraps(banks, first, last)
  {
    hide Reach, StartsSector;
  }

  function Total(picks: seq<Pick>): int {
    if picks == [] then 0 else Total(picks[1..]) + PickSize(picks[0])
  }

  predicate ProperPick(b: Bank, p: Pick) {
    p == NO_PICK || (b.known && 0 <= p.first <= p.last < |b.start|)
  }

  lemma {:induction false} NothingTotal(n: nat)
    ensures Total(NoPicks(n)) == 0
  {
    if n > 0 {
      assert NoPicks(n)[1..] == NoPicks(n - 1);
      NothingTotal(n - 1);
    }
  }

  /** The count is the number of picked sectors, and every pick is none at all or a range of sectors
      that exist. */
  lemma {:induction false} FillCounts(banks: seq<Bank>, first: u32, last: u32)
    requires Chips(banks)
    ensures var p := Fill(banks, first, last);
      p.rc == 0 ==> p.count == Total(p.picks) && forall b :: 0 <= b < |banks| ==> ProperPick(banks[b], p.picks[b])
    decreases |banks|
  {
    NothingTotal(|banks|);
    if banks != [] && first <= last {
      var share := ShareOf(banks[0], first, last);
      ShareProper(banks[0], first, last);
      hide ShareOf;
      if !share.error {
        FillCounts(banks[1..], share.next, last);
        var rest := Fill(banks[1..], share.next, last);
        assert ([share.pick] + rest.picks)[1..] == rest.picks;
        forall b | 0 <= b < |banks| && rest.rc == 0 ensures ProperPick(banks[b], ([share.pick] + rest.picks)[b]) {
          if b > 0 { assert banks[b] == banks[1..][b - 1]; }
        }
      }
    }
  }

  lemma ShareProper(b: Bank, first: u32, last: u32)
    requires b.known ==> b.start != []
    ensures !ShareOf(b, first, last).error ==> ProperPick(b, ShareOf(b, first, last).pick)
  {
    hide ScanFirst, ScanLast;
  }

  /** A successful selection covers the whole range exactly when the flash is unbroken from its first
      to its last address and the walk does not wrap. */
  lemma {:induction false} CoversExactlyWhen(banks: seq<Bank>, first: u32, last: u32)
    requires Separate(banks) && Chips(banks) && first <= last
    requires Fill(banks, first, last).rc == 0 && Fill(banks, first, last).count > 0
    ensures (forall x :: Covers(banks, Fill(banks, first, last).picks, x) <==> first <= x <= last)
      <==> last < Reach(banks, first) && !Wraps(banks, first, last)
  {
    hide Fill, Covers, Reach, StartsSector, Accepted, Separate, Wraps;
    FillMeans(banks, first, last);
    if Wraps(banks, first, last) {
      WrapPicks(banks, first, last);
    } else {
      assert Covers(banks, Fill(banks, first, last).picks, last) <==> last < Reach(banks, first);
    }
  }

  const LOW_CHIP := Bank(true, [0x1000, 0x2000], 0x2000)
  const HIGH_CHIP := Bank(true, [0x8000, 0x9000], 0x2000)

  lemma GapShares()
    ensures ShareOf(LOW_CHIP, 0x1000, 0x8800) == ShareOf(LOW_CHIP, 0x1000, 0x8FFF) == Share(Pick(0, 1), 0x3000, false)
    ensures ShareOf(HIGH_CHIP, 0x3000, 0x8800) == Share(NO_PICK, 0x3000, false) && ShareOf(HIGH_CHIP, 0x3000, 0x8FFF).error
  {
    hide ShareOf;
    assert SectorEnd(LOW_CHIP, 0) == 0x1FFF && SectorEnd(LOW_CHIP, 1) == 0x2FFF;
    assert SectorEnd(HIGH_CHIP, 0) == 0x8FFF && SectorEnd(HIGH_CHIP, 1) == 0x9FFF;
    BankPart(LOW_CHIP, 0x1000, 0x8800, 0);
    BankPart(LOW_CHIP, 0x1000, 0x8FFF, 0);
    BankApart(HIGH_CHIP, 0x3000, 0x8800);
    BankApart(HIGH_CHIP, 0x3000, 0x8FFF);
  }

  /** Two chips with a gap between them: a range from the first to the middle of a sector of the second
      is accepted and silently cut short; ending on a sector of the second, it is refused. */
  lemma GapCutsShort()
    ensures var banks := [LOW_CHIP, HIGH_CHIP];
      && Ascending(banks) && Chips(banks)
      && Fill(banks, 0x1000, 0x8800) == Plan([Pick(0, 1), NO_PICK], 2, 0)
      && Fill(banks, 0x1000, 0x8FFF).rc == 1
  {
    hide ShareOf, Fill;
    var banks := [LOW_CHIP, HIGH_CHIP];
    assert banks[1..] == [HIGH_CHIP] && [HIGH_CHIP][1..] == [];
    GapShares();
    FillStep(banks, 0x1000, 0x8800);
    FillStep(banks, 0x1000, 0x8FFF);
    FillStep([HIGH_CHIP], 0x3000, 0x8800);
    FillStep([HIGH_CHIP], 0x3000, 0x8FFF);
    AllUnknown([], 0x3000, 0x8800);
    assert [Pick(0, 1)] + ([NO_PICK] + NoPicks(0)) == [Pick(0, 1), NO_PICK];
  }

  const UPPER_CHIP := Bank(true, [0x3000, 0x4000], 0x2000)

  /** Two chips without a gap, the upper one first in the table: likewise. */
  lemma ReverseCutsShort()
    ensures var banks := [UPPER_CHIP, LOW_CHIP];
      && Separate(banks) && Chips(banks) && Limit(LOW_CHIP) == UPPER_CHIP.start[0]
      && Fill(banks, 0x1000, 0x3800) == Plan([NO_PICK, Pick(0, 1)], 2, 0)
      && Fill(banks, 0x1000, 0x3FFF).rc == 1
  {
    hide ShareOf, Fill;
    var banks := [UPPER_CHIP, LOW_CHIP];
    assert banks[1..] == [LOW_CHIP] && [LOW_CHIP][1..] == [];
    ReverseShares();
    FillStep(banks, 0x1000, 0x3800);
    FillStep(banks, 0x1000, 0x3FFF);
    FillStep([LOW_CHIP], 0x1000, 0x3800);
    AllUnknown([], 0x3000, 0x3800);
    assert [NO_PICK] + ([Pick(0, 1)] + NoPicks(0)) == [NO_PICK, Pick(0, 1)];
  }

  lemma ReverseShares()
    ensures ShareOf(UPPER_CHIP, 0x1000, 0x3800) == Share(NO_PICK, 0x1000, false) && ShareOf(UPPER_CHIP, 0x1000, 0x3FFF).error
    ensures ShareOf(LOW_CHIP, 0x1000, 0x3800) == Share(Pick(0, 1), 0x3000, false)
  {
    hide ShareOf;
    assert SectorEnd(LOW_CHIP, 0) == 0x1FFF && SectorEnd(LOW_CHIP, 1) == 0x2FFF;
    assert SectorEnd(UPPER_CHIP, 0) == 0x3FFF && SectorEnd(UPPER_CHIP, 1) == 0x4FFF;
    BankPart(LOW_CHIP, 0x1000, 0x3800, 0);
    BankApart(UPPER_CHIP, 0x1000, 0x3800);
    BankApart(UPPER_CHIP, 0x1000, 0x3FFF);
  }
}
