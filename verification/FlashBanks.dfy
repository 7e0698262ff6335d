/** The flash banks of a board: sectors in ascending order, addresses of 32 bits. */
module FlashBanks {
  import opened Words
  import opened MtdSize

  /** flash_info: whether a chip was found, where its sectors start, and its size. */
  datatype Bank = Bank(known: bool, start: seq<u32>, size: u32)

  /** The last address of a bank. */
  function BankEnd(b: Bank): u32
    requires b.start != []
  {
    (b.start[0] + b.size - 1) % WORD
  }

  /** The last address of a sector. */
  function SectorEnd(b: Bank, i: nat): u32
    requires i < |b.start|
  {
    if i == |b.start| - 1 then BankEnd(b) else (b.start[i + 1] - 1) % WORD
  }

  /** A chip that was found: sectors in strictly ascending order, the last one inside the chip, and the
      chip inside the address space. Sector numbers fit a short. */
  predicate WellFormed(b: Bank) {
    && 0 < |b.start| <= 0x7FFF && 0 < b.size && b.start[0] + b.size <= WORD
    && (forall i, j :: 0 <= i < j < |b.start| ==> b.start[i] < b.start[j])
    && b.start[|b.start| - 1] < b.start[0] + b.size
  }

  /** The address behind a bank. */
  function Limit(b: Bank): nat
    requires b.start != []
  {
    b.start[0] + b.size
  }

  /** All chips found are well formed, and each lies below the next. */
  predicate Ascending(banks: seq<Bank>) {
    && (forall i :: 0 <= i < |banks| && banks[i].known ==> WellFormed(banks[i]))
    && forall i, j :: 0 <= i < j < |banks| && banks[i].known && banks[j].known ==>
         banks[i].start != [] && banks[j].start != [] && Limit(banks[i]) <= banks[j].start[0]
  }

  /** All chips found are well formed, and no two overlap; their order does not matter. */
  predicate Separate(banks: seq<Bank>) {
    && (forall i :: 0 <= i < |banks| && banks[i].known ==> WellFormed(banks[i]))
    && forall i, j :: 0 <= i < j < |banks| && banks[i].known && banks[j].known ==>
         banks[i].start != [] && banks[j].start != []
         && (Limit(banks[i]) <= banks[j].start[0] || Limit(banks[j]) <= banks[i].start[0])
  }

  lemma SectorFacts(b: Bank, i: nat)
    requires WellFormed(b) && i < |b.start|
    ensures b.start[i] <= SectorEnd(b, i) <= BankEnd(b) == Limit(b) - 1
    ensures b.start[0] <= b.start[i]
    ensures i + 1 < |b.start| ==> SectorEnd(b, i) == b.start[i + 1] - 1
  {
  }

  lemma SectorOrder(b: Bank, i: nat, j: nat)
    requires WellFormed(b) && i < j < |b.start|
    ensures SectorEnd(b, i) < b.start[j]
  {
    SectorFacts(b, i);
  }
}
