/** What every accepted mtdparts text stands for: whatever the text, the device list made from it is one
    that the printer and the partition list are meant for. */
module MtdSound {
  import opened Options
  import opened Words
  import opened CStrings
  import opened MtdSize
  import opened MtdParts
  import opened MtdText
  import opened MtdOrder

  // -------------------------------------------------------------------------
  // Sorting

  /** A partition is at offset 0. */
  predicate AtZero(ps: seq<Part>) {
    exists i :: 0 <= i < |ps| && ps[i].offset == 0
  }

  lemma SortAddFacts(ps: seq<Part>, p: Part)
    requires InOrder(ps)
    ensures SortAdd(ps, p).None? <==> p.offset == 0 && AtZero(ps)
    ensures var r := SortAdd(ps, p); r.Some? ==> InOrder(r.value) && multiset(r.value) == multiset(ps) + multiset{p}
  {
    hide Slot, AtZero;
    SlotFacts(Offsets(ps), p.offset);
    FirstAtZero(ps);
    var slot := Slot(Offsets(ps), p.offset);
    if slot.Some? { Inserted(ps, p, slot.value); }
  }

  lemma FirstAtZero(ps: seq<Part>)
    requires InOrder(ps)
    ensures AtZero(ps) <==> ps != [] && ps[0].offset == 0
  {
    if AtZero(ps) {
      var i :| 0 <= i < |ps| && ps[i].offset == 0;
      assert i > 0 ==> ps[0].offset <= ps[i].offset;
    }
  }

  lemma Inserted(ps: seq<Part>, p: Part, k: nat)
    requires InOrder(ps) && k <= |ps|
    requires (forall i :: 0 <= i < k ==> ps[i].offset < p.offset) && forall i :: k <= i < |ps| ==> p.offset <= ps[i].offset
    ensures InOrder(ps[..k] + [p] + ps[k..]) && multiset(ps[..k] + [p] + ps[k..]) == multiset(ps) + multiset{p}
  {
    Counted(ps, p, k);
    var r := ps[..k] + [p] + ps[k..];
    forall i, j | 0 <= i < j < |r| ensures r[i].offset <= r[j].offset {
      assert r[i] == if i < k then ps[i] else if i == k then p else ps[i - 1];
      assert r[j] == if j < k then ps[j] else if j == k then p else ps[j - 1];
    }
  }

  lemma Counted(ps: seq<Part>, p: Part, k: nat)
    requires k <= |ps|
    ensures multiset(ps[..k] + [p] + ps[k..]) == multiset(ps) + multiset{p}
  {
    assert ps == ps[..k] + ps[k..];
  }

  /** Two partitions at offset 0. */
  predicate TwiceZero(ps: seq<Part>) {
    exists i, j :: 0 <= i < j < |ps| && ps[i].offset == ps[j].offset == 0
  }

  /** Sorting succeeds unless two partitions are at offset 0, and gives the same partitions in order. */
  lemma {:induction false} SortAllFacts(ps: seq<Part>)
    ensures SortAll(ps).None? <==> TwiceZero(ps)
    ensures var r := SortAll(ps); r.Some? ==> InOrder(r.value) && multiset(r.value) == multiset(ps)
  {
    hide SortAdd;
    if ps != [] {
      var init, p := ps[..|ps| - 1], ps[|ps| - 1];
      assert ps == init + [p];
      SortAllFacts(init);
      ZeroLast(init, p);
      if SortAll(init).Some? {
        SortAddFacts(SortAll(init).value, p);
        SameZero(init, SortAll(init).value);
      }
    }
  }

  lemma ZeroLast(init: seq<Part>, p: Part)
    ensures TwiceZero(init + [p]) <==> TwiceZero(init) || (p.offset == 0 && AtZero(init))
  {
    var ps := init + [p];
    if TwiceZero(init) {
      var i, j :| 0 <= i < j < |init| && init[i].offset == init[j].offset == 0;
      assert ps[i].offset == ps[j].offset == 0;
    }
    if p.offset == 0 && AtZero(init) {
      var i :| 0 <= i < |init| && init[i].offset == 0;
      assert ps[i].offset == ps[|init|].offset == 0;
    }
  }

  lemma SameZero(a: seq<Part>, b: seq<Part>)
    requires multiset(a) == multiset(b)
    ensures AtZero(a) <==> AtZero(b)
  {
    if AtZero(a) {
      var i :| 0 <= i < |a| && a[i].offset == 0;
      assert a[i] in multiset(b);
    }
    if AtZero(b) {
      var i :| 0 <= i < |b| && b[i].offset == 0;
      assert b[i] in multiset(a);
    }
  }

  // -------------------------------------------------------------------------
  // One device

  lemma {:induction false} StrchrFirst(s: string, pos: nat, c: char)
    requires pos <= |s|
    ensures Strchr(s, pos, c).Some? ==> forall i :: pos <= i < Strchr(s, pos, c).value ==> s[i] != c && s[i] != NUL
    decreases |s| - pos
  {
    if At(s, pos) != NUL && s[pos] != c { StrchrFirst(s, pos + 1, c); }
  }

  /** A name that is read is not empty, and holds no parenthesis that would end it. */
  lemma NameIsGood(s: string, pos: nat)
    requires pos <= |s|
    ensures ParsePart(s, pos).Some? ==> GoodName(ParsePart(s, pos).value.0.name)
  {
    hide Strchr, ParseExtent;
    var (size, offset, p) := ParseExtent(s, pos);
    if At(s, p) == '(' { StrchrFirst(s, p + 1, ')'); }
  }

  /** A definition is read only if its size is large enough and it ends where one may end: at a comma,
      which is passed over and must not follow a fill-up partition, or in front of the end of a device or
      of the text. */
  lemma PartEnds(s: string, pos: nat)
    requires pos <= |s| && ParsePart(s, pos).Some?
    ensures var (part, next) := ParsePart(s, pos).value;
      && part.size >= 4096 && pos < next <= |s|
      && ((s[next - 1] == ',' && part.size != 0xFFFF_FFFF) || At(s, next) == ';' || At(s, next) == NUL)
  {
    hide Strchr, ParseExtent;
  }

  /** What is read and placed is sound. */
  lemma PlacedIsSound(board: Board, id: MtdId, s: string, pos: nat, running: u32)
    requires Present(board, id) && pos <= |s|
    ensures var r := ReadPlaced(board, id, s, pos, running); r.Some? ==> Sound(board, id, r.value.0)
  {
    hide ParsePart, PartValidate, GoodName;
    NameIsGood(s, pos);
    if ParsePart(s, pos).Some? {
      var part := Placed(ParsePart(s, pos).value.0, running);
      if PartValidate(board, id, part).Some? { AcceptedPart(board, id, part); }
    }
  }

  lemma {:induction false} PartsAreSound(board: Board, id: MtdId, s: string, pos: nat, running: u32)
    requires Present(board, id) && pos <= |s|
    ensures var r := ParseParts(board, id, s, pos, running); r.Some? ==> forall p :: p in r.value.0 ==> Sound(board, id, p)
    decreases |s| - pos
  {
    hide ReadPlaced, Sound, Closed;
    if !Closed(At(s, pos)) {
      PlacedIsSound(board, id, s, pos, running);
      var first := ReadPlaced(board, id, s, pos, running);
      if first.Some? {
        var (p, next) := first.value;
        PartsAreSound(board, id, s, next, (p.offset + p.size) % WORD);
      }
    }
  }

  lemma {:induction false} FoundByName(ids: seq<MtdId>, name: string)
    ensures FindId(ids, name).Some? ==> FindId(ids, name).value.name == name
  {
    if ids != [] && ids[0].name != name { FoundByName(ids[1..], name); }
  }

  /** A device that is read is regular, and its partitions are in order. */
  lemma DeviceIsRegular(board: Board, ids: seq<MtdId>, devs: seq<Device>, s: string, pos: nat)
    requires AllPresent(board, ids) && pos <= |s|
    ensures var r := ParseDevice(board, ids, devs, s, pos);
      r.Some? ==> Regular(board, ids, r.value.0) && InOrder(r.value.0.parts)
  {
    hide Strchr, FindId, ParseParts, SortAll, Sound, Origin, InOrder, AllPresent;
    StrchrFirst(s, pos, ':');
    if Strchr(s, pos, ':').Some? {
      var colon := Strchr(s, pos, ':').value;
      FoundByName(ids, s[pos..colon]);
      if FindId(ids, s[pos..colon]).Some? {
        var id := FindId(ids, s[pos..colon]).value;
        FoundIsPresent(board, ids, s[pos..colon]);
        PartsAreSound(board, id, s, colon + 1, Origin(devs, id));
        var r := ParseParts(board, id, s, colon + 1, Origin(devs, id));
        if r.Some? {
          SortAllFacts(r.value.0);
          if SortAll(r.value.0).Some? { SortedAreSound(board, id, r.value.0); }
        }
      }
    }
  }

  lemma SortedAreSound(board: Board, id: MtdId, ps: seq<Part>)
    requires Present(board, id) && (forall p :: p in ps ==> Sound(board, id, p)) && SortAll(ps).Some?
    ensures var r := SortAll(ps).value;
      (ps != [] ==> r != []) && forall i :: 0 <= i < |r| ==> Sound(board, id, r[i])
  {
    hide Sound, SortAll;
    SortAllFacts(ps);
    var r := SortAll(ps).value;
    assert |multiset(r)| == |multiset(ps)|;
    forall i | 0 <= i < |r| ensures Sound(board, id, r[i]) { assert r[i] in multiset(ps); }
  }

  // -------------------------------------------------------------------------
  // Device lists

  ghost predicate AllInOrder(devs: seq<Device>) {
    forall i :: 0 <= i < |devs| ==> InOrder(devs[i].parts)
  }

  lemma {:induction false} DevicesAreRegular(board: Board, ids: seq<MtdId>, devs: seq<Device>, s: string, pos: nat)
    requires AllPresent(board, ids) && pos <= |s| && AllRegular(board, ids, devs) && AllInOrder(devs)
    ensures var r := ParseDevices(board, ids, devs, s, pos);
      r.Some? ==> AllRegular(board, ids, r.value) && AllInOrder(r.value) && |devs| <= |r.value| && (At(s, pos) != NUL ==> r.value != [])
    decreases |s| - pos
  {
    hide ParseDevice, Regular, InOrder, AllPresent;
    if At(s, pos) != NUL {
      var r := ParseDevice(board, ids, devs, s, pos);
      DeviceIsRegular(board, ids, devs, s, pos);
      if r.Some? && FindDevice(devs, r.value.0.id).None? {
        DevicesAreRegular(board, ids, devs + [r.value.0], s, r.value.1);
      }
    }
  }

  /** Whatever text is accepted: there is a device, no chip occurs twice, each device is one of the known
      ids, spelled in full, and has partitions, all of them accepted, with names that can be printed, and
      sorted by offset. */
  lemma AcceptedText(board: Board, ids: seq<MtdId>, s: string)
    requires AllPresent(board, ids)
    ensures var r := ParseMtdparts(board, ids, s);
      r.Some? ==> r.value != [] && AllRegular(board, ids, r.value) && AllInOrder(r.value) && Populated(r.value)
  {
    hide ParseDevices, InOrder, AllPresent;
    if ParseMtdparts(board, ids, s).Some? { DevicesAreRegular(board, ids, [], s, 9); }
  }

  /** So the text generated from any accepted text is accepted again with the same meaning, unless a size
      is too small for the parser, or the order at one offset gets lost. */
  lemma GeneratedFromParsed(board: Board, ids: seq<MtdId>, s: string)
    requires AllPresent(board, ids) && ParseMtdparts(board, ids, s).Some?
    ensures var devs := ParseMtdparts(board, ids, s).value;
      && devs != [] && Populated(devs)
      && (ParseMtdparts(board, ids, PREFIX + BodyText(devs)) == Some(devs) <==> AllReadable(devs) && AllSymmetric(devs))
  {
    hide ParseMtdparts, InOrder, AllPresent, AllRegular, Populated, BodyText, AllReadable, AllSymmetric;
    AcceptedText(board, ids, s);
    RoundTripExactly(board, ids, ParseMtdparts(board, ids, s).value);
  }
}
