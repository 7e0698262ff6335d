/** Partitions at equal offsets: printing and parsing turns their order around, and what that means for
    the round trip. */
module MtdOrder {
  import opened Options
  import opened Words
  import opened CStrings
  import opened MtdSize
  import opened MtdParts
  import opened MtdText

  /** The order every partition list is kept in. */
  predicate InOrder(ps: seq<Part>) {
    forall i, j :: 0 <= i < j < |ps| ==> ps[i].offset <= ps[j].offset
  }

  /** The partitions at one offset, in order. */
  function Group(ps: seq<Part>, o: int): seq<Part> {
    if ps == [] then [] else (if ps[0].offset == o then [ps[0]] else []) + Group(ps[1..], o)
  }

  function Reversed<T>(s: seq<T>): seq<T> {
    if s == [] then [] else Reversed(s[1..]) + [s[0]]
  }

  lemma {:induction false} ReversedAppend<T>(s: seq<T>, x: T)
    ensures Reversed(s + [x]) == [x] + Reversed(s)
  {
    if s == [] {
      assert [x][1..] == [];
    } else {
      assert (s + [x])[1..] == s[1..] + [x];
      ReversedAppend(s[1..], x);
    }
  }

  lemma {:induction false} GroupUnfolds(ps: seq<Part>, o: int)
    requires ps != []
    ensures Group(ps, o) == (if ps[0].offset == o then [ps[0]] else []) + Group(ps[1..], o)
  {
  }

  lemma {:induction false} GroupAppend(a: seq<Part>, b: seq<Part>, o: int)
    ensures Group(a + b, o) == Group(a, o) + Group(b, o)
  {
    if a == [] {
      assert a + b == b;
    } else {
      hide Group;
      assert (a + b)[1..] == a[1..] + b && (a + b)[0] == a[0];
      GroupAppend(a[1..], b, o);
      GroupUnfolds(a, o);
      GroupUnfolds(a + b, o);
    }
  }

  lemma {:induction false} GroupOne(p: Part, o: int)
    ensures Group([p], o) == if p.offset == o then [p] else []
  {
    assert [p][1..] == [];
  }

  lemma {:induction false} GroupNone(ps: seq<Part>, o: int)
    requires forall i :: 0 <= i < |ps| ==> ps[i].offset != o
    ensures Group(ps, o) == []
  {
    if ps != [] { GroupNone(ps[1..], o); }
  }

  /** Where a partition goes that starts no earlier than the others: before those at its own offset. */
  lemma {:induction false} LastSlot(offsets: seq<u32>, o: u32)
    requires forall i, j :: 0 <= i < j < |offsets| ==> offsets[i] <= offsets[j]
    requires forall i :: 0 <= i < |offsets| ==> offsets[i] <= o
    ensures var k := Slot(offsets, o);
      && (k.None? <==> o == 0 && offsets != [])
      && (k.Some? ==> (forall i :: 0 <= i < k.value ==> offsets[i] < o) && forall i :: k.value <= i < |offsets| ==> offsets[i] == o)
  {
    if offsets != [] && offsets[0] < o {
      var rest := offsets[1..];
      LastSlot(rest, o);
      assert forall i :: 1 <= i < |offsets| ==> offsets[i] == rest[i - 1];
    }
  }

  /** Adding such a partition: where it stands, and the list around it. */
  lemma AddLast(ps: seq<Part>, p: Part)
    requires InOrder(ps) && forall i :: 0 <= i < |ps| ==> ps[i].offset <= p.offset
    ensures SortAdd(ps, p).None? <==> p.offset == 0 && ps != []
    ensures SortAdd(ps, p).Some? ==>
      (InOrder(SortAdd(ps, p).value) && |SortAdd(ps, p).value| == |ps| + 1
       && forall i :: 0 <= i <= |ps| ==> SortAdd(ps, p).value[i].offset <= p.offset)
  {
    hide Slot;
    LastSlot(Offsets(ps), p.offset);
    var slot := Slot(Offsets(ps), p.offset);
    if slot.Some? { PutIn(ps, p, slot.value); }
  }

  lemma PutIn(ps: seq<Part>, p: Part, k: nat)
    requires InOrder(ps) && k <= |ps| && forall i :: 0 <= i < |ps| ==> ps[i].offset <= p.offset
    requires forall i :: k <= i < |ps| ==> Offsets(ps)[i] == p.offset
    ensures InOrder(ps[..k] + [p] + ps[k..])
    ensures forall i :: 0 <= i <= |ps| ==> (ps[..k] + [p] + ps[k..])[i].offset <= p.offset
  {
    var r := ps[..k] + [p] + ps[k..];
    forall i | 0 <= i < |r| ensures r[i] == if i < k then ps[i] else if i == k then p else ps[i - 1] {
    }
    forall i | k <= i < |ps| ensures ps[i].offset == p.offset { assert Offsets(ps)[i] == p.offset; }
  }

  /** And its groups: it comes first in its own. */
  lemma {:induction false} AddLastGroup(ps: seq<Part>, p: Part, o: int)
    requires InOrder(ps) && (forall i :: 0 <= i < |ps| ==> ps[i].offset <= p.offset) && SortAdd(ps, p).Some?
    ensures Group(SortAdd(ps, p).value, o) == if o == p.offset then [p] + Group(ps, o) else Group(ps, o)
  {
    hide Slot, Group;
    LastSlot(Offsets(ps), p.offset);
    var k := Slot(Offsets(ps), p.offset).value;
    forall i | 0 <= i < k ensures ps[..k][i].offset < p.offset { assert Offsets(ps)[i] < p.offset; }
    AddedGroup(ps[..k], p, ps[k..], o);
    assert ps[..k] + ps[k..] == ps;
  }

  lemma {:induction false} AddedGroup(a: seq<Part>, p: Part, b: seq<Part>, o: int)
    requires forall i :: 0 <= i < |a| ==> a[i].offset < p.offset
    ensures Group(a + [p] + b, o) == if o == p.offset then [p] + Group(a + b, o) else Group(a + b, o)
  {
    hide Group;
    GroupAppend(a + [p], b, o);
    GroupAppend(a, [p], o);
    GroupAppend(a, b, o);
    GroupOne(p, o);
    if o == p.offset { GroupNone(a, o); }
  }

  /** At most one partition starts at offset 0. */
  predicate OneAtZero(ps: seq<Part>) {
    forall i :: 0 < i < |ps| ==> ps[i].offset != 0
  }

  /** Sorting a list in order anew turns every group of equal offsets around; it fails exactly when two
      partitions are at offset 0. */
  lemma {:induction false} SortTurnsGroups(ps: seq<Part>)
    requires InOrder(ps)
    ensures SortAll(ps).Some? <==> OneAtZero(ps)
    ensures SortAll(ps).Some? ==>
      (InOrder(SortAll(ps).value) && |SortAll(ps).value| == |ps|
       && (forall i :: 0 <= i < |ps| ==> SortAll(ps).value[i].offset <= ps[|ps| - 1].offset)
       && forall o: int :: Group(SortAll(ps).value, o) == Reversed(Group(ps, o)))
  {
    if ps != [] {
      hide SortAdd, OneAtZero, Group, Reversed;
      var n := |ps| - 1;
      var init, p := ps[..n], ps[n];
      assert ps == init + [p];
      SortTurnsGroups(init);
      OneAtZeroStep(ps);
      if SortAll(init).Some? {
        var r := SortAll(init).value;
        AddLast(r, p);
        if SortAdd(r, p).Some? {
          forall o: int ensures Group(SortAdd(r, p).value, o) == Reversed(Group(ps, o)) {
            AddLastGroup(r, p, o);
            TurnStep(init, p, o);
          }
        }
      }
    }
  }

  lemma {:induction false} TurnStep(init: seq<Part>, p: Part, o: int)
    ensures Reversed(Group(init + [p], o)) == if o == p.offset then [p] + Reversed(Group(init, o)) else Reversed(Group(init, o))
  {
    hide Group, Reversed;
    GroupAppend(init, [p], o);
    GroupOne(p, o);
    if o == p.offset { ReversedAppend(Group(init, o), p); } else { assert Group(init, o) + [] == Group(init, o); }
  }

  lemma OneAtZeroStep(ps: seq<Part>)
    requires ps != []
    ensures var n := |ps| - 1; OneAtZero(ps) <==> OneAtZero(ps[..n]) && (n == 0 || ps[n].offset != 0)
  {
  }

  /** Lists in order with the same groups are the same. */
  lemma {:induction false} GroupsDecide(a: seq<Part>, b: seq<Part>)
    requires InOrder(a) && InOrder(b) && forall o: int :: Group(a, o) == Group(b, o)
    ensures a == b
  {
    hide Group;
    if a != [] || b != [] {
      SameHead(a, b);
      forall o: int ensures Group(a[1..], o) == Group(b[1..], o) {
        GroupUnfolds(a, o);
        GroupUnfolds(b, o);
        TailOfGroup(if a[0].offset == o then [a[0]] else [], Group(a[1..], o), Group(b[1..], o));
      }
      GroupsDecide(a[1..], b[1..]);
    }
  }

  lemma TailOfGroup(x: seq<Part>, y: seq<Part>, z: seq<Part>)
    ensures x + y == x + z ==> y == z
  {
    assert (x + y)[|x|..] == y && (x + z)[|x|..] == z;
  }

  lemma {:induction false} SameHead(a: seq<Part>, b: seq<Part>)
    requires (a != [] || b != []) && InOrder(a) && InOrder(b) && forall o: int :: Group(a, o) == Group(b, o)
    ensures a != [] && b != [] && a[0] == b[0]
  {
    hide Group;
    if a != [] { HeadFound(a, b); }
    if b != [] { HeadFound(b, a); }
  }

  /** The first partition of one list stands in the other, where nothing starts before its first. */
  lemma {:induction false} HeadFound(a: seq<Part>, b: seq<Part>)
    requires a != [] && InOrder(b) && Group(a, a[0].offset) == Group(b, a[0].offset)
    ensures b != [] && b[0].offset <= a[0].offset && (b[0].offset == a[0].offset ==> a[0] == b[0])
  {
    hide Group;
    var o := a[0].offset;
    GroupUnfolds(a, o);
    assert Group(a, o)[0] == a[0];
    if b == [] || b[0].offset > o { GroupNone(b, o); }
    if b != [] && b[0].offset == o {
      GroupUnfolds(b, o);
      assert Group(b, o)[0] == b[0];
    }
  }

  /** The partitions at each offset read the same backwards, and at most one is at offset 0. */
  ghost predicate Symmetric(ps: seq<Part>) {
    OneAtZero(ps) && forall o: int :: Reversed(Group(ps, o)) == Group(ps, o)
  }

  lemma {:induction false} SortStaysExactly(ps: seq<Part>)
    requires InOrder(ps)
    ensures SortAll(ps) == Some(ps) <==> Symmetric(ps)
  {
    hide SortAll;
    SortTurnsGroups(ps);
    if Symmetric(ps) { GroupsDecide(SortAll(ps).value, ps); }
  }

  /** Without equal offsets this is always so. */
  lemma StrictIsSymmetric(ps: seq<Part>)
    requires forall i, j :: 0 <= i < j < |ps| ==> ps[i].offset < ps[j].offset
    ensures Symmetric(ps)
  {
    SortedStays(ps);
    SortStaysExactly(ps);
  }

  ghost predicate AllSymmetric(devs: seq<Device>) {
    forall i :: 0 <= i < |devs| ==> Symmetric(devs[i].parts)
  }

  predicate AllReadable(devs: seq<Device>) {
    forall i :: 0 <= i < |devs| ==> Readable(devs[i].parts)
  }

  lemma {:induction false} CarriedExactly(devs: seq<Device>)
    requires forall i :: 0 <= i < |devs| ==> InOrder(devs[i].parts)
    ensures CarriedAll(devs) == Some(devs) <==> AllReadable(devs) && AllSymmetric(devs)
  {
    hide SortAll, Readable, Symmetric, InOrder;
    if devs != [] {
      var d, rest := devs[0], devs[1..];
      assert forall i :: 0 <= i < |rest| ==> rest[i] == devs[i + 1];
      assert forall i :: 0 < i < |devs| ==> devs[i] == rest[i - 1];
      CarriedExactly(rest);
      SortStaysExactly(d.parts);
      if Carried(d).Some? && CarriedAll(rest).Some? {
        Heads(Carried(d).value, CarriedAll(rest).value, devs);
      }
    }
  }

  lemma Heads<T>(x: T, rest: seq<T>, s: seq<T>)
    requires s != []
    ensures [x] + rest == s <==> x == s[0] && rest == s[1..]
  {
    assert ([x] + rest)[1..] == rest && s == [s[0]] + s[1..];
  }

  /** The round trip, exactly: a list of regular devices, each with its partitions in order, comes back as
      it was if and only if no partition is below the minimum, none but the last of its device has the
      special size, at most one of a device is at offset 0, and those at each other offset read the same
      backwards, as they do when no two offsets are equal. */
  lemma {:induction false} RoundTripExactly(board: Board, ids: seq<MtdId>, devs: seq<Device>)
    requires AllPresent(board, ids) && devs != [] && Populated(devs) && AllRegular(board, ids, devs)
    requires forall i :: 0 <= i < |devs| ==> InOrder(devs[i].parts)
    ensures ParseMtdparts(board, ids, "mtdparts=" + BodyText(devs)) == Some(devs) <==> AllReadable(devs) && AllSymmetric(devs)
  {
    hide ParseMtdparts, BodyText, Regular, CarriedAll, AllReadable, AllSymmetric, InOrder;
    RoundTrip(board, ids, devs);
    CarriedExactly(devs);
  }

  const BOOT_PART := Part(8192, 0, Some("boot"), true)
  const LATE_PART := Part(0x10_0000, 16384, None, false)

  /** The text of two devices, one with a gap between its partitions, to the letter. */
  lemma TextToTheLetter()
    ensures BodyText([Device(SMALL_ID, [BOOT_PART, LATE_PART]), Device(OTHER_ID, [LATE_PART])]) == "n:8k(boot)ro,1m@16k;o:1m@16k"
  {
    hide PartsText;
    var n, o := Device(SMALL_ID, [BOOT_PART, LATE_PART]), Device(OTHER_ID, [LATE_PART]);
    PartsToTheLetter();
    assert DeviceText(n) == "n" + ":" + "8k(boot)ro,1m@16k" == "n:8k(boot)ro,1m@16k";
    assert DeviceText(o) == "o" + ":" + "1m@16k" == "o:1m@16k";
    hide DeviceText;
    assert [n, o][1..] == [o];
    assert BodyText([o]) == "o:1m@16k" + "" == "o:1m@16k";
    assert BodyText([n, o]) == "n:8k(boot)ro,1m@16k" + (";" + "o:1m@16k");
  }

  lemma PartsToTheLetter()
    ensures PartsText([BOOT_PART, LATE_PART], 0) == "8k(boot)ro,1m@16k" && PartsText([LATE_PART], 0) == "1m@16k"
  {
    hide PartText;
    PartToTheLetter(0);
    PartToTheLetter(8192);
    assert [BOOT_PART, LATE_PART][1..] == [LATE_PART];
    assert PartsText([LATE_PART], 8192) == PartsText([LATE_PART], 0) == "1m@16k" + "" == "1m@16k";
    assert PartsText([BOOT_PART, LATE_PART], 0) == "8k(boot)ro" + ("," + "1m@16k");
  }

  lemma PartToTheLetter(running: u32)
    ensures PartText(BOOT_PART, 0) == "8k(boot)ro"
    ensures running != 16384 ==> PartText(LATE_PART, running) == "1m@16k"
  {
    hide MemsizeFormat;
    SizesToTheLetter();
    assert ExtentText(BOOT_PART, 0) == "8k" + "" == "8k" && NameText(Some("boot")) == "(" + "boot" + ")" == "(boot)";
    assert "8k" + ("(boot)" + "ro") == "8k(boot)ro";
    if running != 16384 {
      assert ExtentText(LATE_PART, running) == "1m" + ("@" + "16k") == "1m@16k";
      assert "1m@16k" + ("" + "") == "1m@16k";
    }
  }

  lemma SizesToTheLetter()
    ensures MemsizeFormat(8192) == "8k" && MemsizeFormat(16384) == "16k" && MemsizeFormat(0x10_0000) == "1m"
  {
    assert Decimal(16) == Decimal(1) + "6" == "16";
    assert Decimal(8) == "8";
  }

  const OTHER_ID := MtdId(Nand, 1, 5120, "o")
  const SMALL_BOARD := Board([], [1024])
  const SMALL_ID := MtdId(Nand, 0, 5120, "n")
  const HEAD := Part(4096, 0, None, false)
  const FILL_UP := Part(1024, 4096, None, false)

  /** A list that does not come back: a fill-up partition, accepted with the 1024 octets that remain,
      is printed with a size that the parser refuses. */
  lemma FillUpRefused()
    ensures Present(SMALL_BOARD, SMALL_ID) && AllPresent(SMALL_BOARD, [SMALL_ID])
    ensures PartValidate(SMALL_BOARD, SMALL_ID, FILL_UP.(size := SIZE_REMAINING)) == Some(FILL_UP)
    ensures var devs := [Device(SMALL_ID, [HEAD, FILL_UP])];
      && Populated(devs) && AllRegular(SMALL_BOARD, [SMALL_ID], devs) && InOrder(devs[0].parts)
      && ParseMtdparts(SMALL_BOARD, [SMALL_ID], PREFIX + BodyText(devs)) == None
  {
    var dev := Device(SMALL_ID, [HEAD, FILL_UP]);
    assert Sound(SMALL_BOARD, SMALL_ID, HEAD) && Sound(SMALL_BOARD, SMALL_ID, FILL_UP);
    assert FindId([SMALL_ID], "n") == Some(SMALL_ID);
    assert Regular(SMALL_BOARD, [SMALL_ID], dev);
    assert dev.parts[1] == FILL_UP;
    assert !Readable(dev.parts);
    hide Regular, BodyText, ParseMtdparts;
    RoundTrip(SMALL_BOARD, [SMALL_ID], [dev]);
    assert Carried(dev) == None;
  }

  /** And two partitions at one offset, which come back in the other order. */
  lemma EqualOffsetsSwapped(p: Part, q: Part)
    requires p.offset == q.offset > 0
    ensures SortAll([p, q]) == Some([q, p])
  {
    assert [p, q][..1] == [p] && [p][..0] == [];
    SlotIs([], p.offset, 0);
    SlotIs([p.offset], q.offset, 0);
    assert Offsets([]) == [] && Offsets([p]) == [p.offset];
    var none: seq<Part> := [];
    assert none[..0] + [p] + none[0..] == [p] && [p][..0] + [q] + [p][0..] == [q, p];
    assert SortAdd([], p) == Some([p]) && SortAdd([p], q) == Some([q, p]);
    assert SortAll([p]) == Some([p]);
  }
}
