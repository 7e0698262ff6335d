/** Device lists as mtdparts text, and the round trip through the parser. */
module MtdText {
  import opened Options
  import opened Words
  import opened CStrings
  import opened MtdSize
  import opened MtdParts

  /** A device and its partitions, sorted by offset. */
  datatype Device = Device(id: MtdId, parts: seq<Part>)

  // -------------------------------------------------------------------------
  // Parsing

  /** Where part_sort_add puts a partition: before the first one that does not start earlier. A second
      one at offset 0 is refused. */
  function Slot(offsets: seq<u32>, o: u32): (r: Option<nat>)
    ensures r.Some? ==> r.value <= |offsets|
  {
    if offsets == [] then Some(0)
    else if o == offsets[0] == 0 then None
    else if o <= offsets[0] then Some(0)
    else
      var r := Slot(offsets[1..], o);
      if r.None? then None else Some(r.value + 1)
  }

  function Offsets(parts: seq<Part>): (r: seq<u32>)
    ensures |r| == |parts| && forall i :: 0 <= i < |parts| ==> r[i] == parts[i].offset
  {
    seq(|parts|, i requires 0 <= i < |parts| => parts[i].offset)
  }

  lemma {:induction false} SlotIs(offsets: seq<u32>, o: u32, i: nat)
    requires i <= |offsets| && (forall j :: 0 <= j < i ==> offsets[j] < o) && (i < |offsets| ==> o <= offsets[i])
    ensures Slot(offsets, o) == if i < |offsets| && o == offsets[i] == 0 then None else Some(i)
  {
    if i > 0 { SlotIs(offsets[1..], o, i - 1); }
  }

  /** Where that is in a sorted list, and when it is refused. */
  lemma {:induction false} SlotFacts(offsets: seq<u32>, o: u32)
    requires forall i, j :: 0 <= i < j < |offsets| ==> offsets[i] <= offsets[j]
    ensures Slot(offsets, o).None? <==> o == 0 && offsets != [] && offsets[0] == 0
    ensures var k := Slot(offsets, o);
      k.Some? ==> (forall i :: 0 <= i < k.value ==> offsets[i] < o) && forall i :: k.value <= i < |offsets| ==> o <= offsets[i]
  {
    if offsets != [] && offsets[0] < o {
      SlotFacts(offsets[1..], o);
      assert forall i :: 0 < i < |offsets| ==> offsets[i] == offsets[1..][i - 1];
    }
  }

  /** part_sort_add */
  function SortAdd(parts: seq<Part>, p: Part): Option<seq<Part>> {
    var slot := Slot(Offsets(parts), p.offset);
    if slot.None? then None else Some(parts[..slot.value] + [p] + parts[slot.value..])
  }

  function SortAll(parts: seq<Part>): Option<seq<Part>> {
    if parts == [] then Some([])
    else
      match SortAll(parts[..|parts| - 1])
      case None => None
      case Some(sorted) => SortAdd(sorted, parts[|parts| - 1])
  }

  /** The end of a list, or of a device. */
  predicate Closed(c: char) {
    c == NUL || c == ';'
  }

  /** The offset a partition takes when its text leaves it open. */
  function Placed(part: Part, running: u32): Part {
    if part.offset == OFFSET_NOT_SPECIFIED then part.(offset := running) else part
  }

  /** One partition, read, placed and validated. */
  function ReadPlaced(board: Board, id: MtdId, s: string, pos: nat, running: u32): (r: Option<(Part, nat)>)
    requires Present(board, id) && pos <= |s|
    ensures r.Some? ==> pos < r.value.1 <= |s|
  {
    match ParsePart(s, pos)
    case None => None
    case Some((part, next)) =>
      match PartValidate(board, id, Placed(part, running))
      case None => None
      case Some(p) => Some((p, next))
  }

  function Prepend(p: Part, r: Option<(seq<Part>, nat)>): Option<(seq<Part>, nat)> {
    if r.None? then None else Some(([p] + r.value.0, r.value.1))
  }

  /** The partitions of a device, up to its end. */
  function ParseParts(board: Board, id: MtdId, s: string, pos: nat, running: u32): (r: Option<(seq<Part>, nat)>)
    requires Present(board, id) && pos <= |s|
    ensures r.Some? ==> pos <= r.value.1 <= |s| && Closed(At(s, r.value.1))
    decreases |s| - pos
  {
    if Closed(At(s, pos)) then Some(([], pos))
    else
      var first := ReadPlaced(board, id, s, pos, running);
      if first.None? then None
      else
        var (p, next) := first.value;
        Prepend(p, ParseParts(board, id, s, next, (p.offset + p.size) % WORD))
  }

  function FindId(ids: seq<MtdId>, name: string): Option<MtdId> {
    if ids == [] then None else if ids[0].name == name then Some(ids[0]) else FindId(ids[1..], name)
  }

  predicate SameChip(a: MtdId, b: MtdId) {
    a.kind == b.kind && a.num == b.num
  }

  function FindDevice(devs: seq<Device>, id: MtdId): (r: Option<Device>)
    ensures r.None? <==> forall i :: 0 <= i < |devs| ==> !SameChip(devs[i].id, id)
  {
    if devs == [] then None else if SameChip(devs[0].id, id) then Some(devs[0]) else FindDevice(devs[1..], id)
  }

  /** Where the first partition goes when its text leaves it open. */
  function Origin(devs: seq<Device>, id: MtdId): u32 {
    match FindDevice(devs, id)
    case None => 0
    case Some(d) => if d.parts == [] then 0 else (d.parts[|d.parts| - 1].offset + d.parts[|d.parts| - 1].size) % WORD
  }

  predicate AllPresent(board: Board, ids: seq<MtdId>) {
    forall i :: 0 <= i < |ids| ==> Present(board, ids[i])
  }

  lemma {:induction false} FoundIsPresent(board: Board, ids: seq<MtdId>, name: string)
    requires AllPresent(board, ids) && FindId(ids, name).Some?
    ensures Present(board, FindId(ids, name).value)
  {
    if ids[0].name != name { FoundIsPresent(board, ids[1..], name); }
  }

  /** A device with at least one partition, sorted, and where the next device starts. */
  function FinishDevice(id: MtdId, s: string, r: Option<(seq<Part>, nat)>): Option<(Device, nat)> {
    if r.None? || r.value.0 == [] || SortAll(r.value.0).None? then None
    else Some((Device(id, SortAll(r.value.0).value), if At(s, r.value.1) == ';' then r.value.1 + 1 else r.value.1))
  }

  /** device_parse */
  function ParseDevice(board: Board, ids: seq<MtdId>, devs: seq<Device>, s: string, pos: nat): (r: Option<(Device, nat)>)
    requires AllPresent(board, ids) && pos <= |s|
    ensures r.Some? ==> pos < r.value.1 <= |s|
  {
    match Strchr(s, pos, ':')
    case None => None
    case Some(colon) =>
      match FindId(ids, s[pos..colon])
      case None => None
      case Some(id) =>
        FoundIsPresent(board, ids, s[pos..colon]);
        FinishDevice(id, s, ParseParts(board, id, s, colon + 1, Origin(devs, id)))
  }

  function ParseDevices(board: Board, ids: seq<MtdId>, devs: seq<Device>, s: string, pos: nat): Option<seq<Device>>
    requires AllPresent(board, ids) && pos <= |s|
    decreases |s| - pos
  {
    if At(s, pos) == NUL then Some(devs)
    else
      match ParseDevice(board, ids, devs, s, pos)
      case None => None
      case Some((dev, next)) =>
        if FindDevice(devs, dev.id).Some? then None else ParseDevices(board, ids, devs + [dev], s, next)
  }

  const PREFIX := "mtdparts="

  /** parse_mtdparts */
  function ParseMtdparts(board: Board, ids: seq<MtdId>, s: string): Option<seq<Device>>
    requires AllPresent(board, ids)
  {
    if |s| >= 9 && s[..9] == PREFIX && At(s, 9) != NUL then ParseDevices(board, ids, [], s, 9) else None
  }

  // -------------------------------------------------------------------------
  // Printing

  function PartsText(ps: seq<Part>, running: u32): string
    requires ps != []
  {
    PartText(ps[0], running)
    + if |ps| == 1 then "" else "," + PartsText(ps[1..], (ps[0].offset + ps[0].size) % WORD)
  }

  function DeviceText(dev: Device): string
    requires dev.parts != []
  {
    dev.id.name + ":" + PartsText(dev.parts, 0)
  }

  predicate Populated(devs: seq<Device>) {
    forall i :: 0 <= i < |devs| ==> devs[i].parts != []
  }

  /** The text of a device list, without the prefix. */
  function BodyText(devs: seq<Device>): string
    requires devs != [] && Populated(devs)
  {
    DeviceText(devs[0]) + if |devs| == 1 then "" else ";" + BodyText(devs[1..])
  }

  // -------------------------------------------------------------------------
  // Round trip

  /** What a device looks like when it was built by the parser or by adding partitions: every partition
      accepted by validation, names that can be written, an id without a colon that is found under its
      name. */
  predicate Regular(board: Board, ids: seq<MtdId>, dev: Device)
    requires AllPresent(board, ids)
  {
    && ':' !in dev.id.name && NUL !in dev.id.name && FindId(ids, dev.id.name) == Some(dev.id)
    && dev.parts != [] && Present(board, dev.id)
    && forall i :: 0 <= i < |dev.parts| ==> Sound(board, dev.id, dev.parts[i])
  }

  predicate Sound(board: Board, id: MtdId, part: Part)
    requires Present(board, id)
  {
    PartValidate(board, id, part) == Some(part) && GoodName(part.name)
  }

  predicate DistinctChips(devs: seq<Device>) {
    forall i, j :: 0 <= i < j < |devs| ==> !SameChip(devs[i].id, devs[j].id)
  }

  /** What the text format cannot carry: sizes below the minimum, which a fill-up partition can have,
      and the special size before the end. */
  predicate Readable(ps: seq<Part>) {
    && (forall i :: 0 <= i < |ps| ==> ps[i].size >= 4096)
    && (forall i :: 0 <= i < |ps| - 1 ==> ps[i].size != 0xFFFF_FFFF)
  }

  lemma ReadableStep(ps: seq<Part>)
    requires |ps| > 1
    ensures Readable(ps) <==> ps[0].size >= MIN_PART_SIZE && ps[0].size != SIZE_REMAINING && Readable(ps[1..])
  {
    if Readable(ps[1..]) && ps[0].size >= MIN_PART_SIZE && ps[0].size != SIZE_REMAINING {
      forall i | 0 <= i < |ps| ensures ps[i].size >= MIN_PART_SIZE && (i < |ps| - 1 ==> ps[i].size != SIZE_REMAINING) {
        if i > 0 { assert ps[i] == ps[1..][i - 1]; }
      }
    }
  }

  /** A sound partition takes its place again, whether its offset was written or left out. */
  lemma SoundPlaced(board: Board, id: MtdId, part: Part, running: u32)
    requires Present(board, id) && Sound(board, id, part)
    ensures var read := part.(offset := if part.offset == running then OFFSET_NOT_SPECIFIED else part.offset);
      PartValidate(board, id, Placed(read, running)) == Some(part)
  {
    hide ChipAligned;
    AcceptedPart(board, id, part);
  }

  /** The partitions of a device come back if and only if the text can carry them. */
  lemma {:induction false} PartsRead(board: Board, id: MtdId, s: string, pos: nat, ps: seq<Part>, running: u32, rest: string)
    requires Present(board, id) && ps != [] && (forall i :: 0 <= i < |ps| ==> Sound(board, id, ps[i]))
    requires Follows(s, pos, PartsText(ps, running) + rest) && (rest == "" || rest[0] == ';')
    ensures ParseParts(board, id, s, pos, running)
         == if Readable(ps) then Some((ps, pos + |PartsText(ps, running)|)) else None
    ensures Follows(s, pos + |PartsText(ps, running)|, rest)
    decreases |ps|
  {
    hide PartText, ParseParts, Follows, Readable, Sound;
    var t, next := PartText(ps[0], running), (ps[0].offset + ps[0].size) % WORD;
    if |ps| == 1 {
      assert PartsText(ps, running) + rest == t + rest;
      FirstRead(board, id, s, pos, ps[0], running, rest);
      ReadableOne(ps);
      StopsHere(board, id, s, pos + |t|, next, rest);
      assert [ps[0]] + [] == ps;
    } else {
      var after := "," + (PartsText(ps[1..], next) + rest);
      assert PartsText(ps, running) + rest == t + after;
      FirstRead(board, id, s, pos, ps[0], running, after);
      ReadableStep(ps);
      Ahead(s, pos + |t|, ",", PartsText(ps[1..], next) + rest);
      PartsRead(board, id, s, pos + |t| + 1, ps[1..], next, rest);
      assert [ps[0]] + ps[1..] == ps;
    }
  }

  lemma {:induction false} PartsUnfold(board: Board, id: MtdId, s: string, pos: nat, running: u32)
    requires Present(board, id) && pos <= |s| && !Closed(At(s, pos))
    ensures var first := ReadPlaced(board, id, s, pos, running);
      ParseParts(board, id, s, pos, running) ==
        if first.None? then None
        else Prepend(first.value.0, ParseParts(board, id, s, first.value.1, (first.value.0.offset + first.value.0.size) % WORD))
  {
    hide ReadPlaced;
  }

  lemma FirstRead(board: Board, id: MtdId, s: string, pos: nat, part: Part, running: u32, after: string)
    requires Present(board, id) && Sound(board, id, part)
    requires Follows(s, pos, PartText(part, running) + after) && PartEnd(after)
    ensures Follows(s, pos + |PartText(part, running)|, after)
    ensures ParseParts(board, id, s, pos, running) ==
      if part.size < MIN_PART_SIZE || (part.size == SIZE_REMAINING && At(after, 0) == ',') then None
      else Prepend(part, ParseParts(board, id, s, pos + |PartText(part, running)| + (if At(after, 0) == ',' then 1 else 0),
                                    (part.offset + part.size) % WORD))
  {
    hide PartText, ReadPlaced, ParseParts, Follows, Sound, PartEnd;
    TextHead(part, running, after);
    Ahead(s, pos, PartText(part, running), after);
    assert !Closed(At(s, pos));
    FirstPlaced(board, id, s, pos, part, running, after);
    PartsUnfold(board, id, s, pos, running);
  }

  lemma FirstPlaced(board: Board, id: MtdId, s: string, pos: nat, part: Part, running: u32, after: string)
    requires Present(board, id) && Sound(board, id, part)
    requires Follows(s, pos, PartText(part, running) + after) && PartEnd(after)
    ensures Follows(s, pos + |PartText(part, running)|, after)
    ensures pos + |PartText(part, running)| + (if At(after, 0) == ',' then 1 else 0) <= |s|
    ensures ReadPlaced(board, id, s, pos, running) ==
      if part.size < MIN_PART_SIZE || (part.size == SIZE_REMAINING && At(after, 0) == ',') then None
      else Some((part, pos + |PartText(part, running)| + if At(after, 0) == ',' then 1 else 0))
  {
    hide PartText, PartValidate, ParsePart, Follows, GoodName;
    PartReads(s, pos, part, running, after);
    SoundPlaced(board, id, part, running);
    AtEnd(s, pos + |PartText(part, running)|, after);
  }

  lemma ReadableOne(ps: seq<Part>)
    requires |ps| == 1
    ensures Readable(ps) <==> ps[0].size >= MIN_PART_SIZE
  {
  }

  lemma {:induction false} StopsHere(board: Board, id: MtdId, s: string, pos: nat, running: u32, rest: string)
    requires Present(board, id) && Follows(s, pos, rest) && (rest == "" || rest[0] == ';')
    ensures At(rest, 0) != ',' && ParseParts(board, id, s, pos, running) == Some(([], pos))
  {
    Ahead(s, pos, "", rest);
  }

  /** The text of a partition starts with a digit. */
  lemma TextHead(part: Part, running: u32, rest: string)
    ensures DecimalDigit(At(PartText(part, running) + rest, 0)) && PartText(part, running) != ""
  {
    FormatHead(part.size);
    hide MemsizeFormat;
  }

  /** Sorting a list with strictly increasing offsets changes nothing. */
  lemma {:induction false} SortedStays(ps: seq<Part>)
    requires forall i, j :: 0 <= i < j < |ps| ==> ps[i].offset < ps[j].offset
    ensures SortAll(ps) == Some(ps)
  {
    if ps != [] {
      var n := |ps| - 1;
      SortedStays(ps[..n]);
      AddAtEnd(ps[..n], ps[n]);
      assert ps == ps[..n] + [ps[n]];
    }
  }

  lemma AddAtEnd(ps: seq<Part>, p: Part)
    requires forall i :: 0 <= i < |ps| ==> ps[i].offset < p.offset
    ensures SortAdd(ps, p) == Some(ps + [p])
  {
    SlotIs(Offsets(ps), p.offset, |ps|);
    assert ps[..|ps|] + [p] + ps[|ps|..] == ps + [p];
  }

  /** What comes back of a device: its partitions sorted anew, or nothing when the text cannot carry one
      of them or two of them are at offset 0. */
  function Carried(dev: Device): Option<Device> {
    if Readable(dev.parts) && SortAll(dev.parts).Some? then Some(Device(dev.id, SortAll(dev.parts).value)) else None
  }

  lemma {:induction false} DeviceReads(board: Board, ids: seq<MtdId>, devs: seq<Device>, s: string, pos: nat, dev: Device, rest: string)
    requires AllPresent(board, ids) && Regular(board, ids, dev) && FindDevice(devs, dev.id).None?
    requires Follows(s, pos, DeviceText(dev) + rest) && (rest == "" || rest[0] == ';')
    ensures ParseDevice(board, ids, devs, s, pos)
         == if Carried(dev).Some? then Some((Carried(dev).value, pos + |DeviceText(dev)| + if rest == "" then 0 else 1)) else None
    ensures Follows(s, pos + |DeviceText(dev)|, rest)
  {
    hide Follows, Readable, ParseParts, PartsText, Sound, FindDevice, FindId, SortAll, ParseDevice, Strchr, Regular, Present,
      DeviceText, Origin, FinishDevice, At, AllPresent;
    RegularParts(board, ids, dev);
    NoOrigin(devs, dev.id);
    var colon, t := pos + |dev.id.name|, PartsText(dev.parts, 0);
    NameAhead(s, pos, dev, rest);
    PartsRead(board, dev.id, s, colon + 1, dev.parts, 0, rest);
    Finishes(dev, s, colon + 1 + |t|, rest);
    DeviceUnfolds(board, ids, devs, s, pos, colon, dev.id);
  }

  lemma Finishes(dev: Device, s: string, p: nat, rest: string)
    requires dev.parts != [] && Follows(s, p, rest) && (rest == "" || rest[0] == ';')
    ensures FinishDevice(dev.id, s, Some((dev.parts, p)))
         == if SortAll(dev.parts).None? then None
            else Some((Device(dev.id, SortAll(dev.parts).value), p + if rest == "" then 0 else 1))
    ensures FinishDevice(dev.id, s, None) == None
  {
    hide SortAll, Follows;
    AtEnd(s, p, rest);
  }

  lemma AtEnd(s: string, pos: nat, rest: string)
    requires Follows(s, pos, rest)
    ensures pos <= |s| && At(s, pos) == At(rest, 0) && (At(rest, 0) == ',' ==> pos + 1 <= |s|)
  {
    assert "" + rest == rest;
    Ahead(s, pos, "", rest);
  }

  /** The name of a device up to its colon, and the partitions behind it. */
  lemma {:induction false} NameAhead(s: string, pos: nat, dev: Device, rest: string)
    requires dev.parts != [] && ':' !in dev.id.name && NUL !in dev.id.name && Follows(s, pos, DeviceText(dev) + rest)
    ensures pos + |dev.id.name| < |s| && Strchr(s, pos, ':') == Some(pos + |dev.id.name|)
    ensures s[pos..pos + |dev.id.name|] == dev.id.name
    ensures Follows(s, pos + |dev.id.name| + 1, PartsText(dev.parts, 0) + rest)
    ensures |DeviceText(dev)| == |dev.id.name| + 1 + |PartsText(dev.parts, 0)|
  {
    hide Strchr, PartsText;
    var name, t := dev.id.name, PartsText(dev.parts, 0);
    assert DeviceText(dev) + rest == name + (":" + (t + rest));
    Ahead(s, pos, name, ":" + (t + rest));
    Ahead(s, pos + |name|, ":", t + rest);
    StrchrFinds(s, pos, name, ':');
  }

  lemma {:induction false} RegularParts(board: Board, ids: seq<MtdId>, dev: Device)
    requires AllPresent(board, ids) && Regular(board, ids, dev)
    ensures ':' !in dev.id.name && NUL !in dev.id.name && FindId(ids, dev.id.name) == Some(dev.id)
    ensures dev.parts != [] && Present(board, dev.id)
    ensures forall i :: 0 <= i < |dev.parts| ==> Sound(board, dev.id, dev.parts[i])
  {
    hide Sound, FindId;
  }

  lemma {:induction false} NoOrigin(devs: seq<Device>, id: MtdId)
    ensures FindDevice(devs, id).None? ==> Origin(devs, id) == 0
  {
  }

  lemma {:induction false} DeviceUnfolds(board: Board, ids: seq<MtdId>, devs: seq<Device>, s: string, pos: nat, colon: nat, id: MtdId)
    requires AllPresent(board, ids) && Present(board, id) && pos <= colon < |s|
    ensures Strchr(s, pos, ':') == Some(colon) && FindId(ids, s[pos..colon]) == Some(id) ==>
      ParseDevice(board, ids, devs, s, pos) == FinishDevice(id, s, ParseParts(board, id, s, colon + 1, Origin(devs, id)))
  {
    hide ParseParts, Origin, SortAll, Strchr, FindId;
  }

  predicate AllRegular(board: Board, ids: seq<MtdId>, devs: seq<Device>)
    requires AllPresent(board, ids)
  {
    DistinctChips(devs) && forall i :: 0 <= i < |devs| ==> Regular(board, ids, devs[i])
  }

  /** What comes back of a list of devices. */
  function CarriedAll(devs: seq<Device>): Option<seq<Device>> {
    if devs == [] then Some([])
    else if Carried(devs[0]).None? || CarriedAll(devs[1..]).None? then None
    else Some([Carried(devs[0]).value] + CarriedAll(devs[1..]).value)
  }

  lemma {:induction false} DevicesRead(board: Board, ids: seq<MtdId>, done: seq<Device>, todo: seq<Device>, s: string, pos: nat)
    requires AllPresent(board, ids) && todo != [] && DistinctChips(done + todo) && Populated(todo)
    requires forall i :: 0 <= i < |todo| ==> Regular(board, ids, todo[i])
    requires Follows(s, pos, BodyText(todo))
    ensures ParseDevices(board, ids, done, s, pos)
         == if CarriedAll(todo).Some? then Some(done + CarriedAll(todo).value) else None
    decreases |todo|
  {
    hide Follows, Readable, ParseDevice, Regular, DeviceText, FindDevice, SortAll, DistinctChips;
    var dev := todo[0];
    var rest := if |todo| == 1 then "" else ";" + BodyText(todo[1..]);
    NotYet(done, todo);
    assert NUL !in dev.id.name by { RegularName(board, ids, dev); }
    DeviceHead(dev, rest);
    assert BodyText(todo) + "" == DeviceText(dev) + rest;
    Ahead(s, pos, DeviceText(dev) + rest, "");
    DeviceReads(board, ids, done, s, pos, dev, rest);
    if Carried(dev).Some? {
      var c := Carried(dev).value;
      ParsedOne(board, ids, done, s, pos, c, pos + |DeviceText(dev)| + if rest == "" then 0 else 1);
      if |todo| > 1 {
        Ahead(s, pos + |DeviceText(dev)|, ";", BodyText(todo[1..]));
        ChipsCarried(done, todo, c);
        DevicesRead(board, ids, done + [c], todo[1..], s, pos + |DeviceText(dev)| + 1);
        if CarriedAll(todo[1..]).Some? {
          assert done + [c] + CarriedAll(todo[1..]).value == done + ([c] + CarriedAll(todo[1..]).value);
        }
      } else {
        Ahead(s, pos + |DeviceText(dev)|, "", "");
        assert todo[1..] == [] && [c] + [] == [c];
      }
    }
  }

  /** One turn of the loop over the devices. */
  lemma {:induction false} ParsedOne(board: Board, ids: seq<MtdId>, devs: seq<Device>, s: string, pos: nat, dev: Device, next: nat)
    requires AllPresent(board, ids) && pos <= |s| && ParseDevice(board, ids, devs, s, pos) == Some((dev, next))
    requires At(s, pos) != NUL && FindDevice(devs, dev.id).None?
    ensures next <= |s| && ParseDevices(board, ids, devs, s, pos) == ParseDevices(board, ids, devs + [dev], s, next)
  {
    hide ParseDevice, FindDevice;
  }

  lemma ChipsCarried(done: seq<Device>, todo: seq<Device>, c: Device)
    requires todo != [] && c.id == todo[0].id && DistinctChips(done + todo)
    ensures DistinctChips(done + [c] + todo[1..])
  {
    var a, b := done + todo, done + [c] + todo[1..];
    assert forall i :: 0 <= i < |b| ==> b[i].id == a[i].id;
  }

  lemma RegularName(board: Board, ids: seq<MtdId>, dev: Device)
    requires AllPresent(board, ids) && Regular(board, ids, dev)
    ensures NUL !in dev.id.name
  {
  }

  lemma {:induction false} NotYet(done: seq<Device>, todo: seq<Device>)
    requires todo != [] && DistinctChips(done + todo)
    ensures FindDevice(done, todo[0].id).None?
  {
    forall i | 0 <= i < |done| ensures !SameChip(done[i].id, todo[0].id) {
      assert (done + todo)[i] == done[i] && (done + todo)[|done|] == todo[0];
    }
  }

  lemma DeviceHead(dev: Device, rest: string)
    requires dev.parts != [] && NUL !in dev.id.name
    ensures At(DeviceText(dev) + rest, 0) != NUL
  {
    hide PartsText;
    if dev.id.name != "" { assert dev.id.name[0] in dev.id.name; }
  }

  /** The round trip: parsing the text of a list of regular devices on distinct chips gives each device
      back with all sizes, offsets, names and flags, its partitions sorted anew; it fails when some
      partition but the last of its device has the special size, some is below the minimum, or two of a
      device are at offset 0. */
  lemma {:induction false} RoundTrip(board: Board, ids: seq<MtdId>, devs: seq<Device>)
    requires AllPresent(board, ids) && devs != [] && Populated(devs) && AllRegular(board, ids, devs)
    ensures ParseMtdparts(board, ids, PREFIX + BodyText(devs)) == CarriedAll(devs)
  {
    hide BodyText, ParseDevices, Regular, CarriedAll;
    var s := PREFIX + BodyText(devs);
    assert |PREFIX| == 9;
    assert s[9..] == BodyText(devs) && s[..9] == PREFIX;
    BodyHead(board, ids, devs);
    assert At(s, 9) == At(BodyText(devs), 0);
    assert [] + devs == devs;
    DevicesRead(board, ids, [], devs, s, 9);
    if CarriedAll(devs).Some? { assert [] + CarriedAll(devs).value == CarriedAll(devs).value; }
  }

  lemma {:induction false} BodyHead(board: Board, ids: seq<MtdId>, devs: seq<Device>)
    requires AllPresent(board, ids) && devs != [] && Populated(devs) && AllRegular(board, ids, devs)
    ensures At(BodyText(devs), 0) != NUL
  {
    hide DeviceText;
    DeviceHead(devs[0], if |devs| == 1 then "" else ";" + BodyText(devs[1..]));
  }
}
