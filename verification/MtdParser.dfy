/** The parser as it runs: cursors through the text, lists that grow. */
module MtdParser {
  import opened Options
  import opened Words
  import opened CStrings
  import opened MtdSize
  import opened MtdParts
  import opened MtdText
  import opened FlashBanks

  /** strchr; -1 stands for a null pointer. */
  method FindChar(s: string, pos: nat, c: char) returns (r: int)
    requires pos <= |s|
    ensures r == match Strchr(s, pos, c) case None => -1 case Some(k) => k
  {
    var p := pos;
    while At(s, p) != NUL && s[p] != c
      invariant pos <= p <= |s| && Strchr(s, p, c) == Strchr(s, pos, c)
      decreases |s| - p
    {
      p := p + 1;
    }
    return if At(s, p) == NUL then -1 else p;
  }

  /** part_parse */
  method ReadPart(s: string, pos: nat) returns (ok: bool, part: Part, next: nat)
    requires pos <= |s|
    ensures ParsePart(s, pos) == if ok then Some((part, next)) else None
  {
    hide MemsizeParse, Strchr;
    part := Part(SIZE_REMAINING, OFFSET_NOT_SPECIFIED, None, false);
    next := pos;
    if At(s, next) == '-' {
      next := next + 1;
    } else {
      var size;
      size, next := ReadMemsize(s, next);
      if size < MIN_PART_SIZE { NoProgress(s, pos); return false, part, next; }
      part := part.(size := size);
    }
    if At(s, next) == '@' {
      var offset;
      offset, next := ReadMemsize(s, next + 1);
      part := part.(offset := offset);
    }
    if At(s, next) == '(' {
      var close := FindChar(s, next + 1, ')');
      if close == -1 || close == next + 1 { return false, part, next; }
      part := part.(name := Some(s[next + 1..close]));
      next := close + 1;
    }
    if At(s, next) == 'r' && At(s, next + 1) == 'o' {
      part := part.(ro := true);
      next := next + 2;
    }
    if At(s, next) == ',' {
      ok := part.size != SIZE_REMAINING;
      next := next + 1;
    } else {
      ok := At(s, next) == ';' || At(s, next) == NUL;
    }
  }

  /** Looks for a sector that starts at an offset from the start of the bank. */
  method FindSector(bank: Bank, offset: u32) returns (found: bool)
    ensures found == SectorStart(bank, offset)
  {
    for i := 0 to |bank.start|
      invariant forall k :: 0 <= k < i ==> (bank.start[k] - bank.start[0]) % WORD != offset
    {
      if (bank.start[i] - bank.start[0]) % WORD == offset { return true; }
    }
    return false;
  }

  /** part_validate_nor */
  method ValidateNor(bank: Bank, part: Part) returns (ok: bool)
    ensures ok == NorAligned(bank, part)
  {
    hide SectorStart;
    var found := FindSector(bank, part.offset);
    if !found { return false; }
    var end := (part.offset + part.size) % WORD;
    found := FindSector(bank, end);
    return found || bank.size == end;
  }

  /** part_validate */
  method Validate(board: Board, id: MtdId, part0: Part) returns (ok: bool, part: Part)
    requires Present(board, id)
    ensures PartValidate(board, id, part0) == if ok then Some(part) else None
  {
    part := part0;
    if part.size == SIZE_REMAINING {
      part := part.(size := (id.size - part.offset) % WORD);
    }
    var end := (part.offset + part.size) % WORD;
    if part.offset > id.size || end <= part.offset || end > id.size { return false, part; }
    match id.kind
    case Nand =>
      var erase := board.eraseSizes[id.num];
      ok := part.offset % erase == 0 && part.size % erase == 0;
    case Nor =>
      ok := ValidateNor(board.banks[id.num], part);
    case Unsupported =>
      ok := false;
  }

  /** part_sort_add, on the list of a device that is not the current one. */
  method InsertSorted(parts: seq<Part>, p: Part) returns (ok: bool, result: seq<Part>)
    ensures SortAdd(parts, p) == if ok then Some(result) else None
  {
    for i := 0 to |parts|
      invariant forall j :: 0 <= j < i ==> parts[j].offset < p.offset
    {
      if p.offset == parts[i].offset && parts[i].offset == 0 {
        SlotIs(Offsets(parts), p.offset, i);
        return false, parts;
      }
      if p.offset <= parts[i].offset {
        SlotIs(Offsets(parts), p.offset, i);
        return true, parts[..i] + [p] + parts[i..];
      }
    }
    AddAtEnd(parts, p);
    return true, parts + [p];
  }

  /** Moves the partitions read to the device, one after the other. */
  method SortDevice(ps: seq<Part>) returns (ok: bool, parts: seq<Part>)
    ensures SortAll(ps) == if ok then Some(parts) else None
  {
    hide SortAdd;
    ok, parts := true, [];
    for i := 0 to |ps|
      invariant SortAll(ps[..i]) == (if ok then Some(parts) else None)
    {
      assert ps[..i + 1][..i] == ps[..i];
      if ok { ok, parts := InsertSorted(parts, ps[i]); }
    }
    assert ps[..|ps|] == ps;
  }

  ghost function Continued(ps: seq<Part>, r: Option<(seq<Part>, nat)>): Option<(seq<Part>, nat)> {
    if r.None? then None else Some((ps + r.value.0, r.value.1))
  }

  lemma ContinuedStep(ps: seq<Part>, p: Part, r: Option<(seq<Part>, nat)>)
    ensures Continued(ps, Prepend(p, r)) == Continued(ps + [p], r)
  {
    if r.Some? { assert ps + ([p] + r.value.0) == ps + [p] + r.value.0; }
  }

  /** The loop of device_parse over the partitions of a device. */
  method ReadParts(board: Board, id: MtdId, s: string, pos: nat, running: u32) returns (ok: bool, ps: seq<Part>, p: nat)
    requires Present(board, id) && pos <= |s|
    ensures ParseParts(board, id, s, pos, running) == if ok then Some((ps, p)) else None
  {
    hide ParsePart, PartValidate, ParseParts;
    ps, p := [], pos;
    var offset: u32 := running;
    ghost var all := ParseParts(board, id, s, pos, running);
    StartEmpty(all);
    while !Closed(At(s, p))
      invariant p <= |s| && all == Continued(ps, ParseParts(board, id, s, p, offset))
      decreases |s| - p
    {
      PartsUnfold(board, id, s, p, offset);
      var fine, part, next := ReadPart(s, p);
      if !fine { return false, ps, p; }
      if part.offset == OFFSET_NOT_SPECIFIED {
        part := part.(offset := offset);
      } else {
        offset := part.offset;
      }
      ghost var placed := part;
      fine, part := Validate(board, id, part);
      if !fine { return false, ps, p; }
      SameOffset(board, id, placed);
      offset := (offset + part.size) % WORD;
      ContinuedStep(ps, part, ParseParts(board, id, s, next, offset));
      ps, p := ps + [part], next;
    }
    PartsClosed(board, id, s, p, offset);
    assert ps + [] == ps;
    ok := true;
  }

  lemma StartEmpty(r: Option<(seq<Part>, nat)>)
    ensures Continued([], r) == r
  {
    if r.Some? { assert [] + r.value.0 == r.value.0; }
  }

  lemma SameOffset(board: Board, id: MtdId, part: Part)
    requires Present(board, id)
    ensures PartValidate(board, id, part).Some? ==> PartValidate(board, id, part).value.offset == part.offset
  {
  }

  lemma {:induction false} PartsClosed(board: Board, id: MtdId, s: string, pos: nat, running: u32)
    requires Present(board, id) && pos <= |s| && Closed(At(s, pos))
    ensures ParseParts(board, id, s, pos, running) == Some(([], pos))
  {
  }

  /** id_find_by_mtd_id */
  method LookUpId(ids: seq<MtdId>, name: string) returns (r: Option<MtdId>)
    ensures r == FindId(ids, name)
  {
    assert ids[0..] == ids;
    for i := 0 to |ids|
      invariant FindId(ids[i..], name) == FindId(ids, name)
    {
      assert ids[i..][1..] == ids[i + 1..];
      if ids[i].name == name { return Some(ids[i]); }
    }
    return None;
  }

  /** device_find */
  method LookUpDevice(devs: seq<Device>, id: MtdId) returns (r: Option<Device>)
    ensures r == FindDevice(devs, id)
  {
    assert devs[0..] == devs;
    for i := 0 to |devs|
      invariant FindDevice(devs[i..], id) == FindDevice(devs, id)
    {
      assert devs[i..][1..] == devs[i + 1..];
      if SameChip(devs[i].id, id) { return Some(devs[i]); }
    }
    return None;
  }

  /** device_parse */
  method ReadDevice(board: Board, ids: seq<MtdId>, devs: seq<Device>, s: string, pos: nat)
    returns (ok: bool, dev: Device, next: nat)
    requires AllPresent(board, ids) && pos <= |s|
    ensures ParseDevice(board, ids, devs, s, pos) == if ok then Some((dev, next)) else None
  {
    hide ParseParts, SortAll, Strchr, FindId, FindDevice;
    dev, next := Device(MtdId(Unsupported, 0, 0, ""), []), pos;
    var colon := FindChar(s, pos, ':');
    if colon == -1 { return false, dev, next; }
    var found := LookUpId(ids, s[pos..colon]);
    if found == None { return false, dev, next; }
    var id := found.value;
    FoundIsPresent(board, ids, s[pos..colon]);
    var offset: u32 := 0;
    var known := LookUpDevice(devs, id);
    if known.Some? && known.value.parts != [] {
      var last := known.value.parts[|known.value.parts| - 1];
      offset := (last.offset + last.size) % WORD;
    }
    var ps, sorted;
    ok, ps, next := ReadParts(board, id, s, colon + 1, offset);
    if !ok || ps == [] { return false, dev, next; }
    if At(s, next) == ';' { next := next + 1; }
    ok, sorted := SortDevice(ps);
    dev := Device(id, sorted);
  }

  /** parse_mtdparts: the device list it leaves, which is empty when it fails. */
  method ReadMtdparts(board: Board, ids: seq<MtdId>, s: string) returns (rc: int, devs: seq<Device>)
    requires AllPresent(board, ids)
    ensures match ParseMtdparts(board, ids, s) case None => rc == 1 && devs == [] case Some(ds) => rc == 0 && devs == ds
  {
    hide ParseDevice, FindDevice;
    devs := [];
    if |s| < 9 || s[..9] != PREFIX || At(s, 9) == NUL { return 1, []; }
    var p := 9;
    while At(s, p) != NUL
      invariant 9 <= p <= |s|
      invariant ParseDevices(board, ids, [], s, 9) == ParseDevices(board, ids, devs, s, p)
      decreases |s| - p
    {
      var ok, dev, next := ReadDevice(board, ids, devs, s, p);
      if !ok { return 1, []; }
      var twice := LookUpDevice(devs, dev.id);
      if twice.Some? { return 1, []; }
      devs, p := devs + [dev], next;
    }
    rc := 0;
  }
}
