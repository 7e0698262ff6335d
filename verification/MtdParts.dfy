/** Partitions: validation against the device, and their text. */
module MtdParts {
  import opened Options
  import opened Words
  import opened CStrings
  import opened MtdSize
  import opened FlashBanks
  import opened Division

  const SIZE_REMAINING: u32 := 0xFFFF_FFFF
  const OFFSET_NOT_SPECIFIED: u32 := 0xFFFF_FFFF
  const MIN_PART_SIZE: u32 := 4096

  datatype Kind = Nor | Nand | Unsupported

  datatype MtdId = MtdId(kind: Kind, num: nat, size: u32, name: string)

  /** A partition; without a name of its own it goes by a generated one. */
  datatype Part = Part(size: u32, offset: u32, name: Option<string>, ro: bool)

  /** The chips an id can stand for: NOR banks, and the erase sizes of NAND chips. */
  datatype Board = Board(banks: seq<Bank>, eraseSizes: seq<nat>)

  /** The chip an id stands for exists. */
  predicate Present(board: Board, id: MtdId) {
    match id.kind
    case Nor => id.num < |board.banks|
    case Nand => id.num < |board.eraseSizes| && board.eraseSizes[id.num] > 0
    case Unsupported => true
  }

  // -------------------------------------------------------------------------
  // Validation

  /** An offset from the start of a bank where a sector starts. */
  predicate SectorStart(bank: Bank, offset: u32) {
    exists i :: 0 <= i < |bank.start| && (bank.start[i] - bank.start[0]) % WORD == offset
  }

  predicate NorAligned(bank: Bank, part: Part) {
    var end := (part.offset + part.size) % WORD;
    SectorStart(bank, part.offset) && (SectorStart(bank, end) || bank.size == end)
  }

  predicate ChipAligned(board: Board, id: MtdId, part: Part)
    requires Present(board, id)
  {
    match id.kind
    case Nor => NorAligned(board.banks[id.num], part)
    case Nand => part.offset % board.eraseSizes[id.num] == 0 && part.size % board.eraseSizes[id.num] == 0
    case Unsupported => false
  }

  /** part_validate; the partition comes back with its size filled in. */
  function PartValidate(board: Board, id: MtdId, part0: Part): Option<Part>
    requires Present(board, id)
  {
    var part := if part0.size == SIZE_REMAINING then part0.(size := (id.size - part0.offset) % WORD) else part0;
    var end := (part.offset + part.size) % WORD;
    if part.offset > id.size || end <= part.offset || end > id.size || !ChipAligned(board, id, part) then None
    else Some(part)
  }

  /** What an accepted partition satisfies: it is not empty, lies inside the device without 32-bit
      wrap, and is accepted again unchanged. */
  lemma AcceptedPart(board: Board, id: MtdId, part: Part)
    requires Present(board, id) && PartValidate(board, id, part).Some?
    ensures var p := PartValidate(board, id, part).value;
      && 0 < p.size && p.offset + p.size <= id.size && p.offset == part.offset && p.name == part.name && p.ro == part.ro
      && (part.size != SIZE_REMAINING ==> p == part)
      && PartValidate(board, id, p) == Some(p)
  {
    hide ChipAligned;
  }

  /** The size a partition is meant to have: what is left of the device, or the one that is given. */
  function MeantSize(id: MtdId, part: Part): int {
    if part.size == SIZE_REMAINING then id.size - part.offset else part.size
  }

  /** A NAND partition is accepted iff it is a positive number of whole erase blocks inside the device. */
  lemma NandAccepted(board: Board, id: MtdId, part: Part)
    requires id.kind == Nand && Present(board, id)
    ensures var size, erase := MeantSize(id, part), board.eraseSizes[id.num];
      PartValidate(board, id, part) ==
        if 0 < size && part.offset + size <= id.size && part.offset % erase == 0 && (part.offset + size) % erase == 0
        then Some(part.(size := size)) else None
  {
    var size, erase := MeantSize(id, part), board.eraseSizes[id.num];
    if 0 < size && part.offset + size <= id.size && part.offset % erase == 0 {
      SameRest(part.offset, size, erase);
    }
  }

  lemma SameRest(offset: nat, size: nat, erase: nat)
    requires erase > 0 && offset % erase == 0
    ensures (offset + size) % erase == size % erase
  {
    ModDrop(size, offset / erase, erase);
  }

  lemma UnsupportedRefused(board: Board, id: MtdId, part: Part)
    requires id.kind == Unsupported
    ensures PartValidate(board, id, part) == None
  {
  }

  // -------------------------------------------------------------------------
  // Text

  /** strchr: where a character occurs next. */
  function Strchr(s: string, pos: nat, c: char): (r: Option<nat>)
    requires pos <= |s|
    ensures r.Some? ==> pos <= r.value < |s| && s[r.value] == c
    decreases |s| - pos
  {
    if At(s, pos) == NUL then None else if s[pos] == c then Some(pos) else Strchr(s, pos + 1, c)
  }

  /** A name in parentheses, if there is one. */
  function ParseName(s: string, pos: nat): (r: Option<(Option<string>, nat)>)
    requires pos <= |s|
    ensures r.Some? ==> pos <= r.value.1 <= |s|
  {
    if At(s, pos) != '(' then Some((None, pos))
    else
      match Strchr(s, pos + 1, ')')
      case None => None
      case Some(q) => if q == pos + 1 then None else Some((Some(s[pos + 1..q]), q + 1))
  }

  /** Size, then an offset if there is one. */
  function ParseExtent(s: string, pos: nat): (r: (u32, u32, nat))
    requires pos <= |s|
    ensures pos <= r.2 <= |s| && (r.2 == pos ==> r.0 == 0)
  {
    NoProgress(s, pos);
    var (size, p) := if At(s, pos) == '-' then (SIZE_REMAINING, pos + 1) else MemsizeParse(s, pos);
    if At(s, p) == '@' then
      var (offset, q) := MemsizeParse(s, p + 1); (size, offset, q)
    else (size, OFFSET_NOT_SPECIFIED, p)
  }

  function Flagged(s: string, pos: nat): bool {
    At(s, pos) == 'r' && At(s, pos + 1) == 'o'
  }

  /** The read-only flag, and what separates the partition from what follows. */
  function ParseTail(s: string, pos: nat, part: Part): (r: Option<(Part, nat)>)
    requires pos <= |s|
    ensures r.Some? ==> pos <= r.value.1 <= |s|
  {
    var ro := Flagged(s, pos);
    var e := if ro then pos + 2 else pos;
    if At(s, e) == ',' then
      if part.size == SIZE_REMAINING then None else Some((part.(ro := ro), e + 1))
    else if At(s, e) == ';' || At(s, e) == NUL then Some((part.(ro := ro), e))
    else None
  }

  /** part_parse: the partition, with the special size and offset where the text leaves them open,
      and where the next one starts. */
  function ParsePart(s: string, pos: nat): (r: Option<(Part, nat)>)
    requires pos <= |s|
    ensures r.Some? ==> pos < r.value.1 <= |s|
  {
    var (size, offset, p) := ParseExtent(s, pos);
    if size < MIN_PART_SIZE then None
    else
      match ParseName(s, p)
      case None => None
      case Some((name, q)) => ParseTail(s, q, Part(size, offset, name, false))
  }

  function NameText(name: Option<string>): string {
    if name.Some? then "(" + name.value + ")" else ""
  }

  /** The text of size and offset; a partition that would start at running by itself needs no
      offset. */
  function ExtentText(part: Part, running: u32): string {
    MemsizeFormat(part.size) + (if part.offset == running then "" else "@" + MemsizeFormat(part.offset))
  }

  function PartText(part: Part, running: u32): string {
    ExtentText(part, running) + (NameText(part.name) + (if part.ro then "ro" else ""))
  }

  /** A name that can be written: not empty, and nothing in it ends it early. */
  predicate GoodName(name: Option<string>) {
    name.Some? ==> name.value != "" && ')' !in name.value && NUL !in name.value
  }

  /** What may follow a partition. */
  predicate PartEnd(rest: string) {
    At(rest, 0) == ',' || At(rest, 0) == ';' || rest == ""
  }

  /** s goes on with t at pos. */
  predicate Follows(s: string, pos: nat, t: string) {
    pos <= |s| && s[pos..] == t
  }

  lemma Ahead(s: string, pos: nat, a: string, b: string)
    requires Follows(s, pos, a + b)
    ensures Follows(s, pos + |a|, b) && s[pos..pos + |a|] == a
    ensures forall i :: 0 <= i <= 1 ==> At(s, pos + i) == At(a + b, i)
    ensures At(s, pos + |a|) == At(b, 0) && At(s, pos + |a| + 1) == At(b, 1)
  {
    assert s[pos + |a|..] == s[pos..][|a|..] == b;
    assert s[pos..pos + |a|] == s[pos..][..|a|] == a;
    forall i | 0 <= i < |s| - pos ensures s[pos + i] == (a + b)[i] {
      assert s[pos..][i] == s[pos + i];
    }
    assert forall i :: 0 <= i < |b| ==> s[pos + (|a| + i)] == (a + b)[|a| + i] == b[i];
  }

  lemma FormatHead(size: u32)
    ensures |MemsizeFormat(size)| > 0 && DecimalDigit(MemsizeFormat(size)[0])
  {
    DecimalShape(size / 0x4000_0000);
    DecimalShape(size / 0x10_0000);
    DecimalShape(size / 0x400);
    DecimalShape(size);
  }

  lemma SizeReads(s: string, pos: nat, size: u32, rest: string)
    requires Follows(s, pos, MemsizeFormat(size) + rest) && Ends(At(rest, 0))
    ensures MemsizeParse(s, pos) == (size, pos + |MemsizeFormat(size)|) && At(s, pos) != '-'
    ensures Follows(s, pos + |MemsizeFormat(size)|, rest)
  {
    hide MemsizeFormat, MemsizeParse;
    FormatHead(size);
    Ahead(s, pos, MemsizeFormat(size), rest);
    MemsizeRoundTrip(s, pos, size);
  }

  lemma {:induction false} StrchrFinds(s: string, pos: nat, a: string, c: char)
    requires pos + |a| < |s| && s[pos..pos + |a|] == a && s[pos + |a|] == c && c !in a && NUL !in a && c != NUL
    ensures Strchr(s, pos, c) == Some(pos + |a|)
    decreases |a|
  {
    if a != "" {
      assert s[pos] == s[pos..pos + |a|][0] == a[0];
      assert s[pos + 1..pos + |a|] == s[pos..pos + |a|][1..] == a[1..];
      StrchrFinds(s, pos + 1, a[1..], c);
    }
  }

  lemma NameReads(s: string, pos: nat, name: Option<string>, rest: string)
    requires Follows(s, pos, NameText(name) + rest) && GoodName(name) && At(rest, 0) != '('
    ensures ParseName(s, pos) == Some((name, pos + |NameText(name)|)) && Follows(s, pos + |NameText(name)|, rest)
  {
    hide Strchr;
    var t := NameText(name);
    Ahead(s, pos, t, rest);
    if name.Some? {
      var v := name.value;
      assert s[pos + 1..pos + 1 + |v|] == s[pos..pos + |t|][1..1 + |v|] == v;
      assert s[pos + 1 + |v|] == s[pos..pos + |t|][1 + |v|] == ')';
      StrchrFinds(s, pos + 1, v, ')');
    }
  }

  lemma ExtentReads(s: string, pos: nat, part: Part, running: u32, rest: string)
    requires Follows(s, pos, ExtentText(part, running) + rest) && Ends(At(rest, 0)) && At(rest, 0) != '@'
    ensures ParseExtent(s, pos) ==
      (part.size, if part.offset == running then OFFSET_NOT_SPECIFIED else part.offset, pos + |ExtentText(part, running)|)
    ensures Follows(s, pos + |ExtentText(part, running)|, rest)
  {
    hide MemsizeFormat, MemsizeParse, Ends, Follows;
    var f, g := MemsizeFormat(part.size), MemsizeFormat(part.offset);
    if part.offset == running {
      assert f + "" + rest == f + rest;
      SizeReads(s, pos, part.size, rest);
      Ahead(s, pos, f, rest);
    } else {
      assert f + ("@" + g) + rest == f + ("@" + (g + rest));
      EndMarks();
      SizeReads(s, pos, part.size, "@" + (g + rest));
      Ahead(s, pos, f, "@" + (g + rest));
      Ahead(s, pos + |f|, "@", g + rest);
      SizeReads(s, pos + |f| + 1, part.offset, rest);
      Ahead(s, pos + |f| + 1, g, rest);
    }
  }

  lemma EndMarks()
    ensures Ends('@') && Ends('(') && Ends('r') && Ends(',') && Ends(';') && Ends(NUL)
  {
  }

  /** Reading back one partition: everything comes back, the offset as "not specified" when it was
      left out. It fails exactly when the size is below the minimum, or is the special size and not
      the last. */
  lemma PartReads(s: string, pos: nat, part: Part, running: u32, rest: string)
    requires Follows(s, pos, PartText(part, running) + rest) && GoodName(part.name) && PartEnd(rest)
    ensures ParsePart(s, pos) ==
      if part.size < 4096 || (part.size == 0xFFFF_FFFF && At(rest, 0) == ',') then None
      else Some((part.(offset := if part.offset == running then OFFSET_NOT_SPECIFIED else part.offset),
                 pos + |PartText(part, running)| + if At(rest, 0) == ',' then 1 else 0))
    ensures Follows(s, pos + |PartText(part, running)|, rest)
  {
    hide ExtentText, Ends, Follows, NameText, ParseTail, ParseExtent, ParseName;
    var flag := if part.ro then "ro" else "";
    var x, n := ExtentText(part, running), NameText(part.name);
    Regroup(x, n, flag, rest);
    NameHead(part.name, flag + rest);
    FlagHead(part.ro, rest);
    EndMarks();
    ExtentReads(s, pos, part, running, n + (flag + rest));
    NameReads(s, pos + |x|, part.name, flag + rest);
    var read := part.(offset := if part.offset == running then OFFSET_NOT_SPECIFIED else part.offset);
    TailReads(s, pos + |x| + |n|, read, rest);
  }

  lemma TailReads(s: string, pos: nat, part: Part, rest: string)
    requires var flag := if part.ro then "ro" else ""; Follows(s, pos, flag + rest) && PartEnd(rest)
    ensures var flag := if part.ro then "ro" else "";
      && Follows(s, pos + |flag|, rest)
      && ParseTail(s, pos, part.(ro := false)) ==
           if part.size == SIZE_REMAINING && At(rest, 0) == ',' then None
           else Some((part, pos + |flag| + if At(rest, 0) == ',' then 1 else 0))
  {
    hide Follows;
    var flag := if part.ro then "ro" else "";
    FlagHead(part.ro, rest);
    Ahead(s, pos, flag, rest);
  }

  lemma Regroup(x: string, n: string, flag: string, rest: string)
    ensures x + (n + flag) + rest == x + (n + (flag + rest))
  {
  }

  lemma NameHead(name: Option<string>, rest: string)
    ensures At(NameText(name) + rest, 0) == if name.Some? then '(' else At(rest, 0)
  {
  }

  lemma FlagHead(ro: bool, rest: string)
    ensures var t := (if ro then "ro" else "") + rest;
      At(t, 0) == (if ro then 'r' else At(rest, 0)) && (ro ==> At(t, 1) == 'o')
  {
  }
}
