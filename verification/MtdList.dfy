/** The partition list of a device under additions and deletions, and the number of the current
    partition that must follow its partition. */
module MtdList {
  import opened Options
  import opened Words
  import opened MtdSize
  import opened MtdParts
  import opened MtdText
  import opened MtdParser

  /** A list node: its address, and the partition in it. */
  datatype Node = Node(address: nat, part: Part)

  /** A device: its list, the u16 count, whether it is the current device, and the u8 number of the
      current partition. */
  datatype Table = Table(nodes: seq<Node>, numParts: nat, isCurrent: bool, partnum: nat)

  function Starts(nodes: seq<Node>): (r: seq<u32>)
    ensures |r| == |nodes| && forall i :: 0 <= i < |nodes| ==> r[i] == nodes[i].part.offset
  {
    seq(|nodes|, i requires 0 <= i < |nodes| => nodes[i].part.offset)
  }

  /** jffs2_part_info for the current partition. */
  function Current(t: Table): Option<Node> {
    if t.isCurrent && t.partnum < t.numParts && t.partnum < |t.nodes| then Some(t.nodes[t.partnum]) else None
  }

  /** part_add: validation, then the sorted insertion. */
  function Add(board: Board, id: MtdId, t: Table, node: Node): Option<Table>
    requires Present(board, id)
  {
    match PartValidate(board, id, node.part)
    case None => None
    case Some(part) =>
      var slot := Slot(Starts(t.nodes), part.offset);
      if slot.None? then None
      else
        var k := slot.value;
        var curr := Current(t);
        var follows := k < |t.nodes| && curr.Some? && t.nodes[k].part.offset <= curr.value.part.offset;
        Some(Table(t.nodes[..k] + [node.(part := part)] + t.nodes[k..], (t.numParts + 1) % 0x10000, t.isCurrent,
                   if follows then (t.partnum + 1) % 0x100 else t.partnum))
  }

  /** part_del of the k-th partition, when there are others. */
  function Delete(t: Table, k: nat): Table
    requires k < |t.nodes|
  {
    var curr := Current(t);
    var partnum :=
      if curr.None? then t.partnum
      else if curr.value.address == t.nodes[k].address then 0
      else if t.nodes[k].part.offset <= curr.value.part.offset then (t.partnum - 1) % 0x100
      else t.partnum;
    Table(t.nodes[..k] + t.nodes[k + 1..], (t.numParts - 1) % 0x10000, t.isCurrent, partnum)
  }

  // -------------------------------------------------------------------------
  // Invariant

  predicate InBounds(id: MtdId, part: Part) {
    0 < part.size && part.offset + part.size <= id.size
  }

  predicate Bounded(id: MtdId, nodes: seq<Node>) {
    forall i :: 0 <= i < |nodes| ==> InBounds(id, nodes[i].part)
  }

  predicate Sorted(nodes: seq<Node>) {
    forall i, j :: 0 <= i < j < |nodes| ==> nodes[i].part.offset <= nodes[j].part.offset
  }

  predicate Once(nodes: seq<Node>) {
    forall i, j :: 0 <= i < j < |nodes| ==> nodes[i].address != nodes[j].address
  }

  /** Sorted, inside the device without 32-bit wrap, and every node once. */
  predicate Listed(id: MtdId, nodes: seq<Node>) {
    Bounded(id, nodes) && Sorted(nodes) && Once(nodes)
  }

  /** The list is in order and counted in 16 bits, and the current number is that of a partition and fits
      8 bits. */
  predicate Good(id: MtdId, t: Table) {
    0 < |t.nodes| < 0x10000 && t.numParts == |t.nodes| && t.partnum < |t.nodes| && t.partnum < 0x100 && Listed(id, t.nodes)
  }

  predicate Fresh(t: Table, node: Node) {
    forall i :: 0 <= i < |t.nodes| ==> t.nodes[i].address != node.address
  }

  function Inserted(nodes: seq<Node>, k: nat, n: Node): seq<Node>
    requires k <= |nodes|
  {
    nodes[..k] + [n] + nodes[k..]
  }

  function Removed(nodes: seq<Node>, k: nat): seq<Node>
    requires k < |nodes|
  {
    nodes[..k] + nodes[k + 1..]
  }

  lemma InsertedListed(id: MtdId, nodes: seq<Node>, k: nat, n: Node)
    requires k <= |nodes| && Listed(id, nodes) && InBounds(id, n.part)
    requires forall i :: 0 <= i < |nodes| ==> nodes[i].address != n.address
    requires forall i :: 0 <= i < k ==> nodes[i].part.offset < n.part.offset
    requires forall i :: k <= i < |nodes| ==> n.part.offset <= nodes[i].part.offset
    ensures Listed(id, Inserted(nodes, k, n))
    ensures multiset(Inserted(nodes, k, n)) == multiset(nodes) + multiset{n}
  {
    hide InBounds;
    var u := Inserted(nodes, k, n);
    forall i | 0 <= i < |u| ensures u[i] == if i < k then nodes[i] else if i == k then n else nodes[i - 1] {
    }
    assert nodes == nodes[..k] + nodes[k..];
  }

  lemma RemovedListed(id: MtdId, nodes: seq<Node>, k: nat)
    requires k < |nodes| && Listed(id, nodes)
    ensures Listed(id, Removed(nodes, k))
    ensures multiset(Removed(nodes, k)) == multiset(nodes) - multiset{nodes[k]}
  {
    hide InBounds;
    var u := Removed(nodes, k);
    forall i | 0 <= i < |u| ensures u[i] == if i < k then nodes[i] else nodes[i + 1] {
    }
    assert nodes == nodes[..k] + [nodes[k]] + nodes[k + 1..];
  }

  /** Where an addition goes wrong: the current number would have to go up, but is at the end of its 8
      bits. */
  predicate Overruns(t: Table, node: Node) {
    var slot := Slot(Starts(t.nodes), node.part.offset);
    t.isCurrent && t.partnum == 0xFF && slot.Some? && slot.value <= 0xFF
  }

  /** An addition keeps the list in order. The current number stays with its partition, whether the
      offset is new or not, exactly when it need not go beyond 8 bits. */
  lemma AddKeeps(board: Board, id: MtdId, t: Table, node: Node)
    requires Present(board, id) && Good(id, t) && Fresh(t, node) && |t.nodes| < 0xFFFF
    requires Add(board, id, t, node).Some?
    ensures var u := Add(board, id, t, node).value;
      && Good(id, u) && u.isCurrent == t.isCurrent
      && (t.isCurrent ==> (u.nodes[u.partnum] == t.nodes[t.partnum] <==> !Overruns(t, node)))
      && (!t.isCurrent ==> u.partnum == t.partnum)
      && multiset(u.nodes) == multiset(t.nodes) + multiset{node.(part := PartValidate(board, id, node.part).value)}
  {
    hide Add, PartValidate, Slot, Listed;
    AddList(board, id, t, node);
    AddNumber(board, id, t, node);
    var k, n := Slot(Starts(t.nodes), node.part.offset).value, node.(part := PartValidate(board, id, node.part).value);
    if Overruns(t, node) { FirstIsOther(id, t.nodes, k, n); }
  }

  /** An addition succeeds iff the partition is accepted and offset 0 is not taken twice. */
  lemma AddExactly(board: Board, id: MtdId, t: Table, node: Node)
    requires Present(board, id) && Good(id, t)
    ensures Add(board, id, t, node).Some? <==>
      PartValidate(board, id, node.part).Some? && !(node.part.offset == 0 && t.nodes[0].part.offset == 0)
  {
    hide PartValidate, Slot, Bounded, Once;
    if PartValidate(board, id, node.part).Some? {
      SameOffset(board, id, node.part);
      SlotFacts(Starts(t.nodes), node.part.offset);
    }
  }

  /** What an addition does to the list. */
  lemma AddList(board: Board, id: MtdId, t: Table, node: Node)
    requires Present(board, id) && Good(id, t) && Fresh(t, node) && |t.nodes| < 0xFFFF
    requires Add(board, id, t, node).Some?
    ensures PartValidate(board, id, node.part).Some? && Slot(Starts(t.nodes), node.part.offset).Some?
    ensures var u, k := Add(board, id, t, node).value, Slot(Starts(t.nodes), node.part.offset).value;
      var n := node.(part := PartValidate(board, id, node.part).value);
      && u.nodes == Inserted(t.nodes, k, n) && Listed(id, u.nodes) && u.numParts == |u.nodes| && u.isCurrent == t.isCurrent
      && multiset(u.nodes) == multiset(t.nodes) + multiset{n}
  {
    hide PartValidate, Slot, Listed;
    var n := node.(part := PartValidate(board, id, node.part).value);
    AcceptedBounds(board, id, node.part);
    SameOffset(board, id, node.part);
    InOrder(id, t.nodes, n.part.offset);
    InsertedListed(id, t.nodes, Slot(Starts(t.nodes), n.part.offset).value, n);
  }

  /** What an addition does to the current number. */
  lemma AddNumber(board: Board, id: MtdId, t: Table, node: Node)
    requires Present(board, id) && Good(id, t) && Add(board, id, t, node).Some?
    ensures var u, k := Add(board, id, t, node).value, Slot(Starts(t.nodes), node.part.offset);
      k.Some? && u.partnum == if t.isCurrent && k.value <= t.partnum then (t.partnum + 1) % 0x100 else t.partnum
  {
    hide PartValidate, Slot, Listed, Bounded, Sorted, Once;
    SameOffset(board, id, node.part);
    InOrder(id, t.nodes, node.part.offset);
    var k := Slot(Starts(t.nodes), node.part.offset).value;
    if k <= t.partnum { InOrderAt(id, t.nodes, k, t.partnum); }
  }

  lemma FirstIsOther(id: MtdId, nodes: seq<Node>, k: nat, n: Node)
    requires Listed(id, nodes) && k <= 0xFF < |nodes| && forall i :: 0 <= i < |nodes| ==> nodes[i].address != n.address
    ensures Inserted(nodes, k, n)[0] != nodes[0xFF]
  {
    hide Bounded, Sorted;
  }

  lemma InOrderAt(id: MtdId, nodes: seq<Node>, i: nat, j: nat)
    requires Listed(id, nodes) && i <= j < |nodes|
    ensures nodes[i].part.offset <= nodes[j].part.offset
  {
  }

  lemma {:induction false} InOrder(id: MtdId, nodes: seq<Node>, o: u32)
    requires Listed(id, nodes)
    ensures var k := Slot(Starts(nodes), o);
      k.Some? ==> (forall i :: 0 <= i < k.value ==> nodes[i].part.offset < o) && (forall i :: k.value <= i < |nodes| ==> o <= nodes[i].part.offset)
  {
    hide Slot, InBounds;
    SlotFacts(Starts(nodes), o);
    var k := Slot(Starts(nodes), o);
    if k.Some? {
      forall i | k.value <= i < |nodes| ensures o <= nodes[i].part.offset {
        assert Starts(nodes)[i] == nodes[i].part.offset;
      }
    }
  }

  lemma AcceptedBounds(board: Board, id: MtdId, part: Part)
    requires Present(board, id)
    ensures PartValidate(board, id, part).Some? ==> InBounds(id, PartValidate(board, id, part).value)
  {
    if PartValidate(board, id, part).Some? { AcceptedPart(board, id, part); }
  }

  /** Where a deletion goes wrong: the deleted partition starts where the current one does, but comes
      after it. */
  predicate Misses(t: Table, k: nat) {
    t.isCurrent && t.partnum < k < |t.nodes| && t.nodes[k].part.offset == t.nodes[t.partnum].part.offset
  }

  /** What a deletion does to the current number. */
  lemma DeleteNumber(id: MtdId, t: Table, k: nat)
    requires Good(id, t) && k < |t.nodes| && t.isCurrent
    ensures Delete(t, k).partnum ==
      if k == t.partnum then 0 else if k < t.partnum then t.partnum - 1 else if Misses(t, k) then (t.partnum - 1) % 0x100 else t.partnum
  {
    hide Bounded;
    assert Current(t) == Some(t.nodes[t.partnum]);
  }

  /** A deletion keeps the list in order. The current number goes to 0 if the current partition was
      deleted; otherwise it stays with its partition exactly when the deleted one is no later
      duplicate of its offset. */
  lemma DeleteKeeps(id: MtdId, t: Table, k: nat)
    requires Good(id, t) && 1 < |t.nodes| && k < |t.nodes| && t.isCurrent
    ensures var u := Delete(t, k);
      && Listed(id, u.nodes) && u.numParts == |u.nodes| == |t.nodes| - 1 && u.isCurrent
      && multiset(u.nodes) == multiset(t.nodes) - multiset{t.nodes[k]}
      && (k == t.partnum ==> u.partnum == 0)
      && (k != t.partnum ==> ((u.partnum < |u.nodes| && u.nodes[u.partnum] == t.nodes[t.partnum]) <==> !Misses(t, k)))
      && (!Misses(t, k) ==> Good(id, u))
  {
    hide Listed, Delete;
    var u := Delete(t, k);
    DeleteNumber(id, t, k);
    RemovedListed(id, t.nodes, k);
    DeleteNodes(t, k);
    if Misses(t, k) { NotTheSame(id, t, k); }
  }

  lemma DeleteNodes(t: Table, k: nat)
    requires k < |t.nodes| < 0x10000 && t.numParts == |t.nodes|
    ensures var u := Delete(t, k); u.nodes == Removed(t.nodes, k) && u.numParts == |t.nodes| - 1 && u.isCurrent == t.isCurrent
  {
  }

  lemma NotTheSame(id: MtdId, t: Table, k: nat)
    requires Good(id, t) && k < |t.nodes| && t.partnum < k
    ensures var c, r := (t.partnum - 1) % 0x100, Removed(t.nodes, k); c < |r| ==> r[c] != t.nodes[t.partnum]
  {
    hide Bounded, Sorted;
  }

  // -------------------------------------------------------------------------
  // Runs

  datatype Op = Addition(node: Node) | Deletion(k: nat)

  /** A device that was removed with its last partition. */
  const GONE := Table([], 0, false, 0)

  /** A refused addition changes nothing; the deletion of the only partition removes the device. */
  function Apply(board: Board, id: MtdId, t: Table, op: Op): Table
    requires Present(board, id) && (op.Deletion? ==> op.k < |t.nodes|)
  {
    match op
    case Addition(node) => if Add(board, id, t, node).Some? then Add(board, id, t, node).value else t
    case Deletion(k) => if t.numParts == 1 then GONE else Delete(t, k)
  }

  /** A new node and room for it in both counts; a partition that exists and is no later duplicate of the
      current one's offset. Nothing is done to a device that is gone. */
  predicate Allowed(t: Table, op: Op) {
    match op
    case Addition(node) => Fresh(t, node) && 0 < |t.nodes| < 0xFFFF && !Overruns(t, node)
    case Deletion(k) => k < |t.nodes| && !Misses(t, k)
  }

  ghost predicate AllowedRun(board: Board, id: MtdId, t: Table, ops: seq<Op>)
    requires Present(board, id)
    decreases |ops|
  {
    ops != [] ==> Allowed(t, ops[0]) && AllowedRun(board, id, Apply(board, id, t, ops[0]), ops[1..])
  }

  ghost function Run(board: Board, id: MtdId, t: Table, ops: seq<Op>): Table
    requires Present(board, id) && AllowedRun(board, id, t, ops)
    decreases |ops|
  {
    if ops == [] then t else Run(board, id, Apply(board, id, t, ops[0]), ops[1..])
  }

  /** The partition that is meant to be current after a run that starts with curr: the same one as long
      as it is not deleted, then the first of the list. */
  ghost function Followed(board: Board, id: MtdId, t: Table, curr: Node, ops: seq<Op>): Node
    requires Present(board, id) && AllowedRun(board, id, t, ops)
    decreases |ops|
  {
    if ops == [] then curr
    else
      var u := Apply(board, id, t, ops[0]);
      var next := if ops[0].Deletion? && t.nodes[ops[0].k] == curr && u.nodes != [] then u.nodes[0] else curr;
      Followed(board, id, u, next, ops[1..])
  }

  /** A list in order whose current number names a certain partition, or no device any more. */
  ghost predicate Names(id: MtdId, t: Table, curr: Node) {
    t == GONE || (Good(id, t) && t.isCurrent && t.nodes[t.partnum] == curr)
  }

  /** Over every run of additions and deletions, until the device goes with its last partition, the list
      stays in order and counted, and the current number keeps naming the partition it is meant to
      name. */
  lemma {:induction false} RunFollows(board: Board, id: MtdId, t: Table, curr: Node, ops: seq<Op>)
    requires Present(board, id) && AllowedRun(board, id, t, ops) && Names(id, t, curr)
    ensures Names(id, Run(board, id, t, ops), Followed(board, id, t, curr, ops))
    decreases |ops|
  {
    hide Names;
    if ops != [] {
      ApplyFollows(board, id, t, curr, ops[0]);
      var u := Apply(board, id, t, ops[0]);
      var next := if ops[0].Deletion? && t.nodes[ops[0].k] == curr && u.nodes != [] then u.nodes[0] else curr;
      RunFollows(board, id, u, next, ops[1..]);
    }
  }

  lemma ApplyFollows(board: Board, id: MtdId, t: Table, curr: Node, op: Op)
    requires Present(board, id) && Allowed(t, op) && Names(id, t, curr)
    ensures var u := Apply(board, id, t, op);
      && Names(id, u, if op.Deletion? && t.nodes[op.k] == curr && u.nodes != [] then u.nodes[0] else curr)
      && (u == GONE <==> op.Deletion? && |t.nodes| == 1)
  {
    hide Listed, Add, Delete, Misses, Overruns;
    match op
    case Addition(node) =>
      if Add(board, id, t, node).Some? { AddKeeps(board, id, t, node); }
    case Deletion(k) =>
      if |t.nodes| > 1 {
        DeleteKeeps(id, t, k);
        if k != t.partnum { NodesDiffer(id, t, k, t.partnum); }
      }
  }

  lemma NodesDiffer(id: MtdId, t: Table, i: nat, j: nat)
    requires Listed(id, t.nodes) && i < |t.nodes| && j < |t.nodes| && i != j
    ensures t.nodes[i] != t.nodes[j]
  {
    hide Bounded, Sorted;
  }

  /** With offsets all different no deletion misses, and additions at new offsets keep it so. */
  predicate Strict(nodes: seq<Node>) {
    forall i, j :: 0 <= i < j < |nodes| ==> nodes[i].part.offset < nodes[j].part.offset
  }

  lemma StrictNeverMisses(t: Table, k: nat)
    requires Strict(t.nodes)
    ensures !Misses(t, k)
  {
  }

  lemma StrictKept(board: Board, id: MtdId, t: Table, op: Op)
    requires Present(board, id) && Allowed(t, op) && Strict(t.nodes) && (t == GONE || Good(id, t))
    requires op.Addition? ==> forall i :: 0 <= i < |t.nodes| ==> t.nodes[i].part.offset != op.node.part.offset
    ensures Strict(Apply(board, id, t, op).nodes)
  {
    hide PartValidate, Slot, Listed;
    match op
    case Addition(node) =>
      if Add(board, id, t, node).Some? {
        var part := PartValidate(board, id, node.part).value;
        SameOffset(board, id, node.part);
        InOrder(id, t.nodes, part.offset);
        StrictInserted(t.nodes, Slot(Starts(t.nodes), part.offset).value, node.(part := part));
      }
    case Deletion(k) => StrictRemoved(t.nodes, k);
  }

  /** A run that adds partitions at new offsets only, and deletes any. */
  ghost predicate PlainRun(board: Board, id: MtdId, t: Table, ops: seq<Op>)
    requires Present(board, id)
    decreases |ops|
  {
    ops != [] ==>
      && (match ops[0]
          case Addition(node) =>
            && Fresh(t, node) && 0 < |t.nodes| < 0xFFFF && !Overruns(t, node)
            && forall i :: 0 <= i < |t.nodes| ==> t.nodes[i].part.offset != node.part.offset
          case Deletion(k) => k < |t.nodes|)
      && PlainRun(board, id, Apply(board, id, t, ops[0]), ops[1..])
  }

  /** Over every such run from a list without equal offsets no deletion misses, the list stays strictly
      sorted, and the current number names the partition it is meant to name. */
  lemma {:induction false} StrictRunFollows(board: Board, id: MtdId, t: Table, curr: Node, ops: seq<Op>)
    requires Present(board, id) && Names(id, t, curr) && Strict(t.nodes) && PlainRun(board, id, t, ops)
    ensures AllowedRun(board, id, t, ops) && Strict(Run(board, id, t, ops).nodes)
    ensures Names(id, Run(board, id, t, ops), Followed(board, id, t, curr, ops))
  {
    hide Strict, Names, Misses, Overruns, Fresh, Apply, Followed, Run;
    StrictRunAllowed(board, id, t, curr, ops);
    RunFollows(board, id, t, curr, ops);
  }

  lemma {:induction false} StrictRunAllowed(board: Board, id: MtdId, t: Table, curr: Node, ops: seq<Op>)
    requires Present(board, id) && Names(id, t, curr) && Strict(t.nodes) && PlainRun(board, id, t, ops)
    ensures AllowedRun(board, id, t, ops) && Strict(Run(board, id, t, ops).nodes)
    decreases |ops|
  {
    hide Strict, Misses, Overruns, Fresh, Apply;
    if ops != [] {
      if ops[0].Deletion? { StrictNeverMisses(t, ops[0].k); }
      ApplyFollows(board, id, t, curr, ops[0]);
      StrictKept(board, id, t, ops[0]);
      var u := Apply(board, id, t, ops[0]);
      var next := if ops[0].Deletion? && t.nodes[ops[0].k] == curr && u.nodes != [] then u.nodes[0] else curr;
      StrictRunAllowed(board, id, u, next, ops[1..]);
    }
  }

  lemma StrictInserted(nodes: seq<Node>, k: nat, n: Node)
    requires k <= |nodes| && Strict(nodes)
    requires forall i :: 0 <= i < k ==> nodes[i].part.offset < n.part.offset
    requires forall i :: k <= i < |nodes| ==> n.part.offset < nodes[i].part.offset
    ensures Strict(nodes[..k] + [n] + nodes[k..])
  {
    var u := nodes[..k] + [n] + nodes[k..];
    forall i | 0 <= i < |u| ensures u[i] == if i < k then nodes[i] else if i == k then n else nodes[i - 1] {
    }
  }

  lemma StrictRemoved(nodes: seq<Node>, k: nat)
    requires k < |nodes| && Strict(nodes)
    ensures Strict(nodes[..k] + nodes[k + 1..])
  {
    var u := nodes[..k] + nodes[k + 1..];
    forall i | 0 <= i < |u| ensures u[i] == if i < k then nodes[i] else nodes[i + 1] {
    }
  }

  /** The current number can really go astray: with two partitions at one offset, deleting the second
      while the first is current leaves number 255, which names nothing. */
  lemma DuplicateAstray(id: MtdId, name: Option<string>)
    requires id.size >= 0x3000
    ensures
      var t := Table([Node(1, Part(0x1000, 0x1000, name, false)), Node(2, Part(0x2000, 0x1000, name, false))], 2, true, 0);
      Good(id, t) && Delete(t, 1).partnum == 255 && Current(Delete(t, 1)) == None
  {
  }

  // -------------------------------------------------------------------------
  // The list as it is patched

  class PartList {
    var nodes: seq<Node>
    var numParts: nat
    var isCurrent: bool         // dev == current_dev
    var partnum: nat            // current_partnum

    ghost function Value(): Table
      reads this
    {
      Table(nodes, numParts, isCurrent, partnum)
    }

    constructor ()
      ensures Value() == Table([], 0, false, 0)
    {
      nodes, numParts, isCurrent, partnum := [], 0, false, 0;
    }

    /** jffs2_part_info(current_dev, current_partnum) for this device, if it is the current one. */
    method CurrentInfo() returns (r: Option<Node>)
      ensures r == Current(Value())
    {
      if !isCurrent || partnum >= numParts { return None; }
      var num := 0;
      while num < |nodes|
        invariant 0 <= num <= |nodes| && num <= partnum
      {
        if num == partnum { return Some(nodes[num]); }
        num := num + 1;
      }
      return None;
    }

    /** part_sort_add */
    method PartSortAdd(node: Node) returns (rc: int)
      modifies this`nodes, this`partnum
      ensures var slot := Slot(Starts(old(nodes)), node.part.offset);
        if slot.None? then rc == 1 && Value() == old(Value())
        else
          && rc == 0 && nodes == old(nodes)[..slot.value] + [node] + old(nodes)[slot.value..]
          && partnum == (if slot.value < |old(nodes)| && Current(old(Value())).Some?
                            && old(nodes)[slot.value].part.offset <= Current(old(Value())).value.part.offset
                         then (old(partnum) + 1) % 0x100 else old(partnum))
    {
      if nodes == [] {
        nodes := [node];
        return 0;
      }
      var curr := CurrentInfo();
      for i := 0 to |nodes|
        invariant nodes == old(nodes) && partnum == old(partnum)
        invariant forall j :: 0 <= j < i ==> nodes[j].part.offset < node.part.offset
      {
        var pi := nodes[i];
        SlotHere(nodes, node.part.offset, i);
        if node.part.offset == pi.part.offset && pi.part.offset == 0 { return 1; }
        if node.part.offset <= pi.part.offset {
          nodes := nodes[..i] + [node] + nodes[i..];
          if curr.Some? && pi.part.offset <= curr.value.part.offset {
            partnum := (partnum + 1) % 0x100;
          }
          return 0;
        }
      }
      SlotHere(nodes, node.part.offset, |nodes|);
      assert nodes[..|nodes|] == nodes && nodes[|nodes|..] == [];
      nodes := nodes + [node];
      rc := 0;
    }

    /** part_add */
    method PartAdd(board: Board, id: MtdId, node: Node) returns (rc: int)
      requires Present(board, id)
      modifies this
      ensures match Add(board, id, old(Value()), node)
        case None => rc == 1 && Value() == old(Value())
        case Some(t) => rc == 0 && Value() == t
    {
      hide PartValidate, Slot;
      var ok, part := Validate(board, id, node.part);
      if !ok { return 1; }
      rc := PartSortAdd(node.(part := part));
      if rc == 0 { numParts := (numParts + 1) % 0x10000; }
    }

    /** part_del of the k-th partition, if there are others; otherwise the whole device goes. */
    method PartDel(k: nat) returns (deviceGone: bool)
      requires k < |nodes|
      modifies this
      ensures deviceGone == (old(numParts) == 1)
      ensures Value() == if deviceGone then old(Value()) else Delete(old(Value()), k)
    {
      if numParts == 1 { return true; }
      var curr := CurrentInfo();
      if curr.Some? {
        if curr.value.address == nodes[k].address {
          partnum := 0;
        } else if nodes[k].part.offset <= curr.value.part.offset {
          partnum := (partnum - 1) % 0x100;
        }
      }
      nodes := nodes[..k] + nodes[k + 1..];
      numParts := (numParts - 1) % 0x10000;
      deviceGone := false;
    }
  }

  lemma {:induction false} SlotHere(nodes: seq<Node>, o: u32, i: nat)
    requires i <= |nodes| && forall j :: 0 <= j < i ==> nodes[j].part.offset < o
    ensures i < |nodes| && o <= nodes[i].part.offset ==>
      Slot(Starts(nodes), o) == if o == nodes[i].part.offset == 0 then None else Some(i)
    ensures i == |nodes| ==> Slot(Starts(nodes), o) == Some(i)
  {
    if i == |nodes| || o <= nodes[i].part.offset { SlotIs(Starts(nodes), o, i); }
  }
}
