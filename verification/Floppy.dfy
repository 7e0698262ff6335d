/** Reading a floppy disk: block numbers to track, head and sector, and transfers with retries. */
module Floppy {
  import opened Words
  import opened Division

  /** Sectors per track, heads, tracks, and octets per sector. */
  datatype Geometry = Geometry(sect: nat, head: nat, track: nat, size: nat)

  /** What fits the one-octet command registers. */
  predicate Sane(g: Geometry) {
    0 < g.sect < 256 && 0 < g.head <= 256 && 0 < g.track <= 256 && 0 < g.size
  }

  datatype Chs = Chs(track: nat, head: nat, sector: nat)

  /** The arithmetic of fdc_issue_cmd. */
  function ToChs(g: Geometry, blnr: nat): Chs
    requires Sane(g)
  {
    Positive(g.sect, g.head);
    var n: nat := g.sect * g.head;
    var rest := Remainder(blnr, n);
    Chs(Quotient(blnr, n), Quotient(rest, g.sect), Remainder(rest, g.sect) + 1)
  }

  lemma Positive(a: nat, b: nat)
    requires 0 < a && 0 < b
    ensures a * b > 0
  {
  }

  /** The block a drive finds at a place; sectors count from 1. */
  function BlockAt(g: Geometry, c: Chs): int {
    (c.track * g.head + c.head) * g.sect + c.sector - 1
  }

  /** Track, head and sector exist and stand for just this block. */
  lemma ChsExact(g: Geometry, blnr: nat)
    requires Sane(g) && blnr < g.sect * g.head * g.track
    ensures var c := ToChs(g, blnr);
      && c.track < g.track && c.head < g.head && 1 <= c.sector <= g.sect
      && BlockAt(g, c) == blnr && c.sector - 1 == blnr % g.sect
  {
    hide Sane;
    var n, track, head, s := CylinderSize(g, blnr);
    DivBelow(blnr, n, g.track);
    DivBelow(blnr % n, g.sect, g.head);
    Distribute(track * g.head, head, g.sect);
    Rearrange(track, g.head, g.sect);
    ModDrop(s, track * g.head + head, g.sect);
    SmallRest(s, g.sect);
  }

  /** The parts of a block number. */
  lemma CylinderSize(g: Geometry, blnr: nat) returns (n: nat, track: nat, head: nat, s: nat)
    requires Sane(g) && blnr < g.sect * g.head * g.track
    ensures 0 < g.sect && n == g.sect * g.head > 0 && ToChs(g, blnr) == Chs(track, head, s + 1)
    ensures track == blnr / n && head == blnr % n / g.sect && s < g.sect
    ensures blnr == track * n + head * g.sect + s && blnr % n < g.head * g.sect && blnr < g.track * n
  {
    n := g.sect * g.head;
    track, head, s := blnr / n, blnr % n / g.sect, blnr % n % g.sect;
  }

  lemma Rearrange(a: nat, b: nat, c: nat)
    ensures a * (c * b) == a * b * c
  {
  }

  lemma SmallRest(s: nat, n: nat)
    requires s < n
    ensures s % n == s
  {
  }

  // -------------------------------------------------------------------------
  // What a transfer delivers

  /** How a read command ends: with all data, or broken off after some octets. Then the controller goes
      over to its seven status octets. */
  datatype Attempt = Intact | Broken(after: nat, status: seq<Octet>)

  /** The octets the controller hands out one by one before it waits for a command. */
  function Handed(data: seq<Octet>, a: Attempt): seq<Octet> {
    match a
    case Intact => data
    case Broken(k, status) => (if k < |data| then data[..k] else data) + status
  }

  /** A transfer of len octets comes to its end before the controller waits for a command. */
  predicate Completes(a: Attempt, len: nat) {
    a.Intact? || len <= a.after + |a.status|
  }

  /** The break comes so late that the status octets fill up the transfer. */
  predicate Late(a: Attempt, len: nat) {
    a.Broken? && a.after < len <= a.after + |a.status|
  }

  lemma IntactCompletes(len: nat)
    ensures Completes(Intact, len)
  {
  }

  /** What stands in the buffer where the wanted octets should. */
  function Piece(want: seq<Octet>, a: Attempt): (r: seq<Octet>)
    ensures |r| == |want|
  {
    if Late(a, |want|) then want[..a.after] + a.status[..|want| - a.after] else want
  }

  /** A transfer of len octets comes to its end exactly if enough octets are handed out. */
  lemma HandedPiece(data: seq<Octet>, a: Attempt, len: nat)
    requires len <= |data|
    ensures len <= |Handed(data, a)| <==> Completes(a, len)
    ensures Completes(a, len) ==> Handed(data, a)[..len] == Piece(data[..len], a)
  {
  }

  /** A completed transfer is right unless the break came late; and then only by chance. */
  lemma PieceExactly(want: seq<Octet>, a: Attempt)
    ensures Piece(want, a) == want <==> Late(a, |want|) ==> a.status[..|want| - a.after] == want[a.after..]
  {
    if Late(a, |want|) {
      var k := a.after;
      assert Piece(want, a)[k..] == a.status[..|want| - k];
      assert want == want[..k] + want[k..];
    }
  }

  /** A completed transfer: first block, number of blocks, how the read ended. */
  datatype Transfer = Transfer(block: nat, count: nat, attempt: Attempt)

  const FDC_RW_RETRIES := 3
  const FDC_CAL_RETRIES := 3

  class Drive {
    const geo: Geometry
    const disk: seq<Octet>
    var blnr: nat
    var cmd: Chs                    // track, head and sector registers of the command
    var fifo: seq<Octet>            // what the controller still hands out
    var attempts: seq<Attempt>      // how the read commands to come end
    var accepted: seq<bool>         // whether the commands to come are taken and completed
    ghost var issued: seq<(nat, nat)>   // first block and number of blocks of every transfer begun

    predicate Valid()
      reads this`attempts
    {
      && Sane(geo) && 0 < geo.sect && |disk| == Octets(Total())
      && forall i :: 0 <= i < |attempts| ==> attempts[i].Broken? ==> |attempts[i].status| == 7
    }

    /** The number of blocks on the disk. */
    function Total(): nat {
      geo.sect * geo.head * geo.track
    }

    function Octets(blocks: nat): nat {
      blocks * geo.size
    }

    constructor (geo: Geometry, disk: seq<Octet>, blnr: nat, attempts: seq<Attempt>, accepted: seq<bool>)
      ensures this.geo == geo && this.disk == disk && this.blnr == blnr && this.attempts == attempts
      ensures this.accepted == accepted && issued == []
    {
      this.geo, this.disk, this.blnr, this.attempts, this.accepted := geo, disk, blnr, attempts, accepted;
      cmd, fifo, issued := Chs(0, 0, 1), [], [];
    }

    /** Blocks from one on, as octets. */
    function Blocks(block: nat, n: nat): seq<Octet>
      requires Octets(block + n) <= |disk|
    {
      MulGrows(block, block + n, geo.size);
      disk[block * geo.size..(block + n) * geo.size]
    }

    /** The transfers that complete when blocks are read from one on: each goes to the end of its track
        side, or of the request, and is repeated until one of the attempts to come completes it. */
    function Completed(block: nat, blocks: nat, attempts: seq<Attempt>): seq<Transfer>
      requires 0 < geo.sect
      decreases |attempts| + blocks
    {
      if blocks == 0 then []
      else
        var n, a := Share(block, blocks), Next(attempts);
        if Completes(a, Octets(n)) then [Transfer(block, n, a)] + Completed(block + n, blocks - n, Later(attempts))
        else Completed(block, blocks, Later(attempts))
    }

    /** How many attempts fail before the transfers of a request have all been completed. */
    function Failures(block: nat, blocks: nat, attempts: seq<Attempt>): nat
      requires 0 < geo.sect
      decreases |attempts| + blocks
    {
      if blocks == 0 then 0
      else
        var n, a := Share(block, blocks), Next(attempts);
        if Completes(a, Octets(n)) then Failures(block + n, blocks - n, Later(attempts))
        else 1 + Failures(block, blocks, Later(attempts))
    }

    /** Blocks left on the track side of a block. */
    function Side(block: nat): (n: nat)
      requires 0 < geo.sect
      ensures 0 < n <= geo.sect
    {
      geo.sect - block % geo.sect
    }

    /** Blocks of one transfer. */
    function Share(block: nat, blocks: nat): (n: nat)
      requires 0 < geo.sect
      ensures n <= blocks && n <= Side(block) && (blocks > 0 ==> n > 0)
    {
      if Side(block) > blocks then blocks else Side(block)
    }

    predicate OnDisk(ts: seq<Transfer>) {
      forall i :: 0 <= i < |ts| ==> Octets(ts[i].block + ts[i].count) <= |disk|
    }

    /** What the transfers leave in the buffer. */
    function Pieces(ts: seq<Transfer>): seq<Octet>
      requires OnDisk(ts)
    {
      if ts == [] then [] else Piece(Blocks(ts[0].block, ts[0].count), ts[0].attempt) + Pieces(ts[1..])
    }

    /** A transfer that did not break off late, or whose status octets are by chance the missing data. */
    predicate Faithful(t: Transfer)
      requires Octets(t.block + t.count) <= |disk|
    {
      var want, a := Blocks(t.block, t.count), t.attempt;
      Late(a, |want|) ==> a.status[..|want| - a.after] == want[a.after..]
    }

    predicate AllFaithful(ts: seq<Transfer>)
      requires OnDisk(ts)
    {
      forall i :: 0 <= i < |ts| ==> Faithful(ts[i])
    }

    /** A command that is taken and completed, or not. */
    method Command() returns (ok: bool)
      modifies this`accepted
      ensures ok == First(old(accepted)) && (ok ==> AllTaken(old(accepted), accepted))
      ensures old(accepted) == [] ==> accepted == []
    {
      ok := First(accepted);
      accepted := if accepted == [] then [] else accepted[1..];
    }

    /** The place of the block goes into the command; the controller hands out the rest of that track on
        that side, as the attempt lets it. */
    method IssueRead(ghost readblk: nat) returns (ok: bool)
      requires Valid() && blnr < Total() && readblk <= Side(blnr) && OnOneSide()
      modifies this`cmd, this`fifo, this`attempts, this`accepted, this`issued
      ensures Valid() && OnOneSide() && issued == old(issued) + [(blnr, readblk)]
      ensures ok == First(old(accepted)) && (old(accepted) == [] ==> accepted == [])
      ensures ok ==> AllTaken(old(accepted), accepted)
      ensures ok ==> blnr + Side(blnr) <= Total() && Octets(blnr + Side(blnr)) <= |disk|
                       && fifo == Handed(Blocks(blnr, Side(blnr)), Next(old(attempts)))
                       && attempts == Later(old(attempts))
    {
      hide AllTaken, Handed, Sane, First, Octets, Blocks, Side, Total, BlockAt;
      issued := issued + [(blnr, readblk)];
      SideEnds(readblk);
      SetPlace();
      ok := Command();
      if ok { StartRead(); }
    }

    lemma SideEnds(readblk: nat)
      requires 0 < geo.sect && readblk <= Side(blnr)
      ensures blnr % geo.sect + readblk <= geo.sect
    {
    }

    /** The command registers select the block. */
    method SetPlace()
      requires Valid() && blnr < Total()
      modifies this`cmd
      ensures BlockAt(geo, cmd) == blnr && 0 < geo.sect && cmd.sector - 1 == blnr % geo.sect
    {
      cmd := ToChs(geo, blnr);
      ChsExact(geo, blnr);
    }

    /** What the controller hands out for them. */
    method StartRead()
      requires Valid() && blnr < Total() && BlockAt(geo, cmd) == blnr && cmd.sector - 1 == blnr % geo.sect
      modifies this`fifo, this`attempts
      ensures Valid() && blnr + Side(blnr) <= Total() && Octets(blnr + Side(blnr)) <= |disk|
      ensures fifo == Handed(Blocks(blnr, Side(blnr)), Next(old(attempts))) && attempts == Later(old(attempts))
    {
      hide Sane, BlockAt;
      SideFits();
      var attempt := Next(attempts);
      attempts := Later(attempts);
      fifo := Handed(Blocks(BlockAt(geo, cmd), geo.sect - (cmd.sector - 1)), attempt);
    }

    lemma SideFits()
      requires Valid() && blnr < Total()
      ensures blnr + Side(blnr) <= Total()
      ensures (blnr + Side(blnr)) * geo.size <= |disk|
    {
      hide Sane;
      var q, r, sides := blnr / geo.sect, blnr % geo.sect, geo.head * geo.track;
      assert blnr == q * geo.sect + r;
      Rearrange3(geo.sect, geo.head, geo.track);
      DivBelow(blnr, geo.sect, sides);
      MulGrows(q + 1, sides, geo.sect);
      Distribute(q, 1, geo.sect);
      MulGrows(blnr + Side(blnr), Total(), geo.size);
    }

    /** The loop that takes octets off the controller; it fails when the controller waits for a command. */
    method TakeOctets(buffer: array<Octet>, offset: nat, len: nat) returns (ok: bool)
      requires offset + len <= buffer.Length
      modifies buffer, this`fifo
      ensures ok == (len <= |old(fifo)|)
      ensures ok ==> buffer[offset..offset + len] == old(fifo)[..len]
      ensures buffer[..offset] == old(buffer[..offset])
    {
      ghost var all := fifo;
      var i := 0;
      while i < len
        invariant 0 <= i <= len && i <= |all| && fifo == all[i..]
        invariant buffer[offset..offset + i] == all[..i] && buffer[..offset] == old(buffer[..offset])
        modifies buffer, this`fifo
      {
        if fifo == [] { return false; }
        buffer[offset + i] := fifo[0];
        fifo := fifo[1..];
        assert buffer[offset..offset + i + 1] == buffer[offset..offset + i] + [all[i]];
        i := i + 1;
      }
      ok := true;
    }

    /** fdc_seek: the command, the status, and whether the seek ended. */
    method Seek() returns (ok: bool)
      modifies this`accepted
      ensures old(accepted) == [] ==> ok && accepted == []
      ensures ok ==> AllTaken(old(accepted), accepted)
    {
      ok := Command();
      if ok { ok := Command(); }
      if ok { ok := Command(); }
    }

    method Recalibrate() returns (ok: bool)
      modifies this`accepted
      ensures old(accepted) == [] ==> ok && accepted == []
      ensures ok ==> AllTaken(old(accepted), accepted)
    {
      ok := Command();
      if ok { ok := Command(); }
    }

    /** Every transfer begun stays on one track and side. */
    ghost predicate OnOneSide()
      reads this`issued
    {
      0 < geo.sect && forall i :: 0 <= i < |issued| ==> issued[i].0 % geo.sect + issued[i].1 <= geo.sect
    }

    /** The data of a transfer is among what the controller has for it. */
    lemma DataFits(readblk: nat)
      requires Valid() && blnr < Total() && readblk <= Side(blnr)
      requires Octets(blnr + Side(blnr)) <= |disk|
      ensures Octets(readblk) <= |Blocks(blnr, Side(blnr))| && Octets(blnr + readblk) <= |disk|
      ensures Blocks(blnr, Side(blnr))[..Octets(readblk)] == Blocks(blnr, readblk)
    {
      hide Sane, Side, Total;
      var rest := Side(blnr);
      Distribute(blnr, rest, geo.size);
      Distribute(blnr, readblk, geo.size);
      MulGrows(readblk, rest, geo.size);
      SliceStart(disk, blnr * geo.size, (blnr + rest) * geo.size, readblk * geo.size);
    }

    /** When blocks are left after a transfer, it went to the end of its side. */
    lemma NextSide(blocks: nat)
      requires Valid()
      ensures Share(blnr, blocks) < blocks ==> Side(blnr + Share(blnr, blocks)) == geo.sect
    {
      hide Sane;
      var n := Share(blnr, blocks);
      if n < blocks {
        var q := blnr / geo.sect;
        assert blnr + n == (q + 1) * geo.sect by { Distribute(q, 1, geo.sect); }
        DivUnique(blnr + n, q + 1, 0, geo.sect);
      }
    }

    /** The transfers of a request lie on the disk. */
    lemma {:induction false} CompletedOnDisk(block: nat, blocks: nat, attempts: seq<Attempt>)
      requires Valid() && block + blocks <= Total()
      ensures OnDisk(Completed(block, blocks, attempts))
      decreases |attempts| + blocks
    {
      hide Sane, Side, Completes, Octets;
      if blocks > 0 {
        var n := Share(block, blocks);
        if Completes(Next(attempts), Octets(n)) {
          BlocksOnDisk(block + n);
          CompletedOnDisk(block + n, blocks - n, Later(attempts));
        } else {
          IntactCompletes(Octets(n));
          CompletedOnDisk(block, blocks, Later(attempts));
        }
      }
    }

    lemma BlocksOnDisk(m: nat)
      requires Valid() && m <= Total()
      ensures Octets(m) <= |disk|
    {
      hide Sane;
      MulGrows(m, Total(), geo.size);
    }

    lemma BlocksJoin(block: nat, n: nat, m: nat)
      requires Octets(block + n) <= |disk| && Octets(block + n + m) <= |disk|
      ensures Blocks(block, n + m) == Blocks(block, n) + Blocks(block + n, m)
      ensures |Blocks(block, n)| == Octets(n)
    {
      MulGrows(block, block + n, geo.size);
      MulGrows(block + n, block + n + m, geo.size);
      Distribute(block, n, geo.size);
      SliceSum(disk, block * geo.size, (block + n) * geo.size, (block + n + m) * geo.size);
    }

    lemma NoBlocks(block: nat)
      requires Octets(block) <= |disk|
      ensures Blocks(block, 0) == [] && Octets(0) == 0
    {
    }

    /** The transfers of a request leave the blocks asked for if and only if each of them is faithful. */
    lemma {:induction false} PiecesExactly(block: nat, blocks: nat, attempts: seq<Attempt>)
      requires Valid() && block + blocks <= Total()
      ensures var ts := Completed(block, blocks, attempts);
        && OnDisk(ts) && Octets(block + blocks) <= |disk|
        && |Pieces(ts)| == Octets(blocks) && (Pieces(ts) == Blocks(block, blocks) <==> AllFaithful(ts))
      decreases |attempts| + blocks
    {
      hide Sane, Side, Completes, Octets, Blocks, Piece, Late;
      CompletedOnDisk(block, blocks, attempts);
      BlocksOnDisk(block + blocks);
      if blocks == 0 {
        NoBlocks(block);
      } else {
        var n, a, ts := Share(block, blocks), Next(attempts), Completed(block, blocks, attempts);
        if Completes(a, Octets(n)) {
          PiecesExactly(block + n, blocks - n, Later(attempts));
          PiecesStep(Transfer(block, n, a), Completed(block + n, blocks - n, Later(attempts)), blocks - n);
        } else {
          IntactCompletes(Octets(n));
          PiecesExactly(block, blocks, Later(attempts));
        }
      }
    }

    /** One transfer more in front. */
    lemma {:induction false} PiecesStep(t: Transfer, rest: seq<Transfer>, m: nat)
      requires Valid() && t.block + t.count + m <= Total() && OnDisk(rest) && OnDisk([t] + rest)
      requires Octets(t.block + t.count + m) <= |disk| && |Pieces(rest)| == Octets(m)
      requires Pieces(rest) == Blocks(t.block + t.count, m) <==> AllFaithful(rest)
      ensures |Pieces([t] + rest)| == Octets(t.count + m)
      ensures Pieces([t] + rest) == Blocks(t.block, t.count + m) <==> AllFaithful([t] + rest)
    {
      hide Sane, Octets, Blocks, Piece, Late;
      var ts := [t] + rest;
      assert ts[0] == t && ts[1..] == rest;
      BlocksOnDisk(t.block + t.count);
      BlocksJoin(t.block, t.count, m);
      OctetsJoin(t.count, m);
      PieceExactly(Blocks(t.block, t.count), t.attempt);
      FaithfulStep(ts);
      Both(Piece(Blocks(t.block, t.count), t.attempt), Blocks(t.block, t.count), Pieces(rest), Blocks(t.block + t.count, m));
    }

    lemma OctetsJoin(n: nat, m: nat)
      ensures Octets(n + m) == Octets(n) + Octets(m)
    {
      Distribute(n, m, geo.size);
    }

    lemma FaithfulStep(ts: seq<Transfer>)
      requires ts != [] && OnDisk(ts)
      ensures OnDisk(ts[1..]) && (AllFaithful(ts) <==> Faithful(ts[0]) && AllFaithful(ts[1..]))
    {
      hide Faithful, Octets;
      assert forall i :: 0 < i < |ts| ==> ts[i] == ts[1..][i - 1];
      assert forall i :: 0 <= i < |ts| - 1 ==> ts[1..][i] == ts[i + 1];
    }

    lemma {:induction false} PiecesAppend(ts: seq<Transfer>, t: Transfer)
      requires OnDisk(ts) && Octets(t.block + t.count) <= |disk|
      ensures OnDisk(ts + [t]) && Pieces(ts + [t]) == Pieces(ts) + Piece(Blocks(t.block, t.count), t.attempt)
    {
      hide Octets, Blocks, Piece;
      if ts == [] {
        assert ts + [t] == [t] && [t][1..] == [];
      } else {
        assert (ts + [t])[1..] == ts[1..] + [t] && (ts + [t])[0] == ts[0];
        PiecesAppend(ts[1..], t);
      }
    }

    /** What happens after a read that broke off: it is repeated at once, or after recalibration and seek,
        or the count of both is used up. */
    method Recover(retriesrw: nat, retriescal: nat) returns (ok: bool, rw: nat, cal: nat)
      requires retriesrw <= 4 && retriescal <= 4
      modifies this`accepted
      ensures ok ==> AllTaken(old(accepted), accepted) && rw <= 4 && cal <= 4
      ensures ok ==> 5 * cal + rw == 5 * retriescal + retriesrw + 1 && (cal > retriescal || (cal == retriescal && rw > retriesrw))
      ensures old(accepted) == [] ==> accepted == [] && (ok <==> 5 * retriescal + retriesrw < 24)
    {
      ok, rw, cal := true, retriesrw, retriescal;
      if rw <= FDC_RW_RETRIES {
        rw := rw + 1;
        return;
      }
      if cal > FDC_CAL_RETRIES { return false, rw, cal; }
      cal := cal + 1;
      ok := Recalibrate();
      if ok {
        rw := 0;
        ghost var mid := accepted;
        ok := Seek();
        if ok { TakenOn(old(accepted), mid, accepted); }
      }
    }

    /** fdc_read_data: whenever it succeeds, and whatever retries and recalibrations there were, the
        buffer holds what the completed transfers handed out, in order; and that is what was asked for
        if and only if none of them broke off within its last seven octets, or only with status octets
        that are by chance the missing data. It always ends and never reads over the end of a track side;
        when all commands are taken, it succeeds iff at most 24 reads break off early: five in a row, or
        with completed ones between, lead to a recalibration, and there are four of these. */
    method ReadData(buffer: array<Octet>, blocks0: nat) returns (ok: bool)
      requires Valid() && blnr < Total() && OnOneSide()
      requires blnr + blocks0 <= Total() && Octets(blocks0) <= buffer.Length
      modifies this`blnr, this`cmd, this`fifo, this`attempts, this`accepted, this`issued, buffer
      ensures Valid() && OnOneSide()
      ensures ok ==> blnr == old(blnr) + blocks0
      ensures var ts := Completed(old(blnr), blocks0, old(attempts));
        && OnDisk(ts) && Octets(old(blnr) + blocks0) <= |disk|
        && (ok ==> buffer[..Octets(blocks0)] == Pieces(ts))
        && (ok ==> (buffer[..Octets(blocks0)] == Blocks(old(blnr), blocks0) <==> AllFaithful(ts)))
      ensures ok ==> AllTaken(old(accepted), accepted)
      ensures old(accepted) == [] ==> (ok <==> Failures(old(blnr), blocks0, old(attempts)) <= 24)
    {
      hide AllTaken, Underway, Sane, Total, Octets, Side, Share, Blocks, Completed, Failures, Completes, Pieces, OnDisk, AllFaithful;
      ghost var start, smooth, failures := blnr, accepted == [], Failures(blnr, blocks0, attempts);
      ghost var ts, done: seq<Transfer> := Completed(blnr, blocks0, attempts), [];
      PiecesExactly(blnr, blocks0, attempts);
      var blocks: nat, retriesrw: nat, retriescal: nat, offset: nat := blocks0, 0, 0, 0;
      ok := Seek();
      if !ok { return false; }
      var readblk: nat := Side(blnr);
      if readblk > blocks { readblk := blocks; }
      ShareIs(blnr, blocks);
      Begins(buffer, blocks0);
      while true
        invariant Valid() && OnOneSide() && retriesrw <= 4 && retriescal <= 4 && blnr < Total() && readblk == Share(blnr, blocks)
        invariant Underway(buffer, start, blocks0, blocks, offset, done, ts) && (blocks == 0 ==> blocks0 == 0)
        invariant (smooth ==> accepted == []) && AllTaken(old(accepted), accepted)
        invariant failures == 5 * retriescal + retriesrw + Failures(blnr, blocks, attempts)
        decreases blocks, 4 - retriescal, 4 - retriesrw
        modifies this`blnr, this`cmd, this`fifo, this`attempts, this`accepted, this`issued, buffer
      {
        ghost var before := accepted;
        var issued;
        issued, ok, offset, done := OneTransfer(buffer, start, blocks0, offset, blocks, readblk, done, ts);
        if !issued { return false; }
        TakenOn(old(accepted), before, accepted);
        if !ok {
          before := accepted;
          ok, retriesrw, retriescal := Recover(retriesrw, retriescal);
        } else {
          blocks := blocks - readblk;
          if blocks == 0 { break; }
          readblk := if geo.sect > blocks then blocks else geo.sect;
          ShareIs(blnr, blocks);
          before := accepted;
          ok := Seek();
        }
        if !ok { return false; }
        TakenOn(old(accepted), before, accepted);
      }
      AllDone(buffer, start, blocks0, offset, done, ts);
      NoFailures(blnr, attempts);
      ok := true;
    }

    /** The state of a read under way: what is in the buffer, and what is still to complete. */
    ghost predicate Underway(buffer: array<Octet>, start: nat, blocks0: nat, blocks: nat, offset: nat, done: seq<Transfer>,
                             ts: seq<Transfer>)
      reads this`blnr, this`attempts, buffer
    {
      && 0 < geo.sect && start <= blnr && blnr + blocks == start + blocks0 && (blnr < Total() || blocks == 0)
      && start + blocks0 <= Total() && Octets(blocks0) <= buffer.Length
      && offset == Octets(blnr - start) <= buffer.Length && OnDisk(done) && buffer[..offset] == Pieces(done)
      && ts == done + Completed(blnr, blocks, attempts)
    }

    lemma {:induction false} Begins(buffer: array<Octet>, blocks0: nat)
      requires Valid() && blnr < Total() && blnr + blocks0 <= Total() && Octets(blocks0) <= buffer.Length
      ensures Underway(buffer, blnr, blocks0, blocks0, 0, [], Completed(blnr, blocks0, attempts))
    {
      hide Sane, Total, Completed;
      assert Completed(blnr, blocks0, attempts) == [] + Completed(blnr, blocks0, attempts);
      assert buffer[..0] == [];
    }

    lemma {:induction false} AllDone(buffer: array<Octet>, start: nat, blocks0: nat, offset: nat, done: seq<Transfer>, ts: seq<Transfer>)
      requires Underway(buffer, start, blocks0, 0, offset, done, ts) && OnDisk(ts)
      ensures blnr == start + blocks0 && Octets(blocks0) <= buffer.Length && buffer[..Octets(blocks0)] == Pieces(ts)
    {
      hide Total, Octets, Pieces, OnDisk;
      assert Completed(blnr, 0, attempts) == [] && done + [] == done;
    }

    lemma ShareIs(block: nat, blocks: nat)
      requires 0 < geo.sect
      ensures Share(block, blocks) == (if Side(block) > blocks then blocks else Side(block)) && Share(block, blocks) <= blocks
    {
    }

    lemma CompletedStep(block: nat, blocks: nat, attempts: seq<Attempt>)
      requires 0 < geo.sect
      ensures blocks > 0 ==>
        (Completed(block, blocks, attempts) ==
           if Completes(Next(attempts), Octets(Share(block, blocks)))
           then [Transfer(block, Share(block, blocks), Next(attempts))]
                + Completed(block + Share(block, blocks), blocks - Share(block, blocks), Later(attempts))
           else Completed(block, blocks, Later(attempts)))
      ensures blocks == 0 ==> Completed(block, blocks, attempts) == [] && Share(block, blocks) == 0
    {
      hide Side, Completes, Octets;
    }

    lemma FailuresStep(block: nat, blocks: nat, attempts: seq<Attempt>)
      requires 0 < geo.sect
      ensures blocks > 0 ==>
        (Failures(block, blocks, attempts) ==
           if Completes(Next(attempts), Octets(Share(block, blocks)))
           then Failures(block + Share(block, blocks), blocks - Share(block, blocks), Later(attempts))
           else 1 + Failures(block, blocks, Later(attempts)))
      ensures blocks == 0 ==> Share(block, blocks) == 0 && Completes(Next(attempts), Octets(Share(block, blocks)))
      ensures Failures(block, 0, attempts) == 0
    {
      hide Side;
      NoBlocks(0);
    }

    lemma NoFailures(block: nat, attempts: seq<Attempt>)
      requires 0 < geo.sect
      ensures Failures(block, 0, attempts) == 0
    {
    }

    /** A read command, its transfer, and buffer and block number past it when it completes. */
    method OneTransfer(buffer: array<Octet>, ghost start: nat, ghost blocks0: nat, offset0: nat, ghost blocks: nat, readblk: nat,
                       ghost done0: seq<Transfer>, ghost ts: seq<Transfer>)
      returns (issued: bool, ok: bool, offset: nat, ghost done: seq<Transfer>)
      requires Valid() && OnOneSide() && blnr < Total() && readblk == Share(blnr, blocks)
      requires Underway(buffer, start, blocks0, blocks, offset0, done0, ts)
      modifies this`blnr, this`cmd, this`fifo, this`attempts, this`accepted, this`issued, buffer
      ensures Valid() && OnOneSide() && (old(accepted) == [] ==> issued && accepted == [])
      ensures issued ==> AllTaken(old(accepted), accepted)
      ensures issued ==> Failures(old(blnr), blocks, old(attempts))
                           == if ok then Failures(blnr, blocks - readblk, attempts) else 1 + Failures(blnr, blocks, attempts)
      ensures issued ==> Underway(buffer, start, blocks0, if ok then blocks - readblk else blocks, offset, done, ts)
      ensures issued && !ok ==> blnr == old(blnr)
      ensures issued && ok ==> readblk <= blocks && (readblk < blocks ==> Side(blnr) == geo.sect && blnr < Total())
    {
      hide AllTaken, Sane, Handed, Total, Octets, Side, Share, Blocks, Completed, Failures, Completes, Pieces, OnDisk;
      ghost var a := Next(attempts);
      offset, done, ok := offset0, done0, false;
      ShareIs(blnr, blocks);
      CompletedStep(blnr, blocks, attempts);
      FailuresStep(blnr, blocks, attempts);
      issued := IssueRead(readblk);
      if !issued { return; }
      ok := TransferPiece(buffer, start, blocks0, offset, readblk, a, done);
      if ok {
        if blocks > 0 {
          ghost var rest := Completed(blnr + readblk, blocks - readblk, attempts);
          assert done + ([Transfer(blnr, readblk, a)] + rest) == done + [Transfer(blnr, readblk, a)] + rest;
          done := done + [Transfer(blnr, readblk, a)];
        }
        offset := Advance(start, offset, blocks, readblk);
        CompletedStep(blnr, blocks - readblk, attempts);
        FailuresStep(blnr, blocks - readblk, attempts);
      } else {
        CompletedStep(blnr, blocks, attempts);
      }
    }

    lemma LateTransfer()
      requires geo == SMALL && disk == SMALL_DISK
      ensures Octets(1) == 8 && Total() == 1 && Octets(geo.sect) == 8 && Failures(0, 1, [LATE_BREAK]) == 0
      ensures var ts := Completed(0, 1, [LATE_BREAK]); OnDisk(ts) && Pieces(ts) == [1, 2, 3, 4, 5, 0, 0, 0]
    {
      var t := Transfer(0, 1, LATE_BREAK);
      assert Share(0, 1) == 1 && Completes(LATE_BREAK, 8);
      assert Completed(1, 0, []) == [];
      assert Completed(0, 1, [LATE_BREAK]) == [t] + [] == [t];
      assert Blocks(0, 1) == SMALL_DISK;
      assert Piece(SMALL_DISK, LATE_BREAK) == [1, 2, 3, 4, 5] + [0, 0, 0];
      assert [t][1..] == [] && Pieces([]) == [];
      assert Pieces([t]) == Piece(SMALL_DISK, LATE_BREAK) + [];
    }

    /** Buffer and block number past a transfer. */
    method Advance(ghost start: nat, offset0: nat, ghost blocks: nat, readblk: nat) returns (offset: nat)
      requires Valid() && start <= blnr && offset0 == Octets(blnr - start) && readblk == Share(blnr, blocks)
      modifies this`blnr
      ensures Valid() && blnr == old(blnr) + readblk && offset == Octets(blnr - start)
      ensures readblk < blocks ==> Side(blnr) == geo.sect
    {
      hide Sane, Side, Share;
      NextSide(blocks);
      Distribute(blnr - start, readblk, geo.size);
      offset := offset0 + Octets(readblk);
      blnr := blnr + readblk;
    }

    /** One transfer, to its place in the buffer. */
    method TransferPiece(buffer: array<Octet>, ghost start: nat, ghost blocks0: nat, offset: nat, readblk: nat, ghost a: Attempt,
                         ghost done: seq<Transfer>)
      returns (ok: bool)
      requires Valid() && start <= blnr < Total() && blnr + Side(blnr) <= Total()
      requires readblk <= Side(blnr) && blnr + readblk <= start + blocks0 && Octets(blocks0) <= buffer.Length
      requires Octets(blnr + Side(blnr)) <= |disk| && fifo == Handed(Blocks(blnr, Side(blnr)), a)
      requires offset == Octets(blnr - start) <= buffer.Length && OnDisk(done) && buffer[..offset] == Pieces(done)
      modifies this`fifo, buffer
      ensures Valid() && ok == Completes(a, Octets(readblk)) && buffer[..offset] == Pieces(done)
      ensures ok ==> Octets(blnr - start + readblk) <= buffer.Length && OnDisk(done + [Transfer(blnr, readblk, a)])
      ensures ok ==> buffer[..Octets(blnr - start + readblk)] == Pieces(done + [Transfer(blnr, readblk, a)])
    {
      hide Sane, Handed, Late, Octets, Blocks, Side, Total, Pieces, Piece, Completes;
      var len := Octets(readblk);
      ghost var n, data := blnr - start, Blocks(blnr, Side(blnr));
      Room(buffer.Length, start, n, readblk, blocks0);
      DataFits(readblk);
      HandedPiece(data, a, len);
      ok := TakeOctets(buffer, offset, len);
      if ok {
        PiecesAppend(done, Transfer(blnr, readblk, a));
        SliceSum(buffer[..], 0, offset, offset + len);
      }
    }

    lemma Room(length: nat, start: nat, n: nat, m: nat, blocks0: nat)
      requires Valid() && n + m <= blocks0 && Octets(blocks0) <= length && start + n == blnr
      requires m <= Side(blnr) && Octets(blnr + Side(blnr)) <= |disk|
      ensures Octets(n + m) == Octets(n) + Octets(m) <= length && Octets(start + n + m) <= |disk|
    {
      hide Sane;
      Distribute(n, m, geo.size);
      MulGrows(n + m, blocks0, geo.size);
      MulGrows(start + n + m, blnr + Side(blnr), geo.size);
    }
  }

  const SMALL := Geometry(1, 1, 1, 8)
  const SMALL_DISK: seq<Octet> := [1, 2, 3, 4, 5, 6, 7, 8]
  const LATE_BREAK := Broken(5, [0, 0, 0, 0, 0, 0, 0])

  /** A read that breaks off three octets before its end succeeds, with status octets in their place. */
  method LateBreak() returns (ok: bool, data: seq<Octet>)
    ensures ok && data == [1, 2, 3, 4, 5, 0, 0, 0] != SMALL_DISK
  {
    var d := new Drive(SMALL, SMALL_DISK, 0, [LATE_BREAK], []);
    var buffer := new Octet[8];
    d.LateTransfer();
    ok := d.ReadData(buffer, 1);
    data := buffer[..];
    assert buffer[..8] == data;
  }

  /** How the next read ends, and the ones after it; without a script reads are intact. */
  function Next(attempts: seq<Attempt>): Attempt {
    if attempts == [] then Intact else attempts[0]
  }

  function Later(attempts: seq<Attempt>): (r: seq<Attempt>)
    ensures |r| <= |attempts| && (Next(attempts) != Intact ==> |r| < |attempts|)
  {
    if attempts == [] then [] else attempts[1..]
  }

  lemma Both(x: seq<Octet>, y: seq<Octet>, v: seq<Octet>, w: seq<Octet>)
    requires |x| == |y|
    ensures x + v == y + w <==> x == y && v == w
  {
    if x + v == y + w {
      assert x == (x + v)[..|x|] == (y + w)[..|x|] == y;
      assert v == (x + v)[|x|..] == (y + w)[|x|..] == w;
    }
  }

  /** The commands used up, which are those that are not left, were all taken. */
  ghost predicate AllTaken(script: seq<bool>, left: seq<bool>) {
    |left| <= |script| && left == script[|script| - |left|..] && forall i :: 0 <= i < |script| - |left| ==> script[i]
  }

  lemma TakenOn(script: seq<bool>, mid: seq<bool>, left: seq<bool>)
    requires AllTaken(script, mid) && AllTaken(mid, left)
    ensures AllTaken(script, left)
  {
    var k := |script| - |mid|;
    assert forall i :: k <= i < |script| ==> script[i] == mid[i - k];
  }

  function First(s: seq<bool>): bool {
    s == [] || s[0]
  }

  lemma SliceStart(d: seq<Octet>, a: nat, b: nat, n: nat)
    requires a <= b <= |d| && a + n <= b
    ensures d[a..b][..n] == d[a..a + n]
  {
  }

  lemma SliceSum(d: seq<Octet>, a: nat, b: nat, c: nat)
    requires a <= b <= c <= |d|
    ensures d[a..c] == d[a..b] + d[b..c]
  {
  }

  lemma Rearrange3(a: nat, b: nat, c: nat)
    ensures a * b * c == b * c * a
  {
  }
}
