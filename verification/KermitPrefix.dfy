/** When the receiver makes up its mind about a packet: with the first character after which no packet
    could be accepted any more, and with no character later than that. */
module KermitPrefix {
  import opened Words
  import opened KermitCodec

  // -------------------------------------------------------------------------
  // What was read decides

  lemma {:induction false} BodyDecided(line: seq<Octet>, other: seq<Octet>, n: nat, kind: Octet, sum: nat, length: int, pos: nat,
                                       data: seq<Octet>)
    requires pos <= |line| && ParseBody(line, n, kind, sum, length, pos, data).Attempted?
    requires var next := ParseBody(line, n, kind, sum, length, pos, data).next; next <= |other| && line[..next] == other[..next]
    ensures ParseBody(other, n, kind, sum, length, pos, data) == ParseBody(line, n, kind, sum, length, pos, data)
    decreases DataLength(length)
  {
    hide Check, Control, ParseBody;
    var p := ParseBody(line, n, kind, sum, length, pos, data);
    ParseBodyUnfolds(line, n, kind, sum, length, pos, data);
    ParseBodyUnfolds(other, n, kind, sum, length, pos, data);
    assert forall i :: 0 <= i < p.next ==> line[i] == line[..p.next][i] == other[..p.next][i] == other[i];
    if !Control(line[pos]) && length > 1 {
      BodyDecided(line, other, n, kind, sum + line[pos], length - 1, pos + 1, data + [line[pos]]);
    }
  }

  lemma {:induction false} BodyUndecided(line: seq<Octet>, k: nat, n: nat, kind: Octet, sum: nat, length: int, pos: nat, data: seq<Octet>)
    requires pos <= k <= |line| && ParseBody(line, n, kind, sum, length, pos, data).Attempted?
    requires k < ParseBody(line, n, kind, sum, length, pos, data).next
    ensures ParseBody(line[..k], n, kind, sum, length, pos, data) == Starved
    decreases DataLength(length)
  {
    hide Check, Control, ParseBody;
    ParseBodyUnfolds(line, n, kind, sum, length, pos, data);
    ParseBodyUnfolds(line[..k], n, kind, sum, length, pos, data);
    if pos < k && length > 1 {
      BodyUndecided(line, k, n, kind, sum + line[pos], length - 1, pos + 1, data + [line[pos]]);
    }
  }

  /** An attempt is decided by the characters it took, whatever follows them. */
  lemma Decided(line: seq<Octet>, pos: nat, other: seq<Octet>)
    requires pos <= |line| && ParsePacket(line, pos).Attempted?
    requires var next := ParsePacket(line, pos).next; next <= |other| && line[..next] == other[..next]
    ensures ParsePacket(other, pos) == ParsePacket(line, pos)
  {
    hide Check, ParseBody;
    var next := ParsePacket(line, pos).next;
    assert forall i :: 0 <= i < next ==> line[i] == line[..next][i] == other[..next][i] == other[i];
    if HeadIntact(line, pos) {
      BodyOfPacket(line, other, pos);
    }
  }

  lemma BodyOfPacket(line: seq<Octet>, other: seq<Octet>, pos: nat)
    requires HeadIntact(line, pos) && ParsePacket(line, pos).Attempted?
    requires var next := ParsePacket(line, pos).next; next <= |other| && line[..next] == other[..next]
    ensures ParsePacket(other, pos) == ParsePacket(line, pos)
  {
    hide Check, ParseBody, ParsePacket, Sum;
    var h, next := HeadSize(line, pos), ParsePacket(line, pos).next;
    HeadParses(line, pos);
    assert forall i :: 0 <= i < next ==> line[i] == line[..next][i] == other[..next][i] == other[i];
    assert line[pos..pos + h] == other[pos..pos + h];
    HeadParses(other, pos);
    BodyDecided(line, other, line[pos + 1] - 0x20, line[pos + 2], Sum(line[pos..pos + h]), LengthLeft(line, pos), pos + h, []);
  }

  /** And not before: with one character less the receiver still waits. */
  lemma Undecided(line: seq<Octet>, pos: nat, k: nat)
    requires pos <= k <= |line| && ParsePacket(line, pos).Attempted? && k < ParsePacket(line, pos).next
    ensures ParsePacket(line[..k], pos) == Starved
  {
    hide Check, ParseBody;
    if HeadIntact(line, pos) && pos + HeadSize(line, pos) <= k {
      UndecidedBody(line, pos, k);
    }
  }

  lemma UndecidedBody(line: seq<Octet>, pos: nat, k: nat)
    requires HeadIntact(line, pos) && pos + HeadSize(line, pos) <= k <= |line|
    requires ParsePacket(line, pos).Attempted? && k < ParsePacket(line, pos).next
    ensures ParsePacket(line[..k], pos) == Starved
  {
    hide Check, ParseBody, ParsePacket, Sum;
    var h := HeadSize(line, pos);
    HeadParses(line, pos);
    assert line[pos..pos + h] == line[..k][pos..pos + h];
    HeadParses(line[..k], pos);
    BodyUndecided(line, k, line[pos + 1] - 0x20, line[pos + 2], Sum(line[pos..pos + h]), LengthLeft(line, pos), pos + h, []);
  }

  // -------------------------------------------------------------------------
  // What is waited for can still come

  /** The body parser waits: what is there is printable, and a check that is there is right. */
  lemma {:induction false} BodyWaits(line: seq<Octet>, n: nat, kind: Octet, sum: nat, length: int, pos: nat, data: seq<Octet>)
    requires pos <= |line| && ParseBody(line, n, kind, sum, length, pos, data) == Starved
    ensures var k := DataLength(length);
      && |line| < pos + k + 2 && (forall i :: pos <= i < |line| ==> !Control(line[i]))
      && (|line| == pos + k + 1 ==> line[pos + k] == Check(sum + Sum(line[pos..pos + k])))
    decreases DataLength(length)
  {
    hide Check, Control, ParseBody, Sum;
    ParseBodyUnfolds(line, n, kind, sum, length, pos, data);
    if pos < |line| {
      if length > 1 {
        BodyWaits(line, n, kind, sum + line[pos], length - 1, pos + 1, data + [line[pos]]);
        var k := DataLength(length);
        if |line| == pos + k + 1 {
          assert line[pos..pos + k] == [line[pos]] + line[pos + 1..pos + k];
          SumPrepend(line[pos], line[pos + 1..pos + k]);
        }
      } else {
        assert line[pos..pos] == [];
        SumNone();
      }
    }
  }

  /** What makes a body complete: spaces for the data that are missing, the check, and the end of line. */
  lemma BodyCompleted(line: seq<Octet>, n: nat, kind: Octet, sum: nat, length: int, pos: nat) returns (t: seq<Octet>)
    requires pos <= |line| && ParseBody(line, n, kind, sum, length, pos, []) == Starved
    ensures var p := ParseBody(line + t, n, kind, sum, length, pos, []); p.Attempted? && p.a.Accepted? && p.next == |line + t|
  {
    hide Check, ParseBody, Sum, Control;
    var k := DataLength(length);
    BodyWaits(line, n, kind, sum, length, pos, []);
    SpaceIsPrintable();
    if |line| <= pos + k {
      var spaces: seq<Octet> := seq(pos + k - |line|, _ => SPACE);
      var whole := line + spaces;
      CheckPrintable(sum + Sum(whole[pos..pos + k]));
      t := spaces + [Check(sum + Sum(whole[pos..pos + k])), END_CHAR];
      assert (line + t)[pos..pos + k] == whole[pos..pos + k];
    } else {
      t := [END_CHAR];
      assert (line + t)[pos..pos + k] == line[pos..pos + k];
    }
    var data := (line + t)[pos..pos + k];
    assert [] + data == data;
    BodyExactly(line + t, n, kind, sum, length, pos, [], data, pos + k + 2);
  }

  lemma SpaceIsPrintable()
    ensures !Control(SPACE)
  {
  }

  /** Whatever the receiver waits in the middle of, there is a rest with which the packet is accepted. */
  lemma {:induction false} Completable(line: seq<Octet>, pos: nat) returns (t: seq<Octet>)
    requires pos <= |line| && ParsePacket(line, pos) == Starved
    ensures var p := ParsePacket(line + t, pos); p.Attempted? && p.a.Accepted? && p.next == |line + t|
    decreases pos + 6 - |line|
  {
    hide Check, ParseBody, ParsePacket, Sum;
    if pos < |line| && pos + HeadSize(line, pos) <= |line| {
      HeadWaits(line, pos);
      HeadParses(line, pos);
      var h := HeadSize(line, pos);
      t := BodyCompleted(line, line[pos + 1] - 0x20, line[pos + 2], Sum(line[pos..pos + h]), LengthLeft(line, pos), pos + h);
      var whole := line + t;
      assert whole[pos..pos + h] == line[pos..pos + h];
      HeadParses(whole, pos);
    } else {
      var c := NextOfHead(line, pos);
      var rest := Completable(line + [c], pos);
      t := [c] + rest;
      assert line + [c] + rest == line + t;
    }
  }

  lemma HeadWaits(line: seq<Octet>, pos: nat)
    requires pos < |line| && pos + HeadSize(line, pos) <= |line| && ParsePacket(line, pos) == Starved
    ensures HeadIntact(line, pos)
  {
    hide Check, ParseBody;
  }

  /** A next character for a head that is not complete. */
  lemma NextOfHead(line: seq<Octet>, pos: nat) returns (c: Octet)
    requires pos <= |line| && ParsePacket(line, pos) == Starved
    requires pos < |line| ==> |line| < pos + HeadSize(line, pos)
    ensures ParsePacket(line + [c], pos) == Starved && |line| < pos + 6
  {
    hide Check, ParseBody;
    if |line| == pos + 5 {
      var sum := line[pos] as int + line[pos + 1] as int + line[pos + 2] as int + line[pos + 3] as int + line[pos + 4] as int;
      CheckPrintable(sum);
      c := Check(sum);
    } else {
      c := 0x23;
    }
    HeadGrows(line, c, pos);
  }

  lemma HeadGrows(line: seq<Octet>, c: Octet, pos: nat)
    requires pos <= |line| && ParsePacket(line, pos) == Starved && 0x20 <= c && |line| < pos + 6
    requires pos < |line| ==> |line| < pos + HeadSize(line, pos)
    requires |line| == pos + 5 ==>
      c == Check(line[pos] as int + line[pos + 1] as int + line[pos + 2] as int + line[pos + 3] as int + line[pos + 4] as int)
    ensures ParsePacket(line + [c], pos) == Starved
  {
    hide Check, ParseBody, Sum;
    var whole := line + [c];
    if |line| + 1 == pos + HeadSize(whole, pos) {
      HeadParses(whole, pos);
      ParseBodyUnfolds(whole, whole[pos + 1] - 0x20, whole[pos + 2], Sum(whole[pos..|whole|]), LengthLeft(whole, pos), |whole|, []);
    }
  }

  // -------------------------------------------------------------------------

  /** A spoiled packet is given up with the first character after which nothing could save it: the
      characters before it are the beginning of some packet that would be accepted, with it they are not.
      The number is known from the second character on, if both are printable. */
  lemma SpoiledAtOnce(line: seq<Octet>, pos: nat) returns (t: seq<Octet>)
    requires pos <= |line| && ParsePacket(line, pos).Attempted? && !ParsePacket(line, pos).a.Accepted?
    ensures var p := ParsePacket(line, pos);
      && ParsePacket(line[..p.next - 1] + t, pos).Attempted? && ParsePacket(line[..p.next - 1] + t, pos).a.Accepted?
      && (forall rest: seq<Octet> :: ParsePacket(line[..p.next] + rest, pos) == p)
  {
    hide ParsePacket;
    var p := ParsePacket(line, pos);
    Undecided(line, pos, p.next - 1);
    t := Completable(line[..p.next - 1], pos);
    forall rest: seq<Octet> ensures ParsePacket(line[..p.next] + rest, pos) == p {
      assert (line[..p.next] + rest)[..p.next] == line[..p.next];
      Decided(line, pos, line[..p.next] + rest);
    }
  }

  /** Which number an attempt shows: that of its second character, if the first two are printable. */
  lemma ShownExactly(line: seq<Octet>, pos: nat)
    requires pos <= |line| && ParsePacket(line, pos).Attempted?
    ensures var a := ParsePacket(line, pos).a;
      if line[pos] < 0x20 || line[pos + 1] < 0x20 then a == HeaderBad else !a.HeaderBad? && a.n == line[pos + 1] - 0x20
  {
    hide Check, ParseBody, Sum;
    HeadParses(line, pos);
    if HeadIntact(line, pos) {
      var h := HeadSize(line, pos);
      BodyShows(line, line[pos + 1] - 0x20, line[pos + 2], Sum(line[pos..pos + h]), LengthLeft(line, pos), pos + h, []);
    }
  }

  lemma {:induction false} BodyShows(line: seq<Octet>, n: nat, kind: Octet, sum: nat, length: int, pos: nat, data: seq<Octet>)
    requires pos <= |line|
    ensures var p := ParseBody(line, n, kind, sum, length, pos, data);
      p.Attempted? ==> !p.a.HeaderBad? && p.a.n == n
    decreases DataLength(length)
  {
    hide Check, Control, ParseBody;
    ParseBodyUnfolds(line, n, kind, sum, length, pos, data);
    if pos < |line| && length > 1 { BodyShows(line, n, kind, sum + line[pos], length - 1, pos + 1, data + [line[pos]]); }
  }
}
