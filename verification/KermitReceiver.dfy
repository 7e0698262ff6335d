/** The receiver itself: global state patched in place while characters arrive, restored from a
    checkpoint when a packet turns out spoiled or repeated. */
module KermitReceiver {
  import opened Words
  import opened KermitCodec
  import opened KermitProtocol

  /** How a reception ends: the line runs dry, a ^C between packets, or a break packet. */
  datatype End = Starving | Cancelled | Broken

  datatype Reception = Reception(atts: seq<Attempt>, end: End)

  function Before(atts: seq<Attempt>, r: Reception): Reception {
    Reception(atts + r.atts, r.end)
  }

  predicate IsBreak(a: Attempt) {
    a.Accepted? && a.kind == BREAK_TYPE
  }

  /** The attempts a line carries from a position on. */
  function Receive(line: seq<Octet>, pos: nat): Reception
    requires pos <= |line|
    decreases |line| - pos
  {
    match Parse(line, pos)
    case Starved => Reception([], Starving)
    case Aborted(_) => Reception([], Cancelled)
    case Attempted(a, next) =>
      if IsBreak(a) then Reception([a], Broken)
      else Before([a], Receive(line, next))
  }

  /** A C string in a buffer: what stands before the first NUL. */
  function UpToNul(s: seq<Octet>): (r: seq<Octet>)
    ensures |r| <= |s|
  {
    if s == [] || s[0] == 0 then [] else [s[0]] + UpToNul(s[1..])
  }

  lemma {:induction false} UpToNulAt(s: seq<Octet>, t: seq<Octet>, rest: seq<Octet>)
    requires s == t + [0] + rest && forall i :: 0 <= i < |t| ==> t[i] != 0
    ensures UpToNul(s) == t
  {
    if t != [] {
      assert s[0] == t[0];
      assert s[1..] == t[1..] + [0] + rest;
      UpToNulAt(s[1..], t[1..], rest);
    }
  }

  /** The string in a finished packet buffer; a NUL end of line ends it early. */
  lemma {:induction false} BufferString(buf: seq<Octet>, t: seq<Octet>, eol: Octet, rest: seq<Octet>)
    requires buf == t + [eol, 0] + rest && forall i :: 0 <= i < |t| ==> t[i] != 0
    ensures UpToNul(buf) == t + if eol == 0 then [] else [eol]
  {
    hide UpToNul;
    if eol == 0 {
      assert buf == t + [0] + ([0] + rest);
      UpToNulAt(buf, t, [0] + rest);
    } else {
      assert buf == (t + [eol]) + [0] + rest;
      UpToNulAt(buf, t + [eol], rest);
    }
  }

  lemma JoinWire(p: seq<Octet>, body: seq<Octet>, e: seq<Octet>)
    ensures p + (([START_CHAR] + body) + e) == p + [START_CHAR] + body + e
  {
  }

  /** What a finished packet buffer puts on the line. */
  lemma {:induction false} FinishedBuffer(buf: seq<Octet>, head: seq<Octet>, check: nat, s: Settings, rest: seq<Octet>)
    requires check == (Sum(head) + Sum(head) / 64 % 4) % 64 && forall i :: 0 <= i < |head| ==> head[i] != 0
    requires buf == [START_CHAR] + head + [ToChar(check), s.eol, 0] + rest
    ensures Pads(s.padCount, s.padChar) + UpToNul(buf) == Wire(s, head + [Check(Sum(head))])
  {
    assert ToChar(check) == Check(Sum(head));
    CheckPrintable(Sum(head));
    hide Check, Sum, ToChar, UpToNul, Pads;
    var body, e := head + [ToChar(check)], if s.eol == 0 then [] else [s.eol];
    assert buf == ([START_CHAR] + body) + [s.eol, 0] + rest;
    BufferString(buf, [START_CHAR] + body, s.eol, rest);
    JoinWire(Pads(s.padCount, s.padChar), body, e);
  }

  lemma SumNothing()
    ensures Sum([]) == 0
  {
  }

  /** A walk over a C string that has passed i characters. */
  ghost predicate Walked(s: seq<Octet>, i: nat) {
    i <= |s| && UpToNul(s) == s[..i] + UpToNul(s[i..])
  }

  lemma {:induction false} UpToNulUnfolds(t: seq<Octet>)
    ensures UpToNul(t) == if t == [] || t[0] == 0 then [] else [t[0]] + UpToNul(t[1..])
  {
  }

  lemma WalkOn(s: seq<Octet>, i: nat)
    requires Walked(s, i) && i < |s| && s[i] != 0
    ensures Walked(s, i + 1)
  {
    hide UpToNul;
    var rest := UpToNul(s[i + 1..]);
    UpToNulUnfolds(s[i..]);
    assert s[i..][0] == s[i] && s[i..][1..] == s[i + 1..];
    assert s[..i + 1] == s[..i] + [s[i]];
    assert s[..i] + ([s[i]] + rest) == (s[..i] + [s[i]]) + rest;
  }

  lemma {:induction false} WalkEnds(s: seq<Octet>, i: nat)
    requires Walked(s, i) && (i == |s| || s[i] == 0)
    ensures UpToNul(s) == s[..i]
  {
    hide UpToNul;
    UpToNulUnfolds(s[i..]);
  }

  lemma WalkStart(s: seq<Octet>)
    ensures Walked(s, 0)
  {
    assert s[0..] == s;
  }

  /** How taking a packet went: the line ran dry, the packet is spoiled, or it is in order. */
  datatype Status = Blocked | Bad | Fine

  class Receiver {
    const line: seq<Octet>         // what arrives on the serial line
    var pos: nat                   // characters taken from it
    var sent: seq<Octet>           // characters put on it
    var ram: seq<Octet>            // memory from bin_start_address on, as far as ever written

    var osDataAddr: nat
    var osDataAddrSaved: nat
    var kDataEscape: bool
    var kDataEscapeSaved: bool
    var kState: Octet
    var kStateSaved: Octet
    var lastN: int
    var n: nat
    var done: bool

    var hisEol: Octet
    var hisPadCount: nat
    var hisPadChar: Octet
    var hisQuote: Octet
    const packet: array<Octet>     // a_b
    const sendParms: array<Octet>
    var sendPtr: nat

    ghost predicate Valid()
      reads this
    {
      && pos <= |line| && osDataAddrSaved <= osDataAddr <= |ram|
      && packet.Length == 24 && sendParms.Length == 20 && packet != sendParms
      && lastN < 224 && n < 224
    }

    ghost function Cur(): Image
      reads this
      requires osDataAddr <= |ram|
    {
      Image(ram[..osDataAddr], kDataEscape)
    }

    ghost function Saved(): Image
      reads this
      requires osDataAddrSaved <= |ram|
    {
      Image(ram[..osDataAddrSaved], kDataEscapeSaved)
    }

    ghost function Settled(): Settings
      reads this
    {
      Settings(hisEol, hisPadCount, hisPadChar, hisQuote)
    }

    /** The state of the protocol machine these fields stand for. */
    ghost function Abs(): Session
      reads this
      requires Valid()
    {
      Session(Cur(), Saved(), lastN, n, Settled(), sent, done)
    }

    constructor (line: seq<Octet>)
      ensures Valid() && this.line == line && pos == 0 && Abs() == START
      ensures fresh(packet) && fresh(sendParms)
    {
      this.line := line;
      pos, sent, ram := 0, [], [];
      osDataAddr, osDataAddrSaved, kDataEscape, kDataEscapeSaved := 0, 0, false, false;
      kState, kStateSaved, lastN, n, done := 0, 0, -1, 0, false;
      hisEol, hisPadCount, hisPadChar, hisQuote := END_CHAR, 0, 0, K_ESCAPE;
      packet := new Octet[24];
      sendParms := new Octet[20];
      sendPtr := 0;
    }

    // -----------------------------------------------------------------------
    // Data path and checkpoint

    /** bin_data_char: *os_data_addr++ = c */
    method BinDataChar(c: Octet)
      requires Valid()
      modifies this`ram, this`osDataAddr
      ensures Valid() && ram[..osDataAddr] == old(ram[..osDataAddr]) + [c]
      ensures osDataAddr == old(osDataAddr) + 1
    {
      ram := if osDataAddr < |ram| then ram[osDataAddr := c] else ram + [c];
      osDataAddr := osDataAddr + 1;
    }

    method KDataChar(c: Octet)
      requires Valid()
      modifies this`ram, this`osDataAddr, this`kDataEscape
      ensures Valid() && Cur() == Feed(old(Cur()), hisQuote, c) && Saved() == old(Saved())
    {
      ghost var kept := ram[..osDataAddr];
      if kDataEscape {
        BinDataChar(KTrans(c));
        kDataEscape := false;
      } else if c == hisQuote {
        kDataEscape := true;
      } else {
        BinDataChar(c);
      }
      assert kept[..osDataAddrSaved] == ram[..osDataAddr][..osDataAddrSaved];
      assert ram[..osDataAddr][..osDataAddrSaved] == ram[..osDataAddrSaved];
    }

    method KDataSave()
      requires Valid()
      modifies this`osDataAddrSaved, this`kDataEscapeSaved
      ensures Valid() && Cur() == old(Cur()) && Saved() == old(Cur())
    {
      kDataEscapeSaved := kDataEscape;
      osDataAddrSaved := osDataAddr;
    }

    method KDataRestore()
      requires Valid()
      modifies this`osDataAddr, this`kDataEscape
      ensures Valid() && Cur() == old(Saved()) && Saved() == old(Saved())
    {
      kDataEscape := kDataEscapeSaved;
      osDataAddr := osDataAddrSaved;
    }

    // -----------------------------------------------------------------------
    // Replies

    /** chk1 from the second character of the packet buffer */
    method Chk1() returns (check: nat)
      requires Valid()
      ensures check == (Sum(UpToNul(packet[1..])) + Sum(UpToNul(packet[1..])) / 64 % 4) % 64
    {
      hide Sum, UpToNul, Walked;
      ghost var s := packet[1..];
      var total: nat, i: nat := 0, 1;
      WalkStart(s);
      SumNothing();
      assert s[..0] == [];
      while i < 24 && packet[i] != 0
        invariant 1 <= i <= 24 && Walked(s, i - 1) && total == Sum(s[..i - 1])
      {
        WalkOn(s, i - 1);
        assert s[..i] == s[..i - 1] + [s[i - 1]];
        SumAppend(s[..i - 1], s[i - 1]);
        total := total + packet[i];
        i := i + 1;
      }
      WalkEnds(s, i - 1);
      return (total + total / 64 % 4) % 64;
    }

    /** s1_sendpacket: padding, then the packet buffer up to its NUL. */
    method SendPacket()
      requires Valid()
      modifies this`sent
      ensures Valid() && sent == old(sent) + Pads(hisPadCount, hisPadChar) + UpToNul(packet[..])
    {
      hide UpToNul, Walked;
      for count := 0 to hisPadCount
        invariant sent == old(sent) + Pads(count, hisPadChar)
        modifies this`sent
      {
        assert Pads(count + 1, hisPadChar) == Pads(count, hisPadChar) + [hisPadChar];
        sent := sent + [hisPadChar];
      }
      hide Pads;
      ghost var padded, s := sent, packet[..];
      var i := 0;
      WalkStart(s);
      while i < 24 && packet[i] != 0
        invariant 0 <= i <= 24 && Walked(s, i) && sent == padded + s[..i]
        modifies this`sent
      {
        WalkOn(s, i);
        assert s[..i + 1] == s[..i] + [s[i]];
        sent := sent + [packet[i]];
        i := i + 1;
      }
      WalkEnds(s, i);
    }

    /** Completes the buffer, which holds a packet up to its data, with check, end of line and NUL. */
    method Finish(length: nat, ghost head: seq<Octet>)
      requires Valid() && 3 <= length < 20 && packet[0] == START_CHAR && packet[1..length + 1] == head
      requires forall i :: 0 <= i < |head| ==> head[i] != 0
      modifies packet, this`sent
      ensures Valid()
      ensures sent == old(sent) + Wire(Settled(), head + [Check(Sum(head))])
    {
      hide Check, Sum, Wire, UpToNul, ToChar;
      packet[length + 1] := 0;
      assert packet[1..] == head + [0] + packet[length + 2..];
      UpToNulAt(packet[1..], head, packet[length + 2..]);
      var check := Chk1();
      packet[length + 1], packet[length + 2], packet[length + 3] := ToChar(check), hisEol, 0;
      assert packet[..] == [START_CHAR] + head + [ToChar(check), hisEol, 0] + packet[length + 4..];
      FinishedBuffer(packet[..], head, check, Settled(), packet[length + 4..]);
      SendPacket();
    }

    /** send_ack and send_nack */
    method SendReply(kind: Octet)
      requires Valid() && !Control(kind)
      modifies packet, this`sent
      ensures Valid() && sent == old(sent) + Wire(Settled(), Body(n, kind, []))
    {
      hide Wire, Check, Sum, ToChar, UnToChar;
      ToCharInverts(3);
      ToCharInverts(n);
      packet[0], packet[1], packet[2], packet[3] := START_CHAR, ToChar(3), ToChar(n), kind;
      ghost var head := [ToChar(3), ToChar(n), kind];
      assert packet[1..4] == head;
      assert head + [] == head;
      Finish(3, head);
    }

    // -----------------------------------------------------------------------
    // Parameters of a send-initiate packet

    /** The parameter buffer holds the characters of data, as far as it goes. */
    ghost predicate Collected(data: seq<Octet>)
      reads this, sendParms
    {
      && sendParms.Length == 20 && sendPtr == (if |data| < 19 then |data| else 19)
      && forall i :: 0 <= i < |data| && i < 19 ==> sendParms[i] == data[i]
    }

    /** *send_ptr++ = c, backing off at the end of the buffer */
    method StoreParm(c: Octet, ghost data: seq<Octet>)
      requires Valid() && Collected(data)
      modifies sendParms, this`sendPtr
      ensures Valid() && Collected(data + [c])
    {
      sendParms[sendPtr] := c;
      sendPtr := sendPtr + 1;
      if sendPtr >= 20 {
        sendPtr := sendPtr - 1;
      }
    }

    /** The packet buffer holds the first k items of the answer. */
    ghost predicate Offered(k: nat)
      reads packet
    {
      packet.Length == 24 && k <= 13 && packet[4..4 + k] == OfferItems(k)
    }

    /** a_b[++length] = c, for item k of the answer. */
    method PutOffer(length: nat, c: Octet, ghost k: nat) returns (length': nat)
      requires Valid() && length == 3 + k && k < 13 && Offered(k) && c == OfferItem(k)
      modifies packet
      ensures Valid() && length' == 3 + k + 1 && Offered(k + 1)
    {
      hide OfferItem;
      length' := length + 1;
      packet[length'] := c;
      assert packet[4..4 + k + 1] == packet[4..4 + k] + [c];
      assert OfferItems(k + 1) == OfferItems(k) + [OfferItem(k)];
    }

    /** The items after the ones that are taken over. */
    method PutTail(length0: nat, bytes: nat) returns (length: nat)
      requires Valid() && length0 == 9 && Offered(6) && 6 <= bytes <= 18
      modifies packet
      ensures Valid() && length == 3 + (if bytes >= 10 then 13 else bytes) && Offered(length - 3)
    {
      hide Offered;
      length := length0;
      if bytes == 6 { return; }
      length := PutOffer(length, 0x4E, 6);             // QBIN
      if bytes == 7 { return; }
      length := PutOffer(length, 0x31, 7);             // CHKT
      if bytes == 8 { return; }
      length := PutOffer(length, 0x4E, 8);             // REPT
      if bytes == 9 { return; }
      length := PutOffer(length, ToChar(2), 9);        // CAPAS
      length := PutOffer(length, ToChar(0), 10);
      length := PutOffer(length, ToChar(94), 11);
      length := PutOffer(length, ToChar(94), 12);
    }

    /** The items that are looked at, one after the other, until the parameters run out. */
    method TakeParms(ghost p: seq<Octet>, bytes: nat) returns (length: nat)
      requires Valid() && bytes == |p| <= 18 && (forall i :: 0 <= i < |p| ==> sendParms[i] == p[i])
      requires Settled() == DEFAULTS && Offered(0)
      modifies this`hisEol, this`hisPadCount, this`hisPadChar, this`hisQuote, packet
      ensures Valid() && Settled() == SettingsOf(p)
      ensures length == 3 + (if bytes >= 10 then 13 else bytes) && Offered(length - 3)
    {
      hide UnToChar, KTrans, Offered;
      length := 3;
      if bytes == 0 { return; }
      length := PutOffer(length, ToChar(94), 0);       // MAXL
      if bytes == 1 { return; }
      length := PutOffer(length, ToChar(1), 1);        // TIME
      if bytes == 2 { return; }
      hisPadCount := UnToChar(sendParms[2]);
      length := PutOffer(length, ToChar(0), 2);        // NPAD
      if bytes == 3 { return; }
      hisPadChar := KTrans(sendParms[3]);
      length := PutOffer(length, 0x40, 3);             // PADC
      if bytes == 4 { return; }
      hisEol := UnToChar(sendParms[4]);
      length := PutOffer(length, ToChar(END_CHAR), 4); // EOL
      if bytes == 5 { return; }
      hisQuote := sendParms[5];
      length := PutOffer(length, 0x23, 5);             // QCTL
      length := PutTail(length, bytes);
    }

    /** handle_send_packet: takes over what the sender asked for and answers item by item. */
    method HandleSendPacket(ghost data: seq<Octet>)
      requires Valid() && Collected(data)
      modifies this`hisEol, this`hisPadCount, this`hisPadChar, this`hisQuote, this`sendPtr, this`sent, packet
      ensures Valid() && Settled() == Negotiated(data)
      ensures sent == old(sent) + Wire(Negotiated(data), Body(n, ACK_TYPE, Offer(data)))
    {
      hide Wire, Body, SettingsOf;
      hisEol, hisPadCount, hisPadChar, hisQuote := END_CHAR, 0, 0, K_ESCAPE;
      if sendPtr == 19 {
        sendPtr := sendPtr - 1;
      }
      NoItems();
      assert packet[4..4] == [];
      var length := TakeParms(SendParms(data), sendPtr);
      SendOffer(length, data);
    }

    lemma HoldsOffer(length: nat, data: seq<Octet>)
      requires length == 3 + |Offer(data)| && length <= 16 && Offered(length - 3)
      ensures packet.Length == 24 && packet[4..length + 1] == Offer(data)
    {
    }

    /** The rest of the answer: header, check and end of line around the items. */
    method SendOffer(length: nat, ghost data: seq<Octet>)
      requires Valid() && length == 3 + |Offer(data)| && length <= 16 && Offered(length - 3)
      modifies packet, this`sent
      ensures Valid() && sent == old(sent) + Wire(Settled(), Body(n, ACK_TYPE, Offer(data)))
    {
      hide Wire, ToChar, Check, Sum, Offer, Offered;
      ghost var offer := Offer(data);
      OfferPrintable(data);
      HoldsOffer(length, data);
      ToCharInverts(length);
      ToCharInverts(n);
      packet[0], packet[1], packet[2], packet[3] := START_CHAR, ToChar(length), ToChar(n), ACK_TYPE;
      ghost var head := [ToChar(|offer| + 3), ToChar(n), ACK_TYPE] + offer;
      assert packet[1..length + 1] == packet[1..4] + packet[4..length + 1] == head;
      Finish(length, head);
    }

    // -----------------------------------------------------------------------
    // One packet

    /** What is known once a packet has been taken from the line: how it ended, whether the buffered
        parameters and the delivered data are those of the packet. */
    ghost predicate Took(p: Parsed, st: Status, base: Image)
      reads this, sendParms
      requires osDataAddr <= |ram|
    {
      match p
      case Starved => st == Blocked
      case Aborted(_) => false
      case Attempted(a, next) =>
        && pos == next
        && match a
           case HeaderBad => false
           case Failed(m) => st == Bad && m == n
           case Accepted(m, kind, data) =>
             && st == Fine && m == n && kind == kState
             && Cur() == (if kind == DATA_TYPE then FeedAll(base, hisQuote, data) else base)
             && (kind == SEND_TYPE ==> Collected(data))
    }

    /** The data characters, then the block check and the end of line. */
    method TakeBody(sum0: nat, length0: int) returns (st: Status)
      requires Valid() && Collected([])
      modifies this`pos, this`ram, this`osDataAddr, this`kDataEscape, this`sendPtr, sendParms
      ensures Valid() && Saved() == old(Saved())
      ensures Took(ParseBody(line, n, kState, sum0, length0, old(pos), []), st, old(Cur()))
    {
      hide Check, FeedAll, Feed;
      ghost var base := Cur();
      ghost var data: seq<Octet> := [];
      FeedNothing(base, hisQuote);
      var sum: nat, length: int := sum0, length0;
      while length > 1
        invariant Valid() && Saved() == old(Saved())
        invariant Cur() == (if kState == DATA_TYPE then FeedAll(base, hisQuote, data) else base)
        invariant kState == SEND_TYPE ==> Collected(data)
        invariant ParseBody(line, n, kState, sum0, length0, old(pos), [])
               == ParseBody(line, n, kState, sum, length, pos, data)
        modifies this`pos, this`ram, this`osDataAddr, this`kDataEscape, this`sendPtr, sendParms
      {
        if pos == |line| { return Blocked; }
        var c := line[pos];
        pos := pos + 1;
        if Control(c) { return Bad; }
        sum, length := sum + c as int, length - 1;
        FeedOne(base, hisQuote, data, c);
        if kState == DATA_TYPE {
          KDataChar(c);
        } else if kState == SEND_TYPE {
          StoreParm(c, data);
        }
        data := data + [c];
      }
      st := TakeEnd(sum, data);
    }

    method TakeEnd(sum: nat, ghost data: seq<Octet>) returns (st: Status)
      requires Valid()
      modifies this`pos
      ensures Valid()
      ensures match ParseBody(line, n, kState, sum, 1, old(pos), data)
        case Starved => st == Blocked
        case Aborted(_) => false
        case Attempted(a, next) => pos == next && a == (if st == Fine then Accepted(n, kState, data) else Failed(n)) && st != Blocked
    {
      hide Check;
      if pos == |line| { return Blocked; }
      var c := line[pos];
      pos := pos + 1;
      if Control(c) || c != Check(sum) { return Bad; }
      if pos == |line| { return Blocked; }
      c := line[pos];
      pos := pos + 1;
      return if c == END_CHAR then Fine else Bad;
    }

    /** The length characters and header check of a long packet. */
    method TakeLong(sum0: nat) returns (st: Status, sum: nat, length: int)
      requires Valid()
      modifies this`pos
      ensures Valid()
      ensures match ParseLong(line, n, kState, sum0, old(pos))
        case Starved => st == Blocked || (st == Fine && ParseBody(line, n, kState, sum, length, pos, []).Starved?)
        case Aborted(_) => false
        case Attempted(a, next) =>
          (st == Bad && a == Failed(n) && pos == next)
          || (st == Fine && ParseBody(line, n, kState, sum, length, pos, []) == Attempted(a, next))
    {
      hide Check, ParseBody, UnToChar;
      sum, length := sum0, 0;
      if pos == |line| { return Blocked, sum, length; }
      var hi := line[pos];
      pos := pos + 1;
      if Control(hi) { return Bad, sum, length; }
      if pos == |line| { return Blocked, sum, length; }
      var lo := line[pos];
      pos := pos + 1;
      if Control(lo) { return Bad, sum, length; }
      sum, length := sum0 + hi as int + lo as int, UnToChar(hi) * 95 + UnToChar(lo);
      if pos == |line| { return Blocked, sum, length; }
      var c := line[pos];
      pos := pos + 1;
      if Control(c) || c != Check(sum) { return Bad, sum, length; }
      sum := sum + c as int;
      st := Fine;
    }

    /** Everything after the sequence character. */
    method TakeRest(lenChar: Octet, sum0: nat) returns (st: Status)
      requires Valid() && Collected([])
      modifies this`pos, this`kState, this`ram, this`osDataAddr, this`kDataEscape, this`sendPtr, sendParms
      ensures Valid() && Saved() == old(Saved())
      ensures Took(ParseType(line, n, lenChar, sum0, old(pos)), st, old(Cur()))
    {
      hide Check, ParseBody, ParseLong, UnToChar, FeedAll;
      if pos == |line| { return Blocked; }
      var c := line[pos];
      pos := pos + 1;
      if Control(c) { return Bad; }
      kState := c;
      var sum: nat, length: int := sum0 + c as int, UnToChar(lenChar) - 2;
      if length == -2 {
        st, sum, length := TakeLong(sum);
        if st != Fine { return; }
      }
      st := TakeBody(sum, length);
    }

    /** From START to the end of line of a packet. */
    method TakePacket() returns (st: Status)
      requires Valid() && Collected([])
      modifies this`pos, this`n, this`lastN, this`kState, this`kStateSaved, this`ram, this`osDataAddr, this`osDataAddrSaved,
        this`kDataEscape, this`kDataEscapeSaved, this`sendPtr, sendParms
      ensures Valid()
      ensures match ParsePacket(line, old(pos))
        case Starved => st == Blocked
        case Aborted(_) => false
        case Attempted(a, next) =>
          var base := if a.HeaderBad? then old(Saved()) else Base(old(Abs()), a.n);
          && pos == next && st == (if a.Accepted? then Fine else Bad) && Saved() == base
          && (a.HeaderBad? ==> n == old(n) && lastN == old(lastN))
          && (!a.HeaderBad? ==> n == lastN == a.n)
          && (a.Accepted? ==>
                && kState == a.kind && (a.kind == SEND_TYPE ==> Collected(a.data))
                && Cur() == if a.kind == DATA_TYPE then FeedAll(base, hisQuote, a.data) else base)
    {
      hide ParseType, FeedAll, UnToChar;
      ghost var s := Abs();
      if pos == |line| { return Blocked; }
      var lenChar := line[pos];
      pos := pos + 1;
      if Control(lenChar) { return Bad; }
      if pos == |line| { return Blocked; }
      var c := line[pos];
      pos := pos + 1;
      if Control(c) { return Bad; }
      UnToCharBound(c);
      n := UnToChar(c);
      if n == lastN {
        kState := kStateSaved;
        KDataRestore();
      } else {
        lastN := n;
        kStateSaved := kState;
        KDataSave();
      }
      assert Cur() == Saved() == Base(s, n);
      st := TakeRest(lenChar, lenChar as int + c as int);
    }

    /** What k_recv does from START to the end of its loop body. */
    method ReceivePacket() returns (blocked: bool)
      requires Valid() && Collected([]) && !done
      modifies this, packet, sendParms
      ensures Valid()
      ensures match ParsePacket(line, old(pos))
        case Starved => blocked && sent == old(sent) && Settled() == old(Settled())
        case Aborted(_) => false
        case Attempted(a, next) => !blocked && pos == next && Abs() == Step(old(Abs()), a)
    {
      hide ParsePacket, FeedAll, Wire, Body, Negotiated, Offer;
      var st := TakePacket();
      blocked := st == Blocked;
      if st == Bad {
        kState := kStateSaved;
        KDataRestore();
        SendReply(NACK_TYPE);
      } else if st == Fine && kState == SEND_TYPE {
        HandleSendPacket(ParsePacket(line, old(pos)).a.data);
      } else if st == Fine {
        SendReply(ACK_TYPE);
        if kState == BREAK_TYPE { done := true; }
      }
    }

    /** Waits for the start of a packet or a ^C. */
    method AwaitStart() returns (c: Octet, dry: bool)
      requires Valid()
      modifies this`pos
      ensures Valid()
      ensures match Parse(line, old(pos))
        case Starved => dry || (c == START_CHAR && ParsePacket(line, pos) == Starved)
        case Aborted(_) => !dry && c == ETX_CHAR
        case Attempted(a, next) => !dry && c == START_CHAR && ParsePacket(line, pos) == Attempted(a, next)
    {
      hide ParsePacket;
      while pos < |line| && line[pos] != START_CHAR && line[pos] != ETX_CHAR
        invariant old(pos) <= pos <= |line| && Parse(line, pos) == Parse(line, old(pos))
        modifies this`pos
      {
        pos := pos + 1;
      }
      if pos == |line| { return 0, true; }
      c, dry := line[pos], false;
      pos := pos + 1;
    }

    /** k_recv. The result is how the reception ended, and the size it returns. */
    method KRecv() returns (end: End, size: nat)
      requires Valid() && pos == 0 && Abs() == START
      modifies this, packet, sendParms
      ensures Valid() && end == Receive(line, 0).end
      ensures sent == Run(Receive(line, 0).atts).sent && Settled() == Run(Receive(line, 0).atts).settings
      ensures end != Starving ==> Abs() == Run(Receive(line, 0).atts)
      ensures size == if end == Broken then osDataAddr else 0
    {
      hide Step, ParsePacket, Parse, Receive, Run;
      ghost var atts: seq<Attempt> := [];
      RunNothing();
      while !done
        invariant Valid() && Abs() == Run(atts)
        invariant Receive(line, 0) == if done then Reception(atts, Broken) else Before(atts, Receive(line, pos))
        decreases |line| - pos, !done
        modifies this, packet, sendParms
      {
        sendPtr := 0;
        ghost var p := Parse(line, pos);
        ReceiveUnfolds(line, pos);
        var c, dry := AwaitStart();
        assert atts + [] == atts;
        if dry { return Starving, 0; }
        if c == ETX_CHAR { return Cancelled, 0; }
        var blocked := ReceivePacket();
        if blocked { return Starving, 0; }
        RunOn(atts, p.a);
        StepDone(Run(atts), p.a);
        atts := atts + [p.a];
      }
      return Broken, osDataAddr;
    }
  }

  // -------------------------------------------------------------------------
  // Lines that carry packets

  /** Characters that are passed over between packets. */
  predicate Idle(s: seq<Octet>) {
    forall i :: 0 <= i < |s| ==> s[i] != START_CHAR && s[i] != ETX_CHAR
  }

  lemma {:induction false} IdleSkipped(line: seq<Octet>, pos: nat, k: nat)
    requires pos + k <= |line| && Idle(line[pos..pos + k])
    ensures Parse(line, pos) == Parse(line, pos + k)
    decreases k
  {
    hide ParsePacket;
    if k > 0 {
      assert line[pos] == line[pos..pos + k][0];
      assert line[pos + 1..pos + k] == line[pos..pos + k][1..];
      IdleSkipped(line, pos + 1, k - 1);
    }
  }

  /** A packet on the line, after some idle characters. */
  datatype Framed = Framed(idle: seq<Octet>, n: nat, kind: Octet, data: seq<Octet>)

  predicate Proper(f: Framed) {
    Idle(f.idle) && Sendable(f.n, f.kind, f.data)
  }

  function AttemptOf(f: Framed): Attempt {
    Accepted(f.n, f.kind, f.data)
  }

  function Chars(f: Framed): seq<Octet> {
    f.idle + Frame(f.n, f.kind, f.data)
  }

  function LineOf(fs: seq<Framed>): seq<Octet> {
    if fs == [] then [] else Chars(fs[0]) + LineOf(fs[1..])
  }

  function AttemptsOf(fs: seq<Framed>): (r: seq<Attempt>)
    ensures |r| == |fs|
  {
    if fs == [] then [] else [AttemptOf(fs[0])] + AttemptsOf(fs[1..])
  }

  lemma {:induction false} FramedParses(f: Framed, line: seq<Octet>, pos: nat)
    requires Proper(f) && pos + |Chars(f)| <= |line| && line[pos..pos + |Chars(f)|] == Chars(f)
    ensures Parse(line, pos) == Attempted(AttemptOf(f), pos + |Chars(f)|)
  {
    hide Frame, Parse;
    SubrangeAt(line, pos, Chars(f));
    var k := |f.idle|;
    assert line[pos + 0..pos + k] == Chars(f)[0..k] == f.idle;
    IdleSkipped(line, pos, k);
    assert line[pos + k..pos + |Chars(f)|] == Chars(f)[k..|Chars(f)|] == Frame(f.n, f.kind, f.data);
    FrameParses(line, pos + k, f.n, f.kind, f.data);
  }

  /** Packets framed one after the other, the last of them a break, are received as just those
      packets, whatever their kinds and lengths and whatever idle characters stand between. */
  lemma {:induction false} LineReceived(fs: seq<Framed>, line: seq<Octet>, pos: nat)
    requires fs != [] && forall i :: 0 <= i < |fs| ==> Proper(fs[i]) && (fs[i].kind == BREAK_TYPE <==> i == |fs| - 1)
    requires pos <= |line| && line[pos..] == LineOf(fs)
    ensures Receive(line, pos) == Reception(AttemptsOf(fs), Broken)
    decreases fs
  {
    hide Parse, Chars, Proper;
    var c, rest := Chars(fs[0]), LineOf(fs[1..]);
    assert line[pos..] == c + rest;
    assert line[pos..pos + |c|] == line[pos..][..|c|] == c;
    assert line[pos + |c|..] == line[pos..][|c|..] == rest;
    FramedParses(fs[0], line, pos);
    if |fs| == 1 {
      assert fs[1..] == [];
    } else {
      LineReceived(fs[1..], line, pos + |c|);
    }
  }

  /** One flipped bit in a sequence character makes a packet show another number: packet 1 read as
      packet 0. The check finds the error, but only after the number was used. */
  lemma NumberMistaken()
    ensures var line := [START_CHAR, 0x24, 0x21, DATA_TYPE, 0x42, 0x2E, END_CHAR];
      && line == Frame(1, DATA_TYPE, [0x42])
      && Parse(line[2 := 0x20], 0) == Attempted(Failed(0), 6)
  {
    var b := [0x24, 0x21, DATA_TYPE];
    SumOf3(0x24, 0x21, DATA_TYPE);
    SumAppend(b, 0x42);
    assert b + [0x42] == [0x24, 0x21, DATA_TYPE, 0x42];
    hide Sum, Parse, ParseBody;
    assert Body(1, DATA_TYPE, [0x42]) == [0x24, 0x21, DATA_TYPE, 0x42, 0x2E];
    MistakenParses();
  }

  lemma MistakenParses()
    ensures Parse([START_CHAR, 0x24, 0x20, DATA_TYPE, 0x42, 0x2E, END_CHAR], 0) == Attempted(Failed(0), 6)
  {
    var line := [START_CHAR, 0x24, 0x20, DATA_TYPE, 0x42, 0x2E, END_CHAR];
    assert ParseBody(line, 0, DATA_TYPE, 0xCA, 1, 5, [0x42]) == Attempted(Failed(0), 6);
    assert ParseBody(line, 0, DATA_TYPE, 0x88, 2, 4, []) == Attempted(Failed(0), 6);
    hide ParseBody;
    assert ParseType(line, 0, 0x24, 0x44, 3) == ParseBody(line, 0, DATA_TYPE, 0x88, 2, 4, []);
  }

  lemma PadsIdle(count: nat, c: Octet)
    requires c != START_CHAR && c != ETX_CHAR
    ensures Idle(Pads(count, c))
  {
  }

  /** Every reply, whatever padding was asked for, passes the receiver's own length and check tests,
      provided the end of line is the one this receiver wants and padding does not look like the
      start of a packet. */
  lemma ReplyAccepted(s: Settings, n: nat, kind: Octet, data: seq<Octet>, parms: seq<Octet>)
    requires s.eol == END_CHAR && s.padChar != START_CHAR && s.padChar != ETX_CHAR
    requires n < 224 && (kind == ACK_TYPE || kind == NACK_TYPE) && (data == [] || data == Offer(parms))
    ensures var w := Wire(s, Body(n, kind, data)); Parse(w, 0) == Attempted(Accepted(n, kind, data), |w|)
  {
    OfferPrintable(parms);
    assert Sendable(n, kind, data);
    hide Offer, Sendable;
    PadsIdle(s.padCount, s.padChar);
    hide Body, Pads, Parse, Idle;
    var f := Framed(Pads(s.padCount, s.padChar), n, kind, data);
    WireIsFramed(s, f);
    FramedWhole(f);
  }

  lemma WireIsFramed(s: Settings, f: Framed)
    requires s.eol == END_CHAR && f.idle == Pads(s.padCount, s.padChar)
    ensures Wire(s, Body(f.n, f.kind, f.data)) == Chars(f)
  {
    hide Body, Pads;
  }

  lemma FramedWhole(f: Framed)
    requires Proper(f)
    ensures Parse(Chars(f), 0) == Attempted(AttemptOf(f), |Chars(f)|)
  {
    hide Parse, Frame;
    assert Chars(f)[0..0 + |Chars(f)|] == Chars(f);
    FramedParses(f, Chars(f), 0);
  }

  lemma RunNothing()
    ensures Run([]) == START
  {
  }

  lemma StepDone(s: Session, a: Attempt)
    requires !s.done
    ensures Step(s, a).done == IsBreak(a)
  {
    hide Wire, Body, FeedAll, Negotiated, Offer;
  }

  lemma {:induction false} ReceiveUnfolds(line: seq<Octet>, pos: nat)
    requires pos <= |line|
    ensures Receive(line, pos) == match Parse(line, pos)
      case Starved => Reception([], Starving)
      case Aborted(_) => Reception([], Cancelled)
      case Attempted(a, next) => if IsBreak(a) then Reception([a], Broken) else Before([a], Receive(line, next))
  {
  }

  lemma UnToCharBound(c: Octet)
    requires !Control(c)
    ensures 0 <= UnToChar(c) < 224
  {
  }

  lemma {:induction false} RunOn(atts: seq<Attempt>, a: Attempt)
    ensures Run(atts + [a]) == Step(Run(atts), a)
  {
    assert (atts + [a])[..|atts|] == atts;
  }

  lemma {:induction false} FeedNothing(m: Image, quote: Octet)
    ensures FeedAll(m, quote, []) == m
  {
  }

  lemma {:induction false} FeedOne(m: Image, quote: Octet, data: seq<Octet>, c: Octet)
    ensures FeedAll(m, quote, data + [c]) == Feed(FeedAll(m, quote, data), quote, c)
  {
    assert (data + [c])[..|data|] == data;
  }
  lemma NoItems()
    ensures OfferItems(0) == []
  {
  }

  lemma OfferPrintable(data: seq<Octet>)
    ensures |Offer(data)| <= 13 && forall i :: 0 <= i < |Offer(data)| ==> !Control(Offer(data)[i])
  {
  }
}
