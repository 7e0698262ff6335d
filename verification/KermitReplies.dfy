/** What the receiver answers: the line it sends back, read by a receiver of the same kind, carries one
    reply for each attempt. */
module KermitReplies {
  import opened Words
  import opened KermitCodec
  import opened KermitProtocol
  import opened KermitReceiver

  // -------------------------------------------------------------------------
  // One reply for each attempt

  /** The last number that was shown. */
  function NumberShown(atts: seq<Attempt>): nat {
    if atts == [] then 0
    else if atts[|atts| - 1].HeaderBad? then NumberShown(atts[..|atts| - 1])
    else atts[|atts| - 1].n
  }

  /** The settings of the last parameter packet that was accepted. */
  function SettingsIn(atts: seq<Attempt>): Settings {
    if atts == [] then DEFAULTS
    else
      var a := atts[|atts| - 1];
      if a.Accepted? && a.kind == SEND_TYPE then Negotiated(a.data) else SettingsIn(atts[..|atts| - 1])
  }

  /** The reply to the last of some attempts. */
  function ReplyTo(atts: seq<Attempt>): (r: Attempt)
    requires atts != []
    ensures r.Accepted?
  {
    var a := atts[|atts| - 1];
    Accepted(NumberShown(atts), if a.Accepted? then ACK_TYPE else NACK_TYPE,
             if a.Accepted? && a.kind == SEND_TYPE then Offer(a.data) else [])
  }

  /** The reply as a packet on the line, behind the padding asked for. */
  function FramedReply(atts: seq<Attempt>): Framed
    requires atts != []
  {
    var r, s := ReplyTo(atts), SettingsIn(atts);
    Framed(Pads(s.padCount, s.padChar), r.n, r.kind, r.data)
  }

  function FramedReplies(atts: seq<Attempt>, k: nat): (r: seq<Framed>)
    requires k <= |atts|
    ensures |r| == k
  {
    if k == 0 then [] else FramedReplies(atts, k - 1) + [FramedReply(atts[..k])]
  }

  /** Replies sent this way end as this receiver wants packets to end, and their padding does not look
      like the start of a packet. */
  predicate Readable(s: Settings) {
    s.eol == END_CHAR && s.padChar != START_CHAR && s.padChar != ETX_CHAR
  }

  lemma StepReplies(s: Session, a: Attempt)
    ensures var t, n := Step(s, a), if a.HeaderBad? then s.n else a.n;
      && t.n == n
      && t.settings == (if a.Accepted? && a.kind == SEND_TYPE then Negotiated(a.data) else s.settings)
      && t.sent == s.sent + Wire(t.settings, Body(n, if a.Accepted? then ACK_TYPE else NACK_TYPE,
                                                  if a.Accepted? && a.kind == SEND_TYPE then Offer(a.data) else []))
  {
    hide Wire, Body, FeedAll, Negotiated, Offer, Base;
  }

  lemma {:induction false} RunShows(atts: seq<Attempt>)
    ensures Run(atts).n == NumberShown(atts) && Run(atts).settings == SettingsIn(atts)
  {
    hide Step;
    if atts != [] {
      RunShows(atts[..|atts| - 1]);
      StepReplies(Run(atts[..|atts| - 1]), atts[|atts| - 1]);
    }
  }

  /** Each attempt puts just its reply on the line, in the form the settings ask for. */
  lemma ReplyOn(atts: seq<Attempt>)
    requires atts != []
    ensures var r := ReplyTo(atts);
      Run(atts).sent == Run(atts[..|atts| - 1]).sent + Wire(SettingsIn(atts), Body(r.n, r.kind, r.data))
  {
    hide Run, Step, Body, Wire, Offer, NumberShown, SettingsIn;
    var before := atts[..|atts| - 1];
    RunShows(atts);
    RunShows(before);
    RunUnfolds(atts);
    StepReplies(Run(before), atts[|atts| - 1]);
  }

  lemma {:induction false} RunUnfolds(atts: seq<Attempt>)
    requires atts != []
    ensures Run(atts) == Step(Run(atts[..|atts| - 1]), atts[|atts| - 1])
  {
  }

  lemma {:induction false} LineAppend(fs: seq<Framed>, f: Framed)
    ensures LineOf(fs + [f]) == LineOf(fs) + Chars(f)
  {
    hide Chars;
    if fs == [] {
      assert [f][1..] == [] && Chars(f) + [] == Chars(f);
    } else {
      assert (fs + [f])[1..] == fs[1..] + [f];
      LineAppend(fs[1..], f);
    }
  }

  /** The line sent back is the replies, one after the other. */
  lemma {:induction false} RepliesSent(atts: seq<Attempt>, k: nat)
    requires k <= |atts| && forall i :: 0 < i <= |atts| ==> Readable(SettingsIn(atts[..i]))
    ensures Run(atts[..k]).sent == LineOf(FramedReplies(atts, k))
  {
    hide Chars, FramedReply, SettingsIn, Wire, Body, Run;
    if k > 0 {
      RepliesSent(atts, k - 1);
      assert atts[..k][..k - 1] == atts[..k - 1];
      ReplyOn(atts[..k]);
      FramedOnWire(atts[..k]);
      LineAppend(FramedReplies(atts, k - 1), FramedReply(atts[..k]));
    } else {
      NothingSent();
    }
  }

  lemma NothingSent()
    ensures Run([]).sent == [] && LineOf([]) == []
  {
  }

  lemma FramedOnWire(atts: seq<Attempt>)
    requires atts != [] && Readable(SettingsIn(atts))
    ensures var r := ReplyTo(atts); Wire(SettingsIn(atts), Body(r.n, r.kind, r.data)) == Chars(FramedReply(atts))
  {
    hide Wire, Body, Chars, SettingsIn;
    WireIsFramed(SettingsIn(atts), FramedReply(atts));
  }

  // -------------------------------------------------------------------------
  // Read back

  /** Packets framed one after the other, none of them a break, are received before what follows them. */
  lemma {:induction false} PacketsFirst(fs: seq<Framed>, tail: seq<Octet>, line: seq<Octet>, pos: nat)
    requires forall i :: 0 <= i < |fs| ==> Proper(fs[i]) && fs[i].kind != BREAK_TYPE
    requires pos <= |line| && line[pos..] == LineOf(fs) + tail
    ensures |tail| <= |line| && Receive(line, pos) == Before(AttemptsOf(fs), Receive(line, |line| - |tail|))
    decreases fs
  {
    hide Parse, Chars, Proper;
    if fs == [] {
      assert LineOf(fs) + tail == tail;
      assert [] + Receive(line, pos).atts == Receive(line, pos).atts;
    } else {
      var c, rest := Chars(fs[0]), LineOf(fs[1..]);
      assert line[pos..] == c + (rest + tail);
      assert line[pos..pos + |c|] == line[pos..][..|c|] == c;
      assert line[pos + |c|..] == line[pos..][|c|..] == rest + tail;
      FramedParses(fs[0], line, pos);
      PacketsFirst(fs[1..], tail, line, pos + |c|);
    }
  }

  /** Up to the end of the line. */
  lemma PacketsReceived(fs: seq<Framed>, line: seq<Octet>)
    requires forall i :: 0 <= i < |fs| ==> Proper(fs[i]) && fs[i].kind != BREAK_TYPE
    requires line == LineOf(fs)
    ensures Receive(line, 0) == Reception(AttemptsOf(fs), Starving)
  {
    hide Receive, Proper, LineOf, AttemptsOf;
    assert line[0..] == line == LineOf(fs) + [];
    PacketsFirst(fs, [], line, 0);
    NothingLeft(line);
    assert AttemptsOf(fs) + [] == AttemptsOf(fs);
  }

  lemma {:induction false} NothingLeft(line: seq<Octet>)
    ensures Receive(line, |line|) == Reception([], Starving)
  {
  }

  /** A ^C between packets, whatever idle characters are before it, ends the reception there. */
  lemma CancelledBetween(fs: seq<Framed>, idle: seq<Octet>, more: seq<Octet>, line: seq<Octet>)
    requires forall i :: 0 <= i < |fs| ==> Proper(fs[i]) && fs[i].kind != BREAK_TYPE
    requires line == LineOf(fs) + (idle + [0x03] + more) && Idle(idle)
    ensures Receive(line, 0) == Reception(AttemptsOf(fs), Cancelled)
  {
    hide Receive, Proper, Parse, Idle, LineOf, AttemptsOf;
    var tail := idle + [0x03] + more;
    var pos := |line| - |tail|;
    assert line[0..] == line;
    PacketsFirst(fs, tail, line, 0);
    assert line[pos..] == tail;
    assert line[pos..pos + |idle|] == tail[..|idle|] == idle;
    assert line[pos + |idle|] == tail[|idle|] == 0x03;
    IdleSkipped(line, pos, |idle|);
    CancelHere(line, pos, pos + |idle|);
    assert AttemptsOf(fs) + [] == AttemptsOf(fs);
  }

  /** A break packet, octet by octet. */
  lemma {:induction false} BreakOnLine()
    ensures Receive([0x01, 0x23, 0x20, 0x42, 0x27, 0x0D], 0) == Reception([Accepted(0, 0x42, [])], Broken)
  {
    var line := [0x01, 0x23, 0x20, 0x42, 0x27, 0x0D];
    assert ParseBody(line, 0, 0x42, 0x85, 1, 4, []) == Attempted(Accepted(0, 0x42, []), 6);
    assert Parse(line, 0) == Attempted(Accepted(0, 0x42, []), 6);
  }

  lemma {:induction false} CancelHere(line: seq<Octet>, pos: nat, k: nat)
    requires pos <= k < |line| && Parse(line, pos) == Parse(line, k) && line[k] == 0x03
    ensures Receive(line, pos) == Reception([], Cancelled)
  {
  }

  lemma ReplyIsProper(atts: seq<Attempt>)
    requires atts != [] && Readable(SettingsIn(atts)) && NumberShown(atts) < 224
    ensures Proper(FramedReply(atts)) && FramedReply(atts).kind != BREAK_TYPE
    ensures AttemptOf(FramedReply(atts)) == ReplyTo(atts)
  {
    hide NumberShown, SettingsIn, Offer;
    var s, a := SettingsIn(atts), atts[|atts| - 1];
    PadsIdle(s.padCount, s.padChar);
    if a.Accepted? { OfferPrintable(a.data); }
  }

  lemma {:induction false} ShownInRange(atts: seq<Attempt>)
    requires forall i :: 0 <= i < |atts| && !atts[i].HeaderBad? ==> atts[i].n < 224
    ensures NumberShown(atts) < 224
  {
    if atts != [] { ShownInRange(atts[..|atts| - 1]); }
  }

  lemma {:induction false} AttemptsAt(fs: seq<Framed>, i: nat)
    requires i < |fs|
    ensures AttemptsOf(fs)[i] == AttemptOf(fs[i])
  {
    if i > 0 { AttemptsAt(fs[1..], i - 1); }
  }

  lemma {:induction false} FramedAt(atts: seq<Attempt>, k: nat, i: nat)
    requires i < k <= |atts|
    ensures FramedReplies(atts, k)[i] == FramedReply(atts[..i + 1])
  {
    hide FramedReply;
    if i < k - 1 { FramedAt(atts, k - 1, i); }
  }

  /** The line sent back is read as the replies. */
  lemma RepliesAre(atts: seq<Attempt>)
    requires forall i :: 0 < i <= |atts| ==> Readable(SettingsIn(atts[..i]))
    requires forall i :: 0 <= i < |atts| && !atts[i].HeaderBad? ==> atts[i].n < 224
    ensures Receive(Run(atts).sent, 0) == Reception(AttemptsOf(FramedReplies(atts, |atts|)), Starving)
    ensures forall i :: 0 <= i < |atts| ==> AttemptsOf(FramedReplies(atts, |atts|))[i] == ReplyTo(atts[..i + 1])
  {
    hide Readable, SettingsIn, Run, Receive, Proper, FramedReply, NumberShown, LineOf, ReplyTo;
    var fs, sent := FramedReplies(atts, |atts|), Run(atts).sent;
    RepliesSent(atts, |atts|);
    assert atts[..|atts|] == atts && sent[0..] == sent;
    forall i | 0 <= i < |atts|
      ensures Proper(fs[i]) && fs[i].kind != BREAK_TYPE && AttemptsOf(fs)[i] == ReplyTo(atts[..i + 1])
    {
      FramedAt(atts, |atts|, i);
      ShownInRange(atts[..i + 1]);
      ReplyIsProper(atts[..i + 1]);
      AttemptsAt(fs, i);
    }
    PacketsReceived(fs, sent);
  }

  lemma {:induction false} NumberOn(atts: seq<Attempt>, i: nat)
    requires i < |atts|
    ensures NumberShown(atts[..i + 1]) == if atts[i].HeaderBad? then NumberShown(atts[..i]) else atts[i].n
    ensures NumberShown(atts[..0]) == 0
  {
    assert atts[..i + 1][..i] == atts[..i];
  }

  /** What the replies are made of. */
  lemma AllFields(atts: seq<Attempt>)
    ensures forall i :: 0 <= i < |atts| ==>
      var r, a := ReplyTo(atts[..i + 1]), atts[i];
      && r.kind == (if a.Accepted? then 0x59 else 0x4E)
      && r.n == (if !a.HeaderBad? then a.n else if i > 0 then ReplyTo(atts[..i]).n else 0)
      && r.data == if a.Accepted? && a.kind == 0x53 then Offer(a.data) else []
  {
    hide Offer, NumberShown;
    forall i | 0 <= i < |atts|
      ensures var r, a := ReplyTo(atts[..i + 1]), atts[i];
        && r.kind == (if a.Accepted? then 0x59 else 0x4E)
        && r.n == (if !a.HeaderBad? then a.n else if i > 0 then ReplyTo(atts[..i]).n else 0)
        && r.data == if a.Accepted? && a.kind == 0x53 then Offer(a.data) else []
    {
      NumberOn(atts, i);
      assert atts[..i + 1][i] == atts[i];
    }
  }

  /** Whatever the attempts are, the line sent back carries one packet for each, in order: of type Y for an
      accepted one, of type N for a spoiled one; under the number the attempt shows, or after a spoiled
      header the number of the reply before; with an answer to the parameters of an S packet, and without
      data otherwise. */
  lemma RepliesReceived(atts: seq<Attempt>)
    requires forall i :: 0 < i <= |atts| ==> Readable(SettingsIn(atts[..i]))
    requires forall i :: 0 <= i < |atts| && !atts[i].HeaderBad? ==> atts[i].n < 224
    ensures var r := Receive(Run(atts).sent, 0);
      && r.end == Starving && |r.atts| == |atts|
      && forall i :: 0 <= i < |atts| ==>
           && r.atts[i].Accepted?
           && r.atts[i].kind == (if atts[i].Accepted? then 0x59 else 0x4E)
           && r.atts[i].n == (if !atts[i].HeaderBad? then atts[i].n else if i > 0 then r.atts[i - 1].n else 0)
           && r.atts[i].data == if atts[i].Accepted? && atts[i].kind == 0x53 then Offer(atts[i].data) else []
  {
    hide Readable, SettingsIn, Run, Receive, FramedReplies, Offer, ReplyTo, AttemptsOf;
    RepliesAre(atts);
    AllFields(atts);
  }

  // -------------------------------------------------------------------------
  // Parameters

  /** The answer to a parameter packet, in octets. */
  lemma OfferIs(data: seq<Octet>)
    ensures var all := [0x7E, 0x21, 0x20, 0x40, 0x2D, 0x23, 0x4E, 0x31, 0x4E, 0x22, 0x20, 0x7E, 0x7E];
      Offer(data) == if |data| >= 10 then all else all[..|data|]
  {
  }

  /** A sender that asks for settings in the standard encoding gets just these; what follows the quote
      character does not matter. */
  lemma SettingsTaken(s: Settings, maxl: Octet, time: Octet, more: seq<Octet>)
    requires s.padCount < 95 && s.padChar < 32 && s.eol < 32
    ensures Negotiated([maxl, time, s.padCount + 0x20, s.padChar + 0x40, s.eol + 0x20, s.quote] + more) == s
  {
  }
}
