/** The receiver as a state machine over packets, and what it delivers over whole runs. */
module KermitProtocol {
  import opened Words
  import opened KermitCodec

  // -------------------------------------------------------------------------
  // Negotiation and replies

  /** What the sender asked for. */
  datatype Settings = Settings(eol: Octet, padCount: nat, padChar: Octet, quote: Octet)

  const DEFAULTS := Settings(END_CHAR, 0, 0, K_ESCAPE)

  /** The parameters of a send-initiate packet that are looked at: a buffer that filled up loses its
      last character. */
  function SendParms(data: seq<Octet>): seq<Octet> {
    if |data| >= 19 then data[..18] else data
  }

  function SettingsOf(p: seq<Octet>): Settings {
    Settings(if |p| > 4 then UnToChar(p[4]) else END_CHAR,
             if |p| > 2 then UnToChar(p[2]) else 0,
             if |p| > 3 then KTrans(p[3]) else 0,
             if |p| > 5 then p[5] else K_ESCAPE)
  }

  function Negotiated(data: seq<Octet>): Settings {
    SettingsOf(SendParms(data))
  }

  /** Item k of the answer: maximum length 94, time-out 1, no padding, pad character, end of line, the
      quote character #, no 8-bit prefixing, check type 1, no repeat prefix, then four items saying
      long packets only, no windows, and their maximum length. */
  function OfferItem(k: nat): Octet {
    if k == 1 then ToChar(1)
    else if k == 2 || k == 10 then ToChar(0)
    else if k == 3 then 0x40
    else if k == 4 then ToChar(END_CHAR)
    else if k == 5 then 0x23
    else if k == 6 || k == 8 then 0x4E
    else if k == 7 then 0x31
    else if k == 9 then ToChar(2)
    else ToChar(94)
  }

  function OfferItems(k: nat): (r: seq<Octet>)
    ensures |r| == k
  {
    seq(k, i requires 0 <= i => OfferItem(i))
  }

  /** The answer to a send-initiate packet: one item for each parameter given, the last four
      together. */
  function Offer(data: seq<Octet>): seq<Octet> {
    var p := SendParms(data);
    OfferItems(if |p| >= 10 then 13 else |p|)
  }

  function Pads(count: nat, c: Octet): seq<Octet> {
    seq(count, _ => c)
  }

  /** The characters put on the line for a packet body; a NUL end of line ends the string early. */
  function Wire(s: Settings, body: seq<Octet>): seq<Octet> {
    Pads(s.padCount, s.padChar) + [START_CHAR] + body + (if s.eol == 0 then [] else [s.eol])
  }

  // -------------------------------------------------------------------------
  // The state machine

  /** cur is what has been delivered, saved the checkpoint taken when lastN was first seen. */
  datatype Session = Session(cur: Image, saved: Image, lastN: int, n: nat, settings: Settings, sent: seq<Octet>, done: bool)

  const EMPTY := Image([], false)
  const START := Session(EMPTY, EMPTY, -1, 0, DEFAULTS, [], false)

  /** The state the packet after the sequence check starts from. */
  function Base(s: Session, n: nat): Image {
    if n == s.lastN then s.saved else s.cur
  }

  function Step(s: Session, a: Attempt): Session {
    match a
    case HeaderBad =>
      s.(cur := s.saved, sent := s.sent + Wire(s.settings, Body(s.n, NACK_TYPE, [])))
    case Failed(n) =>
      s.(cur := Base(s, n), saved := Base(s, n), lastN := n, n := n,
         sent := s.sent + Wire(s.settings, Body(n, NACK_TYPE, [])))
    case Accepted(n, kind, data) =>
      var base := Base(s, n);
      var t := s.(saved := base, lastN := n, n := n,
                  cur := if kind == DATA_TYPE then FeedAll(base, s.settings.quote, data) else base);
      if kind == SEND_TYPE then
        var settings := Negotiated(data);
        t.(settings := settings, sent := s.sent + Wire(settings, Body(n, ACK_TYPE, Offer(data))))
      else
        t.(sent := s.sent + Wire(s.settings, Body(n, ACK_TYPE, [])), done := kind == BREAK_TYPE)
  }

  function Run(atts: seq<Attempt>): Session {
    if atts == [] then START else Step(Run(atts[..|atts| - 1]), atts[|atts| - 1])
  }

  // -------------------------------------------------------------------------
  // What a run delivers

  /** A data packet counts when it was accepted and was the last attempt under its sequence number:
      the next attempt, if any, shows a different one. */
  predicate Counts(atts: seq<Attempt>, i: nat)
    requires i < |atts|
  {
    && atts[i].Accepted? && atts[i].kind == DATA_TYPE
    && (i + 1 == |atts| || (!atts[i + 1].HeaderBad? && atts[i + 1].n != atts[i].n))
  }

  /** The quote character in force when attempt i is taken. */
  function QuoteAt(atts: seq<Attempt>, i: nat): Octet
    requires i <= |atts|
  {
    Run(atts[..i]).settings.quote
  }

  /** The payloads that count among the first i attempts, each with its quote character. */
  function Kept(atts: seq<Attempt>, i: nat): seq<(seq<Octet>, Octet)>
    requires i <= |atts|
  {
    if i == 0 then []
    else Kept(atts, i - 1) + (if Counts(atts, i - 1) then [(atts[i - 1].data, QuoteAt(atts, i - 1))] else [])
  }

  /** The payloads decoded one after the other. */
  function Decoded(kept: seq<(seq<Octet>, Octet)>): Image {
    if kept == [] then EMPTY
    else FeedAll(Decoded(kept[..|kept| - 1]), kept[|kept| - 1].1, kept[|kept| - 1].0)
  }

  lemma QuotePrefix(atts: seq<Attempt>, a: Attempt, i: nat)
    requires i <= |atts|
    ensures QuoteAt(atts + [a], i) == QuoteAt(atts, i)
  {
    assert (atts + [a])[..i] == atts[..i];
  }

  lemma {:induction false} KeptPrefix(atts: seq<Attempt>, a: Attempt, i: nat)
    requires i < |atts|
    ensures Kept(atts + [a], i) == Kept(atts, i)
  {
    hide QuoteAt;
    if i > 0 {
      KeptPrefix(atts, a, i - 1);
      QuotePrefix(atts, a, i - 1);
    }
  }

  /** The sequence number the machine compares with: that of the last attempt that showed one. */
  function LastShown(atts: seq<Attempt>): int {
    if atts == [] then -1
    else if atts[|atts| - 1].HeaderBad? then LastShown(atts[..|atts| - 1])
    else atts[|atts| - 1].n
  }

  lemma DecodedNothing()
    ensures Decoded([]) == EMPTY
  {
  }

  lemma {:induction false} DecodedStep(kept: seq<(seq<Octet>, Octet)>, data: seq<Octet>, q: Octet)
    ensures Decoded(kept + [(data, q)]) == FeedAll(Decoded(kept), q, data)
  {
    assert (kept + [(data, q)])[..|kept|] == kept;
  }

  /** What one packet does to the two images. */
  lemma StepImages(s: Session, a: Attempt)
    ensures var t := Step(s, a); var base := if a.HeaderBad? then s.saved else Base(s, a.n);
      && t.saved == base
      && t.cur == (if a.Accepted? && a.kind == DATA_TYPE then FeedAll(base, s.settings.quote, a.data) else base)
      && t.lastN == if a.HeaderBad? then s.lastN else a.n
  {
    hide Wire, Body, FeedAll, Negotiated, Offer;
  }

  /** The images a run leaves are the decodings of what counts, with and without the last attempt. */
  ghost predicate Holds(atts: seq<Attempt>) {
    && Run(atts).cur == Decoded(Kept(atts, |atts|))
    && (atts != [] ==> Run(atts).saved == Decoded(Kept(atts, |atts| - 1)))
    && (atts == [] ==> Run(atts).saved == EMPTY)
    && Run(atts).lastN == LastShown(atts)
  }

  lemma KeptLast(atts: seq<Attempt>, i: nat)
    requires i < |atts|
    ensures Kept(atts, i + 1)
         == if Counts(atts, i) then Kept(atts, i) + [(atts[i].data, QuoteAt(atts, i))] else Kept(atts, i)
  {
    hide Counts, QuoteAt;
  }

  /** Whether an attempt goes on under the sequence number shown last. */
  predicate Continues(before: seq<Attempt>, a: Attempt) {
    a.HeaderBad? || a.n == LastShown(before)
  }

  /** A further attempt decides whether the one before it counts. */
  lemma {:induction false} KeptAppend(before: seq<Attempt>, a: Attempt)
    requires before != []
    ensures Kept(before + [a], |before|) == Kept(before, if Continues(before, a) then |before| - 1 else |before|)
  {
    hide Kept, QuoteAt;
    var k := |before|;
    KeptPrefix(before, a, k - 1);
    QuotePrefix(before, a, k - 1);
    KeptLast(before + [a], k - 1);
    KeptLast(before, k - 1);
    assert (before + [a])[k - 1] == before[k - 1] && (before + [a])[k] == a;
    assert before[k - 1].HeaderBad? || LastShown(before) == before[k - 1].n;
  }

  /** The state an attempt starts from: everything that counts once this attempt is known. */
  lemma {:induction false} BaseHolds(before: seq<Attempt>, a: Attempt)
    requires Holds(before)
    ensures Decoded(Kept(before + [a], |before|))
         == if a.HeaderBad? then Run(before).saved else Base(Run(before), a.n)
  {
    hide Run, QuoteAt, Decoded, Counts;
    DecodedNothing();
    if before != [] {
      hide LastShown, Kept;
      KeptAppend(before, a);
    } else {
      assert Kept(before, 0) == [] && Kept(before + [a], 0) == [];
    }
  }

  lemma {:induction false} RunHolds(atts: seq<Attempt>)
    ensures Holds(atts)
  {
    if atts == [] {
      assert Kept(atts, 0) == [];
    } else {
      RunHolds(atts[..|atts| - 1]);
      RunHoldsStep(atts, |atts| - 1);
    }
  }

  lemma RunHoldsStep(atts: seq<Attempt>, k: nat)
    requires |atts| == k + 1 && Holds(atts[..k])
    ensures Holds(atts)
  {
    hide FeedAll, Step, Decoded, Base;
    var before, a := atts[..k], atts[k];
    assert atts == before + [a];
    BaseHolds(before, a);
    StepImages(Run(before), a);
    assert Run(atts) == Step(Run(before), a);
    if Counts(atts, k) {
      DecodedStep(Kept(atts, k), a.data, QuoteAt(atts, k));
    } else {
      assert Kept(atts, |atts|) == Kept(atts, k);
    }
  }

  /** Exactly once, in order: whatever failures and repetitions a run contains, what has been
      delivered is the decoding of those data packets, in order, that were the last attempt under
      their sequence number and were accepted. */
  lemma {:induction false} ExactlyOnce(atts: seq<Attempt>)
    ensures Run(atts).cur == Decoded(Kept(atts, |atts|))
  {
    RunHolds(atts);
  }
}
