/** Whole transfers: a stop-and-wait sender on a line that spoils, repeats and acknowledges, and the
    exact condition under which the receiver takes every data packet exactly once. */
module KermitTransfer {
  import opened Words
  import opened KermitCodec
  import opened KermitProtocol

  datatype Packet = Packet(n: nat, kind: Octet, data: seq<Octet>)

  /** What the line did to one transmission: the receiver gives up before it knows a sequence number,
      or after it has seen some printable one, the right one or another, or takes the packet. */
  datatype Outcome = HeaderSpoiled | BodySpoiled(shown: nat) | Intact

  function Seen(p: Packet, o: Outcome): Attempt {
    match o
    case HeaderSpoiled => HeaderBad
    case BodySpoiled(m) => Failed(m)
    case Intact => Accepted(p.n, p.kind, p.data)
  }

  /** All transmissions of one packet. */
  function Round(p: Packet, os: seq<Outcome>): (r: seq<Attempt>)
    ensures |r| == |os|
  {
    seq(|os|, i requires 0 <= i < |os| => Seen(p, os[i]))
  }

  /** The attempts of the first k packets. */
  function Sent(ps: seq<Packet>, rounds: seq<seq<Outcome>>, k: nat): seq<Attempt>
    requires k <= |ps| == |rounds|
  {
    if k == 0 then [] else Sent(ps, rounds, k - 1) + Round(ps[k - 1], rounds[k - 1])
  }

  /** A sender that repeats each packet until it got through, and goes on to a packet with another
      sequence number. */
  ghost predicate StopAndWait(ps: seq<Packet>, rounds: seq<seq<Outcome>>) {
    && |ps| == |rounds|
    && (forall j :: 0 <= j < |ps| ==> rounds[j] != [] && rounds[j][|rounds[j]| - 1] == Intact)
    && (forall j :: 0 < j < |ps| ==> ps[j].n != ps[j - 1].n)
  }

  function Load(p: Packet): seq<Octet> {
    if p.kind == DATA_TYPE then p.data else []
  }

  /** The data of the first k packets. */
  function Meant(ps: seq<Packet>, k: nat): seq<Octet>
    requires k <= |ps|
  {
    if k == 0 then [] else Meant(ps, k - 1) + Load(ps[k - 1])
  }

  // -------------------------------------------------------------------------
  // What the faults do

  /** Packet j is taken back by the first transmission of its successor: its header is spoiled, or it
      shows the number of packet j. */
  predicate Lost(ps: seq<Packet>, rounds: seq<seq<Outcome>>, j: nat)
    requires j < |ps| == |rounds|
  {
    j + 1 < |ps| && rounds[j + 1] != [] && (rounds[j + 1][0] == HeaderSpoiled || rounds[j + 1][0] == BodySpoiled(ps[j].n))
  }

  /** An accepted transmission stays although the packet is sent again: the transmission after it shows
      another number. */
  predicate Stays(p: Packet, os: seq<Outcome>, i: nat)
    requires i + 1 < |os|
  {
    os[i] == Intact && os[i + 1].BodySpoiled? && os[i + 1].shown != p.n
  }

  /** How many of the first t transmissions stay that way. */
  function Extra(p: Packet, os: seq<Outcome>, t: nat): nat
    requires t < |os|
  {
    if t == 0 then 0 else Extra(p, os, t - 1) + (if Stays(p, os, t - 1) then 1 else 0)
  }

  /** How often packet j counts. */
  function Times(ps: seq<Packet>, rounds: seq<seq<Outcome>>, j: nat): nat
    requires j < |ps| == |rounds| && rounds[j] != []
  {
    Extra(ps[j], rounds[j], |rounds[j]| - 1) + if Lost(ps, rounds, j) then 0 else 1
  }

  function Repeated(s: seq<Octet>, times: nat): seq<Octet> {
    if times == 0 then [] else Repeated(s, times - 1) + s
  }

  /** The data of the first k packets, each as often as it counts. */
  ghost function Got(ps: seq<Packet>, rounds: seq<seq<Outcome>>, k: nat): seq<Octet>
    requires StopAndWait(ps, rounds) && k <= |ps|
  {
    if k == 0 then []
    else Got(ps, rounds, k - 1) + Repeated(Load(ps[k - 1]), Times(ps, rounds, k - 1))
  }

  /** The payload characters of what counts, in order. */
  function Payload(kept: seq<(seq<Octet>, Octet)>): seq<Octet> {
    if kept == [] then [] else Payload(kept[..|kept| - 1]) + kept[|kept| - 1].0
  }

  /** How many of the attempts from lo up to hi count. */
  function Counted(atts: seq<Attempt>, lo: nat, hi: nat): nat
    requires lo <= hi <= |atts|
  {
    if lo == hi then 0 else Counted(atts, lo, hi - 1) + (if Counts(atts, hi - 1) then 1 else 0)
  }

  lemma PayloadStep(atts: seq<Attempt>, i: nat)
    requires i < |atts|
    ensures Payload(Kept(atts, i + 1)) == Payload(Kept(atts, i)) + (if Counts(atts, i) then atts[i].data else [])
  {
    hide QuoteAt;
    KeptLast(atts, i);
    if Counts(atts, i) {
      assert (Kept(atts, i) + [(atts[i].data, QuoteAt(atts, i))])[..|Kept(atts, i)|] == Kept(atts, i);
    }
  }

  // -------------------------------------------------------------------------
  // Which transmissions count

  lemma {:induction false} SentPrefix(ps: seq<Packet>, rounds: seq<seq<Outcome>>, j: nat, k: nat)
    requires j <= k <= |ps| == |rounds|
    ensures |Sent(ps, rounds, j)| <= |Sent(ps, rounds, k)|
    ensures Sent(ps, rounds, k)[..|Sent(ps, rounds, j)|] == Sent(ps, rounds, j)
  {
    if j < k { SentPrefix(ps, rounds, j, k - 1); }
  }

  /** Transmission t of packet j among all attempts. */
  lemma SentAt(ps: seq<Packet>, rounds: seq<seq<Outcome>>, j: nat, t: nat)
    requires |ps| == |rounds| && j < |ps| && t < |rounds[j]|
    ensures var i, atts := |Sent(ps, rounds, j)| + t, Sent(ps, rounds, |ps|);
      i < |atts| && atts[i] == Seen(ps[j], rounds[j][t])
  {
    SentPrefix(ps, rounds, j + 1, |ps|);
    var f, g, i := Sent(ps, rounds, j), Sent(ps, rounds, j + 1), |Sent(ps, rounds, j)| + t;
    assert g[i] == Round(ps[j], rounds[j])[t];
    assert Sent(ps, rounds, |ps|)[i] == Sent(ps, rounds, |ps|)[..|g|][i];
  }

  lemma SentNext(ps: seq<Packet>, rounds: seq<seq<Outcome>>, j: nat)
    requires |ps| == |rounds| && j < |ps|
    ensures |Sent(ps, rounds, j + 1)| == |Sent(ps, rounds, j)| + |rounds[j]| <= |Sent(ps, rounds, |ps|)|
  {
    SentPrefix(ps, rounds, j + 1, |ps|);
  }

  /** A transmission of a data packet counts exactly when it stays, or is the last of its round and is
      not taken back. */
  lemma CountAt(ps: seq<Packet>, rounds: seq<seq<Outcome>>, j: nat, t: nat)
    requires StopAndWait(ps, rounds) && j < |ps| && t < |rounds[j]|
    ensures var i, atts := |Sent(ps, rounds, j)| + t, Sent(ps, rounds, |ps|);
      && i < |atts| && (Counts(atts, i) ==> atts[i].data == ps[j].data)
      && (Counts(atts, i) <==>
            ps[j].kind == DATA_TYPE && if t + 1 < |rounds[j]| then Stays(ps[j], rounds[j], t) else !Lost(ps, rounds, j))
  {
    hide Sent;
    SentAt(ps, rounds, j, t);
    SentNext(ps, rounds, j);
    if t + 1 < |rounds[j]| {
      SentAt(ps, rounds, j, t + 1);
    } else if j + 1 < |ps| {
      SentAt(ps, rounds, j + 1, 0);
    }
  }

  /** Payload and count part of the way through a round. */
  lemma {:induction false} RoundKeeps(ps: seq<Packet>, rounds: seq<seq<Outcome>>, j: nat, t: nat)
    requires StopAndWait(ps, rounds) && j < |ps| && t < |rounds[j]|
    requires |Sent(ps, rounds, j)| + t <= |Sent(ps, rounds, |ps|)|
    ensures var atts, lo := Sent(ps, rounds, |ps|), |Sent(ps, rounds, j)|;
      && Payload(Kept(atts, lo + t)) == Payload(Kept(atts, lo)) + Repeated(Load(ps[j]), Extra(ps[j], rounds[j], t))
      && Counted(atts, lo, lo + t) == if ps[j].kind == DATA_TYPE then Extra(ps[j], rounds[j], t) else 0
  {
    hide Sent, Kept, Payload, Counts, Stays, Repeated;
    var atts, lo := Sent(ps, rounds, |ps|), |Sent(ps, rounds, j)|;
    if t == 0 {
      RepeatMore(Payload(Kept(atts, lo)), Load(ps[j]), 0, false);
    } else {
      RoundKeeps(ps, rounds, j, t - 1);
      CountAt(ps, rounds, j, t - 1);
      PayloadStep(atts, lo + t - 1);
      var x, e := Payload(Kept(atts, lo)), Extra(ps[j], rounds[j], t - 1);
      RepeatMore(x, Load(ps[j]), e, Stays(ps[j], rounds[j], t - 1));
      RepeatMore(x, [], e, false);
      RepeatMore(x, [], Extra(ps[j], rounds[j], t), false);
    }
  }

  /** One more copy, or none. */
  lemma RepeatMore(x: seq<Octet>, load: seq<Octet>, times: nat, more: bool)
    ensures x + Repeated(load, times) + (if more then load else []) == x + Repeated(load, times + if more then 1 else 0)
    ensures x + Repeated(load, 0) == x
    ensures x + Repeated([], times) == x && x + [] == x
  {
    RepeatedNothing(times);
    assert x + Repeated(load, times) + load == x + (Repeated(load, times) + load);
  }

  lemma {:induction false} RepeatedNothing(times: nat)
    ensures Repeated([], times) == []
  {
    if times > 0 { RepeatedNothing(times - 1); }
  }

  /** Payload and count of a whole round. */
  lemma RoundWhole(ps: seq<Packet>, rounds: seq<seq<Outcome>>, j: nat)
    requires StopAndWait(ps, rounds) && j < |ps|
    ensures var atts, lo, hi := Sent(ps, rounds, |ps|), |Sent(ps, rounds, j)|, |Sent(ps, rounds, j + 1)|;
      && lo <= hi <= |atts|
      && Payload(Kept(atts, hi)) == Payload(Kept(atts, lo)) + Repeated(Load(ps[j]), Times(ps, rounds, j))
      && Counted(atts, lo, hi) == if ps[j].kind == DATA_TYPE then Times(ps, rounds, j) else 0
  {
    hide Sent, Kept, Payload, Counts, Extra, Lost, Repeated;
    var atts, lo, last := Sent(ps, rounds, |ps|), |Sent(ps, rounds, j)|, |rounds[j]| - 1;
    SentNext(ps, rounds, j);
    RoundKeeps(ps, rounds, j, last);
    CountAt(ps, rounds, j, last);
    PayloadStep(atts, lo + last);
    var x, e := Payload(Kept(atts, lo)), Extra(ps[j], rounds[j], last);
    RepeatMore(x, Load(ps[j]), e, !Lost(ps, rounds, j));
    RepeatMore(x, [], e, false);
    RepeatMore(x, [], Times(ps, rounds, j), false);
  }

  lemma {:induction false} RoundsKeep(ps: seq<Packet>, rounds: seq<seq<Outcome>>, k: nat)
    requires StopAndWait(ps, rounds) && k <= |ps|
    ensures var atts, hi := Sent(ps, rounds, |ps|), |Sent(ps, rounds, k)|;
      hi <= |atts| && Payload(Kept(atts, hi)) == Got(ps, rounds, k)
  {
    hide Sent, Kept, Payload, Times, Repeated;
    if k > 0 {
      RoundsKeep(ps, rounds, k - 1);
      RoundWhole(ps, rounds, k - 1);
    } else {
      NothingSent(ps, rounds);
    }
  }

  lemma {:induction false} NothingSent(ps: seq<Packet>, rounds: seq<seq<Outcome>>)
    requires |ps| == |rounds|
    ensures |Sent(ps, rounds, 0)| == 0 && Payload(Kept(Sent(ps, rounds, |ps|), 0)) == []
  {
  }

  /** What a stop-and-wait transfer delivers under every pattern of faults that the checks detect: each
      packet's data as often as the packet counts. */
  lemma {:induction false} TransferKeeps(ps: seq<Packet>, rounds: seq<seq<Outcome>>)
    requires StopAndWait(ps, rounds)
    ensures var atts := Sent(ps, rounds, |ps|); Payload(Kept(atts, |atts|)) == Got(ps, rounds, |ps|)
  {
    RoundsKeep(ps, rounds, |ps|);
  }

  /** The packet is taken back as often as it is counted again: never, or once each. */
  predicate Balanced(ps: seq<Packet>, rounds: seq<seq<Outcome>>, j: nat)
    requires j < |ps| == |rounds| && rounds[j] != []
  {
    Extra(ps[j], rounds[j], |rounds[j]| - 1) == if Lost(ps, rounds, j) then 1 else 0
  }

  /** The exact condition: a data packet counts exactly once if and only if the first transmission of
      its successor takes it back exactly when one accepted transmission of it had stayed before. */
  lemma LosslessExactlyWhen(ps: seq<Packet>, rounds: seq<seq<Outcome>>, j: nat)
    requires StopAndWait(ps, rounds) && j < |ps| && ps[j].kind == DATA_TYPE
    ensures var atts, lo, hi := Sent(ps, rounds, |ps|), |Sent(ps, rounds, j)|, |Sent(ps, rounds, j + 1)|;
      lo <= hi <= |atts| && Counted(atts, lo, hi) == Times(ps, rounds, j) && (Counted(atts, lo, hi) == 1 <==> Balanced(ps, rounds, j))
  {
    hide Sent, Counted, Kept, Payload;
    RoundWhole(ps, rounds, j);
  }

  lemma {:induction false} GotIsMeant(ps: seq<Packet>, rounds: seq<seq<Outcome>>, k: nat)
    requires StopAndWait(ps, rounds) && k <= |ps|
    requires forall j :: 0 <= j < k && Load(ps[j]) != [] ==> Balanced(ps, rounds, j)
    ensures Got(ps, rounds, k) == Meant(ps, k)
  {
    hide Load, Lost, Extra;
    if k > 0 {
      GotIsMeant(ps, rounds, k - 1);
      RepeatedNothing(Times(ps, rounds, k - 1));
      assert Repeated(Load(ps[k - 1]), 0) + Load(ps[k - 1]) == Load(ps[k - 1]);
    }
  }

  /** Without repetitions that stay, the converse holds of the data as well: they are all there only if
      no packet with data is taken back. */
  lemma {:induction false} GotShorter(ps: seq<Packet>, rounds: seq<seq<Outcome>>, k: nat)
    requires StopAndWait(ps, rounds) && k <= |ps|
    requires forall j :: 0 <= j < k ==> Extra(ps[j], rounds[j], |rounds[j]| - 1) == 0
    ensures |Got(ps, rounds, k)| <= |Meant(ps, k)|
    ensures |Got(ps, rounds, k)| == |Meant(ps, k)| ==> forall j :: 0 <= j < k && Lost(ps, rounds, j) ==> Load(ps[j]) == []
  {
    hide Load, Lost, Extra;
    if k > 0 {
      GotShorter(ps, rounds, k - 1);
      assert Repeated(Load(ps[k - 1]), 0) + Load(ps[k - 1]) == Load(ps[k - 1]);
    }
  }

  /** Then all data arrive, in order and once, if and only if no packet with data is taken back. */
  lemma {:induction false} CompleteExactlyWhen(ps: seq<Packet>, rounds: seq<seq<Outcome>>)
    requires StopAndWait(ps, rounds)
    requires forall j :: 0 <= j < |ps| ==> Extra(ps[j], rounds[j], |rounds[j]| - 1) == 0
    ensures var atts := Sent(ps, rounds, |ps|);
      Payload(Kept(atts, |atts|)) == Meant(ps, |ps|) <==> forall j :: 0 <= j < |ps| && Lost(ps, rounds, j) ==> Load(ps[j]) == []
  {
    hide Kept, Payload, Extra, Load, Lost, Got, Meant, Sent;
    TransferKeeps(ps, rounds);
    GotShorter(ps, rounds, |ps|);
    if forall j :: 0 <= j < |ps| && Lost(ps, rounds, j) ==> Load(ps[j]) == [] { GotIsMeant(ps, rounds, |ps|); }
  }

  // -------------------------------------------------------------------------
  // The faults are real

  const A := Packet(0, DATA_TYPE, [0x41])
  const B := Packet(1, DATA_TYPE, [0x42])

  lemma TwoPackets(first: seq<Outcome>, second: seq<Outcome>)
    requires StopAndWait([A, B], [first, second])
    ensures Got([A, B], [first, second], 2)
         == Repeated([0x41], Times([A, B], [first, second], 0)) + Repeated([0x42], Times([A, B], [first, second], 1))
    ensures Meant([A, B], 2) == [0x41, 0x42]
  {
    hide Times;
    var ps, rounds := [A, B], [first, second];
    assert Got(ps, rounds, 1) == [] + Repeated([0x41], Times(ps, rounds, 0));
    assert Meant(ps, 1) == [0x41];
  }

  lemma {:induction false} RepeatedFew(s: seq<Octet>)
    ensures Repeated(s, 0) == [] && Repeated(s, 1) == s && Repeated(s, 2) == s + s
  {
    assert Repeated(s, 1) == Repeated(s, 0) + s == [] + s;
    assert Repeated(s, 2) == Repeated(s, 1) + s;
  }

  /** Two data packets, the second first transmitted with a spoiled header, or with the number of the
      first: only the second one's data arrive. */
  lemma ErrorLosesPacket(o: Outcome)
    requires o == HeaderSpoiled || o == BodySpoiled(0)
    ensures var ps, rounds := [A, B], [[Intact], [o, Intact]];
      && StopAndWait(ps, rounds) && Meant(ps, 2) == [0x41, 0x42]
      && var atts := Sent(ps, rounds, 2); Payload(Kept(atts, |atts|)) == [0x42]
  {
    hide Kept, Payload, Sent;
    var ps, rounds := [A, B], [[Intact], [o, Intact]];
    TransferKeeps(ps, rounds);
    TwoPackets([Intact], [o, Intact]);
    RepeatedFew([0x41]);
    RepeatedFew([0x42]);
    assert Extra(B, [o, Intact], 1) == 0;
    assert Times(ps, rounds, 0) == 0 && Times(ps, rounds, 1) == 1;
  }

  /** A data packet accepted, sent again with another number and spoiled, sent again: its data arrive
      twice. */
  lemma ErrorDoublesPacket()
    ensures var ps, rounds := [A], [[Intact, BodySpoiled(5), Intact]];
      && StopAndWait(ps, rounds) && Meant(ps, 1) == [0x41]
      && var atts := Sent(ps, rounds, 1); Payload(Kept(atts, |atts|)) == [0x41, 0x41]
  {
    hide Kept, Payload, Sent;
    var os := [Intact, BodySpoiled(5), Intact];
    var ps, rounds := [A], [os];
    TransferKeeps(ps, rounds);
    RepeatedFew([0x41]);
    assert Extra(A, os, 1) == 1 && Extra(A, os, 2) == 1;
    assert Times(ps, rounds, 0) == 2;
    assert Got(ps, rounds, 1) == [] + Repeated([0x41], 2);
    assert Meant(ps, 1) == [] + [0x41];
  }

  // -------------------------------------------------------------------------
  // From payload to file

  /** Payloads decoded under one quote character are their concatenation decoded. */
  lemma {:induction false} OneQuote(kept: seq<(seq<Octet>, Octet)>, q: Octet)
    requires forall i :: 0 <= i < |kept| ==> kept[i].1 == q
    ensures Decoded(kept) == FeedAll(EMPTY, q, Payload(kept))
  {
    if kept != [] {
      var init := kept[..|kept| - 1];
      OneQuote(init, q);
      FeedAllAppend(EMPTY, q, Payload(init), kept[|kept| - 1].0);
    }
  }

  /** Every send-initiate packet of the transfer settles on quote character q, and one comes before
      the data unless q is the default. */
  ghost predicate Agreed(ps: seq<Packet>, q: Octet) {
    && (forall j :: 0 <= j < |ps| && ps[j].kind == SEND_TYPE ==> Negotiated(ps[j].data).quote == q)
    && (q == K_ESCAPE || (ps != [] && ps[0].kind == SEND_TYPE))
  }

  predicate OffersQuote(a: Attempt, q: Octet) {
    a.Accepted? && a.kind == SEND_TYPE ==> Negotiated(a.data).quote == q
  }

  lemma StepQuote(s: Session, a: Attempt)
    ensures Step(s, a).settings.quote
         == if a.Accepted? && a.kind == SEND_TYPE then Negotiated(a.data).quote else s.settings.quote
  {
    hide Wire, Body, FeedAll, Negotiated, Offer;
  }

  lemma QuoteStep(atts: seq<Attempt>, i: nat)
    requires i < |atts|
    ensures QuoteAt(atts, i + 1)
         == if atts[i].Accepted? && atts[i].kind == SEND_TYPE then Negotiated(atts[i].data).quote else QuoteAt(atts, i)
  {
    hide Step;
    assert atts[..i + 1][..i] == atts[..i];
    StepQuote(Run(atts[..i]), atts[i]);
  }

  /** All attempts of a transfer offer q, and data is accepted only once q is in force. */
  lemma {:induction false} SentOffers(ps: seq<Packet>, rounds: seq<seq<Outcome>>, k: nat, q: Octet)
    requires StopAndWait(ps, rounds) && k <= |ps| && Agreed(ps, q)
    ensures var f := Sent(ps, rounds, k);
      && (forall i :: 0 <= i < |f| ==> OffersQuote(f[i], q))
      && (k > 0 || q == K_ESCAPE ==> QuoteAt(f, |f|) == q)
      && (forall i :: 0 <= i < |f| && Counts(f, i) ==> QuoteAt(f, i) == q)
  {
    hide Negotiated, QuoteAt;
    if k == 0 {
      assert Sent(ps, rounds, 0) == [];
      NoAttempts();
    } else {
      var f, r, p, os := Sent(ps, rounds, k - 1), Round(ps[k - 1], rounds[k - 1]), ps[k - 1], rounds[k - 1];
      SentOffers(ps, rounds, k - 1, q);
      forall i | 0 <= i < |f + r| ensures OffersQuote((f + r)[i], q) {
        if i >= |f| { assert (f + r)[i] == Seen(p, os[i - |f|]); }
      }
      RoundQuotes(f, p, os, q, |os|);
      assert f + r == Sent(ps, rounds, k);
      forall i | 0 <= i < |f + r| && Counts(f + r, i) ensures QuoteAt(f + r, i) == q {
        if i >= |f| {
          assert (f + r)[i] == Seen(p, os[i - |f|]);
          RoundQuotes(f, p, os, q, i - |f|);
        } else {
          QuoteOfPrefix(f, r, i);
          CountsPrefix(f, r, i);
        }
      }
    }
  }

  lemma NoAttempts()
    ensures QuoteAt([], 0) == K_ESCAPE
  {
  }

  lemma QuoteOfPrefix(f: seq<Attempt>, r: seq<Attempt>, i: nat)
    requires i <= |f|
    ensures QuoteAt(f + r, i) == QuoteAt(f, i)
  {
    assert (f + r)[..i] == f[..i];
  }

  lemma CountsPrefix(f: seq<Attempt>, r: seq<Attempt>, i: nat)
    requires i < |f| && Counts(f + r, i)
    ensures Counts(f, i)
  {
    assert (f + r)[i] == f[i];
    if i + 1 < |f| { assert (f + r)[i + 1] == f[i + 1]; }
  }

  /** Through a round the quote character is q, if it was before or once the offer got through. */
  lemma {:induction false} RoundQuotes(f: seq<Attempt>, p: Packet, os: seq<Outcome>, q: Octet, i: nat)
    requires i <= |os| && (p.kind == SEND_TYPE ==> Negotiated(p.data).quote == q)
    ensures QuoteAt(f, |f|) == q ==> QuoteAt(f + Round(p, os), |f| + i) == q
    ensures p.kind == SEND_TYPE && 0 < i && os[i - 1] == Intact ==> QuoteAt(f + Round(p, os), |f| + i) == q
  {
    hide QuoteAt, Negotiated;
    var atts := f + Round(p, os);
    if i == 0 {
      QuoteOfPrefix(f, Round(p, os), |f|);
    } else {
      RoundQuotes(f, p, os, q, i - 1);
      QuoteStep(atts, |f| + i - 1);
      assert atts[|f| + i - 1] == Seen(p, os[i - 1]);
    }
  }

  lemma {:induction false} KeptQuotes(atts: seq<Attempt>, q: Octet, i: nat)
    requires i <= |atts| && forall j :: 0 <= j < |atts| && Counts(atts, j) ==> QuoteAt(atts, j) == q
    ensures forall j :: 0 <= j < |Kept(atts, i)| ==> Kept(atts, i)[j].1 == q
  {
    hide Counts, QuoteAt;
    if i > 0 { KeptQuotes(atts, q, i - 1); }
  }

  /** End to end: a file, quoted and cut into data packets in any way, sent stop-and-wait over a line
      that spoils, repeats and loses acknowledgements at will, is in memory byte for byte with no quote
      pending, provided each packet with data is taken back as often as it is counted again. */
  lemma {:induction false} FileArrives(ps: seq<Packet>, rounds: seq<seq<Outcome>>, q: Octet, file: seq<Octet>)
    requires StopAndWait(ps, rounds) && Agreed(ps, q) && LegalQuote(q)
    requires Meant(ps, |ps|) == Quote(q, file)
    requires forall j :: 0 <= j < |ps| && Load(ps[j]) != [] ==> Balanced(ps, rounds, j)
    ensures Run(Sent(ps, rounds, |ps|)).cur == Image(file, false)
  {
    hide Kept, FeedAll, Got, Meant, Quote, Run, QuoteAt, Counts, Balanced;
    var atts := Sent(ps, rounds, |ps|);
    ExactlyOnce(atts);
    TransferKeeps(ps, rounds);
    GotIsMeant(ps, rounds, |ps|);
    SentOffers(ps, rounds, |ps|, q);
    KeptQuotes(atts, q, |atts|);
    OneQuote(Kept(atts, |atts|), q);
    QuoteRoundTrip(q, file, EMPTY);
    assert EMPTY.bytes + file == file;
  }
}
