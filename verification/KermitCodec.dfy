/** Kermit packets as bytes: printable encodings, control-character quoting, check characters,
    framing, and the parser the receiver is built around. */
module KermitCodec {
  import opened Words

  const START_CHAR: Octet := 0x01
  const ETX_CHAR: Octet := 0x03
  const END_CHAR: Octet := 0x0D
  const SPACE: Octet := 0x20
  const K_ESCAPE: Octet := 0x23
  const SEND_TYPE: Octet := 0x53
  const DATA_TYPE: Octet := 0x44
  const ACK_TYPE: Octet := 0x59
  const NACK_TYPE: Octet := 0x4E
  const BREAK_TYPE: Octet := 0x42

  function ToChar(x: int): Octet {
    (x + SPACE) % 256
  }

  function UnToChar(x: int): Octet {
    (x - SPACE) % 256
  }

  /** (c & 0xE0) == 0: a character that may not occur inside a packet. */
  predicate Control(c: Octet) {
    c < SPACE
  }

  /** The type-1 block check of a character sum. */
  function Check(sum: nat): Octet {
    ToChar((sum + sum / 64 % 4) % 64)
  }

  // -------------------------------------------------------------------------
  // Control quoting

  /** Undoes the quoting of the character after the quote. */
  function KTrans(c: Octet): Octet {
    if c / 32 % 4 == 2 then c - 64
    else if c % 128 == 63 then c + 64
    else c
  }

  /** What has been delivered to memory, and whether a quote is pending. */
  datatype Image = Image(bytes: seq<Octet>, escape: bool)

  function Feed(m: Image, quote: Octet, c: Octet): Image {
    if m.escape then Image(m.bytes + [KTrans(c)], false)
    else if c == quote then m.(escape := true)
    else m.(bytes := m.bytes + [c])
  }

  function FeedAll(m: Image, quote: Octet, data: seq<Octet>): Image {
    if data == [] then m else Feed(FeedAll(m, quote, data[..|data| - 1]), quote, data[|data| - 1])
  }

  lemma {:induction false} FeedAllAppend(m: Image, quote: Octet, a: seq<Octet>, b: seq<Octet>)
    ensures FeedAll(m, quote, a + b) == FeedAll(FeedAll(m, quote, a), quote, b)
  {
    if b == [] {
      assert a + b == a;
    } else {
      assert (a + b)[..|a + b| - 1] == a + b[..|b| - 1];
      FeedAllAppend(m, quote, a, b[..|b| - 1]);
    }
  }

  /** The quoting characters the protocol allows. */
  predicate LegalQuote(q: Octet) {
    33 <= q <= 62 || 96 <= q <= 126
  }

  /** The standard encoding of one byte: controls are sent as quote and complemented bit 6, the
      quote character itself as quote and itself. */
  function QuoteByte(q: Octet, c: Octet): seq<Octet> {
    if c == q then [q, c]
    else if c % 128 < 32 then [q, c + 64]
    else if c % 128 == 127 then [q, c - 64]
    else [c]
  }

  function Quote(q: Octet, s: seq<Octet>): seq<Octet> {
    if s == [] then [] else Quote(q, s[..|s| - 1]) + QuoteByte(q, s[|s| - 1])
  }

  lemma {:induction false} QuoteByteRoundTrip(q: Octet, c: Octet, m: Image)
    requires LegalQuote(q) && !m.escape
    ensures FeedAll(m, q, QuoteByte(q, c)) == Image(m.bytes + [c], false)
    ensures forall i :: 0 <= i < |QuoteByte(q, c)| ==> !Control(QuoteByte(q, c)[i])
  {
    var e := QuoteByte(q, c);
    if |e| == 2 {
      assert e[..1] == [e[0]] && e[..1][..0] == [];
      assert FeedAll(m, q, e[..1]) == Feed(m, q, e[0]);
      assert KTrans(e[1]) == c;
    } else {
      assert e[..0] == [];
    }
  }

  /** Quoting round trip: every byte string, every legal quote character, and the pending-quote flag
      ends clear. The encoding never contains a control character. */
  lemma {:induction false} QuoteRoundTrip(q: Octet, s: seq<Octet>, m: Image)
    requires LegalQuote(q) && !m.escape
    ensures FeedAll(m, q, Quote(q, s)) == Image(m.bytes + s, false)
    ensures forall i :: 0 <= i < |Quote(q, s)| ==> !Control(Quote(q, s)[i])
  {
    hide FeedAll, Quote, QuoteByte, LegalQuote, Control;
    if s == [] {
      NothingQuoted(q, m);
      assert m.bytes + s == m.bytes;
    } else {
      var init, c := s[..|s| - 1], s[|s| - 1];
      QuoteRoundTrip(q, init, m);
      QuoteUnfolds(q, s);
      FeedAllAppend(m, q, Quote(q, init), QuoteByte(q, c));
      QuoteByteRoundTrip(q, c, Image(m.bytes + init, false));
      assert m.bytes + init + [c] == m.bytes + s;
    }
  }

  lemma {:induction false} NothingQuoted(q: Octet, m: Image)
    ensures Quote(q, []) == [] && FeedAll(m, q, []) == m
  {
  }

  lemma {:induction false} QuoteUnfolds(q: Octet, s: seq<Octet>)
    requires s != []
    ensures Quote(q, s) == Quote(q, s[..|s| - 1]) + QuoteByte(q, s[|s| - 1])
  {
  }

  // -------------------------------------------------------------------------
  // Parsing

  /** One packet as the receiver took it: spoiled before its sequence number was known, spoiled
      after, or accepted. */
  datatype Attempt = HeaderBad | Failed(n: nat) | Accepted(n: nat, kind: Octet, data: seq<Octet>)

  datatype Parsed = Starved | Aborted(next: nat) | Attempted(a: Attempt, next: nat)

  /** Character after character up to the start of a packet, or to a ^C. */
  function Parse(line: seq<Octet>, pos: nat): (r: Parsed)
    requires pos <= |line|
    ensures !r.Starved? ==> pos < r.next <= |line|
    decreases |line| - pos
  {
    if pos == |line| then Starved
    else if line[pos] == START_CHAR then ParsePacket(line, pos + 1)
    else if line[pos] == ETX_CHAR then Aborted(pos + 1)
    else Parse(line, pos + 1)
  }

  function ParsePacket(line: seq<Octet>, pos: nat): (r: Parsed)
    requires pos <= |line|
    ensures r.Attempted? ==> pos < r.next <= |line|
    ensures !r.Aborted?
  {
    if pos >= |line| then Starved
    else if Control(line[pos]) then Attempted(HeaderBad, pos + 1)
    else if pos + 1 >= |line| then Starved
    else if Control(line[pos + 1]) then Attempted(HeaderBad, pos + 2)
    else ParseType(line, UnToChar(line[pos + 1]), line[pos], line[pos] as int + line[pos + 1] as int, pos + 2)
  }

  function ParseType(line: seq<Octet>, n: nat, lenChar: Octet, sum: nat, pos: nat): (r: Parsed)
    requires pos <= |line|
    ensures r.Attempted? ==> pos < r.next <= |line|
    ensures !r.Aborted?
  {
    if pos >= |line| then Starved
    else if Control(line[pos]) then Attempted(Failed(n), pos + 1)
    else if UnToChar(lenChar) == 0 then ParseLong(line, n, line[pos], sum + line[pos], pos + 1)
    else ParseBody(line, n, line[pos], sum + line[pos], UnToChar(lenChar) - 2, pos + 1, [])
  }

  /** Two length characters and the header check of a long packet. */
  function ParseLong(line: seq<Octet>, n: nat, kind: Octet, sum: nat, pos: nat): (r: Parsed)
    requires pos <= |line|
    ensures r.Attempted? ==> pos < r.next <= |line|
    ensures !r.Aborted?
  {
    if pos >= |line| then Starved
    else if Control(line[pos]) then Attempted(Failed(n), pos + 1)
    else if pos + 1 >= |line| then Starved
    else if Control(line[pos + 1]) then Attempted(Failed(n), pos + 2)
    else if pos + 2 >= |line| then Starved
    else
      var sum' := sum + line[pos] + line[pos + 1];
      if Control(line[pos + 2]) || line[pos + 2] != Check(sum') then Attempted(Failed(n), pos + 3)
      else ParseBody(line, n, kind, sum' + line[pos + 2], UnToChar(line[pos]) * 95 + UnToChar(line[pos + 1]), pos + 3, [])
  }

  /** The data characters, then the block check and the end of line. */
  function ParseBody(line: seq<Octet>, n: nat, kind: Octet, sum: nat, length: int, pos: nat, data: seq<Octet>): (r: Parsed)
    requires pos <= |line|
    ensures r.Attempted? ==> pos < r.next <= |line|
    ensures !r.Aborted?
    decreases if length > 1 then length else 0
  {
    if pos >= |line| then Starved
    else if Control(line[pos]) then Attempted(Failed(n), pos + 1)
    else if length > 1 then ParseBody(line, n, kind, sum + line[pos], length - 1, pos + 1, data + [line[pos]])
    else if line[pos] != Check(sum) then Attempted(Failed(n), pos + 1)
    else if pos + 1 >= |line| then Starved
    else if line[pos + 1] != END_CHAR then Attempted(Failed(n), pos + 2)
    else Attempted(Accepted(n, kind, data), pos + 2)
  }

  // -------------------------------------------------------------------------
  // Framing

  function Sum(s: seq<Octet>): nat {
    if s == [] then 0 else Sum(s[..|s| - 1]) + s[|s| - 1]
  }

  /** A packet from its length character to its block check. */
  function Body(n: nat, kind: Octet, data: seq<Octet>): seq<Octet> {
    if |data| <= 91 then
      var b := [ToChar(|data| + 3), ToChar(n), kind] + data;
      b + [Check(Sum(b))]
    else
      var h := [ToChar(0), ToChar(n), kind, ToChar((|data| + 1) / 95), ToChar((|data| + 1) % 95)];
      var b := h + [Check(Sum(h))] + data;
      b + [Check(Sum(b))]
  }

  /** A whole packet. Up to 91 data characters fit the short form, more need the long form. */
  function Frame(n: nat, kind: Octet, data: seq<Octet>): seq<Octet> {
    [START_CHAR] + Body(n, kind, data) + [END_CHAR]
  }

  /** What fits into a packet: a sequence number that is printable once encoded, and a length of at
      most two base-95 digits. */
  predicate Sendable(n: nat, kind: Octet, data: seq<Octet>) {
    && n < 224 && !Control(kind) && |data| + 1 < 95 * 95
    && forall i :: 0 <= i < |data| ==> !Control(data[i])
  }

  lemma {:induction false} SumAppend(s: seq<Octet>, c: Octet)
    ensures Sum(s + [c]) == Sum(s) + c
  {
    assert (s + [c])[..|s|] == s;
  }

  /** The body parser, started part of the way into the data of an intact packet. */
  lemma {:induction false} ParseBodyOfFrame(line: seq<Octet>, n: nat, kind: Octet, head: seq<Octet>, data: seq<Octet>, k: nat, pos: nat)
    requires k <= |data| && forall i :: 0 <= i < |data| ==> !Control(data[i])
    requires pos + |data| - k + 2 <= |line|
    requires line[pos..pos + |data| - k] == data[k..]
    requires line[pos + |data| - k] == Check(Sum(head + data)) && line[pos + |data| - k + 1] == END_CHAR
    ensures ParseBody(line, n, kind, Sum(head + data[..k]), |data| - k + 1, pos, data[..k])
         == Attempted(Accepted(n, kind, data), pos + |data| - k + 2)
    decreases |data| - k
  {
    hide Sum, Check, ParseBody;
    if k == |data| {
      assert data[..k] == data;
      CheckPrintable(Sum(head + data));
      ParseBodyStep(line, n, kind, Sum(head + data), 1, pos, data);
    } else {
      DataStep(line, head, data, k, pos);
      ParseBodyStep(line, n, kind, Sum(head + data[..k]), |data| - k + 1, pos, data[..k]);
      ParseBodyOfFrame(line, n, kind, head, data, k + 1, pos + 1);
    }
  }

  /** One more data character. */
  lemma {:induction false} DataStep(line: seq<Octet>, head: seq<Octet>, data: seq<Octet>, k: nat, pos: nat)
    requires k < |data| && pos + |data| - k <= |line| && line[pos..pos + |data| - k] == data[k..]
    ensures line[pos] == data[k] && data[..k + 1] == data[..k] + [data[k]]
    ensures Sum(head + data[..k + 1]) == Sum(head + data[..k]) + data[k]
    ensures line[pos + 1..pos + 1 + |data| - (k + 1)] == data[k + 1..]
  {
    hide Sum;
    assert line[pos] == line[pos..pos + |data| - k][0];
    assert head + data[..k + 1] == (head + data[..k]) + [data[k]];
    SumAppend(head + data[..k], data[k]);
    assert line[pos + 1..pos + 1 + |data| - (k + 1)] == line[pos..pos + |data| - k][1..];
  }

  lemma ParseBodyStep(line: seq<Octet>, n: nat, kind: Octet, sum: nat, length: int, pos: nat, data: seq<Octet>)
    requires pos + 1 < |line| && !Control(line[pos])
    ensures length > 1 ==>
      ParseBody(line, n, kind, sum, length, pos, data) == ParseBody(line, n, kind, sum + line[pos], length - 1, pos + 1, data + [line[pos]])
    ensures length <= 1 && line[pos] == Check(sum) && line[pos + 1] == END_CHAR ==>
      ParseBody(line, n, kind, sum, length, pos, data) == Attempted(Accepted(n, kind, data), pos + 2)
  {
    hide Check;
  }

  lemma SubrangeAt(line: seq<Octet>, pos: nat, f: seq<Octet>)
    requires pos + |f| <= |line| && line[pos..pos + |f|] == f
    ensures forall i :: 0 <= i < |f| ==> line[pos + i] == f[i]
    ensures forall a, b :: 0 <= a <= b <= |f| ==> line[pos + a..pos + b] == f[a..b]
  {
    forall i | 0 <= i < |f| ensures line[pos + i] == f[i] {
      assert line[pos..pos + |f|][i] == f[i];
    }
    forall a, b | 0 <= a <= b <= |f| ensures line[pos + a..pos + b] == f[a..b] {
      forall i | 0 <= i < b - a ensures line[pos + a..pos + b][i] == f[a..b][i] {
        assert line[pos + (a + i)] == f[a + i];
      }
    }
  }

  lemma SumOf3(a: Octet, b: Octet, c: Octet)
    ensures Sum([a, b, c]) == a + b + c
  {
    assert [a, b, c] == [a, b] + [c] && [a, b] == [a] + [b] && [a] == [] + [a];
    SumAppend([a, b], c);
    SumAppend([a], b);
    SumAppend([], a);
  }

  lemma SumOf5(a: Octet, b: Octet, c: Octet, d: Octet, e: Octet)
    ensures Sum([a, b, c, d, e]) == a + b + c + d + e
  {
    assert [a, b, c, d, e] == [a, b, c, d] + [e] && [a, b, c, d] == [a, b, c] + [d];
    SumAppend([a, b, c, d], e);
    SumAppend([a, b, c], d);
    SumOf3(a, b, c);
  }

  lemma ToCharInverts(x: nat)
    requires x < 224
    ensures UnToChar(ToChar(x)) == x && !Control(ToChar(x))
  {
  }

  lemma CheckPrintable(sum: nat)
    ensures !Control(Check(sum))
  {
  }

  lemma ShortFrameParses(line: seq<Octet>, pos: nat, n: nat, kind: Octet, data: seq<Octet>)
    requires Sendable(n, kind, data) && |data| <= 91
    requires pos + |Body(n, kind, data)| < |line| && line[pos..pos + |Body(n, kind, data)|] == Body(n, kind, data)
    requires line[pos + |Body(n, kind, data)|] == END_CHAR
    ensures ParsePacket(line, pos) == Attempted(Accepted(n, kind, data), pos + |Body(n, kind, data)| + 1)
  {
    hide ToChar, UnToChar, Control, Check, Sum, ParseBody;
    var b := Body(n, kind, data);
    var head := [ToChar(|data| + 3), ToChar(n), kind];
    assert |b| == |data| + 4 && b[3 + |data|] == Check(Sum(head + data)) && b[3..3 + |data|] == data;
    assert b[0] == head[0] && b[1] == head[1] && b[2] == head[2];
    hide Body;
    SubrangeAt(line, pos, b);
    assert line[pos + 0] == b[0] && line[pos + 1] == b[1] && line[pos + 2] == b[2];
    ToCharInverts(|data| + 3);
    ToCharInverts(n);
    SumOf3(head[0], head[1], head[2]);
    assert ParsePacket(line, pos) == ParseBody(line, n, kind, Sum(head), |data| + 1, pos + 3, []);
    assert head + data[..0] == head && data[..0] == [] && data[0..] == data;
    assert line[pos + 3..pos + (3 + |data|)] == data;
    assert line[pos + (3 + |data|)] == b[3 + |data|];
    ParseBodyOfFrame(line, n, kind, head, data, 0, pos + 3);
  }

  lemma LongFrameParses(line: seq<Octet>, pos: nat, n: nat, kind: Octet, data: seq<Octet>)
    requires Sendable(n, kind, data) && |data| > 91
    requires pos + |Body(n, kind, data)| < |line| && line[pos..pos + |Body(n, kind, data)|] == Body(n, kind, data)
    requires line[pos + |Body(n, kind, data)|] == END_CHAR
    ensures ParsePacket(line, pos) == Attempted(Accepted(n, kind, data), pos + |Body(n, kind, data)| + 1)
  {
    hide ToChar, UnToChar, Control, Check, Sum, ParseBody;
    var b := Body(n, kind, data);
    var hi, lo := (|data| + 1) / 95, (|data| + 1) % 95;
    var h := [ToChar(0), ToChar(n), kind, ToChar(hi), ToChar(lo)];
    var head := h + [Check(Sum(h))];
    assert |b| == |data| + 7 && b[6 + |data|] == Check(Sum(head + data)) && b[6..6 + |data|] == data;
    assert b[0] == h[0] && b[1] == h[1] && b[2] == h[2] && b[3] == h[3] && b[4] == h[4] && b[5] == Check(Sum(h));
    hide Body;
    SubrangeAt(line, pos, b);
    assert line[pos + 0] == b[0] && line[pos + 1] == b[1] && line[pos + 2] == b[2];
    assert line[pos + 3] == b[3] && line[pos + 4] == b[4] && line[pos + 5] == b[5];
    ToCharInverts(0);
    ToCharInverts(n);
    ToCharInverts(hi);
    ToCharInverts(lo);
    CheckPrintable(Sum(h));
    SumOf5(h[0], h[1], h[2], h[3], h[4]);
    SumAppend(h, Check(Sum(h)));
    assert ParsePacket(line, pos) == ParseBody(line, n, kind, Sum(head), hi * 95 + lo, pos + 6, []);
    assert head + data[..0] == head && data[..0] == [] && data[0..] == data;
    assert line[pos + 6..pos + (6 + |data|)] == data;
    assert line[pos + (6 + |data|)] == b[6 + |data|];
    ParseBodyOfFrame(line, n, kind, head, data, 0, pos + 6);
  }

  /** Every packet a sender frames, short or long, is accepted as it was sent. */
  lemma {:induction false} FrameParses(line: seq<Octet>, pos: nat, n: nat, kind: Octet, data: seq<Octet>)
    requires Sendable(n, kind, data)
    requires pos + |Frame(n, kind, data)| <= |line|
    requires line[pos..pos + |Frame(n, kind, data)|] == Frame(n, kind, data)
    ensures Parse(line, pos) == Attempted(Accepted(n, kind, data), pos + |Frame(n, kind, data)|)
  {
    var f, b := Frame(n, kind, data), Body(n, kind, data);
    hide Body;
    SubrangeAt(line, pos, f);
    assert line[pos + 0] == f[0] == START_CHAR;
    assert line[pos + 1..pos + (1 + |b|)] == f[1..1 + |b|] == b;
    assert line[pos + (1 + |b|)] == f[1 + |b|] == END_CHAR;
    if |data| <= 91 { ShortFrameParses(line, pos + 1, n, kind, data); } else { LongFrameParses(line, pos + 1, n, kind, data); }
  }

  // -------------------------------------------------------------------------
  // What is accepted

  lemma {:induction false} SumPrepend(c: Octet, s: seq<Octet>)
    ensures Sum([c] + s) == c + Sum(s)
  {
    if s == [] {
      assert [c] + s == [] + [c];
      SumAppend([], c);
    } else {
      var init, d := s[..|s| - 1], s[|s| - 1];
      SumPrepend(c, init);
      assert [c] + s == ([c] + init) + [d] && s == init + [d];
      SumAppend([c] + init, d);
      SumAppend(init, d);
    }
  }

  lemma {:induction false} SumJoins(a: seq<Octet>, b: seq<Octet>)
    ensures Sum(a + b) == Sum(a) + Sum(b)
  {
    if b == [] {
      assert a + b == a;
    } else {
      var init, d := b[..|b| - 1], b[|b| - 1];
      SumJoins(a, init);
      assert a + b == (a + init) + [d] && b == init + [d];
      SumAppend(a + init, d);
      SumAppend(init, d);
    }
  }

  /** How many data characters a remaining length stands for. */
  function DataLength(length: int): nat {
    if length > 1 then length - 1 else 0
  }

  /** The data characters, block check and end of line that a body must have to be accepted. */
  ghost predicate BodyIntact(line: seq<Octet>, sum: nat, length: int, pos: nat, data: seq<Octet>, next: nat)
    requires pos <= |line|
  {
    var k := DataLength(length);
    && next == pos + k + 2 <= |line| && data == line[pos..pos + k]
    && (forall i :: pos <= i <= pos + k ==> !Control(line[i]))
    && line[pos + k] == Check(sum + Sum(line[pos..pos + k])) && line[pos + k + 1] == END_CHAR
  }

  lemma {:induction false} BodyExactly(line: seq<Octet>, n: nat, kind: Octet, sum: nat, length: int, pos: nat, before: seq<Octet>,
                                       data: seq<Octet>, next: nat)
    requires pos <= |line|
    ensures ParseBody(line, n, kind, sum, length, pos, before) == Attempted(Accepted(n, kind, before + data), next)
      <==> BodyIntact(line, sum, length, pos, data, next)
    decreases DataLength(length)
  {
    hide Check, Sum, ParseBody, Control, BodyIntact;
    ParseBodyUnfolds(line, n, kind, sum, length, pos, before);
    BodyStarts(line, sum, length, pos, data, next);
    if pos < |line| && !Control(line[pos]) {
      if length > 1 {
        DataExactly(line, n, kind, sum, length, pos, before, data, next);
      } else if data == [] {
        assert before + data == before;
      }
    }
  }

  /** The first character of a body; one without data is check and end of line. */
  lemma BodyStarts(line: seq<Octet>, sum: nat, length: int, pos: nat, data: seq<Octet>, next: nat)
    requires pos <= |line|
    ensures BodyIntact(line, sum, length, pos, data, next) ==> pos < |line| && !Control(line[pos])
    ensures length <= 1 ==>
      (BodyIntact(line, sum, length, pos, data, next) <==>
         next == pos + 2 <= |line| && data == [] && !Control(line[pos]) && line[pos] == Check(sum) && line[pos + 1] == END_CHAR)
  {
    hide Check, Control, Sum;
    assert line[pos..pos] == [];
    SumNone();
  }

  lemma SumNone()
    ensures Sum([]) == 0
  {
  }

  lemma ParseBodyUnfolds(line: seq<Octet>, n: nat, kind: Octet, sum: nat, length: int, pos: nat, data: seq<Octet>)
    requires pos <= |line|
    ensures ParseBody(line, n, kind, sum, length, pos, data) ==
      if pos >= |line| then Starved
      else if Control(line[pos]) then Attempted(Failed(n), pos + 1)
      else if length > 1 then ParseBody(line, n, kind, sum + line[pos], length - 1, pos + 1, data + [line[pos]])
      else if line[pos] != Check(sum) then Attempted(Failed(n), pos + 1)
      else if pos + 1 >= |line| then Starved
      else if line[pos + 1] != END_CHAR then Attempted(Failed(n), pos + 2)
      else Attempted(Accepted(n, kind, data), pos + 2)
  {
    hide Check, Control;
  }

  /** One more data character. */
  lemma {:induction false} DataExactly(line: seq<Octet>, n: nat, kind: Octet, sum: nat, length: int, pos: nat, before: seq<Octet>,
                                       data: seq<Octet>, next: nat)
    requires pos < |line| && !Control(line[pos]) && length > 1
    ensures ParseBody(line, n, kind, sum + line[pos], length - 1, pos + 1, before + [line[pos]])
              == Attempted(Accepted(n, kind, before + data), next)
      <==> BodyIntact(line, sum, length, pos, data, next)
    decreases DataLength(length), 0
  {
    hide Check, Sum, ParseBody, Control;
    var c := line[pos];
    var p := ParseBody(line, n, kind, sum + c, length - 1, pos + 1, before + [c]);
    if BodyIntact(line, sum, length, pos, data, next) {
      IntactStep(line, sum, length, pos, data, next);
      BodyExactly(line, n, kind, sum + c, length - 1, pos + 1, before + [c], data[1..], next);
      assert before + [c] + data[1..] == before + data;
    }
    if p == Attempted(Accepted(n, kind, before + data), next) {
      BodyGrows(line, n, kind, sum + c, length - 1, pos + 1, before + [c]);
      var rest := (before + data)[|before| + 1..];
      assert before + data == before + [c] + rest;
      BodyExactly(line, n, kind, sum + c, length - 1, pos + 1, before + [c], rest, next);
      assert data == (before + data)[|before|..] == [c] + rest;
      IntactBack(line, sum, length, pos, rest, next);
    }
  }

  /** What is accepted goes on from what was read before. */
  lemma {:induction false} BodyGrows(line: seq<Octet>, n: nat, kind: Octet, sum: nat, length: int, pos: nat, before: seq<Octet>)
    requires pos <= |line|
    ensures var p := ParseBody(line, n, kind, sum, length, pos, before);
      p.Attempted? && p.a.Accepted? ==> before <= p.a.data
    decreases DataLength(length)
  {
    hide Check, Control, ParseBody;
    ParseBodyUnfolds(line, n, kind, sum, length, pos, before);
    if pos < |line| && length > 1 { BodyGrows(line, n, kind, sum + line[pos], length - 1, pos + 1, before + [line[pos]]); }
  }

  lemma IntactStep(line: seq<Octet>, sum: nat, length: int, pos: nat, data: seq<Octet>, next: nat)
    requires pos < |line| && length > 1 && BodyIntact(line, sum, length, pos, data, next)
    ensures data != [] && data[0] == line[pos] && BodyIntact(line, sum + line[pos], length - 1, pos + 1, data[1..], next)
  {
    hide Check, Sum, Control;
    var k := DataLength(length);
    assert line[pos..pos + k] == [line[pos]] + line[pos + 1..pos + k];
    SumPrepend(line[pos], line[pos + 1..pos + k]);
  }

  lemma IntactBack(line: seq<Octet>, sum: nat, length: int, pos: nat, rest: seq<Octet>, next: nat)
    requires pos < |line| && length > 1 && !Control(line[pos]) && BodyIntact(line, sum + line[pos], length - 1, pos + 1, rest, next)
    ensures BodyIntact(line, sum, length, pos, [line[pos]] + rest, next)
  {
    hide Check, Sum, Control;
    var k := DataLength(length);
    assert line[pos..pos + k] == [line[pos]] + line[pos + 1..pos + k];
    SumPrepend(line[pos], line[pos + 1..pos + k]);
  }

  /** A packet on the line, from its length character to its end of line, all characters of it printable
      and all checks right: three characters, or six for a long packet, then as many data characters as
      the length says, then check and end of line. */
  ghost predicate Intact(s: seq<Octet>, n: nat, kind: Octet, data: seq<Octet>) {
    var h := if |s| > 0 && s[0] == 0x20 then 6 else 3;
    && |s| == h + |data| + 2 && (forall i :: 0 <= i < |s| - 1 ==> 0x20 <= s[i]) && s[|s| - 1] == 0x0D
    && s[1] == n + 0x20 && s[2] == kind && s[h..h + |data|] == data
    && (h == 3 ==> |data| == DataLength(s[0] as int - 0x20 - 2))
    && (h == 6 ==> |data| == DataLength((s[3] as int - 0x20) * 95 + s[4] as int - 0x20) && s[5] == Check(s[0] as int + s[1] as int + s[2] as int + s[3] as int + s[4] as int))
    && s[h + |data|] == Check(Sum(s[..h + |data|]))
  }

  /** How much comes in front of the data. */
  function HeadSize(line: seq<Octet>, pos: nat): nat
    requires pos < |line|
  {
    if line[pos] == 0x20 then 6 else 3
  }

  /** The head of a packet is there, printable, and in a long packet has the right check. */
  ghost predicate HeadIntact(line: seq<Octet>, pos: nat) {
    && pos < |line| && pos + HeadSize(line, pos) <= |line|
    && (forall i :: pos <= i < pos + HeadSize(line, pos) ==> 0x20 <= line[i])
    && (line[pos] == 0x20 ==> line[pos + 5] == Check(line[pos] as int + line[pos + 1] as int + line[pos + 2] as int + line[pos + 3] as int + line[pos + 4] as int))
  }

  function LengthLeft(line: seq<Octet>, pos: nat): int
    requires pos < |line| && pos + HeadSize(line, pos) <= |line|
  {
    if line[pos] == 0x20 then (line[pos + 3] as int - 0x20) * 95 + line[pos + 4] as int - 0x20 else line[pos] as int - 0x20 - 2
  }

  lemma SumOfHead(line: seq<Octet>, pos: nat)
    requires pos < |line| && pos + HeadSize(line, pos) <= |line|
    ensures Sum(line[pos..pos + HeadSize(line, pos)]) ==
      if line[pos] == 0x20 then line[pos] as int + line[pos + 1] as int + line[pos + 2] as int + line[pos + 3] as int + line[pos + 4] as int + line[pos + 5] as int
      else line[pos] as int + line[pos + 1] as int + line[pos + 2] as int
  {
    hide Sum;
    if line[pos] == 0x20 {
      assert line[pos..pos + 6] == [line[pos], line[pos + 1], line[pos + 2], line[pos + 3], line[pos + 4]] + [line[pos + 5]];
      SumOf5(line[pos], line[pos + 1], line[pos + 2], line[pos + 3], line[pos + 4]);
      SumAppend([line[pos], line[pos + 1], line[pos + 2], line[pos + 3], line[pos + 4]], line[pos + 5]);
    } else {
      assert line[pos..pos + 3] == [line[pos], line[pos + 1], line[pos + 2]];
      SumOf3(line[pos], line[pos + 1], line[pos + 2]);
    }
  }

  lemma HeadParses(line: seq<Octet>, pos: nat)
    requires pos <= |line|
    ensures !HeadIntact(line, pos) ==> ParsePacket(line, pos).Attempted? ==> !ParsePacket(line, pos).a.Accepted?
    ensures HeadIntact(line, pos) ==>
      var h := HeadSize(line, pos);
      ParsePacket(line, pos) == ParseBody(line, line[pos + 1] - 0x20, line[pos + 2], Sum(line[pos..pos + h]), LengthLeft(line, pos), pos + h, [])
  {
    hide Check, Sum, ParseBody;
    if pos < |line| && pos + HeadSize(line, pos) <= |line| { SumOfHead(line, pos); }
  }

  /** Head and body together. */
  lemma JoinIntact(line: seq<Octet>, pos: nat, n: nat, kind: Octet, data: seq<Octet>, next: nat)
    requires HeadIntact(line, pos) && n == line[pos + 1] - 0x20 && kind == line[pos + 2]
    ensures BodyIntact(line, Sum(line[pos..pos + HeadSize(line, pos)]), LengthLeft(line, pos), pos + HeadSize(line, pos), data, next)
      <==> pos <= next <= |line| && Intact(line[pos..next], n, kind, data)
  {
    hide Check, Sum, DataLength;
    var h, k := HeadSize(line, pos), DataLength(LengthLeft(line, pos));
    if pos + h + k + 2 == next <= |line| {
      SlicesOf(line, pos, h, k);
      SumJoins(line[pos..pos + h], line[pos + h..pos + h + k]);
      PrintableIn(line, pos, h, k);
    }
  }

  /** A packet on the line: head, data, check and end of line. */
  lemma SlicesOf(line: seq<Octet>, pos: nat, h: nat, k: nat)
    requires pos + h + k + 2 <= |line|
    ensures var s := line[pos..pos + h + k + 2];
      && (forall i :: 0 <= i < |s| ==> s[i] == line[pos + i])
      && s[h..h + k] == line[pos + h..pos + h + k]
      && s[..h + k] == line[pos..pos + h] + line[pos + h..pos + h + k]
  {
  }

  lemma PrintableIn(line: seq<Octet>, pos: nat, h: nat, k: nat)
    requires pos + h + k + 2 <= |line| && forall i :: pos <= i < pos + h ==> 0x20 <= line[i]
    ensures var s := line[pos..pos + h + k + 2];
      (forall i :: pos + h <= i <= pos + h + k ==> !Control(line[i])) <==> (forall i :: 0 <= i < |s| - 1 ==> 0x20 <= s[i])
  {
    var s := line[pos..pos + h + k + 2];
    if forall i :: 0 <= i < |s| - 1 ==> 0x20 <= s[i] {
      forall i | pos + h <= i <= pos + h + k ensures !Control(line[i]) { assert line[i] == s[i - pos]; }
    }
  }

  /** Exactly the intact packets are accepted, with the number, type and data they carry. */
  lemma AcceptedExactly(line: seq<Octet>, pos: nat, n: nat, kind: Octet, data: seq<Octet>, next: nat)
    requires pos <= |line|
    ensures ParsePacket(line, pos) == Attempted(Accepted(n, kind, data), next)
      <==> pos <= next <= |line| && Intact(line[pos..next], n, kind, data)
  {
    hide Check, Sum, ParseBody, ParsePacket, BodyIntact, Intact;
    HeadParses(line, pos);
    if HeadIntact(line, pos) {
      var h := HeadSize(line, pos);
      BodyNames(line, line[pos + 1] - 0x20, line[pos + 2], Sum(line[pos..pos + h]), LengthLeft(line, pos), pos + h, []);
      IntactNames(line, pos, n, kind, data, next);
      if n == line[pos + 1] - 0x20 && kind == line[pos + 2] {
        assert [] + data == data;
        BodyExactly(line, n, kind, Sum(line[pos..pos + h]), LengthLeft(line, pos), pos + h, [], data, next);
        JoinIntact(line, pos, n, kind, data, next);
      }
    } else if pos <= next <= |line| && Intact(line[pos..next], n, kind, data) {
      IntactHasHead(line, pos, n, kind, data, next);
    }
  }

  lemma IntactHasHead(line: seq<Octet>, pos: nat, n: nat, kind: Octet, data: seq<Octet>, next: nat)
    requires pos <= next <= |line| && Intact(line[pos..next], n, kind, data)
    ensures HeadIntact(line, pos)
  {
    hide Check, Sum;
    var s := line[pos..next];
    assert forall i :: 0 <= i < |s| ==> s[i] == line[pos + i];
    assert line[pos] == s[0];
    forall i | pos <= i < pos + HeadSize(line, pos) ensures 0x20 <= line[i] { assert line[i] == s[i - pos]; }
  }

  lemma IntactNames(line: seq<Octet>, pos: nat, n: nat, kind: Octet, data: seq<Octet>, next: nat)
    requires pos + 2 < |line|
    ensures pos <= next <= |line| && Intact(line[pos..next], n, kind, data) ==> n == line[pos + 1] - 0x20 && kind == line[pos + 2]
  {
    hide Check, Sum;
  }

  /** Number and type are passed through. */
  lemma {:induction false} BodyNames(line: seq<Octet>, n: nat, kind: Octet, sum: nat, length: int, pos: nat, before: seq<Octet>)
    requires pos <= |line|
    ensures var p := ParseBody(line, n, kind, sum, length, pos, before);
      p.Attempted? && p.a.Accepted? ==> p.a.n == n && p.a.kind == kind
    decreases DataLength(length)
  {
    hide Check, Control, ParseBody;
    ParseBodyUnfolds(line, n, kind, sum, length, pos, before);
    if pos < |line| && length > 1 { BodyNames(line, n, kind, sum + line[pos], length - 1, pos + 1, before + [line[pos]]); }
  }
}
