/** The log as a stream: every line starts with a level, and a line that comes without one gets <4>. */
module LogStream {
  import opened CStrings

  /** The text starts with a level of its own. */
  predicate Leveled(s: string) {
    At(s, 0) == '<' && '0' <= At(s, 1) <= '7' && At(s, 2) == '>'
  }

  const DEFAULT_MARK := "<4>"

  function LevelOf(s: string): int {
    if Leveled(s) then s[1] as int - '0' as int else 4
  }

  function MarkOf(s: string): string {
    if Leveled(s) then "" else DEFAULT_MARK
  }

  function LevelPast(level: int, c: char): int {
    if c == '\n' then -1 else level
  }

  /** What a call adds to the stream, given the level of the line it goes on with, -1 at the start of a
      line. */
  function Marked(level: int, s: string): string
    decreases |s|, if level < 0 then 1 else 0
  {
    if s == "" then ""
    else if level < 0 then MarkOf(s) + Marked(LevelOf(s), s)
    else [s[0]] + Marked(LevelPast(level, s[0]), s[1..])
  }

  /** The level a call leaves behind. */
  function After(level: int, s: string): int
    decreases |s|, if level < 0 then 1 else 0
  {
    if s == "" then level
    else if level < 0 then After(LevelOf(s), s)
    else After(LevelPast(level, s[0]), s[1..])
  }

  /** The stream and the level after a number of calls. */
  function Stream(calls: seq<string>): string {
    if calls == [] then "" else Stream(calls[..|calls| - 1]) + Marked(LevelAfter(calls[..|calls| - 1]), calls[|calls| - 1])
  }

  function LevelAfter(calls: seq<string>): int {
    if calls == [] then -1 else After(LevelAfter(calls[..|calls| - 1]), calls[|calls| - 1])
  }

  // -------------------------------------------------------------------------
  // Every line carries a level

  /** A line starts at i. */
  predicate LineStart(stream: string, i: nat) {
    i < |stream| && (i == 0 || stream[i - 1] == '\n')
  }

  /** Every line starts with <0> to <7>. */
  ghost predicate AllLeveled(stream: string) {
    forall i: nat :: LineStart(stream, i) ==> Leveled(stream[i..])
  }

  /** The level is that of the line the stream is in the middle of. */
  predicate InLine(stream: string, level: int) {
    level < 0 <==> (stream == "" || stream[|stream| - 1] == '\n')
  }

  /** One more character inside a line, or three and more at the start of one. */
  lemma MoreLeveled(stream: string, t: string)
    requires AllLeveled(stream) && t != ""
    requires forall i :: 0 <= i < |t| - 1 ==> t[i] != '\n'
    requires (stream == "" || stream[|stream| - 1] == '\n') ==> Leveled(t)
    ensures AllLeveled(stream + t)
  {
    var all := stream + t;
    forall i: nat | LineStart(all, i) ensures Leveled(all[i..]) {
      if i < |stream| {
        assert LineStart(stream, i);
        StillLeveled(stream[i..], t);
        assert all[i..] == stream[i..] + t;
      } else {
        OnlyStart(stream, t, i);
        assert all[i..] == t;
      }
    }
  }

  lemma OnlyStart(stream: string, t: string, i: nat)
    requires forall j :: 0 <= j < |t| - 1 ==> t[j] != '\n'
    ensures LineStart(stream + t, i) && i >= |stream| ==> i == |stream|
  {
  }

  lemma StillLeveled(s: string, t: string)
    requires Leveled(s)
    ensures Leveled(s + t)
  {
  }

  lemma InLineMore(stream: string, t: string)
    requires t != ""
    ensures InLine(stream + t, if t[|t| - 1] == '\n' then -1 else 0)
  {
    assert (stream + t)[|stream + t| - 1] == t[|t| - 1];
  }

  /** Characters that are no line feeds are passed on as they are. */
  lemma {:induction false} PassOn(level: int, t: string, s: string)
    requires level >= 0 && forall i :: 0 <= i < |t| ==> t[i] != '\n'
    ensures Marked(level, t + s) == t + Marked(level, s) && After(level, t + s) == After(level, s)
  {
    hide Marked, After;
    if t != "" {
      Peel(level, t + s);
      assert (t + s)[0] == t[0] && (t + s)[1..] == t[1..] + s;
      PassOn(level, t[1..], s);
      assert t == [t[0]] + t[1..];
      assert [t[0]] + (t[1..] + Marked(level, s)) == [t[0]] + t[1..] + Marked(level, s);
    } else {
      assert t + s == s && t + Marked(level, s) == Marked(level, s);
    }
  }

  /** A line that brings its level along starts with three characters that are no line feeds. */
  lemma {:induction false} OwnLevel(s: string)
    requires Leveled(s)
    ensures |s| >= 3 && LevelOf(s) >= 0
    ensures Marked(LevelOf(s), s) == s[..3] + Marked(LevelOf(s), s[3..])
    ensures After(LevelOf(s), s) == After(LevelOf(s), s[3..])
    ensures Leveled(s[..3]) && forall i :: 0 <= i < 3 ==> s[..3][i] != '\n'
  {
    hide Marked, After, Leveled, LevelOf;
    LevelShape(s);
    assert s == s[..3] + s[3..];
    PassOn(LevelOf(s), s[..3], s[3..]);
  }

  lemma LevelShape(s: string)
    requires Leveled(s)
    ensures |s| >= 3 && LevelOf(s) >= 0 && Leveled(s[..3]) && forall i :: 0 <= i < 3 ==> s[..3][i] != '\n'
  {
  }

  lemma {:induction false} Peel(level: int, s: string)
    requires s != "" && level >= 0
    ensures Marked(level, s) == [s[0]] + Marked(LevelPast(level, s[0]), s[1..])
    ensures After(level, s) == After(LevelPast(level, s[0]), s[1..])
  {
  }

  /** A call keeps every line of the stream leveled. */
  lemma {:induction false} MarkedLeveled(stream: string, level: int, s: string)
    requires AllLeveled(stream) && InLine(stream, level)
    ensures AllLeveled(stream + Marked(level, s)) && InLine(stream + Marked(level, s), After(level, s))
    decreases |s|, if level < 0 then 1 else 0
  {
    hide AllLeveled;
    if s == "" {
      assert stream + "" == stream;
    } else if level >= 0 {
      var l := LevelPast(level, s[0]);
      MoreLeveled(stream, [s[0]]);
      InLineMore(stream, [s[0]]);
      MarkedLeveled(stream + [s[0]], l, s[1..]);
      assert stream + ([s[0]] + Marked(l, s[1..])) == stream + [s[0]] + Marked(l, s[1..]);
    } else if Leveled(s) {
      OwnLevel(s);
      MoreLeveled(stream, s[..3]);
      InLineMore(stream, s[..3]);
      MarkedLeveled(stream + s[..3], LevelOf(s), s[3..]);
      assert stream + (s[..3] + Marked(LevelOf(s), s[3..])) == stream + s[..3] + Marked(LevelOf(s), s[3..]);
      assert "" + Marked(LevelOf(s), s) == Marked(LevelOf(s), s);
    } else {
      MoreLeveled(stream, DEFAULT_MARK);
      InLineMore(stream, DEFAULT_MARK);
      MarkedLeveled(stream + DEFAULT_MARK, 4, s);
      assert stream + (DEFAULT_MARK + Marked(4, s)) == stream + DEFAULT_MARK + Marked(4, s);
    }
  }

  /** Over every sequence of calls each line of the stream starts with <0> to <7>. */
  lemma {:induction false} StreamLeveled(calls: seq<string>)
    ensures AllLeveled(Stream(calls)) && InLine(Stream(calls), LevelAfter(calls))
  {
    if calls != [] {
      var before := calls[..|calls| - 1];
      StreamLeveled(before);
      MarkedLeveled(Stream(before), LevelAfter(before), calls[|calls| - 1]);
    }
  }

  // -------------------------------------------------------------------------
  // Splitting a text into calls

  /** A line starts at position i of a call. */
  predicate Starts(level: int, a: string, i: nat) {
    if i == 0 then level < 0 else i < |a| && a[i - 1] == '\n'
  }

  /** The cut between a and b goes through the level that a line brings along. */
  predicate Torn(level: int, a: string, b: string) {
    exists i :: 0 <= i < |a| && Starts(level, a, i) && !Leveled(a[i..]) && Leveled(a[i..] + b)
  }

  lemma TornStep(level: int, a: string, b: string)
    requires level >= 0 && a != ""
    ensures Torn(level, a, b) <==> Torn(LevelPast(level, a[0]), a[1..], b)
  {
    var l, t := LevelPast(level, a[0]), a[1..];
    if Torn(level, a, b) {
      var i :| 0 <= i < |a| && Starts(level, a, i) && !Leveled(a[i..]) && Leveled(a[i..] + b);
      assert t[i - 1..] == a[i..] && Starts(l, t, i - 1);
    }
    if Torn(l, t, b) {
      var i :| 0 <= i < |t| && Starts(l, t, i) && !Leveled(t[i..]) && Leveled(t[i..] + b);
      assert a[i + 1..] == t[i..] && Starts(level, a, i + 1);
    }
  }

  lemma TornStart(level: int, l: int, a: string, b: string)
    requires level < 0 <= l && a != ""
    ensures Torn(level, a, b) <==> (!Leveled(a) && Leveled(a + b)) || Torn(l, a, b)
  {
    assert a[0..] == a;
    if Torn(level, a, b) && (Leveled(a) || !Leveled(a + b)) {
      var i :| 0 <= i < |a| && Starts(level, a, i) && !Leveled(a[i..]) && Leveled(a[i..] + b);
      assert Starts(l, a, i);
    }
    if Torn(l, a, b) {
      var i :| 0 <= i < |a| && Starts(l, a, i) && !Leveled(a[i..]) && Leveled(a[i..] + b);
      assert Starts(level, a, i);
    }
    if !Leveled(a) && Leveled(a + b) { assert Starts(level, a, 0); }
  }

  /** Inside a line the level makes no difference to what is passed on. */
  lemma {:induction false} SameInside(l: int, k: int, s: string)
    requires l >= 0 && k >= 0
    ensures Marked(l, s) == Marked(k, s)
  {
    hide Marked, After;
    if s == "" {
      NothingMarked(l);
      NothingMarked(k);
    } else {
      Peel(l, s);
      Peel(k, s);
      if s[0] != '\n' { SameInside(l, k, s[1..]); }
    }
  }

  lemma {:induction false} NothingMarked(level: int)
    ensures Marked(level, "") == "" && After(level, "") == level
  {
  }

  lemma {:induction false} Opened(level: int, s: string)
    requires level < 0 && s != ""
    ensures Marked(level, s) == MarkOf(s) + Marked(LevelOf(s), s) && After(level, s) == After(LevelOf(s), s)
    ensures LevelOf(s) >= 0
  {
    hide Marked, After, Leveled;
    OpenedLevel(s);
    assert Marked(level, s) == MarkOf(s) + Marked(LevelOf(s), s) by { OpenedText(level, s); }
    assert After(level, s) == After(LevelOf(s), s) by { OpenedText(level, s); }
  }

  lemma OpenedLevel(s: string)
    ensures LevelOf(s) >= 0
  {
  }

  lemma {:induction false} OpenedText(level: int, s: string)
    requires level < 0 && s != ""
    ensures Marked(level, s) == MarkOf(s) + Marked(LevelOf(s), s) && After(level, s) == After(LevelOf(s), s)
  {
    hide Leveled;
  }

  /** Cutting a call in two makes no difference to the stream, exactly when the cut does not go through
      a level. */
  lemma {:induction false} SplitExactly(level: int, a: string, b: string)
    ensures Marked(level, a + b) == Marked(level, a) + Marked(After(level, a), b) <==> !Torn(level, a, b)
    decreases |a|, if level < 0 then 1 else 0
  {
    hide Marked, After, Leveled, Torn;
    if a == "" {
      NothingMarked(level);
      NeverTorn(level, b);
      assert a + b == b && "" + Marked(level, b) == Marked(level, b);
    } else if level >= 0 {
      var l := LevelPast(level, a[0]);
      Peel(level, a);
      Peel(level, a + b);
      assert (a + b)[0] == a[0] && (a + b)[1..] == a[1..] + b;
      TornStep(level, a, b);
      SplitExactly(l, a[1..], b);
      Cons(a[0], Marked(l, a[1..] + b), Marked(l, a[1..]), Marked(After(l, a[1..]), b));
    } else {
      Opened(level, a);
      Opened(level, a + b);
      TornStart(level, LevelOf(a), a, b);
      SplitExactly(LevelOf(a), a, b);
      SameInside(LevelOf(a + b), LevelOf(a), a + b);
      if Leveled(a) { StillLeveled(a, b); }
      if !Leveled(a) && Leveled(a + b) { TornShort(a, b); }
      Glue(MarkOf(a + b), MarkOf(a), Marked(LevelOf(a), a + b), Marked(LevelOf(a), a), Marked(After(level, a), b));
    }
  }

  lemma NeverTorn(level: int, b: string)
    ensures !Torn(level, "", b)
  {
  }

  lemma Cons(c: char, x: string, y: string, z: string)
    ensures [c] + x == [c] + y + z <==> x == y + z
  {
    assert [c] + y + z == [c] + (y + z);
    assert ([c] + x)[1..] == x && ([c] + (y + z))[1..] == y + z;
  }

  /** The same mark in front changes nothing, a mark on one side only makes a difference in length. */
  lemma Glue(m: string, n: string, x: string, y: string, z: string)
    requires m == n || (m == "" && n != "" && x == y + z)
    ensures (m + x == n + y + z) <==> m == n && x == y + z
  {
    if m == n {
      assert m + (y + z) == m + y + z;
      if m + x == m + y + z { assert x == (m + x)[|m|..] == (m + y + z)[|m|..] == y + z; }
    } else {
      assert |m + x| != |n + y + z|;
    }
  }

  /** A torn level: nothing else is in a. */
  lemma TornShort(a: string, b: string)
    requires a != "" && !Leveled(a) && Leveled(a + b)
    ensures !Torn(LevelOf(a), a, b) && MarkOf(a + b) == "" && MarkOf(a) != ""
  {
    assert forall i :: 0 <= i < |a| ==> (a + b)[i] == a[i];
  }

  /** A cut that makes a difference: a line "<3>x" logged at once keeps its level, logged in two calls
      it gets another one. */
  lemma TornExample()
    ensures Stream(["<3>x"]) == "<3>x" && Stream(["<", "3>x"]) == "<4><3>x"
  {
    hide Marked, After, Stream;
    TornPieces();
    StreamOfTwo("<3>x", "");
    StreamOfTwo("<", "3>x");
    assert "<4><" + "3>x" == "<4><3>x";
  }

  lemma {:induction false} StreamOfTwo(a: string, b: string)
    ensures Stream([a]) == Marked(-1, a) && Stream([a, b]) == Marked(-1, a) + Marked(After(-1, a), b)
  {
    hide Marked, After;
    assert [a][..0] == [] && [a, b][..1] == [a];
    assert "" + Marked(-1, a) == Marked(-1, a);
  }

  lemma TornPieces()
    ensures Marked(-1, "<3>x") == "<3>x" && Marked(-1, "<") == "<4><" && After(-1, "<") == 4 && Marked(4, "3>x") == "3>x"
  {
    hide Marked, After;
    Opened(-1, "<3>x");
    PassOn(3, "<3>x", "");
    NothingMarked(3);
    assert "<3>x" + "" == "<3>x" && "" + "<3>x" == "<3>x";
    Opened(-1, "<");
    PassOn(4, "<", "");
    NothingMarked(4);
    assert "<" + "" == "<" && DEFAULT_MARK + "<" == "<4><";
    PassOn(4, "3>x", "");
    assert "3>x" + "" == "3>x";
  }

  // -------------------------------------------------------------------------
  // Line by line, in characters

  /** A line brings its own level along. */
  ghost predicate OwnMark(line: string) {
    |line| >= 3 && line[0] == '<' && line[1] in {'0', '1', '2', '3', '4', '5', '6', '7'} && line[2] == '>'
  }

  lemma OwnMarkIs(line: string, rest: string)
    requires '\n' !in line && (rest == "" || rest[0] == '\n')
    ensures OwnMark(line) <==> Leveled(line + rest)
    ensures OwnMark(line) ==> LevelOf(line + rest) == line[1] as int - '0' as int
  {
    var s := line + rest;
    assert forall i :: 0 <= i < |line| ==> s[i] == line[i];
  }

  /** A whole line goes to the stream as it is, behind <4> if it brings no level along; and then the next
      line starts. */
  lemma {:induction false} LineMarked(line: string, rest: string)
    requires '\n' !in line
    ensures Marked(-1, line + "\n" + rest) == (if OwnMark(line) then "" else "<4>") + line + "\n" + Marked(-1, rest)
  {
    hide Marked, After, Leveled, OwnMark;
    var s, end := line + "\n" + rest, "\n" + rest;
    assert s == line + end;
    OwnMarkIs(line, end);
    OpenLine(s);
    PassOn(LevelOf(s), line, end);
    EndLine(LevelOf(s), rest);
    assert (if OwnMark(line) then "" else "<4>") == MarkOf(s);
    assert MarkOf(s) + (line + ("\n" + Marked(-1, rest))) == MarkOf(s) + line + "\n" + Marked(-1, rest);
  }

  /** A line that is not finished: the same, and its level is remembered. */
  lemma {:induction false} PartMarked(line: string)
    requires '\n' !in line && line != ""
    ensures Marked(-1, line) == (if OwnMark(line) then "" else "<4>") + line
    ensures After(-1, line) == if OwnMark(line) then line[1] as int - '0' as int else 4
  {
    hide Marked, After, Leveled, OwnMark;
    assert line + "" == line;
    OwnMarkIs(line, "");
    OpenLine(line);
    PassOn(LevelOf(line), line, "");
    NothingMarked(LevelOf(line));
  }

  lemma {:induction false} OpenLine(s: string)
    requires s != ""
    ensures Marked(-1, s) == MarkOf(s) + Marked(LevelOf(s), s) && After(-1, s) == After(LevelOf(s), s)
    ensures 0 <= LevelOf(s) && LevelOf(s) == if Leveled(s) then s[1] as int - '0' as int else 4
    ensures MarkOf(s) == if Leveled(s) then "" else "<4>"
  {
  }

  lemma {:induction false} EndLine(level: int, rest: string)
    requires level >= 0
    ensures Marked(level, "\n" + rest) == "\n" + Marked(-1, rest)
  {
    assert ("\n" + rest)[1..] == rest;
  }
}
