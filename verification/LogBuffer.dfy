/** The log buffer: a ring in memory that holds the end of the stream. */
module LogBuffer {
  import opened Words
  import opened CStrings
  import opened LogStream

  const LOGBUFF_LEN := 16384

  /** The last characters of a text, as many as the ring holds. */
  function Latest(s: string): string {
    if |s| <= LOGBUFF_LEN then s else s[|s| - LOGBUFF_LEN..]
  }

  lemma LatestGrows(s: string, c: char)
    ensures Latest(s + [c]) == if |Latest(s)| < LOGBUFF_LEN then Latest(s) + [c] else Latest(s)[1..] + [c]
  {
  }

  /** The place of the i-th character of a ring that starts at start. */
  function Place(start: nat, i: nat): (p: nat)
    ensures p < LOGBUFF_LEN
  {
    (start + i) % LOGBUFF_LEN
  }

  /** What a ring holds, oldest first. */
  function Window(r: string, start: nat, size: nat): (s: string)
    requires |r| == LOGBUFF_LEN
    ensures |s| == size && forall i :: 0 <= i < size ==> s[i] == r[Place(start, i)]
  {
    seq(size, i requires 0 <= i => r[Place(start, i)])
  }

  /** Storing one more character, over the oldest one when the ring is full. */
  lemma WindowGrows(r: string, start: nat, size: nat, c: char)
    requires |r| == LOGBUFF_LEN && start < WORD && size <= LOGBUFF_LEN
    ensures var now := r[Place(start, size) := c];
      if size < LOGBUFF_LEN then Window(now, start, size + 1) == Window(r, start, size) + [c]
      else Window(now, (start + 1) % WORD, size) == Window(r, start, size)[1..] + [c]
  {
    hide Place;
    var now, was := r[Place(start, size) := c], Window(r, start, size);
    if size < LOGBUFF_LEN {
      forall i | 0 <= i < size ensures Window(now, start, size + 1)[i] == was[i] { PlacesDiffer(start, size, i); }
      assert Window(now, start, size + 1) == was + [c];
    } else {
      var w := Window(now, (start + 1) % WORD, size);
      forall i | 0 <= i < size ensures w[i] == (was[1..] + [c])[i] {
        PlacesDiffer(start, size, i + 1);
        PlaceNext(start, i);
      }
    }
  }

  class Log {
    const ring: array<char>     // log_buf
    const scratch: array<char>  // buf
    var logStart: nat           // unsigned longs in memory
    var logSize: nat
    var loggedChars: nat
    var msgLevel: int
    ghost var stream: string

    /** The ring holds the end of the stream. */
    ghost predicate Stored()
      reads this`logStart, this`logSize, this`loggedChars, this`stream, ring
    {
      && ring.Length == LOGBUFF_LEN && logStart < WORD && logSize <= LOGBUFF_LEN && loggedChars == |stream| % WORD
      && Window(ring[..], logStart, logSize) == Latest(stream)
    }

    ghost predicate Valid()
      reads this, ring
    {
      Stored() && scratch.Length == 1024 && ring != scratch && AllLeveled(stream) && InLine(stream, msgLevel) && -1 <= msgLevel
    }

    constructor ()
      ensures Valid() && stream == "" && msgLevel == -1
    {
      ring := new char[LOGBUFF_LEN];
      scratch := new char[1024];
      logStart, logSize, loggedChars := 0, 0, 0;
      msgLevel := -1;
      stream := "";
    }

    /** One character into the ring. */
    method Store(c: char)
      requires Stored()
      modifies ring, this`logStart, this`logSize, this`loggedChars, this`stream
      ensures Stored() && stream == old(stream) + [c]
    {
      hide Latest, Window;
      LatestGrows(stream, c);
      ghost var r := ring[..];
      WindowGrows(r, logStart, logSize, c);
      ring[(logStart + logSize) % LOGBUFF_LEN] := c;
      assert ring[..] == r[Place(logStart, logSize) := c];
      if logSize < LOGBUFF_LEN {
        logSize := logSize + 1;
      } else {
        logStart := (logStart + 1) % WORD;
      }
      loggedChars := (loggedChars + 1) % WORD;
      stream := stream + [c];
    }

    /** strcpy(buf + 3, line) */
    method CopyLine(line: string)
      requires scratch.Length == 1024 && |line| + 4 <= 1024
      modifies scratch
      ensures scratch[3..3 + |line|] == line && scratch[3 + |line|] == NUL
    {
      for i := 0 to |line|
        invariant scratch[3..3 + i] == line[..i]
        modifies scratch
      {
        scratch[3 + i] := line[i];
        assert scratch[3..3 + i + 1] == scratch[3..3 + i] + [line[i]];
      }
      assert line[..|line|] == line;
      scratch[3 + |line|] := NUL;
    }

    /** The text between p and the end, as a call still to be made, brings the stream to its goal. */
    ghost predicate OnTheWay(p: nat, bufEnd: nat, goal: string, level: int)
      reads this`logStart, this`logSize, this`loggedChars, this`stream, this`msgLevel, ring, scratch
    {
      && Stored() && scratch.Length == 1024 && ring != scratch && p <= bufEnd < 1024 && scratch[bufEnd] == NUL
      && stream + Marked(msgLevel, scratch[p..bufEnd]) == goal && After(msgLevel, scratch[p..bufEnd]) == level
      && -1 <= msgLevel
    }

    /** Sets the level at the start of a line, and puts a mark in front of a line that has none. */
    method OpenLine(p0: nat, bufEnd: nat, ghost goal: string, ghost level: int) returns (p: nat)
      requires 3 <= p0 < bufEnd && OnTheWay(p0, bufEnd, goal, level) && msgLevel < 0
      modifies scratch, this`msgLevel
      ensures p <= p0 && OnTheWay(p, bufEnd, goal, level) && 0 <= msgLevel
      ensures forall q :: p <= q < p0 ==> scratch[q] != '\n'
    {
      hide Stored, Marked, After, Leveled;
      p := p0;
      ghost var rest := scratch[p..bufEnd];
      Opened(msgLevel, rest);
      var leveled := HasLevel(p, bufEnd);
      if !leveled {
        p := p - 3;
        scratch[p], scratch[p + 1], scratch[p + 2] := '<', '4', '>';
        assert scratch[p0..bufEnd] == rest;
        assert scratch[p..bufEnd] == DEFAULT_MARK + rest;
        PassOn(4, DEFAULT_MARK, rest);
      } else {
        assert "" + Marked(LevelOf(rest), rest) == Marked(LevelOf(rest), rest);
      }
      msgLevel := scratch[p + 1] as int - '0' as int;
    }

    /** p[0] to p[2] are a level. */
    method HasLevel(p: nat, bufEnd: nat) returns (yes: bool)
      requires p < bufEnd < scratch.Length && scratch[bufEnd] == NUL
      ensures yes == Leveled(scratch[p..bufEnd])
      ensures yes ==> LevelOf(scratch[p..bufEnd]) == scratch[p + 1] as int - '0' as int
      ensures !yes ==> LevelOf(scratch[p..bufEnd]) == 4 && MarkOf(scratch[p..bufEnd]) == DEFAULT_MARK
      ensures yes ==> MarkOf(scratch[p..bufEnd]) == ""
    {
      ghost var rest := scratch[p..bufEnd];
      assert forall k :: 0 <= k <= bufEnd - p ==> At(rest, k) == scratch[p + k];
      return scratch[p] == '<' && '0' <= scratch[p + 1] && scratch[p + 1] <= '7' && scratch[p + 2] == '>';
    }

    /** Stores characters up to the end of the line or of the text; says where it stopped. */
    method StoreLine(p0: nat, bufEnd: nat, ghost goal: string, ghost level: int) returns (p: nat, lineFeed: bool)
      requires p0 < bufEnd && OnTheWay(p0, bufEnd, goal, level) && 0 <= msgLevel
      modifies ring, this`logStart, this`logSize, this`loggedChars, this`stream, this`msgLevel
      ensures p0 <= p <= bufEnd && (lineFeed ==> p < bufEnd) && (!lineFeed ==> p == bufEnd)
      ensures OnTheWay(if lineFeed then p + 1 else p, bufEnd, goal, level)
      ensures lineFeed <==> msgLevel < 0
      ensures (forall k :: p0 <= k < p ==> scratch[k] != '\n') && (lineFeed ==> scratch[p] == '\n')
    {
      hide Stored, Marked, After;
      p, lineFeed := p0, false;
      while p < bufEnd
        invariant p0 <= p <= bufEnd && OnTheWay(p, bufEnd, goal, level) && msgLevel == old(msgLevel)
        invariant forall k :: p0 <= k < p ==> scratch[k] != '\n'
        modifies ring, this`logStart, this`logSize, this`loggedChars, this`stream, this`msgLevel
      {
        ghost var t := scratch[p..bufEnd];
        assert t[0] == scratch[p] && t[1..] == scratch[p + 1..bufEnd];
        Peel(msgLevel, t);
        ghost var before, more := stream, Marked(LevelPast(msgLevel, t[0]), t[1..]);
        assert before + ([t[0]] + more) == before + [t[0]] + more;
        Store(scratch[p]);
        if scratch[p] == '\n' {
          lineFeed := true;
          msgLevel := -1;
          return;
        }
        p := p + 1;
      }
    }

    /** logbuff_printk */
    method Printk(line: string) returns (n: nat)
      requires Valid() && |line| + 4 <= 1024
      modifies ring, scratch, this`logStart, this`logSize, this`loggedChars, this`stream, this`msgLevel
      ensures Valid() && n == |line|
      ensures stream == old(stream) + Marked(old(msgLevel), line) && msgLevel == After(old(msgLevel), line)
    {
      hide Stored, Marked, After, AllLeveled;
      MarkedLeveled(stream, msgLevel, line);
      CopyLine(line);
      n := |line|;
      var bufEnd, p := 3 + n, 3;
      ghost var goal, level := stream + Marked(msgLevel, line), After(msgLevel, line);
      while p < bufEnd
        invariant 3 <= p && OnTheWay(if p <= bufEnd then p else bufEnd, bufEnd, goal, level)
        decreases bufEnd - p
      {
        var q := p;
        if msgLevel < 0 { q := OpenLine(p, bufEnd, goal, level); }
        var lineFeed;
        q, lineFeed := StoreLine(q, bufEnd, goal, level);
        p := q + 1;
      }
      NothingMarked(msgLevel);
      assert scratch[bufEnd..bufEnd] == "" && stream + "" == stream;
    }
  }

  lemma PlacesDiffer(start: nat, size: nat, i: nat)
    requires size <= LOGBUFF_LEN
    ensures i < size < LOGBUFF_LEN || (0 < i < size == LOGBUFF_LEN) ==> Place(start, i) != Place(start, size)
    ensures size == LOGBUFF_LEN ==> Place(start, size) == Place(start, 0)
  {
    var k := start % LOGBUFF_LEN;
    assert (start + i) % LOGBUFF_LEN == (k + i) % LOGBUFF_LEN && (start + size) % LOGBUFF_LEN == (k + size) % LOGBUFF_LEN;
  }

  /** The start may wrap at the word size, of which the length of the ring is a divisor. */
  lemma PlaceNext(start: nat, i: nat)
    requires start < WORD
    ensures Place((start + 1) % WORD, i) == Place(start, i + 1)
  {
    if start + 1 == WORD {
      assert start + (i + 1) == i + 0x4_0000 * LOGBUFF_LEN;
    }
  }
}
