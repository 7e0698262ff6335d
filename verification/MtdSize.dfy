/** Sizes as text: reading and writing 32-bit numbers with k, m and g suffixes. */
module MtdSize {
  import opened Words
  import opened CStrings

  /** The value of a hexadecimal digit; 16 for every other character. */
  function Digit(c: char): (d: nat)
    ensures d <= 16
  {
    if '0' <= c <= '9' then c as int - '0' as int
    else if 'a' <= c <= 'f' then c as int - 'a' as int + 10
    else if 'A' <= c <= 'F' then c as int - 'A' as int + 10
    else 16
  }

  /** The base a number announces, and where its digits start. */
  function BaseOf(s: string, pos: nat): (r: (nat, nat))
    requires pos <= |s|
    ensures pos <= r.1 <= |s|
  {
    if At(s, pos) == '0' then
      if At(s, pos + 1) == 'x' && Digit(At(s, pos + 2)) < 16 then (16, pos + 2) else (8, pos + 1)
    else (10, pos)
  }

  /** Digits of a base, on top of what has been read, modulo the word size. */
  function Digits(s: string, pos: nat, base: nat, acc: u32): (r: (u32, nat))
    requires pos <= |s| && base <= 16
    ensures pos <= r.1 <= |s|
    decreases |s| - pos
  {
    if Digit(At(s, pos)) < base then Digits(s, pos + 1, base, (acc * base + Digit(At(s, pos))) % WORD)
    else (acc, pos)
  }

  function Strtoul(s: string, pos: nat): (r: (u32, nat))
    requires pos <= |s|
    ensures pos <= r.1 <= |s|
  {
    var (base, start) := BaseOf(s, pos);
    Digits(s, start, base, 0)
  }

  /** How often a suffix shifts by ten. */
  function Shifts(c: char): nat {
    if c == 'G' || c == 'g' then 3 else if c == 'M' || c == 'm' then 2 else if c == 'K' || c == 'k' then 1 else 0
  }

  function MemsizeParse(s: string, pos: nat): (r: (u32, nat))
    requires pos <= |s|
    ensures pos <= r.1 <= |s|
  {
    var (n, p) := Strtoul(s, pos);
    match Shifts(At(s, p))
    case 3 => (n * 0x4000_0000 % WORD, p + 1)
    case 2 => (n * 0x10_0000 % WORD, p + 1)
    case 1 => (n * 0x400 % WORD, p + 1)
    case _ => (n, p)
  }

  /** Text that is no number reads as zero. */
  lemma NoProgress(s: string, pos: nat)
    requires pos <= |s|
    ensures MemsizeParse(s, pos).1 == pos ==> MemsizeParse(s, pos).0 == 0
  {
  }

  /** "%lu" */
  function Decimal(n: nat): string {
    if n < 10 then [('0' as int + n) as char] else Decimal(n / 10) + [('0' as int + n % 10) as char]
  }

  function MemsizeFormat(size: u32): string {
    if size % 0x4000_0000 == 0 then Decimal(size / 0x4000_0000) + "g"
    else if size % 0x10_0000 == 0 then Decimal(size / 0x10_0000) + "m"
    else if size % 0x400 == 0 then Decimal(size / 0x400) + "k"
    else Decimal(size)
  }

  // -------------------------------------------------------------------------
  // The loops

  method SimpleStrtoul(s: string, pos: nat) returns (result: u32, cp: nat)
    requires pos <= |s|
    ensures (result, cp) == Strtoul(s, pos)
  {
    var base: nat := 0;
    result, cp := 0, pos;
    if At(s, cp) == '0' {
      cp := cp + 1;
      if At(s, cp) == 'x' && Digit(At(s, cp + 1)) < 16 {
        base, cp := 16, cp + 1;
      }
      if base == 0 { base := 8; }
    }
    if base == 0 { base := 10; }
    while Digit(At(s, cp)) < base
      invariant cp <= |s| && base <= 16 && Digits(s, cp, base, result) == Strtoul(s, pos)
      decreases |s| - cp
    {
      result := (result * base + Digit(At(s, cp))) % WORD;
      cp := cp + 1;
    }
  }

  /** memsize_parse: the suffixes fall through from g to m to k. */
  method ReadMemsize(s: string, pos: nat) returns (size: u32, next: nat)
    requires pos <= |s|
    ensures (size, next) == MemsizeParse(s, pos)
  {
    hide Strtoul;
    ghost var n: int;
    size, next := SimpleStrtoul(s, pos);
    n := size;
    var c := At(s, next);
    if c == 'G' || c == 'g' {
      size := size * 1024 % WORD;
    }
    if c == 'G' || c == 'g' || c == 'M' || c == 'm' {
      size := size * 1024 % WORD;
    }
    if c == 'G' || c == 'g' || c == 'M' || c == 'm' || c == 'K' || c == 'k' {
      size := size * 1024 % WORD;
      next := next + 1;
    }
    ShiftTwice(n);
  }

  lemma ModTimes(a: int)
    ensures a % WORD * 1024 % WORD == a * 1024 % WORD
  {
    var q, r := a / WORD, a % WORD;
    assert a * 1024 == r * 1024 + (q * 1024) * WORD;
    ModAdd(r * 1024, q * 1024);
  }

  lemma ModAdd(x: int, q: int)
    ensures (x + q * WORD) % WORD == x % WORD
  {
    assert x == x / WORD * WORD + x % WORD;
    var y := x + q * WORD;
    assert y == (x / WORD + q) * WORD + x % WORD;
  }

  lemma ShiftTwice(n: int)
    ensures n * 1024 % WORD * 1024 % WORD == n * 0x10_0000 % WORD
    ensures n * 1024 % WORD * 1024 % WORD * 1024 % WORD == n * 0x4000_0000 % WORD
  {
    ModTimes(n * 1024);
    ModTimes(n * 0x10_0000);
    assert n * 1024 * 1024 == n * 0x10_0000 && n * 0x10_0000 * 1024 == n * 0x4000_0000;
  }

  // -------------------------------------------------------------------------
  // Reading what was written

  predicate DecimalDigit(c: char) {
    Digit(c) < 10
  }

  /** What may follow a written number: no digit and no suffix. */
  predicate Ends(c: char) {
    !DecimalDigit(c) && Shifts(c) == 0
  }

  lemma {:induction false} DecimalShape(n: nat)
    ensures |Decimal(n)| > 0 && forall i :: 0 <= i < |Decimal(n)| ==> DecimalDigit(Decimal(n)[i])
    ensures n > 0 ==> Decimal(n)[0] != '0'
    ensures n == 0 ==> Decimal(n) == "0"
  {
    if n >= 10 { DecimalShape(n / 10); }
  }

  /** s has t at pos. */
  predicate Has(s: string, pos: nat, t: string) {
    pos + |t| <= |s| && s[pos..pos + |t|] == t
  }

  lemma HasParts(s: string, pos: nat, a: string, c: char)
    requires Has(s, pos, a + [c])
    ensures Has(s, pos, a) && pos + |a| < |s| && s[pos + |a|] == c && s[pos] == (a + [c])[0]
  {
    var t := s[pos..pos + |a| + 1];
    assert t == a + [c];
    assert s[pos..pos + |a|] == t[..|a|] == a;
    assert t[|a|] == c && t[0] == s[pos];
  }

  /** Reading the digits of a number, wherever they stand. */
  lemma {:induction false} DecimalReads(s: string, pos: nat, n: u32)
    requires Has(s, pos, Decimal(n))
    ensures Digits(s, pos, 10, 0) == Digits(s, pos + |Decimal(n)|, 10, n)
  {
    hide Digits, Digit, Has;
    LastDigit(n);
    var c := ('0' as int + n % 10) as char;
    if n >= 10 {
      var d := Decimal(n / 10);
      HasParts(s, pos, d, c);
      DecimalReads(s, pos, n / 10);
      DigitsUnfold(s, pos + |d|, n / 10);
    } else {
      assert Decimal(n) == "" + [c];
      HasParts(s, pos, "", c);
      DigitsUnfold(s, pos, 0);
    }
  }

  lemma DigitsUnfold(s: string, pos: nat, acc: u32)
    requires pos < |s| && Digit(s[pos]) < 10
    ensures Digits(s, pos, 10, acc) == Digits(s, pos + 1, 10, (acc * 10 + Digit(s[pos])) % WORD)
  {
  }

  lemma LastDigit(n: u32)
    ensures Digit(('0' as int + n % 10) as char) == n % 10 && n / 10 * 10 + n % 10 == n
  {
  }

  lemma {:induction false} NumberReads(s: string, pos: nat, n: u32)
    requires n > 0 && Has(s, pos, Decimal(n))
    requires !DecimalDigit(At(s, pos + |Decimal(n)|))
    ensures Strtoul(s, pos) == (n, pos + |Decimal(n)|)
  {
    DecimalShape(n);
    assert s[pos] == s[pos..pos + |Decimal(n)|][0];
    DecimalReads(s, pos, n);
  }

  /** memsize_parse inverts memsize_format: for every 32-bit size, wherever the text stands, whatever
      follows that is no digit and no suffix. */
  lemma MemsizeRoundTrip(s: string, pos: nat, size: u32)
    requires Has(s, pos, MemsizeFormat(size))
    requires Ends(At(s, pos + |MemsizeFormat(size)|))
    ensures MemsizeParse(s, pos) == (size, pos + |MemsizeFormat(size)|)
  {
    hide Strtoul, Decimal, Ends, MemsizeParse, At;
    if size == 0 {
      DecimalShape(0);
      ZeroReads(s, pos);
    } else if size % 0x4000_0000 == 0 {
      Scaled(size, 0x4000_0000);
      SuffixReads(s, pos, size / 0x4000_0000, 'g');
    } else if size % 0x10_0000 == 0 {
      Scaled(size, 0x10_0000);
      SuffixReads(s, pos, size / 0x10_0000, 'm');
    } else if size % 0x400 == 0 {
      Scaled(size, 0x400);
      SuffixReads(s, pos, size / 0x400, 'k');
    } else {
      PlainReads(s, pos, size);
    }
  }

  lemma Scaled(size: u32, f: nat)
    requires size > 0 && (f == 0x4000_0000 || f == 0x10_0000 || f == 0x400) && size % f == 0
    ensures 0 < size / f < WORD && size / f * f == size && size / f * f % WORD == size
  {
  }

  lemma {:induction false} PlainReads(s: string, pos: nat, n: u32)
    requires n > 0 && Has(s, pos, Decimal(n))
    requires Ends(At(s, pos + |Decimal(n)|))
    ensures MemsizeParse(s, pos) == (n, pos + |Decimal(n)|)
  {
    hide Strtoul, Decimal;
    NumberReads(s, pos, n);
  }

  lemma {:induction false} SuffixReads(s: string, pos: nat, n: u32, c: char)
    requires n > 0 && (c == 'g' || c == 'm' || c == 'k') && Has(s, pos, Decimal(n) + [c])
    ensures var factor := if c == 'g' then 0x4000_0000 else if c == 'm' then 0x10_0000 else 0x400;
      MemsizeParse(s, pos) == (n * factor % WORD, pos + |Decimal(n)| + 1)
  {
    hide Strtoul, Decimal;
    HasParts(s, pos, Decimal(n), c);
    NumberReads(s, pos, n);
  }

  /** Zero is written 0g, and read as an octal number without digits. */
  lemma ZeroReads(s: string, pos: nat)
    requires pos + 2 <= |s| && s[pos..pos + 2] == "0g"
    ensures MemsizeParse(s, pos) == (0, pos + 2)
  {
    assert s[pos] == s[pos..pos + 2][0] && s[pos + 1] == s[pos..pos + 2][1];
  }
}
