/** Numbers as the parser takes them: octal, decimal and hexadecimal, of any length, with any suffix. */
module MtdNumbers {
  import opened Words
  import opened CStrings
  import opened MtdSize
  import opened Division

  function DigitChar(d: nat, upper: bool): char
    requires d < 16
  {
    if d < 10 then ('0' as int + d) as char else if upper then ('A' as int + d - 10) as char else ('a' as int + d - 10) as char
  }

  /** A number written in a base. */
  function Spelled(n: nat, base: nat, upper: bool): string
    requires 2 <= base <= 16
  {
    if n < base then [DigitChar(n, upper)]
    else Positional(n, base); Spelled(n / base, base, upper) + [DigitChar(n % base, upper)]
  }

  lemma Positional(n: nat, base: nat)
    requires 2 <= base <= n
    ensures 0 < n / base < n && n / base * base + n % base == n && 0 <= n % base < base
  {
    if n / base >= n { MulGrows(n, n / base, base); }
  }

  /** How a number of a base announces itself. */
  function Prefix(base: nat): string {
    if base == 16 then "0x" else if base == 8 then "0" else ""
  }

  lemma DigitIs(d: nat, upper: bool)
    requires d < 16
    ensures Digit(DigitChar(d, upper)) == d
  {
  }

  /** Reduced modulo the word or not, the next digit gives the same. */
  lemma WordStep(q: nat, base: nat, d: nat)
    requires base <= 16
    ensures (q % WORD * base + d) % WORD == (q * base + d) % WORD
  {
    var k, r := q / WORD, q % WORD;
    assert q == k * WORD + r;
    Expand(k, r, base, d);
    ModDrop(r * base + d, k * base, WORD);
  }

  lemma Expand(k: nat, r: nat, base: nat, d: nat)
    ensures (k * WORD + r) * base + d == r * base + d + k * base * WORD
  {
  }

  lemma DigitsNext(s: string, pos: nat, base: nat, acc: u32)
    requires pos < |s| && base <= 16 && Digit(s[pos]) < base
    ensures Digits(s, pos, base, acc) == Digits(s, pos + 1, base, (acc * base + Digit(s[pos])) % WORD)
  {
  }

  lemma {:induction false} SpelledReads(s: string, pos: nat, n: nat, base: nat, upper: bool)
    requires 2 <= base <= 16 && Has(s, pos, Spelled(n, base, upper))
    ensures pos + |Spelled(n, base, upper)| <= |s|
    ensures Digits(s, pos, base, 0) == Digits(s, pos + |Spelled(n, base, upper)|, base, n % WORD)
  {
    hide Digits, Digit, Has, DigitChar, Spelled;
    HasLength(s, pos, Spelled(n, base, upper));
    SpelledUnfolds(n, base, upper);
    if n < base {
      var c := DigitChar(n, upper);
      assert "" + [c] == [c];
      DigitIs(n, upper);
      HasParts(s, pos, "", c);
      DigitsNext(s, pos, base, 0);
    } else {
      Positional(n, base);
      var q, d := n / base, n % base;
      var before, c := Spelled(q, base, upper), DigitChar(d, upper);
      DigitIs(d, upper);
      HasParts(s, pos, before, c);
      SpelledReads(s, pos, q, base, upper);
      DigitsNext(s, pos + |before|, base, q % WORD);
      WordStep(q, base, d);
    }
  }

  lemma {:induction false} SpelledUnfolds(n: nat, base: nat, upper: bool)
    requires 2 <= base <= 16
    ensures n < base ==> Spelled(n, base, upper) == [DigitChar(n, upper)]
    ensures n >= base ==> n % base < 16 && n / base >= 0
                          && Spelled(n, base, upper) == Spelled(n / base, base, upper) + [DigitChar(n % base, upper)]
  {
    hide DigitChar;
  }

  lemma HasLength(s: string, pos: nat, t: string)
    requires Has(s, pos, t)
    ensures pos + |t| <= |s|
  {
  }

  lemma {:induction false} SpelledShape(n: nat, base: nat, upper: bool)
    requires 2 <= base <= 16
    ensures |Spelled(n, base, upper)| > 0 && Digit(Spelled(n, base, upper)[0]) < base
    ensures n > 0 ==> Spelled(n, base, upper)[0] != '0'
  {
    if n >= base {
      Positional(n, base);
      SpelledShape(n / base, base, upper);
    }
  }

  /** The base is recognised. */
  lemma BaseIs(s: string, pos: nat, n: nat, base: nat, upper: bool)
    requires base in {8, 10, 16} && Has(s, pos, Prefix(base) + Spelled(n, base, upper)) && (base == 10 ==> n > 0)
    ensures pos + |Prefix(base)| + |Spelled(n, base, upper)| <= |s|
    ensures BaseOf(s, pos) == (base, pos + |Prefix(base)|) && Has(s, pos + |Prefix(base)|, Spelled(n, base, upper))
  {
    hide Spelled;
    SpelledShape(n, base, upper);
    var t, k := Prefix(base) + Spelled(n, base, upper), |Prefix(base)|;
    assert forall i :: 0 <= i < |t| ==> s[pos + i] == s[pos..pos + |t|][i] == t[i];
    assert s[pos + 0] == t[0] && s[pos + k] == t[k] == Spelled(n, base, upper)[0];
    assert s[pos + k..pos + |t|] == s[pos..pos + |t|][k..] == Spelled(n, base, upper);
    if base == 16 { assert s[pos + 1] == t[1]; }
  }

  /** Every number, however it is spelled and however large, is read modulo the word size, up to the first
      character that is no digit of its base. */
  lemma NumberIs(s: string, pos: nat, n: nat, base: nat, upper: bool)
    requires base in {8, 10, 16} && Has(s, pos, Prefix(base) + Spelled(n, base, upper)) && (base == 10 ==> n > 0)
    requires Digit(At(s, pos + |Prefix(base)| + |Spelled(n, base, upper)|)) >= base
    ensures pos + |Prefix(base)| + |Spelled(n, base, upper)| <= |s|
    ensures Strtoul(s, pos) == (n % WORD, pos + |Prefix(base)| + |Spelled(n, base, upper)|)
  {
    hide Spelled, BaseOf, Has, Digit, Prefix;
    BaseIs(s, pos, n, base, upper);
    SpelledReads(s, pos + |Prefix(base)|, n, base, upper);
  }

  /** With one of the suffixes, in either case, that many times 1024, again modulo the word size. */
  lemma SizeIs(s: string, pos: nat, n: nat, base: nat, upper: bool, c: char)
    requires base in {8, 10, 16} && Has(s, pos, Prefix(base) + Spelled(n, base, upper) + [c]) && (base == 10 ==> n > 0)
    requires c in {'g', 'G', 'm', 'M', 'k', 'K'}
    ensures var factor := if c in {'g', 'G'} then 1024 * 1024 * 1024 else if c in {'m', 'M'} then 1024 * 1024 else 1024;
      MemsizeParse(s, pos) == (n * factor % WORD, pos + |Prefix(base)| + |Spelled(n, base, upper)| + 1)
  {
    hide Spelled, Has, Prefix, Strtoul;
    HasParts(s, pos, Prefix(base) + Spelled(n, base, upper), c);
    assert Digit(c) == 16;
    NumberIs(s, pos, n, base, upper);
    WordTimes(n, 0x4000_0000);
    WordTimes(n, 0x10_0000);
    WordTimes(n, 0x400);
  }

  lemma WordTimes(n: nat, f: nat)
    ensures n % WORD * f % WORD == n * f % WORD
  {
    var k, r := n / WORD, n % WORD;
    assert n == k * WORD + r;
    assert n * f == r * f + k * f * WORD by { Expand(k, r, f, 0); }
    ModDrop(r * f, k * f, WORD);
  }
}
