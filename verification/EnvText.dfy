/** The environment as text: "name=value" entries, each ended by a NUL, the list ended by another. */
module EnvText {
  import opened Options
  import opened CStrings

  /** Where the first '=' stands, or the length when there is none. */
  function KeyLength(s: string): (n: nat)
    ensures n <= |s| && (n < |s| ==> s[n] == '=') && forall i :: 0 <= i < n ==> s[i] != '='
  {
    if s == "" || s[0] == '=' then 0 else 1 + KeyLength(s[1..])
  }

  function KeyOf(s: string): string {
    s[..KeyLength(s)]
  }

  function ValueOf(s: string): string {
    if KeyLength(s) < |s| then s[KeyLength(s) + 1..] else ""
  }

  predicate NoNul(s: string) {
    forall i :: 0 <= i < |s| ==> s[i] != NUL
  }

  predicate Entry(e: string) {
    NoNul(e) && KeyLength(e) < |e|
  }

  predicate Unique(es: seq<string>) {
    forall i, j :: 0 <= i < j < |es| ==> KeyOf(es[i]) != KeyOf(es[j])
  }

  predicate WellFormed(es: seq<string>) {
    (forall i :: 0 <= i < |es| ==> Entry(es[i])) && Unique(es)
  }

  /** The entry for a key, or the length of the list. */
  function Find(es: seq<string>, key: string): (i: nat)
    ensures i <= |es| && (i < |es| ==> KeyOf(es[i]) == key) && forall j :: 0 <= j < i ==> KeyOf(es[j]) != key
  {
    if es == [] || KeyOf(es[0]) == key then 0 else 1 + Find(es[1..], key)
  }

  function Lookup(es: seq<string>, key: string): Option<string> {
    if Find(es, key) < |es| then Some(ValueOf(es[Find(es, key)])) else None
  }

  function Flat(es: seq<string>): string {
    if es == [] then "" else Flat(es[..|es| - 1]) + es[|es| - 1] + [NUL]
  }

  /** The bytes of an environment: the empty one is two NULs. */
  function Image(es: seq<string>): string {
    if es == [] then [NUL, NUL] else Flat(es) + [NUL]
  }

  /** d holds s at position p. */
  predicate Stands(d: string, p: nat, s: string) {
    p + |s| <= |d| && d[p..p + |s|] == s
  }

  lemma StandsAt(d: string, p: nat, s: string)
    requires p + |s| <= |d|
    ensures Stands(d, p, s) <==> forall i :: 0 <= i < |s| ==> d[p + i] == s[i]
  {
    if Stands(d, p, s) {
      forall i | 0 <= i < |s| ensures d[p + i] == s[i] {
        assert d[p..p + |s|][i] == s[i];
      }
    }
  }

  lemma StandsJoin(d: string, p: nat, a: string, b: string)
    ensures Stands(d, p, a + b) <==> Stands(d, p, a) && Stands(d, p + |a|, b)
  {
    if p + |a| + |b| <= |d| {
      assert d[p..p + |a + b|] == d[p..p + |a|] + d[p + |a|..p + |a| + |b|];
      assert (a + b)[..|a|] == a && (a + b)[|a|..] == b;
    }
  }

  lemma {:induction false} FlatAppend(a: seq<string>, b: seq<string>)
    ensures Flat(a + b) == Flat(a) + Flat(b)
  {
    if b == [] {
      assert a + b == a;
    } else {
      var k := |b| - 1;
      assert (a + b)[..|a + b| - 1] == a + b[..k];
      FlatAppend(a, b[..k]);
    }
  }

  lemma {:induction false} FlatUnfolds(es: seq<string>, e: string)
    ensures Flat(es + [e]) == Flat(es) + e + [NUL]
  {
    assert (es + [e])[..|es|] == es;
  }

  lemma FlatOne(e: string)
    ensures Flat([e]) == e + [NUL]
  {
    assert [e][..0] == [];
  }

  lemma Parts<T>(s: seq<T>, i: nat)
    requires i < |s|
    ensures s == s[..i] + ([s[i]] + s[i + 1..]) && s[..i + 1] == s[..i] + [s[i]]
  {
  }

  /** An entry in its surroundings. */
  lemma {:induction false} FlatMiddle(a: seq<string>, e: string, b: seq<string>)
    ensures Flat(a + ([e] + b)) == Flat(a) + (e + [NUL] + Flat(b))
    ensures Flat(a + [e]) == Flat(a) + (e + [NUL])
  {
    hide Flat;
    FlatAppend(a, [e] + b);
    FlatAppend([e], b);
    FlatAppend(a, [e]);
    FlatOne(e);
  }

  lemma {:induction false} FlatSplit(es: seq<string>, i: nat)
    requires i < |es|
    ensures Flat(es) == Flat(es[..i]) + (es[i] + [NUL] + Flat(es[i + 1..]))
    ensures Flat(es[..i + 1]) == Flat(es[..i]) + (es[i] + [NUL])
  {
    hide Flat;
    Parts(es, i);
    FlatMiddle(es[..i], es[i], es[i + 1..]);
  }

  lemma EntryShape(e: string)
    requires Entry(e)
    ensures e != "" && e[0] != NUL
  {
  }

  /** Two NULs in a row end the list, and occur nowhere before. */
  lemma {:induction false} FlatShape(es: seq<string>)
    requires forall i :: 0 <= i < |es| ==> Entry(es[i])
    ensures es != [] <==> Flat(es) != ""
    ensures es != [] ==> Flat(es)[0] != NUL && Flat(es)[|Flat(es)| - 1] == NUL
    ensures forall k :: 0 <= k && k + 1 < |Flat(es)| && Flat(es)[k] == NUL ==> Flat(es)[k + 1] != NUL
  {
    if es != [] {
      var n := |es| - 1;
      var init, e := es[..n], es[n];
      FlatShape(init);
      EntryShape(e);
      var f := Flat(init);
      assert Flat(es) == f + e + [NUL];
    }
  }

  lemma FlatNothing()
    ensures Flat([]) == ""
  {
  }

  lemma WithoutOneKeeps(es: seq<string>, i: nat)
    requires WellFormed(es) && i < |es|
    ensures WellFormed(es[..i] + es[i + 1..])
  {
    hide KeyOf, Entry;
  }

  lemma CutAt(e: string, k: nat, t: string)
    requires k < |e|
    ensures e + t == e[..k + 1] + (e[k + 1..] + t)
  {
    assert e == e[..k + 1] + e[k + 1..];
  }

  lemma {:induction false} ValueStands(d: string, p: nat, e: string)
    requires Stands(d, p, e + [NUL]) && KeyLength(e) < |e|
    ensures Stands(d, p + KeyLength(e) + 1, ValueOf(e) + [NUL])
  {
    hide KeyLength, Stands;
    CutAt(e, KeyLength(e), [NUL]);
    StandsJoin(d, p, e[..KeyLength(e) + 1], e[KeyLength(e) + 1..] + [NUL]);
  }

  /** The texts before and after an entry. */
  lemma ListParts(d: string, es: seq<string>, i: nat)
    requires WellFormed(es) && i < |es| && Stands(d, 0, Image(es))
    ensures WellFormed(es[..i] + es[i + 1..]) && |es[i]| > 0
    ensures forall x :: x in es[i + 1..] ==> Entry(x)
    ensures Stands(d, 0, Flat(es[..i])) && Stands(d, |Flat(es[..i])| + |es[i]| + 1, Flat(es[i + 1..]) + [NUL])
  {
    var a, e, b := es[..i], es[i] + [NUL], es[i + 1..];
    EntryShape(es[i]);
    WithoutOneKeeps(es, i);
    hide KeyOf, Unique, Entry, KeyLength, Flat, Stands;
    FlatSplit(es, i);
    Regroup(Flat(a), e, Flat(b));
    StandsJoin(d, 0, Flat(a), e + (Flat(b) + [NUL]));
    StandsJoin(d, |Flat(a)|, e, Flat(b) + [NUL]);
  }

  lemma Regroup(a: string, e: string, b: string)
    ensures a + (e + b) + [NUL] == a + (e + (b + [NUL]))
  {
  }

  /** A buffer that holds two texts side by side holds the image of the joined list. */
  lemma {:induction false} Rebuilt(d: string, now: string, a: seq<string>, b: seq<string>)
    requires Stands(d, 0, Flat(a)) && |Flat(a)| + |Flat(b)| + 1 < |now| == |d|
    requires forall t :: 0 <= t < |Flat(a)| ==> now[t] == d[t]
    requires forall t :: 0 <= t < |Flat(b)| ==> now[|Flat(a)| + t] == Flat(b)[t]
    requires now[|Flat(a)| + |Flat(b)|] == NUL
    requires a + b == [] ==> now[1] == NUL
    ensures Stands(now, 0, Image(a + b))
  {
    hide Flat, Stands, Image, Entry;
    FlatAppend(a, b);
    FlatNothing();
    ImageIs(a + b);
    Prefix(d, Flat(a));
    if a + b == [] { TwoNuls(now); } else { SideBySide(now, Flat(a), Flat(b)); }
  }

  lemma {:induction false} ImageIs(es: seq<string>)
    ensures Image(es) == if es == [] then [NUL, NUL] else Flat(es) + [NUL]
  {
  }

  lemma Prefix(d: string, x: string)
    requires Stands(d, 0, x)
    ensures forall t :: 0 <= t < |x| ==> d[t] == x[t]
  {
    forall t | 0 <= t < |x| ensures d[t] == x[t] { assert d[t] == d[0..|x|][t]; }
  }

  lemma TwoNuls(d: string)
    requires |d| >= 2 && d[0] == d[1] == NUL
    ensures Stands(d, 0, [NUL, NUL])
  {
    assert d[0..2] == [d[0], d[1]];
  }

  lemma SideBySide(now: string, x: string, y: string)
    requires |x| + |y| < |now| && now[|x| + |y|] == NUL
    requires forall t :: 0 <= t < |x| ==> now[t] == x[t]
    requires forall t :: 0 <= t < |y| ==> now[|x| + t] == y[t]
    ensures Stands(now, 0, x + y + [NUL])
  {
    var all := x + y + [NUL];
    forall t | 0 <= t < |all| ensures now[0..|all|][t] == all[t] {
      if |x| <= t < |x| + |y| { assert now[|x| + (t - |x|)] == y[t - |x|]; }
    }
  }

  /** The characters of a list, and the two NULs at its end. */
  lemma {:induction false} ListEnd(d: string, es: seq<string>)
    requires WellFormed(es) && Stands(d, 0, Image(es))
    ensures |Flat(es)| < |d| && 2 <= |d| && d[|Flat(es)|] == NUL && (es == [] ==> d[1] == NUL)
    ensures forall t :: 0 <= t < |Flat(es)| ==> d[t] == Flat(es)[t]
  {
    FlatNothing();
    Prefix(d, Image(es));
    FlatShape(es);
    hide Flat;
    var f := Flat(es);
    if es != [] {
      assert Image(es)[|f|] == NUL;
      assert forall t :: 0 <= t < |f| ==> f[t] == Image(es)[t];
    } else {
      assert Image(es)[0] == NUL && Image(es)[1] == NUL;
    }
  }

  lemma {:induction false} ListStands(d: string, es: seq<string>)
    requires Stands(d, 0, Image(es))
    ensures Stands(d, 0, Flat(es))
  {
    FlatNothing();
    StandsJoin(d, 0, Flat(es), [NUL]);
  }

  lemma {:induction false} NewImage(es: seq<string>, t: string)
    ensures Image(es + [t]) == Flat(es) + t + [NUL] + [NUL]
  {
    FlatUnfolds(es, t);
  }

  lemma StandsKept(d: string, now: string, p: nat, s: string)
    requires Stands(d, p, s) && p + |s| <= |now| && forall t :: p <= t < p + |s| ==> now[t] == d[t]
    ensures Stands(now, p, s)
  {
    assert now[p..p + |s|] == d[p..p + |s|];
  }

  /** Text in the buffer, grown by a character and a string in place of its NUL. */
  lemma TextGrown(d: string, now: string, p: nat, t: string, c: char, s: string)
    requires Stands(d, p, t + [NUL]) && Stands(now, p + |t| + 1, s + [NUL]) && now[p + |t|] == c
    requires forall i :: 0 <= i < p + |t| ==> now[i] == d[i]
    ensures Stands(now, p, (t + [c] + s) + [NUL])
  {
    StandsJoin(d, p, t, [NUL]);
    StandsKept(d, now, p, t);
    assert now[p + |t|..p + |t| + 1] == [c];
    hide Stands;
    assert Stands(now, p + |t|, [c]) by { StandsOne(now, p + |t|, c); }
    StandsJoin(now, p, t, [c]);
    StandsJoin(now, p, t + [c], s + [NUL]);
    assert t + [c] + (s + [NUL]) == (t + [c] + s) + [NUL];
  }

  lemma StandsOne(d: string, p: nat, c: char)
    requires p < |d| && d[p] == c
    ensures Stands(d, p, [c])
  {
  }

  lemma Finished(d: string, f: string, t: string)
    requires Stands(d, 0, f) && Stands(d, |f|, t + [NUL]) && |f| + |t| + 1 < |d| && d[|f| + |t| + 1] == NUL
    ensures Stands(d, 0, f + t + [NUL] + [NUL])
  {
    StandsOne(d, |f| + |t| + 1, NUL);
    StandsJoin(d, 0, f, t + [NUL]);
    assert f + (t + [NUL]) == f + t + [NUL];
    StandsJoin(d, 0, f + t + [NUL], [NUL]);
  }
}
