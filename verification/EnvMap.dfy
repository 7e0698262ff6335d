/** The environment as a bounded map: every run of setenv calls on the list of entries does to the map
    what the calls say, with space counted in bytes of names and values. */
module EnvMap {
  import opened Options
  import opened EnvText
  import opened EnvModel

  type Vars = map<string, string>

  function ToMap(es: seq<string>): Vars {
    if es == [] then map[] else ToMap(es[..|es| - 1])[KeyOf(es[|es| - 1]) := ValueOf(es[|es| - 1])]
  }

  function Get(m: Vars, key: string): Option<string> {
    if key in m then Some(m[key]) else None
  }

  /** The bytes the variables take: name, '=', value and NUL each. */
  ghost function Bytes(m: Vars): nat {
    if m == map[] then 0
    else var k :| k in m; |k| + |m[k]| + 2 + Bytes(m - {k})
  }

  /** The value a call asks for. A name with an '=' in it brings the first part of its value along. */
  function NewValue(op: Op): string
    requires op.args != []
  {
    if KeyLength(op.name) < |op.name| then ValueOf(op.name) + "=" + Joined(op.args) else Joined(op.args)
  }

  /** The call, on the map. */
  ghost function Change(config: Config, size: nat, m: Vars, op: Op): (Outcome, Vars) {
    var key := KeyOf(op.name);
    var rest := m - {key};
    if Refuses(config, Get(m, key), op) then (Refused, m)
    else if op.args == [] then (Deleted, rest)
    else if Bytes(rest) + |key| + |NewValue(op)| + 3 > size then (Overflowed, rest)
    else (Stored, rest[key := NewValue(op)])
  }

  ghost function Changes(config: Config, size: nat, m: Vars, ops: seq<Op>): Vars {
    if ops == [] then m
    else Change(config, size, Changes(config, size, m, ops[..|ops| - 1]), ops[|ops| - 1]).1
  }

  // -------------------------------------------------------------------------

  lemma {:induction false} BytesOf(m: Vars, key: string)
    requires key in m
    ensures Bytes(m) == |key| + |m[key]| + 2 + Bytes(m - {key})
  {
    var k :| k in m && Bytes(m) == |k| + |m[k]| + 2 + Bytes(m - {k});
    if k != key {
      BytesOf(m - {k}, key);
      BytesOf(m - {key}, k);
      assert m - {k} - {key} == m - {key} - {k};
    }
  }

  lemma BytesAdd(m: Vars, key: string, value: string)
    requires key !in m
    ensures Bytes(m[key := value]) == Bytes(m) + |key| + |value| + 2
  {
    BytesOf(m[key := value], key);
    assert m[key := value] - {key} == m;
  }

  lemma EntrySize(e: string)
    requires Entry(e)
    ensures |e| == |KeyOf(e)| + 1 + |ValueOf(e)|
  {
  }

  lemma {:induction false} ToMapKeys(es: seq<string>, key: string)
    requires Unique(es)
    ensures key in ToMap(es) <==> Find(es, key) < |es|
    ensures Get(ToMap(es), key) == Lookup(es, key)
  {
    if es != [] {
      var n := |es| - 1;
      ToMapKeys(es[..n], key);
      FindAppend(es[..n], es[n], key);
      hide KeyOf, ValueOf;
      assert es == es[..n] + [es[n]];
    }
  }

  lemma {:induction false} FindAppend(es: seq<string>, e: string, key: string)
    ensures Find(es + [e], key) == if Find(es, key) < |es| then Find(es, key) else if KeyOf(e) == key then |es| else |es| + 1
  {
    hide KeyOf;
    if es != [] && KeyOf(es[0]) != key {
      assert (es + [e])[1..] == es[1..] + [e];
      FindAppend(es[1..], e, key);
    }
  }

  /** With unique keys, leaving out a key is leaving out one entry. */
  lemma {:induction false} WithoutIs(es: seq<string>, key: string)
    requires Unique(es)
    ensures var i := Find(es, key); Without(es, key) == if i < |es| then es[..i] + es[i + 1..] else es
  {
    hide KeyOf, Without, Find, Unique;
    if es == [] {
      NothingWithout(key);
    } else {
      var n, i := |es| - 1, Find(es, key);
      LastApart(es);
      WithoutIs(es[..n], key);
      WithoutUnfolds(es, key);
      FindAppend(es[..n], es[n], key);
      if i < n {
        OthersDiffer(es, n);
        assert es[..n][i] in es[..n];
        RemoveThenAppend(es, i);
      } else if i == n {
        assert es[..i] + es[i + 1..] == es[..n];
      }
    }
  }

  lemma {:induction false} NothingWithout(key: string)
    ensures Without([], key) == [] && Find([], key) == 0
  {
  }

  lemma LastApart(es: seq<string>)
    requires es != [] && Unique(es)
    ensures es == es[..|es| - 1] + [es[|es| - 1]] && Unique(es[..|es| - 1])
  {
    hide KeyOf;
  }

  lemma RemoveThenAppend<T>(s: seq<T>, i: nat)
    requires i < |s| - 1
    ensures var n := |s| - 1; s[..n][..i] + s[..n][i + 1..] + [s[n]] == s[..i] + s[i + 1..]
  {
  }

  lemma {:induction false} ToMapWithout(es: seq<string>, key: string)
    requires Unique(es)
    ensures ToMap(Without(es, key)) == ToMap(es) - {key}
  {
    hide KeyOf, ValueOf, Without, ToMap;
    if es == [] {
      NothingMapped(key);
    } else {
      var n := |es| - 1;
      ToMapWithout(es[..n], key);
      ToMapAppend(Without(es[..n], key), es[n]);
      ToMapAppend(es[..n], es[n]);
      WithoutUnfolds(es, key);
      assert es == es[..n] + [es[n]];
      LessKey(ToMap(es[..n]), KeyOf(es[n]), ValueOf(es[n]), key);
    }
  }

  lemma {:induction false} NothingMapped(key: string)
    ensures ToMap(Without([], key)) == ToMap([]) - {key}
  {
  }

  lemma LessKey(m: Vars, k: string, v: string, key: string)
    ensures m[k := v] - {key} == if k == key then m - {key} else (m - {key})[k := v]
  {
  }

  lemma {:induction false} ToMapAppend(es: seq<string>, e: string)
    ensures ToMap(es + [e]) == ToMap(es)[KeyOf(e) := ValueOf(e)]
  {
    assert (es + [e])[..|es|] == es;
  }

  lemma {:induction false} BytesFlat(es: seq<string>)
    requires WellFormed(es)
    ensures Bytes(ToMap(es)) == |Flat(es)|
  {
    if es != [] {
      var n := |es| - 1;
      BytesFlat(es[..n]);
      ToMapKeys(es[..n], KeyOf(es[n]));
      EntrySize(es[n]);
      FindAbsent(es, n);
      BytesAdd(ToMap(es[..n]), KeyOf(es[n]), ValueOf(es[n]));
    }
  }

  lemma FindAbsent(es: seq<string>, n: nat)
    requires Unique(es) && n + 1 == |es|
    ensures Find(es[..n], KeyOf(es[n])) == n
  {
    hide KeyOf;
  }

  lemma NewValueIs(op: Op)
    requires op.args != []
    ensures ValueOf(Text(op.name, op.args)) == NewValue(op)
  {
    var name, k := op.name, KeyLength(op.name);
    if k < |name| {
      TextShape(name, op.args);
      JoinedText(op.args);
      hide Text, Joined;
      var t := name + ("=" + Joined(op.args));
      KeyLengthIs(t, k);
      assert t[k + 1..] == name[k + 1..] + "=" + Joined(op.args);
    } else {
      TextValue(name, op.args);
    }
  }

  /** One call on the list is the same call on the map, with the same outcome. */
  lemma {:induction false} ApplyIsChange(config: Config, size: nat, es: seq<string>, op: Op)
    requires WellFormed(es) && |Image(es)| <= size && Legal(op)
    ensures var (o, r) := Apply(config, size, es, op); Change(config, size, ToMap(es), op) == (o, ToMap(r))
  {
    hide Text, KeyOf, ValueOf, Without, Lookup, ToMap, Bytes, Flat, Refuses, WellFormed, NewValue, Legal, Image;
    var key := KeyOf(op.name);
    var rest := Without(es, key);
    ListIsMap(es, key);
    if op.args != [] {
      TextEntry(op);
      NewValueIs(op);
      NewSize(rest, Text(op.name, op.args));
      ToMapAppend(rest, Text(op.name, op.args));
    }
  }

  lemma {:induction false} ListIsMap(es: seq<string>, key: string)
    requires WellFormed(es)
    ensures Get(ToMap(es), key) == Lookup(es, key) && ToMap(Without(es, key)) == ToMap(es) - {key}
    ensures Bytes(ToMap(Without(es, key))) == |Flat(Without(es, key))|
  {
    ToMapKeys(es, key);
    ToMapWithout(es, key);
    WithoutKeeps(es, key);
    BytesFlat(Without(es, key));
  }

  lemma {:induction false} NewSize(rest: seq<string>, e: string)
    requires Entry(e)
    ensures |Image(rest + [e])| == |Flat(rest)| + |KeyOf(e)| + |ValueOf(e)| + 3
  {
    FlatUnfolds(rest, e);
    EntrySize(e);
  }

  /** Every run refines the map: after any calls, whatever their outcomes, each variable has exactly
      the value the map machine gives it, and lookups see just that. */
  lemma {:induction false} RunIsChanges(config: Config, size: nat, es: seq<string>, ops: seq<Op>)
    requires WellFormed(es) && |Image(es)| <= size && forall i :: 0 <= i < |ops| ==> Legal(ops[i])
    ensures ToMap(Run(config, size, es, ops)) == Changes(config, size, ToMap(es), ops)
    ensures forall k :: Lookup(Run(config, size, es, ops), k) == Get(Changes(config, size, ToMap(es), ops), k)
  {
    hide Apply, Change, Legal, Lookup;
    RunKeeps(config, size, es, ops);
    if ops != [] {
      var before := ops[..|ops| - 1];
      RunIsChanges(config, size, es, before);
      RunKeeps(config, size, es, before);
      ApplyIsChange(config, size, Run(config, size, es, before), ops[|ops| - 1]);
    }
    forall k ensures Lookup(Run(config, size, es, ops), k) == Get(Changes(config, size, ToMap(es), ops), k) {
      ToMapKeys(Run(config, size, es, ops), k);
    }
  }

  /** The call fails for space exactly when the variables without the old definition, plus name, '=',
      value and two NULs, exceed the buffer; then only that name is gone. */
  lemma {:induction false} OverflowExactly(config: Config, size: nat, es: seq<string>, op: Op)
    requires WellFormed(es) && |Image(es)| <= size && Legal(op) && op.args != []
    requires Apply(config, size, es, op).0 != Refused
    ensures var (o, r) := Apply(config, size, es, op);
      && (o == Overflowed <==> |Flat(Without(es, KeyOf(op.name)))| + |op.name| + 1 + |Joined(op.args)| + 2 > size)
      && (o == Overflowed ==> r == Without(es, KeyOf(op.name)) && Lookup(r, KeyOf(op.name)) == None)
      && (o == Overflowed ==> forall k :: k != KeyOf(op.name) ==> Lookup(r, k) == Lookup(es, k))
  {
    var key := KeyOf(op.name);
    TextShape(op.name, op.args);
    JoinedText(op.args);
    FlatUnfolds(Without(es, key), Text(op.name, op.args));
    hide Text, Joined, Refuses, Without, Flat, KeyOf;
    LookupWithout(es, key);
  }

  lemma {:induction false} LookupWithout(es: seq<string>, key: string)
    requires WellFormed(es)
    ensures Lookup(Without(es, key), key) == None
    ensures forall k :: k != key ==> Lookup(Without(es, key), k) == Lookup(es, k)
  {
    WithoutKeeps(es, key);
    ToMapWithout(es, key);
    hide Lookup, Without, ToMap;
    forall k ensures Lookup(Without(es, key), k) == Get(ToMap(es) - {key}, k) && Lookup(es, k) == Get(ToMap(es), k) {
      ToMapKeys(es, k);
      ToMapKeys(Without(es, key), k);
    }
  }

  // -------------------------------------------------------------------------
  // Order

  /** The entries whose keys are in a set. */
  function Among(es: seq<string>, keys: set<string>): seq<string> {
    if es == [] then []
    else Among(es[..|es| - 1], keys) + (if KeyOf(es[|es| - 1]) in keys then [es[|es| - 1]] else [])
  }

  lemma {:induction false} AmongAppend(es: seq<string>, e: string, keys: set<string>)
    ensures Among(es + [e], keys) == Among(es, keys) + (if KeyOf(e) in keys then [e] else [])
  {
    assert (es + [e])[..|es|] == es;
  }

  lemma {:induction false} AmongWithout(es: seq<string>, key: string, keys: set<string>)
    requires key !in keys
    ensures Among(Without(es, key), keys) == Among(es, keys)
  {
    if es != [] {
      var n := |es| - 1;
      AmongWithout(es[..n], key, keys);
      WithoutUnfolds(es, key);
      hide KeyOf, Without;
      AmongAppend(Without(es[..n], key), es[n], keys);
    }
  }

  /** What the last call of a run stored stands at the end of the list, behind the other variables. */
  lemma {:induction false} StoredIsLast(config: Config, size: nat, es: seq<string>, ops: seq<Op>, op: Op)
    requires Apply(config, size, Run(config, size, es, ops), op).0 == Stored
    ensures var now, r := Run(config, size, es, ops), Run(config, size, es, ops + [op]);
      r == Without(now, KeyOf(op.name)) + [Text(op.name, op.args)]
  {
    hide Without, Text, KeyOf, Image, Refuses, Lookup;
    assert (ops + [op])[..|ops|] == ops;
  }

  /** Variables a run does not name keep their entries and their order among themselves. */
  lemma {:induction false} RunKeepsOrder(config: Config, size: nat, es: seq<string>, ops: seq<Op>, keys: set<string>)
    requires forall i :: 0 <= i < |ops| ==> KeyOf(ops[i].name) !in keys
    requires forall i :: 0 <= i < |ops| ==> Legal(ops[i])
    ensures Among(Run(config, size, es, ops), keys) == Among(es, keys)
  {
    if ops != [] {
      var n := |ops| - 1;
      RunKeepsOrder(config, size, es, ops[..n], keys);
      var now, op := Run(config, size, es, ops[..n]), ops[n];
      var key := KeyOf(op.name);
      AmongWithout(now, key, keys);
      if op.args != [] {
        TextEntry(op);
        AmongAppend(Without(now, key), Text(op.name, op.args), keys);
      }
    }
  }

  // -------------------------------------------------------------------------
  // Write-once variables

  /** serial#, and ethaddr unless it still has its factory value, once they are present. */
  predicate WriteOnce(config: Config, es: seq<string>, key: string) {
    && !config.overwrite && Lookup(es, key).Some?
    && (key == "serial#" || (key == "ethaddr" && Lookup(es, key) != config.factory))
  }

  /** A name that stands for the variable without being spelled like it: key, '=' and anything. */
  predicate Aliases(op: Op, key: string) {
    op.name != key && KeyOf(op.name) == key
  }

  /** What one call does to each variable. */
  lemma LookupAfter(config: Config, size: nat, es: seq<string>, op: Op, k: string)
    requires WellFormed(es) && |Image(es)| <= size && Legal(op)
    ensures var (o, r) := Apply(config, size, es, op);
      && (o == Refused <==> Refuses(config, Lookup(es, KeyOf(op.name)), op))
      && (o == Deleted <==> o != Refused && op.args == [])
      && Lookup(r, k) == if KeyOf(op.name) != k || o == Refused then Lookup(es, k)
                         else if o == Stored then Some(NewValue(op)) else None
  {
    hide Apply, Lookup, ToMap, NewValue, KeyOf, Refuses, Change, Image, Legal;
    var (o, r) := Apply(config, size, es, op);
    ApplyKeeps(config, size, es, op);
    ApplyIsChange(config, size, es, op);
    ToMapKeys(es, k);
    ToMapKeys(es, KeyOf(op.name));
    ToMapKeys(r, k);
    ChangeEffect(config, size, ToMap(es), op, k);
  }

  lemma ChangeEffect(config: Config, size: nat, m: Vars, op: Op, k: string)
    ensures var (o, r) := Change(config, size, m, op);
      && (o == Refused <==> Refuses(config, Get(m, KeyOf(op.name)), op))
      && (o == Deleted <==> o != Refused && op.args == [])
      && Get(r, k) == if KeyOf(op.name) != k || o == Refused then Get(m, k)
                      else if o == Stored then Some(NewValue(op)) else None
  {
    hide NewValue, KeyOf, Refuses, Bytes;
  }

  /** Which calls are refused: none for a variable that is not there, and none under a name that is not
      guarded; a guarded name each under its own condition. */
  lemma RefusedExactly(config: Config, size: nat, es: seq<string>, op: Op)
    ensures var refused, present := Apply(config, size, es, op).0 == Refused, Lookup(es, KeyOf(op.name));
      && (present == None ==> !refused)
      && (op.name !in {"serial#", "ethaddr", "stdin", "stdout", "stderr", "baudrate"} ==> !refused)
      && (present != None && op.name == "serial#" ==> (refused <==> !config.overwrite))
      && (present != None && op.name == "ethaddr" ==> (refused <==> !config.overwrite && present != config.factory))
      && (present != None && op.name in {"stdin", "stdout", "stderr"} ==> (refused <==> op.args == [] || !op.deviceOk))
      && (present != None && op.name == "baudrate" ==> (refused <==> !op.deviceOk))
  {
    hide Lookup, Without, Text, Image, KeyOf;
  }

  /** A call under a name that is not guarded, and is spelled without '=', does what it says: without
      arguments the variable is gone; with arguments it has them for its value, separated by spaces, iff
      they fit, and is gone otherwise. */
  lemma {:induction false} PlainCall(config: Config, size: nat, es: seq<string>, op: Op)
    requires WellFormed(es) && |Image(es)| <= size && Legal(op) && '=' !in op.name
    requires op.name !in {"serial#", "ethaddr", "stdin", "stdout", "stderr", "baudrate"}
    ensures var (o, r) := Apply(config, size, es, op);
      && (op.args == [] ==> o == Deleted && Lookup(r, op.name) == None)
      && (op.args != [] ==>
            && (o == if |Flat(Without(es, op.name))| + |op.name| + |Joined(op.args)| + 3 > size then Overflowed else Stored)
            && Lookup(r, op.name) == if o == Stored then Some(Joined(op.args)) else None)
  {
    hide Lookup, Without, Text, KeyOf, Flat, Joined, Image, Legal, Refuses, WellFormed;
    PlainKey(op.name);
    PlainValue(op);
    RefusedExactly(config, size, es, op);
    LookupAfter(config, size, es, op, op.name);
    if op.args != [] { OverflowExactly(config, size, es, op); }
  }

  lemma PlainValue(op: Op)
    requires '=' !in op.name
    ensures op.args != [] ==> NewValue(op) == Joined(op.args)
  {
    hide Joined;
    KeyLengthIs(op.name, |op.name|);
  }

  /** The arguments joined: the first, and after each space the next. */
  lemma {:induction false} JoinedWords(args: seq<string>, arg: string)
    ensures Joined([arg]) == arg
    ensures args != [] ==> Joined(args + [arg]) == Joined(args) + " " + arg
  {
    assert [arg][..0] == [] && (args + [arg])[..|args|] == args;
  }

  /** What one call does to a write-once variable: nothing, exactly when its name is
      no alias of it; a call under an alias deletes it or replaces it. */
  lemma WriteOnceStep(config: Config, size: nat, es: seq<string>, op: Op, key: string)
    requires WellFormed(es) && |Image(es)| <= size && Legal(op) && WriteOnce(config, es, key)
    ensures var (o, r) := Apply(config, size, es, op);
      if Aliases(op, key) then o != Refused && Lookup(r, key) == (if o == Stored then Some(NewValue(op)) else None)
      else Lookup(r, key) == Lookup(es, key)
  {
    hide Apply, Lookup, WellFormed, NewValue, Refuses, Legal, Image, KeyOf;
    LookupAfter(config, size, es, op, key);
    if op.name == key {
      PlainKey(key);
      PlainIsRefused(config, es, op);
    }
    if Aliases(op, key) { AliasGoesThrough(config, Lookup(es, key), op, key); }
  }

  /** The guarded names are spelled without '=', so no alias of a key is one of them. */
  lemma AliasGoesThrough(config: Config, present: Option<string>, op: Op, key: string)
    requires Aliases(op, key) && (key == "serial#" || key == "ethaddr")
    ensures !Refuses(config, present, op)
  {
    PlainKey(op.name);
    hide KeyOf;
  }

  lemma PlainIsRefused(config: Config, es: seq<string>, op: Op)
    requires WriteOnce(config, es, op.name)
    ensures Refuses(config, Lookup(es, op.name), op)
  {
    hide Lookup;
  }

  lemma PlainKey(name: string)
    ensures '=' !in name ==> KeyOf(name) == name
  {
    if '=' !in name { KeyLengthIs(name, |name|); }
  }

  /** Setting a variable to the value it has never runs out of space. */
  lemma {:induction false} SameValueFits(config: Config, size: nat, es: seq<string>, op: Op)
    requires WellFormed(es) && |Image(es)| <= size && op.args != []
    requires Lookup(es, KeyOf(op.name)) == Some(NewValue(op))
    ensures Change(config, size, ToMap(es), op).0 != Overflowed
  {
    var key := KeyOf(op.name);
    ToMapKeys(es, key);
    BytesFlat(es);
    ImageSize(es);
    hide KeyOf, NewValue, Lookup, ToMap, Bytes, Flat, Image, WellFormed, Refuses;
    BytesOf(ToMap(es), key);
  }

  /** The exact condition under which a write-once variable keeps its value through a call. */
  lemma WriteOnceExactly(config: Config, size: nat, es: seq<string>, op: Op, key: string)
    requires WellFormed(es) && |Image(es)| <= size && Legal(op) && WriteOnce(config, es, key)
    ensures Lookup(Apply(config, size, es, op).1, key) == Lookup(es, key)
      <==> (!Aliases(op, key) || (op.args != [] && Some(NewValue(op)) == Lookup(es, key)))
  {
    hide Apply, Lookup, WellFormed, NewValue, Refuses, Legal, Image, KeyOf, Change, ToMap;
    WriteOnceStep(config, size, es, op, key);
    LookupAfter(config, size, es, op, key);
    if op.args != [] && Some(NewValue(op)) == Lookup(es, key) && KeyOf(op.name) == key {
      SameValueFits(config, size, es, op);
      ApplyIsChange(config, size, es, op);
      NoArgsNoStore(config, size, ToMap(es), op);
    }
  }

  lemma NoArgsNoStore(config: Config, size: nat, m: Vars, op: Op)
    ensures Change(config, size, m, op).0 == Deleted ==> op.args == []
  {
  }

  lemma AliasDeletes(config: Config, size: nat, es: seq<string>, op: Op, key: string)
    requires WellFormed(es) && |Image(es)| <= size && Legal(op) && WriteOnce(config, es, key)
    requires Aliases(op, key) && op.args == []
    ensures Lookup(Apply(config, size, es, op).1, key) == None
  {
    hide Apply, Lookup, WellFormed, NewValue, Refuses, Legal, Image, KeyOf;
    WriteOnceStep(config, size, es, op, key);
    LookupAfter(config, size, es, op, key);
  }

  lemma SerialAlias()
    ensures Aliases(Op("serial#=", [], true), "serial#") && Legal(Op("serial#=", [], true))
  {
    KeyLengthIs("serial#=", 7);
    assert "serial#="[..7] == "serial#";
  }

  /** So write-once does not hold of every call: one under the name "serial#=" deletes a serial
      number. */
  lemma SerialDeleted(config: Config, size: nat, es: seq<string>)
    requires WellFormed(es) && |Image(es)| <= size && WriteOnce(config, es, "serial#")
    ensures Lookup(Apply(config, size, es, Op("serial#=", [], true)).1, "serial#") == None
  {
    hide Apply, Lookup, WellFormed, Legal, Image, Aliases, WriteOnce;
    SerialAlias();
    AliasDeletes(config, size, es, Op("serial#=", [], true), "serial#");
  }

  /** Over any run without aliases a write-once variable keeps its value. */
  lemma {:induction false} WriteOnceForever(config: Config, size: nat, es: seq<string>, ops: seq<Op>, key: string)
    requires WellFormed(es) && |Image(es)| <= size && WriteOnce(config, es, key)
    requires forall i :: 0 <= i < |ops| ==> Legal(ops[i]) && !Aliases(ops[i], key)
    ensures Lookup(Run(config, size, es, ops), key) == Lookup(es, key)
  {
    hide Apply, Legal, Lookup, Aliases;
    if ops != [] {
      var n := |ops| - 1;
      WriteOnceForever(config, size, es, ops[..n], key);
      RunKeeps(config, size, es, ops[..n]);
      WriteOnceStep(config, size, Run(config, size, es, ops[..n]), ops[n], key);
    }
  }
}
