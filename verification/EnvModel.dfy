/** What setenv does to the list of entries, and why that list is a bounded map. */
module EnvModel {
  import opened Options
  import opened EnvText

  /** Build options: whether serial# and ethaddr may be overwritten at will, and the factory ethaddr
      that may be overwritten once. */
  datatype Config = Config(overwrite: bool, factory: Option<string>)

  /** One setenv call. deviceOk says whether the console or the serial line would take the setting. */
  datatype Op = Op(name: string, args: seq<string>, deviceOk: bool)

  datatype Outcome = Stored | Deleted | Refused | Overflowed

  predicate Legal(op: Op) {
    NoNul(op.name) && forall i :: 0 <= i < |op.args| ==> NoNul(op.args[i])
  }

  /** name=arg arg arg */
  function Text(name: string, args: seq<string>): string {
    if args == [] then name
    else Text(name, args[..|args| - 1]) + [if |args| == 1 then '=' else ' '] + args[|args| - 1]
  }

  predicate Console(name: string) {
    name == "stdin" || name == "stdout" || name == "stderr"
  }

  /** Whether the present value of a variable, if any, protects it against this call. */
  predicate Refuses(config: Config, present: Option<string>, op: Op) {
    present.Some? && (
      || (!config.overwrite && (op.name == "serial#" || (op.name == "ethaddr" && present != config.factory)))
      || (Console(op.name) && op.args == [])
      || ((Console(op.name) || op.name == "baudrate") && !op.deviceOk))
  }

  /** The entries for other keys. */
  function Without(es: seq<string>, key: string): (r: seq<string>)
    ensures |r| <= |es|
  {
    if es == [] then []
    else Without(es[..|es| - 1], key) + (if KeyOf(es[|es| - 1]) == key then [] else [es[|es| - 1]])
  }

  function Apply(config: Config, size: nat, es: seq<string>, op: Op): (Outcome, seq<string>) {
    var key := KeyOf(op.name);
    if Refuses(config, Lookup(es, key), op) then (Refused, es)
    else
      var rest := Without(es, key);
      if op.args == [] then (Deleted, rest)
      else if |Image(rest + [Text(op.name, op.args)])| > size then (Overflowed, rest)
      else (Stored, rest + [Text(op.name, op.args)])
  }

  function Run(config: Config, size: nat, es: seq<string>, ops: seq<Op>): seq<string> {
    if ops == [] then es
    else Apply(config, size, Run(config, size, es, ops[..|ops| - 1]), ops[|ops| - 1]).1
  }

  // -------------------------------------------------------------------------
  // The text of a new entry

  lemma {:induction false} KeyLengthIs(s: string, n: nat)
    requires n <= |s| && (n < |s| ==> s[n] == '=') && forall i :: 0 <= i < n ==> s[i] != '='
    ensures KeyLength(s) == n
  {
  }

  lemma {:induction false} TextUnfolds(name: string, args: seq<string>)
    requires |args| > 1
    ensures Text(name, args) == Text(name, args[..|args| - 1]) + ([' '] + args[|args| - 1])
  {
  }

  lemma AppendKeeps(name: string, t: string, x: string)
    requires |t| > 0 && t[0] == '='
    ensures (name + t) + x == name + (t + x) && |name + t + x| > |name|
    ensures (name + t + x)[..|name|] == name && (name + t + x)[|name|] == '='
  {
  }

  lemma {:induction false} TextShape(name: string, args: seq<string>)
    requires args != []
    ensures |Text(name, args)| > |name| && Text(name, args)[..|name|] == name && Text(name, args)[|name|] == '='
    ensures Text(name, args) == name + Text("", args)
  {
    var n := |args| - 1;
    if n > 0 {
      TextShape(name, args[..n]);
      hide Text;
      TextUnfolds(name, args);
      TextUnfolds("", args);
      AppendKeeps(name, Text("", args[..n]), [' '] + args[n]);
    } else {
      assert args[..0] == [];
    }
  }

  lemma {:induction false} TextStep(name: string, args: seq<string>, i: nat)
    requires i < |args|
    ensures Text(name, args[..i + 1]) == Text(name, args[..i]) + [if i == 0 then '=' else ' '] + args[i]
  {
    assert args[..i + 1][..i] == args[..i];
  }

  lemma {:induction false} TextNothing(name: string, args: seq<string>)
    ensures Text(name, args[..0]) == name
  {
  }

  lemma {:induction false} TextGrows(name: string, args: seq<string>, i: nat)
    requires i <= |args|
    ensures |name| <= |Text(name, args[..i])| <= |Text(name, args)|
    decreases |args| - i
  {
    if i < |args| {
      TextGrows(name, args, i + 1);
      TextStep(name, args, i);
    } else {
      assert args[..i] == args;
    }
    TextLonger(name, args[..i]);
  }

  lemma {:induction false} TextLonger(name: string, args: seq<string>)
    ensures |name| <= |Text(name, args)|
  {
    if args != [] { TextLonger(name, args[..|args| - 1]); }
  }

  /** A new entry has the key of the name it was made for. */
  lemma {:induction false} TextKey(name: string, args: seq<string>)
    requires args != []
    ensures KeyOf(Text(name, args)) == KeyOf(name) && KeyLength(Text(name, args)) < |Text(name, args)|
  {
    TextShape(name, args);
    hide Text;
    var t, k := Text(name, args), KeyLength(name);
    assert forall i :: 0 <= i < |name| ==> t[i] == t[..|name|][i] == name[i];
    KeyLengthIs(t, k);
    assert t[..k] == name[..k];
  }

  lemma {:induction false} TextNoNul(op: Op, k: nat)
    requires Legal(op) && k <= |op.args|
    ensures NoNul(Text(op.name, op.args[..k]))
  {
    if k > 0 {
      TextNoNul(op, k - 1);
      assert op.args[..k][..k - 1] == op.args[..k - 1];
    }
  }

  lemma TextEntry(op: Op)
    requires Legal(op) && op.args != []
    ensures Entry(Text(op.name, op.args)) && KeyOf(Text(op.name, op.args)) == KeyOf(op.name)
  {
    TextNoNul(op, |op.args|);
    assert op.args[..|op.args|] == op.args;
    TextKey(op.name, op.args);
  }

  lemma EntryValue(name: string, value: string)
    requires '=' !in name
    ensures KeyOf(name + "=" + value) == name && ValueOf(name + "=" + value) == value
  {
    KeyLengthIs(name + "=" + value, |name|);
  }

  /** For a plain name the value is what getenv should return: the arguments joined by spaces. */
  lemma {:induction false} TextValue(name: string, args: seq<string>)
    requires args != [] && '=' !in name
    ensures ValueOf(Text(name, args)) == Joined(args)
  {
    TextShape(name, args);
    JoinedText(args);
    hide Text, Joined;
    EntryValue(name, Joined(args));
    assert name + "=" + Joined(args) == name + ("=" + Joined(args));
  }

  function Joined(args: seq<string>): string
    requires args != []
  {
    if |args| == 1 then args[0] else Joined(args[..|args| - 1]) + " " + args[|args| - 1]
  }

  lemma {:induction false} JoinedText(args: seq<string>)
    requires args != []
    ensures Text("", args) == "=" + Joined(args)
  {
    if |args| > 1 {
      JoinedText(args[..|args| - 1]);
    } else {
      assert args[..0] == [];
    }
  }

  // -------------------------------------------------------------------------
  // Every call keeps the list well formed and within the buffer

  lemma {:induction false} WithoutUnfolds(es: seq<string>, key: string)
    requires es != []
    ensures var n := |es| - 1;
      Without(es, key) == if KeyOf(es[n]) == key then Without(es[..n], key) else Without(es[..n], key) + [es[n]]
  {
    hide KeyOf;
  }

  lemma OthersDiffer(es: seq<string>, n: nat)
    requires n < |es| && Unique(es)
    ensures forall x :: x in es[..n] ==> KeyOf(x) != KeyOf(es[n])
  {
    hide KeyOf;
  }

  lemma {:induction false} WithoutMembers(es: seq<string>, key: string)
    ensures forall e :: e in Without(es, key) <==> e in es && KeyOf(e) != key
  {
    if es != [] {
      WithoutMembers(es[..|es| - 1], key);
      assert es == es[..|es| - 1] + [es[|es| - 1]];
    }
  }

  lemma {:induction false} WithoutUnique(es: seq<string>, key: string)
    requires Unique(es)
    ensures Unique(Without(es, key))
  {
    if es != [] {
      var n := |es| - 1;
      WithoutUnique(es[..n], key);
      WithoutMembers(es[..n], key);
      hide KeyOf, Without;
      WithoutUnfolds(es, key);
      if KeyOf(es[n]) != key {
        OthersDiffer(es, n);
        UniqueAppend(Without(es[..n], key), es[n]);
      }
    }
  }

  lemma UniqueAppend(r: seq<string>, e: string)
    requires Unique(r) && forall x :: x in r ==> KeyOf(x) != KeyOf(e)
    ensures Unique(r + [e])
  {
    hide KeyOf;
    forall i | 0 <= i < |r| ensures KeyOf(r[i]) != KeyOf(e) {
      assert r[i] in r;
    }
  }

  lemma {:induction false} ImageSize(es: seq<string>)
    requires forall i :: 0 <= i < |es| ==> Entry(es[i])
    ensures |Image(es)| == if es == [] then 2 else |Flat(es)| + 1
    ensures |Flat(es)| + 1 <= |Image(es)|
  {
  }

  lemma {:induction false} WithoutShorter(es: seq<string>, key: string)
    ensures |Flat(Without(es, key))| <= |Flat(es)|
  {
    if es != [] {
      var n := |es| - 1;
      WithoutShorter(es[..n], key);
      WithoutUnfolds(es, key);
      FlatUnfolds(es[..n], es[n]);
      FlatUnfolds(Without(es[..n], key), es[n]);
      assert es[..n] + [es[n]] == es;
    }
  }

  lemma {:induction false} WithoutKeeps(es: seq<string>, key: string)
    requires WellFormed(es)
    ensures WellFormed(Without(es, key)) && |Image(Without(es, key))| <= |Image(es)|
    ensures forall x :: x in Without(es, key) ==> KeyOf(x) != key
  {
    var rest := Without(es, key);
    WithoutMembers(es, key);
    WithoutUnique(es, key);
    WithoutShorter(es, key);
    hide Without, KeyOf, Flat;
    forall i | 0 <= i < |rest| ensures Entry(rest[i]) && KeyOf(rest[i]) != key {
      assert rest[i] in es;
    }
    FlatShape(rest);
  }

  /** Unique names, NUL-free entries, a list that fits: whatever the call and its outcome. */
  lemma ApplyKeeps(config: Config, size: nat, es: seq<string>, op: Op)
    requires WellFormed(es) && |Image(es)| <= size && Legal(op)
    ensures var r := Apply(config, size, es, op).1; WellFormed(r) && |Image(r)| <= size
  {
    var key := KeyOf(op.name);
    hide Without, KeyOf, Image, Text, Refuses, Entry, Unique, Legal;
    WithoutKeeps(es, key);
    if op.args != [] {
      TextEntry(op);
      UniqueAppend(Without(es, key), Text(op.name, op.args));
    }
  }

  lemma {:induction false} RunKeeps(config: Config, size: nat, es: seq<string>, ops: seq<Op>)
    requires WellFormed(es) && |Image(es)| <= size && forall i :: 0 <= i < |ops| ==> Legal(ops[i])
    ensures var r := Run(config, size, es, ops); WellFormed(r) && |Image(r)| <= size
  {
    if ops != [] {
      RunKeeps(config, size, es, ops[..|ops| - 1]);
      ApplyKeeps(config, size, Run(config, size, es, ops[..|ops| - 1]), ops[|ops| - 1]);
    }
  }
}
