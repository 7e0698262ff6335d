/** setenv and getenv on the environment buffer, in place. */
module EnvStore {
  import opened Options
  import opened CStrings
  import opened EnvText
  import opened EnvModel
  import EnvMap

  class Environment {
    const data: array<char>     // env_data
    const areaSize: nat         // CFG_ENV_SIZE, the buffer with its header
    const config: Config        // a factory address without NULs
    ghost var entries: seq<string>

    /** The buffer holds the list. */
    ghost predicate Valid()
      reads this, data
    {
      WellFormed(entries) && Stands(data[..], 0, Image(entries)) && data.Length <= areaSize
      && (config.factory.Some? ==> NoNul(config.factory.value))
    }

    constructor (size: nat, areaSize: nat, config: Config)
      requires 2 <= size <= areaSize && (config.factory.Some? ==> NoNul(config.factory.value))
      ensures Valid() && entries == [] && fresh(data)
      ensures data.Length == size && this.areaSize == areaSize && this.config == config
    {
      data := new char[size](_ => NUL);
      this.areaSize := areaSize;
      this.config := config;
      entries := [];
    }

    /** Entry i starts at position p. */
    ghost predicate StartsAt(i: nat, p: nat)
      reads this
    {
      i <= |entries| && p == |Flat(entries[..i])|
    }

    /** What stands at the start of an entry, or at the end of the list. */
    lemma Around(i: nat, p: nat)
      requires Valid() && StartsAt(i, p)
      ensures p < data.Length && (i < |entries| <==> data[p] != NUL)
      ensures i < |entries| ==> Stands(data[..], p, entries[i] + [NUL]) && StartsAt(i + 1, p + |entries[i]| + 1) && Entry(entries[i])
    {
      hide Flat;
      FlatShape(entries);
      if i < |entries| {
        FlatSplit(entries, i);
        var e, tail := entries[i] + [NUL], Flat(entries[i + 1..]);
        StandsJoin(data[..], 0, Flat(entries), [NUL]);
        StandsJoin(data[..], 0, Flat(entries[..i]), e + tail);
        StandsJoin(data[..], p, e, tail);
        EntryShape(entries[i]);
        StandsAt(data[..], p, e);
        assert data[..][p + 0] == e[0];
      } else {
        assert entries[..i] == entries;
        if entries != [] {
          StandsJoin(data[..], 0, Flat(entries), [NUL]);
          StandsAt(data[..], p, [NUL]);
          assert data[..][p + 0] == NUL;
        } else {
          FlatNothing();
          StandsAt(data[..], 0, Image(entries));
          assert data[..][0 + 0] == NUL;
        }
      }
    }

    /** envmatch: the value position for entry i at position p if the names match, else -1. */
    method EnvMatch(name: string, p: nat, ghost i: nat) returns (v: int)
      requires Valid() && StartsAt(i, p) && i < |entries| && NoNul(name)
      ensures v == if KeyOf(entries[i]) == KeyOf(name) then p + KeyLength(entries[i]) + 1 else -1
    {
      hide Flat, KeyLength, Unique, Image;
      ghost var e := entries[i];
      Around(i, p);
      StandsAt(data[..], p, e + [NUL]);
      hide Stands;
      assert forall k :: 0 <= k < |e| ==> data[p + k] == (e + [NUL])[k] == e[k];
      var j := 0;
      while (if j < |name| then name[j] else NUL) == data[p + j]
        invariant 0 <= j <= |name| && j <= KeyLength(name) && j <= KeyLength(e)
        invariant forall k :: 0 <= k < j ==> name[k] == e[k]
        decreases |e| - j
      {
        if name[j] == '=' {
          assert KeyOf(e) == KeyOf(name);
          return p + j + 1;
        }
        j := j + 1;
      }
      if j == |name| && data[p + j] == '=' {
        assert KeyOf(e) == KeyOf(name);
        return p + j + 1;
      }
      KeysDiffer(e, name, j);
      return -1;
    }

    /** The search of _do_setenv: the start of the entry, its terminating NUL, and its value. */
    method Search(name: string) returns (env: nat, nxt: nat, oldval: int)
      requires Valid() && NoNul(name)
      ensures var i := Find(entries, KeyOf(name));
        && StartsAt(i, env)
        && oldval == (if i < |entries| then env + KeyLength(entries[i]) + 1 else -1)
        && (i < |entries| ==> nxt == env + |entries[i]|)
    {
      hide Flat, KeyLength, KeyOf, WellFormed, Stands, Image;
      env, nxt, oldval := 0, 0, -1;
      ghost var i := 0;
      FlatNothing();
      assert entries[..0] == [];
      Around(0, 0);
      while data[env] != NUL
        invariant StartsAt(i, env) && env < data.Length && (i < |entries| <==> data[env] != NUL)
        invariant i <= Find(entries, KeyOf(name)) && oldval == -1
        decreases |entries| - i
      {
        nxt := EntryEnd(env, i);
        oldval := EnvMatch(name, env, i);
        FindFrom(entries, KeyOf(name), i);
        if oldval >= 0 { return; }
        Around(i, env);
        env := nxt + 1;
        i := i + 1;
        Around(i, env);
      }
    }

    /** Runs to the NUL that ends entry i. */
    method EntryEnd(p: nat, ghost i: nat) returns (nxt: nat)
      requires Valid() && StartsAt(i, p) && i < |entries|
      ensures nxt == p + |entries[i]|
    {
      hide Flat, Image;
      ghost var e := entries[i];
      Around(i, p);
      StandsAt(data[..], p, e + [NUL]);
      assert forall k :: 0 <= k <= |e| ==> data[p + k] == (e + [NUL])[k];
      assert Entry(e);
      nxt := p;
      while data[nxt] != NUL
        invariant p <= nxt <= p + |e|
        decreases p + |e| - nxt
      {
        nxt := nxt + 1;
      }
    }

    /** getenv: the position of the value, or -1. */
    method GetEnv(name: string) returns (v: int)
      requires Valid() && NoNul(name)
      ensures match Lookup(entries, KeyOf(name))
        case None => v == -1
        case Some(value) => v >= 0 && Stands(data[..], v, value + [NUL])
    {
      hide Flat, KeyLength, KeyOf, WellFormed, Stands, Image, ValueOf;
      var p: nat, nxt: nat := 0, 0;
      v := -1;
      ghost var i := 0;
      FlatNothing();
      assert entries[..0] == [];
      Around(0, 0);
      while data[p] != NUL
        invariant StartsAt(i, p) && p < data.Length && (i < |entries| <==> data[p] != NUL)
        invariant i <= Find(entries, KeyOf(name)) && v == -1
        decreases |entries| - i
      {
        nxt := EntryEnd(p, i);
        Around(i, p);
        StandsInside(p, entries[i]);
        if nxt >= areaSize { return -1; }
        v := EnvMatch(name, p, i);
        FindFrom(entries, KeyOf(name), i);
        if v >= 0 {
          ValueStands(data[..], p, entries[i]);
          return;
        }
        p := nxt + 1;
        i := i + 1;
        Around(i, p);
      }
    }

    lemma StandsInside(p: nat, e: string)
      requires Valid() && Stands(data[..], p, e + [NUL])
      ensures p + |e| < data.Length <= areaSize
    {
    }

    // -----------------------------------------------------------------------
    // Deleting

    /** Moves the text after a deleted entry down, up to the two NULs that end it. */
    method ShiftDown(dst: nat, src: nat, ghost rest: seq<string>) returns (env: nat)
      requires dst < src && rest != [] && (forall x :: x in rest ==> Entry(x))
      requires Stands(data[..], src, Flat(rest) + [NUL])
      modifies data
      ensures env == dst + |Flat(rest)| - 1 && env + 1 < data.Length
      ensures forall t :: 0 <= t < |Flat(rest)| ==> data[dst + t] == Flat(rest)[t]
      ensures forall t :: 0 <= t < dst ==> data[t] == old(data[t])
    {
      FlatShape(rest);
      hide Flat, Entry, Stands;
      ghost var b, d := Flat(rest), data[..];
      StandsAt(d, src, b + [NUL]);
      assert forall t :: 0 <= t < |b| ==> d[src + t] == (b + [NUL])[t] == b[t];
      assert d[src + |b|] == (b + [NUL])[|b|] == NUL;
      env := dst;
      var nxt := src;
      while true
        invariant dst <= env < dst + |b| && nxt == src + (env - dst)
        invariant forall t :: 0 <= t < env - dst ==> data[dst + t] == b[t]
        invariant forall t :: 0 <= t < dst ==> data[t] == d[t]
        invariant forall t :: env <= t < data.Length ==> data[t] == d[t]
        decreases dst + |b| - env
      {
        ghost var k := env - dst;
        assert d[src + k] == b[k];
        assert k + 1 < |b| ==> d[src + (k + 1)] == b[k + 1];
        data[env] := data[nxt];
        nxt := nxt + 1;
        if data[env] == NUL && data[nxt] == NUL { break; }
        env := env + 1;
      }
    }

    /** Takes an entry out: the only one, the last one, or one with others after it. */
    method Delete(env0: nat, nxt0: nat, ghost i: nat)
      requires Valid() && i < |entries| && StartsAt(i, env0) && nxt0 == env0 + |entries[i]|
      modifies this`entries, data
      ensures Valid() && entries == old(entries[..i] + entries[i + 1..])
    {
      hide Flat, Image, WellFormed;
      var env, nxt := env0, nxt0 + 1;
      ghost var d, a, b := data[..], entries[..i], entries[i + 1..];
      Around(i, env0);
      Around(i + 1, nxt);
      ListParts(d, entries, i);
      FlatNothing();
      entries := a + b;
      FlatAppend(a, b);
      if data[nxt] == NUL {
        assert b == [] && a + b == a;
        if env > 0 {
          env := env - 1;
        } else {
          data[env] := NUL;
        }
      } else {
        env := ShiftDown(env, nxt, b);
      }
      env := env + 1;
      data[env] := NUL;
      Rebuilt(d, data[..], a, b);
    }

    // -----------------------------------------------------------------------
    // Appending

    /** The end of the list, found by its two NULs. */
    method FindEnd() returns (env: nat)
      requires Valid()
      ensures env == |Flat(entries)|
    {
      hide Flat;
      FlatShape(entries);
      ListEnd(data[..], entries);
      ghost var f := Flat(entries);
      hide Stands, WellFormed;
      env := 0;
      while data[env] != NUL || data[env + 1] != NUL
        invariant env + 1 < data.Length && (if f == "" then env == 0 else env < |f|)
        decreases data.Length - env
      {
        env := env + 1;
      }
      if env > 0 { env := env + 1; }
    }

    /** strlen(name) + 2, and one more than its length for each argument. */
    method TextLength(name: string, args: seq<string>) returns (len: nat)
      ensures len == |Text(name, args)| + 2
    {
      len := |name| + 2;
      for i := 0 to |args|
        invariant len == |Text(name, args[..i])| + 2
      {
        TextStep(name, args, i);
        len := len + |args[i]| + 1;
      }
      assert args[..|args|] == args;
    }

    /** Copies a string with its NUL; returns where the NUL stands. */
    method CopyString(s: string, at: nat) returns (env: nat)
      requires at + |s| < data.Length
      modifies data
      ensures env == at + |s| && Stands(data[..], at, s + [NUL])
      ensures forall t :: 0 <= t < at ==> data[t] == old(data[t])
    {
      env := at;
      while env < at + |s|
        invariant at <= env <= at + |s|
        invariant forall t :: 0 <= t < env - at ==> data[at + t] == s[t]
        invariant forall t :: 0 <= t < at ==> data[t] == old(data[t])
      {
        data[env] := s[env - at];
        env := env + 1;
      }
      data[env] := NUL;
      StandsAt(data[..], at, s + [NUL]);
    }

    /** Writes name=arg arg arg at a position; returns where its NUL stands. */
    method WriteText(name: string, args: seq<string>, at: nat) returns (env: nat)
      requires at + |Text(name, args)| < data.Length
      modifies data
      ensures env == at + |Text(name, args)| && Stands(data[..], at, Text(name, args) + [NUL])
      ensures forall t :: 0 <= t < at ==> data[t] == old(data[t])
    {
      hide Text, Stands;
      TextGrows(name, args, 0);
      env := CopyString(name, at);
      TextNothing(name, args);
      for i := 0 to |args|
        invariant env == at + |Text(name, args[..i])| && |Text(name, args[..i])| <= |Text(name, args)|
        invariant Stands(data[..], at, Text(name, args[..i]) + [NUL])
        invariant forall t :: 0 <= t < at ==> data[t] == old(data[t])
      {
        ghost var d, t0 := data[..], Text(name, args[..i]);
        var c := if i == 0 then '=' else ' ';
        TextStep(name, args, i);
        TextGrows(name, args, i + 1);
        data[env] := c;
        env := CopyString(args[i], env + 1);
        TextGrown(d, data[..], at, t0, c, args[i]);
      }
      assert args[..|args|] == args;
    }

    /** Puts the new definition behind the others, if it fits. */
    method Append(name: string, args: seq<string>) returns (fits: bool)
      requires Valid() && Entry(Text(name, args)) && WellFormed(entries + [Text(name, args)])
      modifies this`entries, data
      ensures Valid()
      ensures fits <==> |Image(old(entries) + [Text(name, args)])| <= data.Length
      ensures entries == if fits then old(entries) + [Text(name, args)] else old(entries)
    {
      hide Text, Flat, WellFormed, Entry, Stands;
      ghost var t := Text(name, args);
      var env := FindEnd();
      var len := TextLength(name, args);
      NewImage(entries, t);
      if len > data.Length - env { return false; }
      ghost var d := data[..];
      ListStands(d, entries);
      var end := WriteText(name, args, env);
      ghost var written := data[..];
      data[end + 1] := NUL;
      StandsKept(written, data[..], env, t + [NUL]);
      StandsKept(d, data[..], 0, Flat(entries));
      Finished(data[..], Flat(entries), t);
      entries := entries + [t];
      fits := true;
    }

    // -----------------------------------------------------------------------
    // setenv

    /** strcmp(data + p, s) == 0 */
    method SameString(p: nat, s: string, ghost value: string) returns (same: bool)
      requires Stands(data[..], p, value + [NUL]) && NoNul(value) && NoNul(s)
      ensures same == (value == s)
    {
      StandsAt(data[..], p, value + [NUL]);
      assert forall t :: 0 <= t <= |value| ==> data[p + t] == (value + [NUL])[t];
      hide Stands;
      var j := 0;
      while j < |s| && data[p + j] == s[j]
        invariant 0 <= j <= |s| && j <= |value|
        invariant forall t :: 0 <= t < j ==> value[t] == s[t]
      {
        j := j + 1;
      }
      return j == |s| && data[p + j] == NUL;
    }

    /** The checks made before an existing definition is deleted. */
    method Guard(op: Op, oldval: nat, ghost value: string) returns (refused: bool)
      requires Valid() && Stands(data[..], oldval, value + [NUL]) && NoNul(value)
      ensures refused == Refuses(config, Some(value), op)
    {
      hide Stands;
      if !config.overwrite {
        if op.name == "serial#" { return true; }
        if op.name == "ethaddr" {
          if config.factory == None { return true; }
          var same := SameString(oldval, config.factory.value, value);
          if !same { return true; }
        }
      }
      if Console(op.name) {
        if op.args == [] || !op.deviceOk { return true; }
      }
      return op.name == "baudrate" && !op.deviceOk;
    }

    /** Looks for an existing definition and, unless it is protected, deletes it. */
    method Forget(op: Op) returns (refused: bool)
      requires Valid() && Legal(op)
      modifies this`entries, data
      ensures Valid() && old(WellFormed(entries))
      ensures var i := Find(old(entries), KeyOf(op.name));
        refused == (i < |old(entries)| && Refuses(config, Some(ValueOf(old(entries)[i])), op))
      ensures entries == if refused then old(entries) else Without(old(entries), KeyOf(op.name))
    {
      hide Flat, Stands, Image, Refuses, KeyOf, Without, Find;
      ghost var i := Find(entries, KeyOf(op.name));
      EnvMap.WithoutIs(entries, KeyOf(op.name));
      var env, nxt, oldval := Search(op.name);
      refused := false;
      if oldval >= 0 {
        Around(i, env);
        ValueStands(data[..], env, entries[i]);
        refused := Guard(op, oldval, ValueOf(entries[i]));
        if !refused { Delete(env, nxt, i); }
      }
    }

    /** _do_setenv; 0 when it did what it was asked to. */
    method SetEnv(op: Op) returns (rc: int)
      requires Valid() && Legal(op)
      modifies this`entries, data
      ensures Valid()
      ensures var (o, es) := Apply(config, data.Length, old(entries), op);
        entries == es && rc == if o == Stored || o == Deleted then 0 else 1
    {
      hide Flat, Stands, Image, Refuses, KeyOf, Text, Without, Find, Apply, ValueOf, Entry, Unique;
      ghost var es, key := entries, KeyOf(op.name);
      ApplyCases(config, data.Length, es, op);
      var refused := Forget(op);
      if refused { return 1; }
      if op.args == [] { return 0; }
      TextEntry(op);
      WithoutKeeps(es, key);
      UniqueAppend(Without(es, key), Text(op.name, op.args));
      var fits := Append(op.name, op.args);
      return if fits then 0 else 1;
    }
  }

  /** The branches of a call, as the code takes them. */
  lemma {:induction false} ApplyCases(config: Config, size: nat, es: seq<string>, op: Op)
    ensures var i := Find(es, KeyOf(op.name)); var rest := Without(es, KeyOf(op.name));
      Apply(config, size, es, op) ==
        if i < |es| && Refuses(config, Some(ValueOf(es[i])), op) then (Refused, es)
        else if op.args == [] then (Deleted, rest)
        else if |Image(rest + [Text(op.name, op.args)])| > size then (Overflowed, rest)
        else (Stored, rest + [Text(op.name, op.args)])
  {
    hide Image, KeyOf, Text, Without, Find, ValueOf;
  }

  lemma {:induction false} KeysDiffer(e: string, name: string, j: nat)
    requires Entry(e) && NoNul(name) && j <= KeyLength(e) && j <= KeyLength(name)
    requires (if j < |name| then name[j] else NUL) != e[j] && !(j == |name| && e[j] == '=')
    ensures KeyOf(e) != KeyOf(name)
  {
    if j < KeyLength(e) && j < KeyLength(name) {
      assert KeyOf(e)[j] == e[j] && KeyOf(name)[j] == name[j];
    }
  }

  lemma {:induction false} FindFrom(es: seq<string>, key: string, i: nat)
    requires i <= Find(es, key) && i < |es|
    ensures KeyOf(es[i]) == key ==> Find(es, key) == i
    ensures KeyOf(es[i]) != key ==> i + 1 <= Find(es, key)
  {
    if i > 0 { FindFrom(es[1..], key, i - 1); }
  }
}
