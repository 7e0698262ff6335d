/** The printer as it runs: text copied piece by piece into a buffer of limited length. */
module MtdPrinter {
  import opened Options
  import opened Words
  import opened CStrings
  import opened MtdSize
  import opened MtdParts
  import opened MtdText
  import opened Slices

  /** What has been written so far, and the room that is left. */
  datatype Sheet = Sheet(text: string, room: nat)

  /** Writing t on a sheet: it succeeds if and only if there is room for all of it. */
  predicate Wrote(ok: bool, before: Sheet, after: Sheet, t: string) {
    ok == (|t| <= before.room) && (ok ==> after == Sheet(before.text + t, before.room - |t|))
  }

  lemma WroteBoth(ok: bool, s0: Sheet, s1: Sheet, s2: Sheet, a: string, b: string)
    requires Wrote(true, s0, s1, a) && Wrote(ok, s1, s2, b)
    ensures Wrote(ok, s0, s2, a + b)
  {
    assert s0.text + a + b == s0.text + (a + b);
  }

  lemma WroteNot(s0: Sheet, s1: Sheet, a: string, b: string)
    requires Wrote(false, s0, s1, a)
    ensures Wrote(false, s0, s1, a + b)
  {
  }

  lemma WroteNothing(s: Sheet)
    ensures Wrote(true, s, s, "")
  {
    assert s.text + "" == s.text;
  }

  /** Where the next partition starts by itself. */
  function RunningAfter(prev: Option<Part>): u32 {
    if prev.Some? then (prev.value.offset + prev.value.size) % WORD else 0
  }

  /** The text from partition k on, and whatever follows. */
  function PartsFrom(ps: seq<Part>, k: nat, rest: string): string
    requires k <= |ps|
  {
    if k == |ps| then rest
    else PartsText(ps[k..], RunningAfter(if k == 0 then None else Some(ps[k - 1]))) + rest
  }

  lemma PartsFromStep(ps: seq<Part>, k: nat, rest: string)
    requires k < |ps|
    ensures PartsFrom(ps, k, rest)
         == PartText(ps[k], RunningAfter(if k == 0 then None else Some(ps[k - 1])))
            + (if k + 1 < |ps| then "," else "") + PartsFrom(ps, k + 1, rest)
  {
    hide PartText;
    assert ps[k..][0] == ps[k] && ps[k..][1..] == ps[k + 1..];
    var t := PartText(ps[k], RunningAfter(if k == 0 then None else Some(ps[k - 1])));
    if k + 1 < |ps| {
      var u := PartsText(ps[k + 1..], RunningAfter(Some(ps[k])));
      assert t + ("," + u) + rest == t + "," + (u + rest);
    } else {
      assert t + "" + rest == t + "" + "" + rest;
    }
  }

  class Printer {
    const buf: array<char>
    var p: nat
    var maxlen: nat         // characters left, one for the final NUL not counted

    ghost predicate Valid()
      reads this
    {
      9 <= p && p + maxlen < buf.Length
    }

    /** What has been written behind the prefix, and the room left. */
    ghost function Now(): Sheet
      reads this, buf
      requires Valid()
    {
      Sheet(buf[9..p], maxlen)
    }

    constructor (buf: array<char>)
      ensures this.buf == buf
    {
      this.buf := buf;
      p, maxlen := 0, 0;
    }

    /** Writes a piece if there is room for it. */
    method Put(s: string) returns (ok: bool)
      requires Valid()
      modifies this`p, this`maxlen, buf
      ensures Valid() && Wrote(ok, old(Now()), Now(), s) && buf[..9] == old(buf[..9])
    {
      if |s| > maxlen { return false; }
      ghost var was, first := buf[..p], buf[..9];
      forall i | 0 <= i < |s| { buf[p + i] := s[i]; }
      assert buf[..p] == was;
      SliceOfSlice(buf[..], 0, p, 0, 9);
      assert buf[p..p + |s|] == s;
      assert buf[9..p + |s|] == buf[9..p] + buf[p..p + |s|];
      assert buf[9..p] == was[9..p];
      assert buf[..9] == was[..9];
      p, maxlen := p + |s|, maxlen - |s|;
      ok := true;
    }

    /** Size, and the offset only where there is a gap. */
    method PutExtent(part: Part, prev: Option<Part>) returns (ok: bool)
      requires Valid()
      modifies this`p, this`maxlen, buf
      ensures Valid() && Wrote(ok, old(Now()), Now(), ExtentText(part, RunningAfter(prev))) && buf[..9] == old(buf[..9])
    {
      hide MemsizeFormat, Wrote;
      ghost var gap := if part.offset == RunningAfter(prev) then "" else "@" + MemsizeFormat(part.offset);
      ok := Put(MemsizeFormat(part.size));
      ghost var mid := Now();
      if !ok {
        WroteNot(old(Now()), mid, MemsizeFormat(part.size), gap);
        return;
      }
      WroteNothing(mid);
      if (prev == None && part.offset != 0) || (prev.Some? && (prev.value.offset + prev.value.size) % WORD != part.offset) {
        ok := Put("@" + MemsizeFormat(part.offset));
      }
      WroteBoth(ok, old(Now()), mid, Now(), MemsizeFormat(part.size), gap);
    }

    /** The name if it is the user's own, and the flag. */
    method PutLabel(part: Part) returns (ok: bool)
      requires Valid()
      modifies this`p, this`maxlen, buf
      ensures Valid() && Wrote(ok, old(Now()), Now(), NameText(part.name) + (if part.ro then "ro" else ""))
      ensures buf[..9] == old(buf[..9])
    {
      hide Wrote;
      ghost var flag := if part.ro then "ro" else "";
      ok := true;
      WroteNothing(Now());
      if part.name.Some? {
        ok := Put("(" + part.name.value + ")");
      }
      ghost var mid := Now();
      if !ok {
        WroteNot(old(Now()), mid, NameText(part.name), flag);
        return;
      }
      WroteNothing(mid);
      if part.ro { ok := Put("ro"); }
      WroteBoth(ok, old(Now()), mid, Now(), NameText(part.name), flag);
    }

    method PutPart(part: Part, prev: Option<Part>) returns (ok: bool)
      requires Valid()
      modifies this`p, this`maxlen, buf
      ensures Valid() && Wrote(ok, old(Now()), Now(), PartText(part, RunningAfter(prev))) && buf[..9] == old(buf[..9])
    {
      hide Wrote, ExtentText;
      ghost var tag := NameText(part.name) + (if part.ro then "ro" else "");
      ok := PutExtent(part, prev);
      ghost var mid := Now();
      if !ok {
        WroteNot(old(Now()), mid, ExtentText(part, RunningAfter(prev)), tag);
        return;
      }
      ok := PutLabel(part);
      WroteBoth(ok, old(Now()), mid, Now(), ExtentText(part, RunningAfter(prev)), tag);
    }

    /** A partition and the comma after it, if there are others. */
    method PutListed(part: Part, prev: Option<Part>, more: bool) returns (ok: bool)
      requires Valid()
      modifies this`p, this`maxlen, buf
      ensures Valid() && buf[..9] == old(buf[..9])
      ensures Wrote(ok, old(Now()), Now(), PartText(part, RunningAfter(prev)) + (if more then "," else ""))
    {
      hide Wrote, PartText;
      ghost var comma := if more then "," else "";
      ok := PutPart(part, prev);
      ghost var mid := Now();
      if !ok {
        WroteNot(old(Now()), mid, PartText(part, RunningAfter(prev)), comma);
        return;
      }
      WroteNothing(mid);
      if more { ok := Put(","); }
      WroteBoth(ok, old(Now()), mid, Now(), PartText(part, RunningAfter(prev)), comma);
    }

    /** The partitions of a device, separated by commas. */
    method PutParts(ps: seq<Part>) returns (ok: bool)
      requires Valid() && ps != []
      modifies this`p, this`maxlen, buf
      ensures Valid() && Wrote(ok, old(Now()), Now(), PartsText(ps, 0)) && buf[..9] == old(buf[..9])
    {
      hide Wrote, PartText, PartsText, PartsFrom;
      ghost var start, text, whole := Now(), "", PartsText(ps, 0);
      var prev: Option<Part> := None;
      var k := 0;
      PartsFromEnds(ps);
      WroteNothing(start);
      while k < |ps|
        invariant 0 <= k <= |ps| && prev == (if k == 0 then None else Some(ps[k - 1]))
        invariant Valid() && Wrote(true, start, Now(), text) && buf[..9] == old(buf[..9])
        invariant whole == text + PartsFrom(ps, k, "")
        modifies this`p, this`maxlen, buf
      {
        ghost var mid, piece := Now(), PartText(ps[k], RunningAfter(prev)) + (if k + 1 < |ps| then "," else "");
        PartsFromStep(ps, k, "");
        Assoc(text, piece, PartsFrom(ps, k + 1, ""));
        ok := PutListed(ps[k], prev, k + 1 < |ps|);
        WroteBoth(ok, start, mid, Now(), text, piece);
        if !ok {
          WroteNot(start, Now(), text + piece, PartsFrom(ps, k + 1, ""));
          return;
        }
        text := text + piece;
        prev := Some(ps[k]);
        k := k + 1;
      }
      assert text + "" == text;
      ok := true;
    }

    /** The id and its colon, the partitions, and the semicolon if there are other devices. */
    method PutDevice(dev: Device, more: bool) returns (ok: bool)
      requires Valid() && dev.parts != []
      modifies this`p, this`maxlen, buf
      ensures Valid() && buf[..9] == old(buf[..9])
      ensures Wrote(ok, old(Now()), Now(), DeviceText(dev) + (if more then ";" else ""))
    {
      hide Wrote, PartsText;
      ghost var t, semi := PartsText(dev.parts, 0), if more then ";" else "";
      ok := Put(dev.id.name + ":");
      ghost var mid := Now();
      assert DeviceText(dev) + semi == dev.id.name + ":" + t + semi;
      if !ok {
        WroteNot(old(Now()), mid, dev.id.name + ":", t);
        WroteNot(old(Now()), mid, dev.id.name + ":" + t, semi);
        return;
      }
      ok := PutParts(dev.parts);
      ghost var mid2 := Now();
      WroteBoth(ok, old(Now()), mid, mid2, dev.id.name + ":", t);
      if !ok {
        WroteNot(old(Now()), mid2, dev.id.name + ":" + t, semi);
        return;
      }
      WroteNothing(mid2);
      if more { ok := Put(";"); }
      WroteBoth(ok, old(Now()), mid2, Now(), dev.id.name + ":" + t, semi);
    }

    method PutDevices(devs: seq<Device>) returns (ok: bool)
      requires Valid() && devs != [] && Populated(devs)
      modifies this`p, this`maxlen, buf
      ensures Valid() && Wrote(ok, old(Now()), Now(), BodyText(devs)) && buf[..9] == old(buf[..9])
    {
      hide Wrote, DeviceText, BodyText, BodyFrom;
      ghost var start, text, whole := Now(), "", BodyText(devs);
      BodyFromEnds(devs);
      WroteNothing(start);
      var k := 0;
      while k < |devs|
        invariant 0 <= k <= |devs|
        invariant Valid() && Wrote(true, start, Now(), text) && buf[..9] == old(buf[..9])
        invariant whole == text + BodyFrom(devs, k)
        modifies this`p, this`maxlen, buf
      {
        ghost var mid, piece := Now(), DeviceText(devs[k]) + (if k + 1 < |devs| then ";" else "");
        BodyFromStep(devs, k);
        Assoc(text, piece, BodyFrom(devs, k + 1));
        ok := PutDevice(devs[k], k + 1 < |devs|);
        WroteBoth(ok, start, mid, Now(), text, piece);
        if !ok {
          WroteNot(start, Now(), text + piece, BodyFrom(devs, k + 1));
          return;
        }
        text := text + piece;
        k := k + 1;
      }
      assert text + "" == text;
      ok := true;
    }

    /** generate_mtdparts: 0 if and only if everything behind the prefix fits buflen - 1 characters;
        the prefix itself is not charged. */
    method Generate(devs: seq<Device>, buflen: nat) returns (rc: int)
      requires Populated(devs) && 1 <= buflen && buflen + 9 <= buf.Length
      modifies this`p, this`maxlen, buf
      ensures devs == [] ==> rc == 0 && buf[0] == NUL
      ensures devs != [] ==> rc == if |BodyText(devs)| <= buflen - 1 then 0 else 1
      ensures devs != [] && rc == 0 ==>
        p < buf.Length && buf[..p] == PREFIX + BodyText(devs) && buf[p] == NUL
    {
      hide BodyText;
      if devs == [] {
        buf[0] := NUL;
        return 0;
      }
      forall i | 0 <= i < 9 { buf[i] := PREFIX[i]; }
      p, maxlen := 9, buflen - 1;
      assert buf[..9] == PREFIX && buf[9..9] == "";
      var ok := PutDevices(devs);
      if !ok { return 1; }
      assert buf[..p] == buf[..9] + buf[9..p];
      ghost var text := buf[..p];
      buf[p] := NUL;
      assert buf[..p] == text;
      rc := 0;
    }
  }

  lemma Assoc(a: string, b: string, c: string)
    ensures a + (b + c) == (a + b) + c
  {
  }

  lemma {:induction false} PartsFromEnds(ps: seq<Part>)
    requires ps != []
    ensures PartsText(ps, 0) == "" + PartsFrom(ps, 0, "") && PartsFrom(ps, |ps|, "") == ""
  {
    hide PartsText;
    assert ps[0..] == ps;
    assert PartsText(ps, 0) + "" == PartsText(ps, 0) == "" + PartsText(ps, 0);
  }

  /** The text from device k on. */
  function BodyFrom(devs: seq<Device>, k: nat): string
    requires k <= |devs| && Populated(devs)
  {
    if k == |devs| then "" else BodyText(devs[k..])
  }

  lemma {:induction false} BodyFromEnds(devs: seq<Device>)
    requires devs != [] && Populated(devs)
    ensures BodyText(devs) == "" + BodyFrom(devs, 0) && BodyFrom(devs, |devs|) == ""
  {
    hide BodyText;
    assert devs[0..] == devs;
    assert BodyText(devs) == "" + BodyText(devs);
  }

  lemma BodyFromStep(devs: seq<Device>, k: nat)
    requires k < |devs| && Populated(devs)
    ensures BodyFrom(devs, k) == (DeviceText(devs[k]) + (if k + 1 < |devs| then ";" else "")) + BodyFrom(devs, k + 1)
  {
    hide DeviceText;
    assert devs[k..][0] == devs[k] && devs[k..][1..] == devs[k + 1..];
    var t := DeviceText(devs[k]);
    if k + 1 < |devs| {
      Assoc(t, ";", BodyText(devs[k + 1..]));
    } else {
      assert t + "" == t + "" + "";
    }
  }
}
