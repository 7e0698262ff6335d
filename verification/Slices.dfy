/** Facts about slices of slices. */
module Slices {

  lemma SliceOfSlice<T>(s: seq<T>, off: nat, n: nat, a: nat, b: nat)
    requires a <= b <= n && off + n <= |s|
    ensures s[off..off + n][a..b] == s[off + a..off + b]
  {
    var t := s[off..off + n];
    forall i | 0 <= i < b - a ensures t[a..b][i] == s[off + a..off + b][i] {
      assert t[a + i] == s[off + (a + i)];
    }
  }

  lemma SameTail<T>(s: seq<T>, t: seq<T>, a: nat, b: nat)
    requires a <= b <= |s| == |t| && s[a..] == t[a..]
    ensures s[b..] == t[b..] && s[a..b] == t[a..b]
    ensures forall j :: a <= j < |s| ==> s[j] == t[j]
  {
    forall j | a <= j < |s| ensures s[j] == t[j] {
      assert s[j] == s[a..][j - a];
    }
  }

  /** Overwriting the d elements after pre + mid extends mid by d. */
  lemma Splice<T>(s: seq<T>, pre: seq<T>, mid: seq<T>, post: seq<T>, d: seq<T>, t: seq<T>)
    requires s == pre + mid + post && |d| <= |post|
    requires t == s[..|pre| + |mid|] + d + s[|pre| + |mid| + |d|..]
    ensures t == pre + (mid + d) + post[|d|..]
  {
    assert s[..|pre| + |mid|] == pre + mid;
    assert s[|pre| + |mid| + |d|..] == post[|d|..];
  }

  lemma TailOfTail<T>(s: seq<T>, a: nat, b: nat)
    requires a + b <= |s|
    ensures s[a..][b..] == s[a + b..]
  {
    forall i | 0 <= i < |s| - a - b ensures s[a..][b..][i] == s[a + b..][i] {
      assert s[a..][b + i] == s[a + (b + i)];
    }
  }
}
