/** Notions about sequences that several parts share. */
module Sequences {

  datatype Option<T> = None | Some(value: T)

  ghost predicate Distinct(s: seq<int>) {
    forall i, j :: 0 <= i < j < |s| ==> s[i] != s[j]
  }

  /** A sequence without its element number `i`. */
  function Cut<T>(s: seq<T>, i: nat): (r: seq<T>)
    requires i < |s|
    ensures |r| == |s| - 1
  {
    s[..i] + s[i + 1..]
  }

  /** Behind a part of a sequence. */
  lemma {:induction false} Skip<T>(s: seq<T>, p: nat, x: seq<T>, y: seq<T>)
    requires p <= |s| && s[p..] == x + y
    ensures p + |x| <= |s| && s[p + |x|..] == y
  {
    assert s[p + |x|..] == s[p..][|x|..];
  }

  /** A slice of a part of a sequence. */
  lemma {:induction false} SliceDeep<T>(s: seq<T>, v: nat, x: seq<T>, y: seq<T>, ofs: nat, n: nat)
    requires v <= |s| && s[v..] == x + y && ofs + n <= |x|
    ensures v + ofs + n <= |s| && s[v + ofs..v + ofs + n] == x[ofs..ofs + n]
  {
    var a, b := s[v + ofs..v + ofs + n], x[ofs..ofs + n];
    forall k | 0 <= k < n
      ensures a[k] == b[k]
    {
      assert s[v..][ofs + k] == x[ofs + k];
    }
  }

  lemma {:induction false} SliceOfSlice<T>(s: seq<T>, p: nat, l: nat, ofs: nat, n: nat)
    requires p + l <= |s| && ofs + n <= l
    ensures s[p..p + l][ofs..ofs + n] == s[p + ofs..p + ofs + n]
  {
    var a, b := s[p..p + l][ofs..ofs + n], s[p + ofs..p + ofs + n];
    forall k | 0 <= k < n
      ensures a[k] == b[k]
    {
      assert s[p..p + l][ofs + k] == s[p + (ofs + k)];
    }
  }
}
