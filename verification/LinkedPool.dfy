/** Linked lists threaded through the slots of a fixed pool; a link is a slot number or -1. */
module LinkedPool {
  import opened Sequences

  const NIL: int := -1

  /** Following `next` from `first` visits exactly the slots `s`, in order. */
  ghost predicate Linked(next: seq<int>, first: int, s: seq<nat>) {
    && Distinct(s) && first == (if s == [] then NIL else s[0])
    && (forall i :: 0 <= i < |s| ==> s[i] < |next|)
    && (forall i, j :: 0 <= i && j == i + 1 && j < |s| ==> next[s[i]] == s[j])
    && (s != [] ==> next[s[|s| - 1]] == NIL)
  }

  /** Slot `prev` holds the links in the other direction. */
  ghost predicate LinkedBack(prev: seq<int>, last: int, s: seq<nat>) {
    && last == (if s == [] then NIL else s[|s| - 1])
    && (forall i :: 0 <= i < |s| ==> s[i] < |prev|)
    && (forall i, j :: 0 <= i && j == i + 1 && j < |s| ==> prev[s[j]] == s[i])
    && (s != [] ==> prev[s[0]] == NIL)
  }

  /** A list of slots without slot number `i`. */
  function Without(s: seq<nat>, i: nat): (r: seq<nat>)
    requires i < |s|
    ensures |r| == |s| - 1
  {
    Cut(s, i)
  }

  lemma {:induction false} WithoutMembers(s: seq<nat>, i: nat)
    requires i < |s| && Distinct(s)
    ensures Distinct(Without(s, i)) && s[i] !in Without(s, i)
    ensures forall x :: x in s <==> x in Without(s, i) || x == s[i]
  {
    var r := Without(s, i);
    assert forall k :: 0 <= k < |r| ==> r[k] == (if k < i then s[k] else s[k + 1]);
    forall x | x in s
      ensures x in r || x == s[i]
    {
      var k :| 0 <= k < |s| && s[k] == x;
      if k < i {
        assert r[k] == x;
      } else if k > i {
        assert r[k - 1] == x;
      }
    }
  }

  lemma {:induction false} LinkedDistinct(next: seq<int>, first: int, s: seq<nat>)
    requires Linked(next, first, s)
    ensures Distinct(s)
  {
  }

  /** Writing a link outside the list does not change the list. */
  lemma {:induction false} LinkedFrame(next: seq<int>, next': seq<int>, first: int, s: seq<nat>)
    requires Linked(next, first, s) && |next| == |next'| && forall i :: 0 <= i < |s| ==> next'[s[i]] == next[s[i]]
    ensures Linked(next', first, s)
  {
  }

  lemma {:induction false} LinkedPush(next: seq<int>, first: int, s: seq<nat>, x: nat)
    requires Linked(next, first, s) && x < |next| && x !in s
    ensures Linked(next[x := first], x, [x] + s)
  {
    var t := [x] + s;
    assert forall i :: 1 <= i < |t| ==> t[i] == s[i - 1];
    var next' := next[x := first];
    forall i, j | 0 <= i && j == i + 1 && j < |t|
      ensures next'[t[i]] == t[j]
    {
      if i > 0 {
        assert next[s[i - 1]] == s[j - 1];
      }
    }
  }

  lemma {:induction false} LinkedPop(next: seq<int>, first: int, s: seq<nat>)
    requires Linked(next, first, s) && s != []
    ensures Linked(next, next[first], s[1..])
  {
    var t := s[1..];
    assert forall i :: 0 <= i < |t| ==> t[i] == s[i + 1];
    forall i, j | 0 <= i && j == i + 1 && j < |t|
      ensures next[t[i]] == t[j]
    {
      assert next[s[i + 1]] == s[j + 1];
    }
    if |s| > 1 {
      assert next[s[0]] == s[1];
    }
  }

  /** Bypassing element `i`. */
  lemma {:induction false} LinkedUnlink(next: seq<int>, first: int, s: seq<nat>, i: nat)
    requires Linked(next, first, s) && i < |s|
    ensures i == 0 ==> Linked(next, next[s[i]], Without(s, i))
    ensures i > 0 ==> Linked(next[s[i - 1] := next[s[i]]], first, Without(s, i))
  {
    var t := Without(s, i);
    WithoutMembers(s, i);
    if i == 0 {
      LinkedPop(next, first, s);
      assert t == s[1..];
    } else {
      var next' := next[s[i - 1] := next[s[i]]];
      assert forall k :: 0 <= k < |t| ==> t[k] == (if k < i then s[k] else s[k + 1]);
      forall k, j | 0 <= k && j == k + 1 && j < |t|
        ensures next'[t[k]] == t[j]
      {
        if k < i - 1 {
          assert next[s[k]] == s[j];
        } else if k == i - 1 {
          var n := i + 1;
          assert next[s[i]] == s[n];
        } else {
          assert next[s[k + 1]] == s[j + 1];
        }
      }
    }
  }

  /** A new first element. */
  lemma {:induction false} BackPush(prev: seq<int>, last: int, s: seq<nat>, x: nat)
    requires LinkedBack(prev, last, s) && Distinct(s) && x < |prev| && x !in s
    ensures var p := prev[x := NIL];
            LinkedBack(if s == [] then p else p[s[0] := x], if s == [] then x else last, [x] + s)
  {
    var t := [x] + s;
    assert forall i :: 1 <= i < |t| ==> t[i] == s[i - 1];
    var p := prev[x := NIL];
    var prev' := if s == [] then p else p[s[0] := x];
    forall i, j | 0 <= i && j == i + 1 && j < |t|
      ensures prev'[t[j]] == t[i]
    {
      if i > 0 {
        assert prev[s[j - 1]] == s[i - 1];
        assert s[j - 1] != s[0];
      }
    }
  }

  lemma {:induction false} BackUnlink(prev: seq<int>, last: int, s: seq<nat>, i: nat)
    requires LinkedBack(prev, last, s) && Distinct(s) && i < |s|
    ensures i == |s| - 1 ==> LinkedBack(prev, prev[s[i]], Without(s, i))
    ensures i < |s| - 1 ==> LinkedBack(prev[s[i + 1] := prev[s[i]]], last, Without(s, i))
  {
    var t := Without(s, i);
    assert forall k :: 0 <= k < |t| ==> t[k] == (if k < i then s[k] else s[k + 1]);
    var n := i + 1;
    var prev' := if n < |s| then prev[s[n] := prev[s[i]]] else prev;
    if i > 0 {
      var m := i - 1;
      assert prev[s[i]] == s[m];
    }
    forall k, j | 0 <= k && j == k + 1 && j < |t|
      ensures prev'[t[j]] == t[k]
    {
      if j < i {
        assert prev[s[j]] == s[k];
      } else if k >= i {
        assert prev[s[j + 1]] == s[k + 1];
      }
    }
  }
}
