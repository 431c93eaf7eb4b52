/** Mapping Linux users and groups to SIDs and back (`acls.c`). */
module SidMapping {
  import opened Sequences

  const TWO30: nat := 0x4000_0000
  const TWO32: nat := 0x1_0000_0000

  datatype Sid = Sid(revision: nat, authority: nat, sub: seq<nat>)
  datatype Mapping = Mapping(xid: nat, sid: Sid)

  /** The administrators' group, S-1-5-32-544. */
  const adminsid := Sid(1, 5, [32, 544])

  predicate Words(s: Sid) {
    forall i :: 0 <= i < |s.sub| ==> s.sub[i] < TWO32
  }

  /** `ntfs_valid_pattern`, for a SID with at least two sub-authorities as those of users have. */
  predicate ValidPattern(p: Sid) {
    |p.sub| >= 2 && Words(p) && 1000 <= p.sub[|p.sub| - 1] <= 0x7fff_ffff
  }

  function WithLast(p: Sid, last: nat): (r: Sid)
    requires p.sub != []
  {
    p.(sub := p.sub[|p.sub| - 1 := last])
  }

  /** A 32-bit addition to the last but one sub-authority. */
  function Carried(p: Sid, carry: nat): (r: Sid)
    requires |p.sub| >= 2
  {
    p.(sub := p.sub[|p.sub| - 2 := (p.sub[|p.sub| - 2] + carry) % TWO32])
  }

  /** The SID built from a pattern for a user (`parity` 0) or a group (1). */
  function ImplicitSid(p: Sid, id: nat, parity: nat): (r: Sid)
    requires |p.sub| >= 2
  {
    var low := WithLast(p, (p.sub[|p.sub| - 1] + 2 * (id % TWO30) + parity) % TWO32);
    if id >= TWO30 then Carried(low, id / TWO30 % 4) else low
  }

  /** What the mapping list is searched for: the first explicit entry that fits, else the pattern. */
  function Entry(m: seq<Mapping>, i: nat, fits: Mapping -> bool): (r: nat)
    requires i <= |m|
    ensures i <= r <= |m| && (r < |m| ==> m[r].xid == 0 || fits(m[r]))
    ensures forall k :: i <= k < r ==> m[k].xid != 0 && !fits(m[k])
    decreases |m| - i
  {
    if i == |m| || m[i].xid == 0 || fits(m[i]) then i else Entry(m, i + 1, fits)
  }

  /** Every pattern has at least two sub-authorities. */
  ghost predicate Deep(m: seq<Mapping>) {
    forall k :: 0 <= k < |m| && m[k].xid == 0 ==> |m[k].sid.sub| >= 2
  }

  /** `ntfs_find_usid` and `ntfs_find_gsid`: the SID of a user (`parity` 0) or of a group (1). */
  method FindSid(m: seq<Mapping>, id: nat, parity: nat) returns (r: Option<Sid>)
    requires Deep(m)
    ensures r == SidOf(m, id, parity)
  {
    if id == 0 {
      return Some(adminsid);
    }
    var i := 0;
    while i < |m| && m[i].xid != 0 && m[i].xid != id
      invariant i <= |m| && Entry(m, i, (x: Mapping) => x.xid == id) == Entry(m, 0, (x: Mapping) => x.xid == id)
    {
      i := i + 1;
    }
    if i < |m| && m[i].xid == 0 {
      var p := m[i].sid;
      var n := |p.sub|;
      var sub := p.sub[n - 1 := (p.sub[n - 1] + 2 * (id % TWO30) + parity) % TWO32];
      if id >= TWO30 {
        sub := sub[n - 2 := (sub[n - 2] + id / TWO30 % 4) % TWO32];
      }
      return Some(Sid(p.revision, p.authority, sub));
    }
    r := if i < |m| then Some(m[i].sid) else None;
  }

  function SidOf(m: seq<Mapping>, id: nat, parity: nat): (r: Option<Sid>)
    requires Deep(m)
  {
    if id == 0 then Some(adminsid) else
      var i := Entry(m, 0, (x: Mapping) => x.xid == id);
      if i == |m| then None else if m[i].xid == 0 then Some(ImplicitSid(m[i].sid, id, parity)) else Some(m[i].sid)
  }

  /** The first of the carries from `c` to 3 that turns `p` into `x`, else 4. */
  function CarryOf(x: Sid, p: Sid, c: nat): (r: nat)
    requires |p.sub| >= 2 && 1 <= c <= 4
    ensures c <= r <= 4 && (r < 4 ==> x == Carried(p, r)) && forall k :: c <= k < r ==> x != Carried(p, k)
    decreases 4 - c
  {
    if c == 4 || x == Carried(p, c) then c else CarryOf(x, p, c + 1)
  }

  /** `findimplicit`: the user or group whose SID the pattern gives, 0 if there is none. */
  method FindImplicit(x: Sid, pattern: Sid, parity: nat) returns (xid: nat)
    requires |pattern.sub| >= 2
    ensures xid == ImplicitId(x, pattern, parity)
  {
    var n := |pattern.sub|;
    if |x.sub| != n {
      return 0;
    }
    var xlast, rlast := x.sub[n - 1], pattern.sub[n - 1];
    if xlast <= rlast || (xlast + rlast + parity) % 2 != 0 {
      return 0;
    }
    var p := WithLast(pattern, xlast);
    if p == x {
      return (xlast - rlast) / 2 % TWO30;
    }
    ghost var base := p;
    var carry := 1;
    p := Carried(p, 1);
    CarriedTwice(base, 0);
    while p != x && carry < 3
      invariant 1 <= carry <= 3 && p == Carried(base, carry) && |p.sub| == n
      invariant CarryOf(x, base, carry) == CarryOf(x, base, 1)
    {
      CarriedTwice(base, carry);
      p := Carried(p, 1);
      carry := carry + 1;
    }
    if p != x {
      carry := carry + 1;
    }
    xid := if carry < 4 then (xlast - rlast) / 2 % TWO30 + carry * TWO30 else 0;
  }

  lemma {:induction false} CarriedTwice(p: Sid, c: nat)
    requires |p.sub| >= 2
    ensures Carried(Carried(p, c), 1) == Carried(p, c + 1)
  {
  }

  function ImplicitId(x: Sid, pattern: Sid, parity: nat): (r: nat)
    requires |pattern.sub| >= 2
  {
    var n := |pattern.sub|;
    if |x.sub| != n then 0 else
      var xlast, rlast := x.sub[n - 1], pattern.sub[n - 1];
      if xlast <= rlast || (xlast + rlast + parity) % 2 != 0 then 0 else
        var p, id := WithLast(pattern, xlast), (xlast - rlast) / 2 % TWO30;
        if p == x then id else
          var c := CarryOf(x, p, 1);
          if c < 4 then id + c * TWO30 else 0
  }

  /** `ntfs_find_user` and `ntfs_find_group`. */
  method FindId(m: seq<Mapping>, x: Sid, parity: nat) returns (r: nat)
    requires Deep(m)
    ensures r == IdOf(m, x, parity)
  {
    var i := 0;
    while i < |m| && m[i].xid != 0 && m[i].sid != x
      invariant i <= |m| && Entry(m, i, (e: Mapping) => e.sid == x) == Entry(m, 0, (e: Mapping) => e.sid == x)
    {
      i := i + 1;
    }
    if i < |m| && m[i].xid == 0 {
      r := FindImplicit(x, m[i].sid, parity);
    } else {
      r := if i < |m| then m[i].xid else 0;
    }
  }

  function IdOf(m: seq<Mapping>, x: Sid, parity: nat): (r: nat)
    requires Deep(m)
  {
    var i := Entry(m, 0, (e: Mapping) => e.sid == x);
    if i == |m| then 0 else if m[i].xid == 0 then ImplicitId(x, m[i].sid, parity) else m[i].xid
  }

  // ---- what the mapping promises ------------------------------------------------------------------

  /** The addition to the last sub-authority does not overflow 32 bits. */
  lemma {:induction false} NoOverflow(p: Sid, id: nat, parity: nat)
    requires ValidPattern(p) && parity <= 1
    ensures p.sub[|p.sub| - 1] + 2 * (id % TWO30) + parity < TWO32
    ensures |ImplicitSid(p, id, parity).sub| == |p.sub|
    ensures ImplicitSid(p, id, parity).sub[|p.sub| - 1] == p.sub[|p.sub| - 1] + 2 * (id % TWO30) + parity
  {
  }

  lemma {:induction false} CarryFound(p: Sid, c: nat, k: nat)
    requires |p.sub| >= 2 && p.sub[|p.sub| - 2] < TWO32 && 1 <= k <= c <= 3
    ensures CarryOf(Carried(p, c), p, k) == c && Carried(p, c) != p
    decreases c - k
  {
    var n := |p.sub|;
    assert Carried(p, c).sub[n - 2] == (p.sub[n - 2] + c) % TWO32;
    if k < c {
      assert Carried(p, k).sub[n - 2] == (p.sub[n - 2] + k) % TWO32;
      CarryFound(p, c, k + 1);
    }
  }

  /** From a pattern to a SID and back: the identity but for users whose low 30 bits are all zero, which
      are taken for root. */
  lemma {:induction false} ImplicitRoundTrip(p: Sid, id: nat, parity: nat)
    requires ValidPattern(p) && parity <= 1 && 0 < id < TWO32
    ensures ImplicitId(ImplicitSid(p, id, parity), p, parity) == (if parity == 0 && id % TWO30 == 0 then 0 else id)
  {
    hide ImplicitSid, ImplicitId, Words;
    var c := id / TWO30;
    assert id == id % TWO30 + c * TWO30;
    ImplicitSidIs(p, id % TWO30, c, parity);
    ImplicitIdIs(p, id % TWO30, c, parity);
  }

  lemma {:induction false} ImplicitIdIs(p: Sid, id: nat, c: nat, parity: nat)
    requires ValidPattern(p) && parity <= 1 && id < TWO30 && c <= 3
    ensures var low := WithLast(p, p.sub[|p.sub| - 1] + 2 * id + parity);
            ImplicitId(if c == 0 then low else Carried(low, c), p, parity)
                == (if 2 * id + parity == 0 then 0 else id + c * TWO30)
  {
    hide CarryOf;
    var low := WithLast(p, p.sub[|p.sub| - 1] + 2 * id + parity);
    if c > 0 {
      CarryFound(low, c, 1);
    }
  }

  /** Root and its group are the administrators, and the administrators are root unless an entry before the
      pattern names them. */
  lemma {:induction false} RootMapped(m: seq<Mapping>, parity: nat)
    requires Deep(m) && forall k :: 0 <= k < |m| && m[k].xid == 0 ==> ValidPattern(m[k].sid)
    ensures SidOf(m, 0, parity) == Some(adminsid)
    ensures IdOf(m, adminsid, parity) == 0 <==>
            forall k :: 0 <= k < |m| && m[k].sid == adminsid && m[k].xid != 0 ==> PatternBefore(m, k)
  {
    hide ValidPattern;
    var i := Entry(m, 0, (e: Mapping) => e.sid == adminsid);
    if i < |m| && m[i].xid == 0 {
      AdminNoImplicit(m[i].sid, parity);
    }
  }

  ghost predicate PatternBefore(m: seq<Mapping>, k: nat)
    requires k < |m|
  {
    exists j :: 0 <= j < k && m[j].xid == 0
  }

  lemma {:induction false} AdminNoImplicit(p: Sid, parity: nat)
    requires |p.sub| >= 2 && ValidPattern(p)
    ensures ImplicitId(adminsid, p, parity) == 0
  {
  }

  /** No user has the SID of a group of the same pattern. */
  lemma {:induction false} UsersAreNoGroups(p: Sid, uid: nat, gid: nat)
    requires ValidPattern(p)
    ensures ImplicitSid(p, uid, 0) != ImplicitSid(p, gid, 1)
  {
    NoOverflow(p, uid, 0);
    NoOverflow(p, gid, 1);
  }

  /** Through a mapping list: an id comes back from its SID exactly when no entry before its own has that
      SID and, for a user mapped by the pattern, the low 30 bits are not all zero. */
  lemma {:induction false} MappedRoundTrip(m: seq<Mapping>, id: nat, parity: nat)
    requires Deep(m) && forall k :: 0 <= k < |m| && m[k].xid == 0 ==> ValidPattern(m[k].sid)
    requires 0 < id < TWO32 && parity <= 1 && SidOf(m, id, parity).Some?
    ensures var i, x := Entry(m, 0, (e: Mapping) => e.xid == id), SidOf(m, id, parity).value;
            IdOf(m, x, parity) == id <==>
            (forall k :: 0 <= k < i ==> m[k].sid != x) && (m[i].xid == 0 && parity == 0 ==> id % TWO30 != 0)
  {
    hide ImplicitId, ImplicitSid;
    var i, x := Entry(m, 0, (e: Mapping) => e.xid == id), SidOf(m, id, parity).value;
    var j := Entry(m, 0, (e: Mapping) => e.sid == x);
    if forall k :: 0 <= k < i ==> m[k].sid != x {
      assert j >= i;
      if m[i].xid == 0 {
        ImplicitRoundTrip(m[i].sid, id, parity);
      }
    } else {
      assert j < i;
    }
  }

  /** From a SID to an id and back, as long as the id has room in 30 bits of the last sub-authority. */
  lemma {:induction false} ImplicitSidReturns(x: Sid, p: Sid, parity: nat)
    requires ValidPattern(p) && Words(x) && parity <= 1 && ImplicitId(x, p, parity) != 0
    requires x.sub[|p.sub| - 1] - p.sub[|p.sub| - 1] < 2 * TWO30
    ensures ImplicitSid(p, ImplicitId(x, p, parity), parity) == x
  {
    hide ImplicitSid, Words, CarryOf, Carried;
    var n := |p.sub|;
    var low, id := WithLast(p, x.sub[n - 1]), (x.sub[n - 1] - p.sub[n - 1]) / 2;
    if low == x {
      ImplicitSidIs(p, id, 0, parity);
    } else {
      var c := CarryOf(x, low, 1);
      ImplicitSidIs(p, id, c, parity);
    }
  }

  lemma {:induction false} ImplicitSidIs(p: Sid, id: nat, c: nat, parity: nat)
    requires ValidPattern(p) && parity <= 1 && id < TWO30 && c <= 3
    ensures var low := WithLast(p, p.sub[|p.sub| - 1] + 2 * id + parity);
            ImplicitSid(p, id + c * TWO30, parity) == if c == 0 then low else Carried(low, c)
  {
    hide Carried, Words;
    var full := id + c * TWO30;
    assert full % TWO30 == id && full / TWO30 == c;
  }
}
