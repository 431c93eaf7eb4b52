/** What an access control list built from a mode allows when the system itself checks it, entry by entry and
    in order (section 2.5.3.2 of [MS-DTYP]). */
module AclAccess {
  import opened SidMapping
  import opened FilePermissions
  import opened AclMeaning

  // ---- the check --------------------------------------------------------------------------------

  datatype Verdict = Yes | No | Silent

  /** An entry decides about the rights `c` if it applies and names one of the SIDs of the caller. */
  predicate Decides(a: Ace, sids: set<Sid>, c: bv32) {
    Applies(a.flags) && a.sid in sids && Meets(a.mask, c)
  }

  /** The first entry that decides. */
  function Check(acl: seq<Ace>, sids: set<Sid>, c: bv32): Verdict
    decreases |acl|
  {
    if acl == [] then Silent
    else if Decides(acl[0], sids, c) then if acl[0].deny then No else Yes
    else Check(acl[1..], sids, c)
  }

  lemma {:induction false} CheckConcat(a: seq<Ace>, b: seq<Ace>, sids: set<Sid>, c: bv32)
    ensures Check(a + b, sids, c) == if Check(a, sids, c) == Silent then Check(b, sids, c) else Check(a, sids, c)
    decreases |a|
  {
    hide Decides;
    if a == [] {
      assert a + b == b;
    } else {
      assert (a + b)[0] == a[0] && (a + b)[1..] == a[1..] + b;
      CheckConcat(a[1..], b, sids, c);
    }
  }

  lemma {:induction false} CheckOne(p: bool, a: Ace, sids: set<Sid>, c: bv32)
    ensures Check([a], sids, c) == if Decides(a, sids, c) then if a.deny then No else Yes else Silent
    ensures Check(If(p, a), sids, c) == if p then Check([a], sids, c) else Silent
  {
    hide Decides;
    assert [a][1..] == [];
  }

  lemma {:induction false} CheckTwo(p: bool, a: Ace, q: bool, b: Ace, sids: set<Sid>, c: bv32)
    ensures Check(If(p, a) + If(q, b), sids, c)
         == if p && Decides(a, sids, c) then if a.deny then No else Yes
            else if q && Decides(b, sids, c) then if b.deny then No else Yes else Silent
  {
    hide Decides, Check, If;
    CheckConcat(If(p, a), If(q, b), sids, c);
    CheckOne(p, a, sids, c);
    CheckOne(q, b, sids, c);
  }

  /** Entries with the usual inheritance apply; the denial of execution that only new files inherit does not. */
  lemma {:induction false} DecidesIs(deny: bool, isdir: bool, m: Mask, s: Sid, sids: set<Sid>, c: bv32)
    ensures Decides(Ace(deny, Inheritance(isdir), m, s), sids, c) <==> s in sids && Meets(m, c)
    ensures !Decides(Ace(deny, 9, m, s), sids, c)
  {
    hide Inheritance, Applies, Meets;
    FlagBits(isdir);
  }

  // ---- rights and modes -------------------------------------------------------------------------

  datatype Right = Exec | Write | Read

  /** The bits of an access mask for a right; writing has two. */
  predicate IsFor(c: bv32, r: Right) {
    match r
    case Exec => c == 0x20
    case Write => c == 0x2 || c == 0x4
    case Read => c == 0x1
  }

  predicate OwnerHas(mode: bv32, r: Right) {
    match r case Exec => Has(mode, 0x40) case Write => Has(mode, 0x80) case Read => Has(mode, 0x100)
  }

  predicate GroupHas(mode: bv32, r: Right) {
    match r case Exec => Has(mode, 0x8) case Write => Has(mode, 0x10) case Read => Has(mode, 0x20)
  }

  predicate WorldHas(mode: bv32, r: Right) {
    match r case Exec => Has(mode, 0x1) case Write => Has(mode, 0x2) case Read => Has(mode, 0x4)
  }

  /** Grants hold what the mode gives, denials what others would give and the mode does not. */
  lemma {:induction false} GrantBits(mode: bv32, isdir: bool, r: Right, c: bv32)
    requires IsFor(c, r)
    ensures Any(OwnerGrant(mode, isdir), c) <==> OwnerHas(mode, r)
    ensures Any(GroupGrant(mode, isdir), c) <==> GroupHas(mode, r)
    ensures Any(WorldGrant(mode, isdir), c) <==> WorldHas(mode, r)
  {
    hide OwnerGrant, GroupGrant, WorldGrant, Has, Any;
    ReadBits(mode, isdir);
    WriteBits(mode, isdir);
    ExecBits(mode, isdir);
    PartOfAny(OwnerGrant(mode, isdir));
    PartOfAny(GroupGrant(mode, isdir));
    PartOfAny(WorldGrant(mode, isdir));
  }

  lemma {:induction false} OwnerDenialBits(mode: bv32, isdir: bool, r: Right, c: bv32)
    requires IsFor(c, r)
    ensures Any(OwnerDenial(mode, isdir, false), c) <==>
            (GroupHas(mode, r) || WorldHas(mode, r)) && !OwnerHas(mode, r)
  {
    hide OwnerDenial, Has, Any;
    EitherBit(mode);
    ReadBits(mode, isdir);
    WriteBits(mode, isdir);
    ExecBits(mode, isdir);
    PartOfAny(OwnerDenial(mode, isdir, false));
  }

  /** All bits for a right are set, or none. */
  lemma {:induction false} PartOfAny(x: bv32)
    ensures x & ANY_READ == 1 ==> Any(x, 0x1)
    ensures x & ANY_READ == 0 ==> !Any(x, 0x1)
    ensures x & ANY_WRITE == 6 ==> Any(x, 0x2) && Any(x, 0x4)
    ensures x & ANY_WRITE == 0 ==> !Any(x, 0x2) && !Any(x, 0x4)
    ensures x & ANY_EXEC == 0x20 ==> Any(x, 0x20)
    ensures x & ANY_EXEC == 0 ==> !Any(x, 0x20)
  {
  }

  lemma {:induction false} AloneDenialBits(mode: bv32, isdir: bool, r: Right, c: bv32)
    requires IsFor(c, r)
    ensures Any(OwnerDenial(mode, isdir, true), c) <==>
            WorldHas(mode, r) && !GroupHas(mode, r) && !OwnerHas(mode, r)
  {
  }

  lemma {:induction false} GroupDenialBits(mode: bv32, isdir: bool, r: Right, c: bv32)
    requires IsFor(c, r)
    ensures Any(GroupDenial(mode, isdir), c) <==> WorldHas(mode, r) && !GroupHas(mode, r)
    ensures !Differ(mode) ==> GroupHas(mode, r) == WorldHas(mode, r)
    ensures !GroupHasMore(mode) && GroupHas(mode, r) ==> WorldHas(mode, r)
  {
  }

  /** No entry denies what is granted to the same one, or what nobody else would give. */
  lemma {:induction false} DenialsNeeded(mode: bv32, isdir: bool, groupowns: bool)
    ensures OwnerDenial(mode, isdir, groupowns) & OwnerGrant(mode, isdir) == 0
    ensures OwnerDenial(mode, isdir, groupowns) & !(GroupGrant(mode, isdir) | WorldGrant(mode, isdir)) == 0
    ensures GroupDenial(mode, isdir) & GroupGrant(mode, isdir) == 0
    ensures GroupDenial(mode, isdir) & !WorldGrant(mode, isdir) == 0
  {
  }

  // ---- the entries ------------------------------------------------------------------------------

  lemma {:induction false} MeetsMask(bits: bv32, c: bv32)
    ensures Meets(Mask(bits), c) <==> Any(bits, c)
  {
  }

  lemma {:induction false} MeetsNone(bits: bv32, c: bv32)
    ensures !Some(bits) ==> !Meets(Mask(bits), c)
  {
  }

  predicate Some(bits: bv32) {
    bits != 0
  }

  /** The same in terms of masks. */
  lemma {:induction false} EntriesMeet(mode: bv32, isdir: bool, r: Right, c: bv32)
    requires IsFor(c, r)
    ensures Meets(Mask(OwnerGrant(mode, isdir)), c) <==> OwnerHas(mode, r)
    ensures Meets(Mask(GroupGrant(mode, isdir)), c) <==> GroupHas(mode, r)
    ensures Meets(Mask(WorldGrant(mode, isdir)), c) <==> WorldHas(mode, r)
    ensures Meets(Mask(OwnerDenial(mode, isdir, false)), c) <==>
            (GroupHas(mode, r) || WorldHas(mode, r)) && !OwnerHas(mode, r)
    ensures Meets(Mask(OwnerDenial(mode, isdir, true)), c) <==>
            WorldHas(mode, r) && !GroupHas(mode, r) && !OwnerHas(mode, r)
    ensures Meets(Mask(GroupDenial(mode, isdir)), c) <==> WorldHas(mode, r) && !GroupHas(mode, r)
  {
    hide OwnerGrant, GroupGrant, WorldGrant, OwnerDenial, GroupDenial, Meets, Any, OwnerHas, GroupHas, WorldHas, IsFor;
    GrantBits(mode, isdir, r, c);
    OwnerDenialBits(mode, isdir, r, c);
    AloneDenialBits(mode, isdir, r, c);
    GroupDenialBits(mode, isdir, r, c);
    MeetsMask(OwnerGrant(mode, isdir), c);
    MeetsMask(GroupGrant(mode, isdir), c);
    MeetsMask(WorldGrant(mode, isdir), c);
    MeetsMask(OwnerDenial(mode, isdir, false), c);
    MeetsMask(OwnerDenial(mode, isdir, true), c);
    MeetsMask(GroupDenial(mode, isdir), c);
  }

  lemma {:induction false} OwnerPartIs(mode: bv32, isdir: bool, u: Sid, adminowns: bool, groupowns: bool)
    ensures var deny, grant := OwnerDenial(mode, isdir, groupowns), OwnerGrant(mode, isdir);
            OwnerPart(mode, isdir, u, adminowns, groupowns)
            == If(!adminowns && Some(deny), Ace(true, Inheritance(isdir), Mask(deny), u))
               + If(isdir, Ace(true, 9, Mask(FILE_EXECUTE), worldsid))
               + [Ace(false, Inheritance(isdir), Mask(grant), u)]
  {
    hide OwnerDenial, OwnerGrant, Inheritance, If;
  }

  /** The entries about the owner, for a caller that is the owner or not. */
  lemma {:induction false} OwnerChecked(mode: bv32, isdir: bool, u: Sid, g: Sid, sids: set<Sid>, r: Right, c: bv32)
    requires IsFor(c, r) && Owner(u) && Owner(g)
    ensures var k := SchemeOf(u, g);
            var v := Check(OwnerPart(mode, isdir, u, k == AdminOwn, k == GroupOwns), sids, c);
            v == if u !in sids then Silent
                 else if OwnerHas(mode, r) then Yes
                 else if k != AdminOwn && WorldHas(mode, r) && !GroupHas(mode, r) then No
                 else if k == Standard && GroupHas(mode, r) then No else Silent
  {
    hide OwnerDenial, OwnerGrant, Inheritance, Decides, Meets, Check, Owner, OwnerHas, GroupHas, WorldHas, IsFor, If,
         OwnerPart, Some;
    var k := SchemeOf(u, g);
    var deny, grant := OwnerDenial(mode, isdir, k == GroupOwns), OwnerGrant(mode, isdir);
    var a, b, d := Ace(true, Inheritance(isdir), Mask(deny), u), Ace(true, 9, Mask(FILE_EXECUTE), worldsid),
        Ace(false, Inheritance(isdir), Mask(grant), u);
    var p := k != AdminOwn && Some(deny);
    OwnerPartIs(mode, isdir, u, k == AdminOwn, k == GroupOwns);
    CheckConcat(If(p, a) + If(isdir, b), [d], sids, c);
    CheckTwo(p, a, isdir, b, sids, c);
    CheckOne(true, d, sids, c);
    DecidesIs(true, isdir, Mask(deny), u, sids, c);
    DecidesIs(true, isdir, Mask(FILE_EXECUTE), worldsid, sids, c);
    DecidesIs(false, isdir, Mask(grant), u, sids, c);
    MeetsNone(deny, c);
    EntriesMeet(mode, isdir, r, c);
  }

  lemma {:induction false} GroupPartIs(mode: bv32, isdir: bool, g: Sid)
    ensures var deny, grant := GroupDenial(mode, isdir), GroupGrant(mode, isdir);
            GroupPart(mode, isdir, g, false)
            == If(Differ(mode) && Some(deny), Ace(true, Inheritance(isdir), Mask(deny), g))
               + If(Differ(mode) && GroupHasMore(mode), Ace(false, Inheritance(isdir), Mask(grant), g))
  {
    hide GroupDenial, GroupGrant, Inheritance, Differ, GroupHasMore, If;
  }

  lemma {:induction false} GroupChecked(mode: bv32, isdir: bool, g: Sid, sids: set<Sid>, r: Right, c: bv32)
    requires IsFor(c, r)
    ensures Check(GroupPart(mode, isdir, g, false), sids, c)
         == if g !in sids then Silent
            else if GroupHas(mode, r) then if Differ(mode) && GroupHasMore(mode) then Yes else Silent
            else if WorldHas(mode, r) then No else Silent
  {
    hide GroupDenial, GroupGrant, Inheritance, Decides, Meets, Check, GroupHas, WorldHas, IsFor, Differ, GroupHasMore,
         If, GroupPart, Some;
    var deny, grant := GroupDenial(mode, isdir), GroupGrant(mode, isdir);
    var a, b := Ace(true, Inheritance(isdir), Mask(deny), g), Ace(false, Inheritance(isdir), Mask(grant), g);
    var p, q := Differ(mode) && Some(deny), Differ(mode) && GroupHasMore(mode);
    GroupPartIs(mode, isdir, g);
    CheckTwo(p, a, q, b, sids, c);
    DecidesIs(true, isdir, Mask(deny), g, sids, c);
    DecidesIs(false, isdir, Mask(grant), g, sids, c);
    MeetsNone(deny, c);
    EntriesMeet(mode, isdir, r, c);
    GroupDenialBits(mode, isdir, r, c);
  }

  lemma {:induction false} AloneChecked(mode: bv32, isdir: bool, g: Sid, sids: set<Sid>, r: Right, c: bv32)
    requires IsFor(c, r)
    ensures Check(GroupPart(mode, isdir, g, true), sids, c)
         == if g in sids && GroupHas(mode, r) then Yes else Silent
  {
    hide GroupGrant, Inheritance, Decides, Meets, Check, GroupHas, WorldHas, IsFor;
    var b := Ace(false, Inheritance(isdir), Mask(GroupGrant(mode, isdir)), g);
    assert GroupPart(mode, isdir, g, true) == [b];
    CheckOne(true, b, sids, c);
    DecidesIs(false, isdir, Mask(GroupGrant(mode, isdir)), g, sids, c);
    EntriesMeet(mode, isdir, r, c);
  }

  lemma {:induction false} WorldChecked(mode: bv32, isdir: bool, sids: set<Sid>, r: Right, c: bv32)
    requires IsFor(c, r) && worldsid in sids && nullsid !in sids
    ensures Check(WorldPart(mode, isdir), sids, c)
         == if WorldHas(mode, r) || adminsid in sids || systemsid in sids then Yes else Silent
  {
    hide WorldGrant, Special, Has, Inheritance, Applies, Meets, Check, WorldHas, IsFor;
    var i := Inheritance(isdir);
    var x, y, z := Ace(false, i, Mask(WorldGrant(mode, isdir)), worldsid), Ace(false, i, ALL_RIGHTS, adminsid),
        Ace(false, i, ALL_RIGHTS, systemsid);
    var d := Ace(false, 4, Mask(Special(mode)), nullsid);
    assert [x, y, z] == [x] + [y] + [z];
    CheckConcat([x, y, z], If(Has(mode, 0xE00), d), sids, c);
    CheckConcat([x] + [y], [z], sids, c);
    CheckConcat([x], [y], sids, c);
    CheckOne(true, x, sids, c);
    CheckOne(true, y, sids, c);
    CheckOne(true, z, sids, c);
    CheckOne(Has(mode, 0xE00), d, sids, c);
    FlagBits(isdir);
    EntriesMeet(mode, isdir, r, c);
    AllMeets(r, c);
  }

  lemma {:induction false} AllMeets(r: Right, c: bv32)
    requires IsFor(c, r)
    ensures Meets(ALL_RIGHTS, c)
  {
  }

  /** Who may do what, when the system checks the list: the owner what the mode gives the owner, a member of the
      group what it gives the group, all others what it gives the world; administrators and system everything
      not denied to them as owner or group.  An owner that is its own group has the rights of both, and where
      the administrators own, owner and group share the rights of the world. */
  lemma {:induction false} SystemChecks(mode: bv32, isdir: bool, u: Sid, g: Sid, sids: set<Sid>, r: Right, c: bv32)
    requires IsFor(c, r) && Owner(u) && Owner(g) && worldsid in sids && nullsid !in sids
    requires adminsid !in sids && systemsid !in sids
    ensures var may := Check(Acl(mode, isdir, u, g), sids, c) == Yes;
            match SchemeOf(u, g)
            case Standard =>
              may <==> if u in sids then OwnerHas(mode, r)
                       else if g in sids then GroupHas(mode, r) else WorldHas(mode, r)
            case GroupOwns => may <==> if u in sids then OwnerHas(mode, r) || GroupHas(mode, r) else WorldHas(mode, r)
            case AdminOwn =>
              may <==> || (u in sids && OwnerHas(mode, r)) || (g in sids && GroupHas(mode, r)) || WorldHas(mode, r)
  {
    hide OwnerPart, GroupPart, WorldPart, Check, OwnerHas, GroupHas, WorldHas, IsFor, Owner, Differ, GroupHasMore;
    var k := SchemeOf(u, g);
    var a, b, w := OwnerPart(mode, isdir, u, k == AdminOwn, k == GroupOwns), GroupPart(mode, isdir, g, k != Standard),
        WorldPart(mode, isdir);
    CheckConcat(a + b, w, sids, c);
    CheckConcat(a, b, sids, c);
    OwnerChecked(mode, isdir, u, g, sids, r, c);
    GroupChecked(mode, isdir, g, sids, r, c);
    AloneChecked(mode, isdir, g, sids, r, c);
    WorldChecked(mode, isdir, sids, r, c);
    GroupDenialBits(mode, isdir, r, c);
  }

  /** Administrators get everything a file or directory can be asked for here, unless they own it. */
  lemma {:induction false} AdministratorsMay(mode: bv32, isdir: bool, u: Sid, g: Sid, r: Right, c: bv32)
    requires IsFor(c, r) && Owner(u) && Owner(g)
    ensures Check(Acl(mode, isdir, u, g), {worldsid, adminsid}, c) == Yes
  {
    hide OwnerPart, GroupPart, WorldPart, Check, OwnerHas, GroupHas, WorldHas, IsFor, Owner, Differ, GroupHasMore;
    var k, sids := SchemeOf(u, g), {worldsid, adminsid};
    var a, b, w := OwnerPart(mode, isdir, u, k == AdminOwn, k == GroupOwns), GroupPart(mode, isdir, g, k != Standard),
        WorldPart(mode, isdir);
    SidsDiffer(u);
    SidsDiffer(g);
    CheckConcat(a + b, w, sids, c);
    CheckConcat(a, b, sids, c);
    OwnerChecked(mode, isdir, u, g, sids, r, c);
    GroupChecked(mode, isdir, g, sids, r, c);
    AloneChecked(mode, isdir, g, sids, r, c);
    WorldChecked(mode, isdir, sids, r, c);
  }
}
