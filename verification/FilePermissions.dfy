/** Translating a Linux mode into an NTFS access control list and back (`acls.c`).  Access mask bits are
    those of section 2.4.3 of [MS-DTYP]. */
module FilePermissions {
  import opened SidMapping

  const S_ISUID: bv32 := 0x800
  const S_ISGID: bv32 := 0x400
  const S_ISVTX: bv32 := 0x200

  const FILE_READ_DATA: bv32 := 0x1
  const FILE_WRITE_DATA: bv32 := 0x2
  const FILE_APPEND_DATA: bv32 := 0x4
  const FILE_READ_EA: bv32 := 0x8
  const FILE_EXECUTE: bv32 := 0x20
  const WRITE_OWNER: bv32 := 0x8_0000
  const SYNCHRONIZE: bv32 := 0x10_0000

  /** What is set to mean read, write or exec; a directory's write includes the right to delete. */
  const RIGHT_READ: bv32 := FILE_READ_DATA
  const RIGHT_EXEC: bv32 := FILE_EXECUTE
  const FILE_WRITE: bv32 := 0x2_0116
  const DIR_WRITE: bv32 := 0x2_0156
  const OWNER_RIGHTS: bv32 := 0x1F_0198
  const WORLD_RIGHTS: bv32 := 0x12_0088

  /** What an interpretation looks for: the specific or the generic right. */
  const ANY_READ: bv32 := 0x8000_0001
  const ANY_WRITE: bv32 := 0x4000_0006
  const ANY_EXEC: bv32 := 0x2000_0020

  /** What administrators and system are granted. */
  const ALL_RIGHTS := Mask(0x1F_01BF)
  const NONE := Mask(0)

  const INHERIT_ONLY_ACE: bv8 := 8
  const FILE_INHERITANCE: bv8 := 4
  const DIR_INHERITANCE: bv8 := 3

  const nullsid := Sid(1, 0, [0])
  const worldsid := Sid(1, 1, [0])
  const usersid := Sid(1, 5, [32, 545])
  const authsid := Sid(1, 5, [11])
  const systemsid := Sid(1, 5, [18])
  const ownersid := Sid(1, 3, [0])

  /** A set of rights. */
  datatype Mask = Mask(bits: bv32)

  datatype Ace = Ace(deny: bool, flags: bv8, mask: Mask, sid: Sid)

  predicate IsWorldSid(s: Sid) {
    || (s.authority == 1 && s.sub == [0])
    || (s.authority == 5 && (s.sub == [32, 545] || s.sub == [11]))
  }

  predicate IsUserSid(s: Sid) {
    |s.sub| == 5 && s.authority == 5 && s.sub[0] == 21
  }

  /** Who may own a file here: a user, or the administrators. */
  predicate Owner(s: Sid) {
    IsUserSid(s) || s == adminsid
  }

  // ---- from mode to ACL ---------------------------------------------------------------------------

  predicate Has(mode: bv32, bit: bv32) {
    mode & bit != 0
  }

  /** The rights meant by exec, write and read. */
  function Rights(isdir: bool, x: bool, w: bool, r: bool): (m: bv32) {
    (if x then RIGHT_EXEC else 0) | (if w then (if isdir then DIR_WRITE else FILE_WRITE) else 0) | (if r then RIGHT_READ
          else 0)
  }

  function OwnerGrant(mode: bv32, isdir: bool): bv32 {
    OWNER_RIGHTS | Rights(isdir, Has(mode, 0x40), Has(mode, 0x80), Has(mode, 0x100))
  }

  function GroupGrant(mode: bv32, isdir: bool): bv32 {
    WORLD_RIGHTS | Rights(isdir, Has(mode, 0x8), Has(mode, 0x10), Has(mode, 0x20))
  }

  function WorldGrant(mode: bv32, isdir: bool): bv32 {
    WORLD_RIGHTS | Rights(isdir, Has(mode, 0x1), Has(mode, 0x2), Has(mode, 0x4))
  }

  /** What the owner has to be denied, because group or world would give it. */
  function OwnerDenial(mode: bv32, isdir: bool, groupowns: bool): bv32 {
    (if groupowns then
       Rights(isdir, Has(mode, 0x1) && !Has(mode, 0x8), Has(mode, 0x2) && !Has(mode, 0x10), Has(mode, 0x4)
              && !Has(mode, 0x20))
     else
       Rights(isdir, Has(mode, 0x9), Has(mode, 0x12), Has(mode, 0x24)))
    & !OwnerGrant(mode, isdir)
  }

  function GroupDenial(mode: bv32, isdir: bool): bv32 {
    Rights(isdir, Has(mode, 0x1), Has(mode, 0x2), Has(mode, 0x4)) & !(GroupGrant(mode, isdir) | OWNER_RIGHTS)
  }

  function Special(mode: bv32): bv32 {
    (if Has(mode, S_ISUID) then FILE_APPEND_DATA else 0) | (if Has(mode, S_ISGID) then FILE_WRITE_DATA else 0)
    | (if Has(mode, S_ISVTX) then FILE_READ_DATA else 0)
  }

  function AdminOwns(u: Sid, g: Sid): bool {
    u == adminsid || g == adminsid
  }

  function If(c: bool, a: Ace): (r: seq<Ace>) {
    if c then [a] else []
  }

  function Inheritance(isdir: bool): bv8 {
    if isdir then DIR_INHERITANCE else FILE_INHERITANCE
  }

  function OwnerPart(mode: bv32, isdir: bool, u: Sid, adminowns: bool, groupowns: bool): (r: seq<Ace>) {
    If(!adminowns && OwnerDenial(mode, isdir, groupowns) != 0,
       Ace(true, Inheritance(isdir), Mask(OwnerDenial(mode, isdir, groupowns)), u))
    + If(isdir, Ace(true, 9, Mask(FILE_EXECUTE), worldsid))
    + [Ace(false, Inheritance(isdir), Mask(OwnerGrant(mode, isdir)), u)]
  }

  /** Whether group and world differ, and whether the group has more rights than the world. */
  predicate Differ(mode: bv32) {
    ((mode >> 3) ^ mode) & 7 != 0
  }

  predicate GroupHasMore(mode: bv32) {
    (mode >> 3) & !mode & 7 != 0
  }

  function GroupPart(mode: bv32, isdir: bool, g: Sid, alone: bool): (r: seq<Ace>) {
    If(!alone && Differ(mode) && GroupDenial(mode, isdir) != 0,
       Ace(true, Inheritance(isdir), Mask(GroupDenial(mode, isdir)), g))
    + If(alone || (Differ(mode) && GroupHasMore(mode)),
         Ace(false, Inheritance(isdir), Mask(GroupGrant(mode, isdir)), g))
  }

  function WorldPart(mode: bv32, isdir: bool): (r: seq<Ace>) {
    [Ace(false, Inheritance(isdir), Mask(WorldGrant(mode, isdir)), worldsid),
     Ace(false, Inheritance(isdir), ALL_RIGHTS, adminsid),
     Ace(false, Inheritance(isdir), ALL_RIGHTS, systemsid)]
    + If(Has(mode, 0xE00), Ace(false, 4, Mask(Special(mode)), nullsid))
  }

  function Acl(mode: bv32, isdir: bool, u: Sid, g: Sid): (r: seq<Ace>) {
    var adminowns := AdminOwns(u, g);
    var groupowns := !adminowns && u == g;
    OwnerPart(mode, isdir, u, adminowns, groupowns) + GroupPart(mode, isdir, g, adminowns || groupowns)
        + WorldPart(mode, isdir)
  }

  /** `buildacls`, the entries about the owner. */
  method BuildOwner(mode: bv32, isdir: bool, u: Sid, adminowns: bool, groupowns: bool) returns (acl: seq<Ace>)
    ensures acl == OwnerPart(mode, isdir, u, adminowns, groupowns)
  {
    hide OwnerDenial, OwnerGrant;
    acl := [];
    if !adminowns {
      var denials := OwnerDenial(mode, isdir, groupowns);
      if denials != 0 {
        acl := acl + [Ace(true, Inheritance(isdir), Mask(denials), u)];
      }
    }
    if isdir {
      acl := acl + [Ace(true, 9, Mask(FILE_EXECUTE), worldsid)];
    }
    acl := acl + [Ace(false, Inheritance(isdir), Mask(OwnerGrant(mode, isdir)), u)];
  }

  /** `buildacls`, the entries about the group. */
  method BuildGroup(mode: bv32, isdir: bool, g: Sid, alone: bool) returns (acl: seq<Ace>)
    ensures acl == GroupPart(mode, isdir, g, alone)
  {
    hide GroupDenial, GroupGrant, Differ, GroupHasMore;
    acl := [];
    if alone || Differ(mode) {
      if !alone {
        var denials := GroupDenial(mode, isdir);
        if denials != 0 {
          acl := acl + [Ace(true, Inheritance(isdir), Mask(denials), g)];
        }
      }
      if alone || GroupHasMore(mode) {
        acl := acl + [Ace(false, Inheritance(isdir), Mask(GroupGrant(mode, isdir)), g)];
      }
    }
  }

  // ---- from ACL to mode ---------------------------------------------------------------------------

  datatype Scheme = Standard | GroupOwns | AdminOwn

  function SchemeOf(u: Sid, g: Sid): Scheme {
    if AdminOwns(u, g) then AdminOwn else if u == g then GroupOwns else Standard
  }

  /** What an interpretation collects; `own` and `grp` tell whether grants to owner and group were seen. */
  datatype Tally = Tally(allowOwn: Mask, allowGrp: Mask, allowAll: Mask, denyOwn: Mask, denyGrp: Mask, denyAll: Mask,
                         special: Mask, own: bool, grp: bool, first: bool)

  const EMPTY := Tally(NONE, NONE, NONE, NONE, NONE, NONE, NONE, false, false, true)

  /** Tests of an ACE: it applies to the file itself, allows to change the owner, has the marks of a
      plain entry. */
  predicate Applies(flags: bv8) {
    flags & INHERIT_ONLY_ACE == 0
  }

  predicate ChangesOwner(mask: Mask) {
    mask.bits & WRITE_OWNER != 0
  }

  predicate Plain(mask: Mask) {
    !mask.bits & (SYNCHRONIZE | FILE_READ_EA) == 0
  }

  function Plus(a: bv32, b: bv32): bv32 {
    a | b
  }

  function Join(a: Mask, b: Mask): Mask {
    Mask(Plus(a.bits, b.bits))
  }

  predicate OwnerSid(u: Sid, s: Sid) {
    s == u || s == ownersid
  }

  function TallyWorld(t: Tally, a: Ace): Tally {
    if a.deny then t.(denyAll := Join(t.denyAll, a.mask)) else t.(allowAll := Join(t.allowAll, a.mask))
  }

  function StdStep(t: Tally, a: Ace, u: Sid, g: Sid): Tally {
    if !Applies(a.flags) then t
    else if OwnerSid(u, a.sid) then
      if a.deny then t.(own := true, denyOwn := Join(t.denyOwn, a.mask))
          else t.(own := true, allowOwn := Join(t.allowOwn, a.mask))
    else if a.sid == g && !ChangesOwner(a.mask) then
      if a.deny then t.(denyGrp := Join(t.denyGrp, a.mask)) else t.(allowGrp := Join(t.allowGrp, a.mask))
    else if IsWorldSid(a.sid) then TallyWorld(t, a)
    else if a.sid == nullsid && !a.deny then t.(special := Join(t.special, a.mask))
    else t
  }

  function OwnGrpStep(t: Tally, a: Ace, u: Sid): Tally {
    if !Applies(a.flags) then t
    else if OwnerSid(u, a.sid) && ChangesOwner(a.mask) then
      if a.deny then t else t.(own := true, allowOwn := Join(t.allowOwn, a.mask))
    else if a.sid == u && !ChangesOwner(a.mask) then
      if a.deny then t else t.(grp := true, allowGrp := Join(t.allowGrp, a.mask))
    else if IsWorldSid(a.sid) then TallyWorld(t, a)
    else if a.sid == nullsid && !a.deny then t.(special := Join(t.special, a.mask))
    else t
  }

  function OwnAdminStep(t: Tally, a: Ace, u: Sid, g: Sid): Tally {
    if Applies(a.flags) && Plain(a.mask) then
      (if OwnerSid(u, a.sid) && ChangesOwner(a.mask) && t.first then
         if a.deny then t.(denyOwn := Join(t.denyOwn, a.mask))
             else t.(own := true, allowOwn := Join(t.allowOwn, a.mask))
       else if a.sid == g && !ChangesOwner(a.mask) then
         if a.deny then t.(denyGrp := Join(t.denyGrp, a.mask))
             else t.(grp := true, allowGrp := Join(t.allowGrp, a.mask))
       else if IsWorldSid(a.sid) then TallyWorld(t, a)
       else t).(first := false)
    else if Applies(a.flags) && a.sid == nullsid && !a.deny then t.(special := Join(t.special, a.mask))
    else t
  }

  function Step(k: Scheme, t: Tally, a: Ace, u: Sid, g: Sid): Tally {
    match k
    case Standard => StdStep(t, a, u, g)
    case GroupOwns => OwnGrpStep(t, a, u)
    case AdminOwn => OwnAdminStep(t, a, u, g)
  }

  /** What is allowed and not denied. */
  function Net(allow: bv32, deny: bv32, denyAll: bv32): bv32 {
    allow & !(deny | denyAll)
  }

  /** The rights of owner, group and world in the end. */
  function Conclude(k: Scheme, t: Tally): Tally {
    match k
    case Standard =>
      var own := if t.own then t.allowOwn else Mask(FILE_READ_DATA | FILE_WRITE_DATA | FILE_EXECUTE);
      t.(allowOwn := Join(own, Join(t.allowGrp, t.allowAll)), allowGrp := Join(t.allowGrp, t.allowAll))
    case GroupOwns =>
      t.(allowOwn := if t.own then t.allowOwn else t.allowAll, allowGrp := if t.grp then t.allowGrp else t.allowAll)
    case AdminOwn =>
      if t.own && t.grp then t
      else t.(allowOwn := Join(t.allowOwn, Join(t.allowGrp, t.allowAll)), allowGrp := Join(t.allowGrp, t.allowAll))
  }

  /** The mode bits `x`, `w` and `r` meant by some rights. */
  function Triple(rights: bv32, x: bv32, w: bv32, r: bv32): bv32 {
    (if rights & ANY_EXEC != 0 then x else 0) | (if rights & ANY_WRITE != 0 then w else 0) | (if rights & ANY_READ != 0
          then r else 0)
  }

  function SpecialMode(special: bv32): bv32 {
    (if special & FILE_APPEND_DATA != 0 then S_ISUID else 0) | (if special & FILE_WRITE_DATA != 0 then S_ISGID else 0)
    | (if special & FILE_READ_DATA != 0 then S_ISVTX else 0)
  }

  function All(own: bv32, grp: bv32, all: bv32, special: bv32): bv32 {
    own | grp | all | special
  }

  /** `merge_permissions`. */
  function Merge(t: Tally): bv32 {
    All(Triple(Net(t.allowOwn.bits, t.denyOwn.bits, t.denyAll.bits), 0x40, 0x80, 0x100),
        Triple(Net(t.allowGrp.bits, t.denyGrp.bits, t.denyAll.bits), 0x8, 0x10, 0x20),
        Triple(Net(t.allowAll.bits, 0, t.denyAll.bits), 0x1, 0x2, 0x4), SpecialMode(t.special.bits))
  }

  function Tallied(k: Scheme, t: Tally, acl: seq<Ace>, u: Sid, g: Sid): (r: Tally)
    decreases |acl|
  {
    if acl == [] then t else Tallied(k, Step(k, t, acl[0], u, g), acl[1..], u, g)
  }

  /** `ntfs_build_permissions`. */
  method BuildPermissions(acl: seq<Ace>, u: Sid, g: Sid) returns (mode: bv32)
    ensures mode == Mode(acl, u, g)
    // an ACL built from a mode gives that mode
    ensures forall m, isdir :: acl == Acl(m, isdir, u, g) && IsMode(m) && Owner(u) && Owner(g) ==> mode == m
  {
    hide Step, Merge, Conclude, Acl, IsMode, Owner;
    var k := SchemeOf(u, g);
    var t := EMPTY;
    var i := 0;
    while i < |acl|
      invariant i <= |acl| && Tallied(k, t, acl[i..], u, g) == Tallied(k, EMPTY, acl, u, g)
    {
      assert acl[i..][1..] == acl[i + 1..];
      t := Step(k, t, acl[i], u, g);
      i := i + 1;
    }
    mode := Merge(Conclude(k, t));
    forall m, isdir | acl == Acl(m, isdir, u, g) && IsMode(m) && Owner(u) && Owner(g)
      ensures mode == m
    {
      ModeRoundTrip(m, isdir, u, g);
    }
  }

  function Mode(acl: seq<Ace>, u: Sid, g: Sid): (r: bv32) {
    Merge(Conclude(SchemeOf(u, g), Tallied(SchemeOf(u, g), EMPTY, acl, u, g)))
  }

  // ---- the round trip -----------------------------------------------------------------------------

  lemma {:induction false} TalliedConcat(k: Scheme, t: Tally, a: seq<Ace>, b: seq<Ace>, u: Sid, g: Sid)
    ensures Tallied(k, t, a + b, u, g) == Tallied(k, Tallied(k, t, a, u, g), b, u, g)
    decreases |a|
  {
    hide Step;
    if a == [] {
      assert a + b == b;
    } else {
      assert (a + b)[0] == a[0] && (a + b)[1..] == a[1..] + b;
      TalliedConcat(k, Step(k, t, a[0], u, g), a[1..], b, u, g);
    }
  }

  lemma {:induction false} TalliedOne(k: Scheme, t: Tally, c: bool, a: Ace, u: Sid, g: Sid)
    ensures Tallied(k, t, If(c, a), u, g) == (if c then Step(k, t, a, u, g) else t)
    ensures Tallied(k, t, [a], u, g) == Step(k, t, a, u, g)
  {
    hide Step;
    assert [a][1..] == [];
  }

  lemma {:induction false} Tallied3(k: Scheme, t: Tally, a: seq<Ace>, b: seq<Ace>, c: seq<Ace>, u: Sid, g: Sid)
    ensures Tallied(k, t, a + b + c, u, g) == Tallied(k, Tallied(k, Tallied(k, t, a, u, g), b, u, g), c, u, g)
  {
    hide Tallied;
    TalliedConcat(k, t, a + b, c, u, g);
    TalliedConcat(k, t, a, b, u, g);
  }

  lemma {:induction false} SidsDiffer(s: Sid)
    requires Owner(s)
    ensures s != worldsid && s != nullsid && s != systemsid && s != ownersid && !IsWorldSid(s)
    ensures IsWorldSid(worldsid) && !IsWorldSid(nullsid) && !IsWorldSid(systemsid) && !IsWorldSid(adminsid)
    ensures worldsid != ownersid && worldsid != nullsid && worldsid != systemsid && worldsid != adminsid
            && nullsid != ownersid
    ensures nullsid != systemsid && nullsid != adminsid && systemsid != ownersid && systemsid != adminsid
            && adminsid != ownersid
  {
    assert |worldsid.sub| == 1 && |nullsid.sub| == 1 && |systemsid.sub| == 1 && |ownersid.sub| == 1
           && |adminsid.sub| == 2;
    assert systemsid.sub[0] == 18 && [11][0] == 11 && adminsid.sub[1] == 544 && [32, 545][1] == 545;
  }

  /** Everybody, the users and the authenticated users are the world. */
  lemma {:induction false} WorldIs(s: Sid)
    requires s.revision == 1
    ensures IsWorldSid(s) <==> s == worldsid || s == usersid || s == authsid
  {
  }

  /** Users are the accounts S-1-5-21-a-b-c-d of a machine or domain. */
  lemma {:induction false} OwnersAre(s: Sid)
    requires s.revision == 1
    ensures Owner(s) <==> s == adminsid || exists a, b, c, d :: s == Account(a, b, c, d)
  {
    if IsUserSid(s) {
      assert s == Account(s.sub[1], s.sub[2], s.sub[3], s.sub[4]);
    }
  }

  function Account(a: nat, b: nat, c: nat, d: nat): Sid {
    Sid(1, 5, [21, a, b, c, d])
  }

  lemma {:induction false} MaskBits(mode: bv32, isdir: bool, groupowns: bool)
    ensures ChangesOwner(Mask(OwnerGrant(mode, isdir))) && !ChangesOwner(Mask(OwnerDenial(mode, isdir, groupowns)))
            && ChangesOwner(ALL_RIGHTS)
    ensures !ChangesOwner(Mask(GroupGrant(mode, isdir))) && !ChangesOwner(Mask(GroupDenial(mode, isdir)))
    ensures Plain(Mask(OwnerGrant(mode, isdir))) && Plain(Mask(GroupGrant(mode, isdir)))
            && Plain(Mask(WorldGrant(mode, isdir))) && !Plain(Mask(Special(mode)))
    ensures Applies(Inheritance(isdir)) && !Applies(9) && Applies(4)
  {
  }

  /** A mode has 12 bits. */
  predicate IsMode(mode: bv32) {
    mode & 0xFFFF_F000 == 0
  }

  /** The bits `x`, `w` and `r` of a mode. */
  function Bits(mode: bv32, x: bv32, w: bv32, r: bv32): bv32 {
    mode & (x | w | r)
  }

  lemma {:induction false} AllBits(mode: bv32)
    requires IsMode(mode)
    ensures All(Bits(mode, 0x40, 0x80, 0x100), Bits(mode, 0x8, 0x10, 0x20), Bits(mode, 0x1, 0x2, 0x4),
                SpecialMode(Special(mode))) == mode
  {
    assert SpecialMode(Special(mode)) == mode & 0xE00;
  }

  /** Rights mean the bits of a mode. */
  predicate Means(rights: bv32, mode: bv32, x: bv32, w: bv32, r: bv32) {
    Triple(rights, x, w, r) == Bits(mode, x, w, r)
  }

  /** Of the rights for something, an entry has exactly those the mode bit asks for. */
  lemma {:induction false} ReadBits(mode: bv32, isdir: bool)
    ensures OwnerGrant(mode, isdir) & ANY_READ == (if Has(mode, 0x100) then 1 else 0)
    ensures GroupGrant(mode, isdir) & ANY_READ == (if Has(mode, 0x20) then 1 else 0)
    ensures WorldGrant(mode, isdir) & ANY_READ == (if Has(mode, 0x4) then 1 else 0)
    ensures OwnerDenial(mode, isdir, false) & ANY_READ == (if Has(mode, 0x24) && !Has(mode, 0x100) then 1 else 0)
  {
  }

  lemma {:induction false} WriteBits(mode: bv32, isdir: bool)
    ensures OwnerGrant(mode, isdir) & ANY_WRITE == (if Has(mode, 0x80) then 6 else 0)
    ensures GroupGrant(mode, isdir) & ANY_WRITE == (if Has(mode, 0x10) then 6 else 0)
    ensures WorldGrant(mode, isdir) & ANY_WRITE == (if Has(mode, 0x2) then 6 else 0)
    ensures OwnerDenial(mode, isdir, false) & ANY_WRITE == (if Has(mode, 0x12) && !Has(mode, 0x80) then 6 else 0)
  {
  }

  lemma {:induction false} ExecBits(mode: bv32, isdir: bool)
    ensures OwnerGrant(mode, isdir) & ANY_EXEC == (if Has(mode, 0x40) then 0x20 else 0)
    ensures GroupGrant(mode, isdir) & ANY_EXEC == (if Has(mode, 0x8) then 0x20 else 0)
    ensures WorldGrant(mode, isdir) & ANY_EXEC == (if Has(mode, 0x1) then 0x20 else 0)
    ensures OwnerDenial(mode, isdir, false) & ANY_EXEC == (if Has(mode, 0x9) && !Has(mode, 0x40) then 0x20 else 0)
  {
  }

  lemma {:induction false} Distribute(a: bv32, b: bv32, c: bv32, d: bv32, m: bv32)
    ensures Net(Plus(a, Plus(b, c)), d, 0) & m == ((a & m) | (b & m) | (c & m)) & !(d & m)
  {
  }

  lemma {:induction false} EitherBit(mode: bv32)
    ensures Has(mode, 0x24) <==> Has(mode, 0x20) || Has(mode, 0x4)
    ensures Has(mode, 0x12) <==> Has(mode, 0x10) || Has(mode, 0x2)
    ensures Has(mode, 0x9) <==> Has(mode, 0x8) || Has(mode, 0x1)
  {
  }

  /** The owner is denied what group or world would add. */
  lemma {:induction false} OwnerExec(mode: bv32, isdir: bool, allow: bv32)
    requires allow == 0 || allow == GroupGrant(mode, isdir)
    ensures Net(Plus(OwnerGrant(mode, isdir), Plus(allow, WorldGrant(mode, isdir))), OwnerDenial(mode, isdir, false),
                0) & ANY_EXEC != 0
            <==> Has(mode, 0x40)
  {
    hide Net, Plus, OwnerGrant, WorldGrant, GroupGrant, OwnerDenial, Has;
    ExecBits(mode, isdir);
    EitherBit(mode);
    Distribute(OwnerGrant(mode, isdir), allow, WorldGrant(mode, isdir), OwnerDenial(mode, isdir, false), ANY_EXEC);
  }

  lemma {:induction false} OwnerWrite(mode: bv32, isdir: bool, allow: bv32)
    requires allow == 0 || allow == GroupGrant(mode, isdir)
    ensures Net(Plus(OwnerGrant(mode, isdir), Plus(allow, WorldGrant(mode, isdir))), OwnerDenial(mode, isdir, false),
                0) & ANY_WRITE != 0
            <==> Has(mode, 0x80)
  {
    hide Net, Plus, OwnerGrant, WorldGrant, GroupGrant, OwnerDenial, Has;
    WriteBits(mode, isdir);
    EitherBit(mode);
    Distribute(OwnerGrant(mode, isdir), allow, WorldGrant(mode, isdir), OwnerDenial(mode, isdir, false), ANY_WRITE);
  }

  lemma {:induction false} OwnerRead(mode: bv32, isdir: bool, allow: bv32)
    requires allow == 0 || allow == GroupGrant(mode, isdir)
    ensures Net(Plus(OwnerGrant(mode, isdir), Plus(allow, WorldGrant(mode, isdir))), OwnerDenial(mode, isdir, false),
                0) & ANY_READ != 0
            <==> Has(mode, 0x100)
  {
    hide Net, Plus, OwnerGrant, WorldGrant, GroupGrant, OwnerDenial, Has;
    ReadBits(mode, isdir);
    EitherBit(mode);
    Distribute(OwnerGrant(mode, isdir), allow, WorldGrant(mode, isdir), OwnerDenial(mode, isdir, false), ANY_READ);
  }

  lemma {:induction false} MeansOwner(rights: bv32, mode: bv32)
    requires (rights & ANY_EXEC != 0 <==> Has(mode, 0x40)) && (rights & ANY_WRITE != 0 <==> Has(mode, 0x80))
             && (rights & ANY_READ != 0 <==> Has(mode, 0x100))
    ensures Means(rights, mode, 0x40, 0x80, 0x100)
  {
  }

  lemma {:induction false} OwnerMeans(mode: bv32, isdir: bool, allow: bv32)
    requires allow == 0 || allow == GroupGrant(mode, isdir)
    ensures Means(Net(Plus(OwnerGrant(mode, isdir), Plus(allow, WorldGrant(mode, isdir))),
                      OwnerDenial(mode, isdir, false), 0), mode, 0x40, 0x80, 0x100)
  {
    hide Net, Plus, OwnerGrant, WorldGrant, GroupGrant, OwnerDenial, Means, Has;
    OwnerExec(mode, isdir, allow);
    OwnerWrite(mode, isdir, allow);
    OwnerRead(mode, isdir, allow);
    MeansOwner(Net(Plus(OwnerGrant(mode, isdir), Plus(allow, WorldGrant(mode, isdir))), OwnerDenial(mode, isdir, false),
                   0), mode);
  }

  lemma {:induction false} GroupMeans(mode: bv32, isdir: bool)
    ensures Means(Net(Plus(AllowGroup(mode, isdir, false), WorldGrant(mode, isdir)), DenyGroup(mode, isdir, false), 0),
                  mode, 0x8, 0x10, 0x20)
  {
  }

  lemma {:induction false} WorldMeans(mode: bv32, isdir: bool)
    ensures Means(Net(WorldGrant(mode, isdir), 0, 0), mode, 0x1, 0x2, 0x4)
  {
  }

  lemma {:induction false} GrantsMean(mode: bv32, isdir: bool)
    ensures Means(Net(OwnerGrant(mode, isdir), 0, 0), mode, 0x40, 0x80, 0x100)
    ensures Means(Net(GroupGrant(mode, isdir), 0, 0), mode, 0x8, 0x10, 0x20)
  {
  }

  lemma {:induction false} OrZero(x: bv32)
    ensures Join(NONE, Mask(x)) == Mask(x)
  {
  }

  lemma {:induction false} NoSpecial(mode: bv32)
    ensures !Has(mode, 0xE00) ==> Special(mode) == 0
  {
  }

  function AllowGroup(mode: bv32, isdir: bool, alone: bool): bv32 {
    if alone || (Differ(mode) && GroupHasMore(mode)) then GroupGrant(mode, isdir) else 0
  }

  function DenyGroup(mode: bv32, isdir: bool, alone: bool): bv32 {
    if !alone && Differ(mode) then GroupDenial(mode, isdir) else 0
  }

  /** The entries about the owner, tallied by each scheme. */
  lemma {:induction false} OwnerTallied(k: Scheme, mode: bv32, isdir: bool, u: Sid, g: Sid)
    requires k == SchemeOf(u, g) && Owner(u) && Owner(g)
    ensures Tallied(k, EMPTY, OwnerPart(mode, isdir, u, k == AdminOwn, k == GroupOwns), u, g)
         == EMPTY.(allowOwn := Mask(OwnerGrant(mode, isdir)),
                   denyOwn := if k == Standard then Mask(OwnerDenial(mode, isdir, false)) else NONE,
                   own := true, first := k != AdminOwn)
  {
    hide Applies, ChangesOwner, Plain, Join, Inheritance, OwnerDenial, OwnerGrant, Tallied, IsWorldSid, IsUserSid;
    var deny, grant := OwnerDenial(mode, isdir, k == GroupOwns), OwnerGrant(mode, isdir);
    var a, b, c := Ace(true, Inheritance(isdir), Mask(deny), u), Ace(true, 9, Mask(FILE_EXECUTE), worldsid),
        Ace(false, Inheritance(isdir), Mask(grant), u);
    var p, q := k != AdminOwn && deny != 0, isdir;
    Tallied3(k, EMPTY, If(p, a), If(q, b), [c], u, g);
    TalliedOne(k, EMPTY, p, a, u, g);
    var t1 := if p then Step(k, EMPTY, a, u, g) else EMPTY;
    TalliedOne(k, t1, q, b, u, g);
    var t2 := if q then Step(k, t1, b, u, g) else t1;
    TalliedOne(k, t2, true, c, u, g);
    SidsDiffer(u);
    MaskBits(mode, isdir, k == GroupOwns);
    OrZero(deny);
    OrZero(grant);
  }

  /** The entries about the group. */
  lemma {:induction false} GroupTallied(mode: bv32, isdir: bool, u: Sid, g: Sid, t: Tally)
    requires SchemeOf(u, g) == Standard && Owner(u) && Owner(g)
    requires t.allowGrp == NONE && t.denyGrp == NONE && !t.grp && t.first
    ensures Tallied(Standard, t, GroupPart(mode, isdir, g, false), u, g)
         == t.(allowGrp := Mask(AllowGroup(mode, isdir, false)), denyGrp := Mask(DenyGroup(mode, isdir, false)))
  {
    hide Step, Join, Applies, ChangesOwner, Plain, Inheritance, GroupDenial, GroupGrant, Tallied, IsUserSid, Differ,
         GroupHasMore;
    var deny, grant := GroupDenial(mode, isdir), GroupGrant(mode, isdir);
    var a, b := Ace(true, Inheritance(isdir), Mask(deny), g), Ace(false, Inheritance(isdir), Mask(grant), g);
    var p, q := Differ(mode) && deny != 0, Differ(mode) && GroupHasMore(mode);
    TalliedConcat(Standard, t, If(p, a), If(q, b), u, g);
    TalliedOne(Standard, t, p, a, u, g);
    MaskBits(mode, isdir, false);
    GroupStep(Standard, t, a, u, g);
    OrZero(deny);
    var t1 := t.(denyGrp := Mask(DenyGroup(mode, isdir, false)));
    assert Tallied(Standard, t, If(p, a), u, g) == t1;
    TalliedOne(Standard, t1, q, b, u, g);
    GroupStep(Standard, t1, b, u, g);
    OrZero(grant);
  }

  lemma {:induction false} GroupTalliedAlone(k: Scheme, mode: bv32, isdir: bool, u: Sid, g: Sid, t: Tally)
    requires k == SchemeOf(u, g) && k != Standard && Owner(u) && Owner(g)
    requires t.allowGrp == NONE && t.denyGrp == NONE && !t.grp && t.first == (k != AdminOwn)
    ensures Tallied(k, t, GroupPart(mode, isdir, g, true), u, g)
         == t.(allowGrp := Mask(AllowGroup(mode, isdir, true)), denyGrp := Mask(DenyGroup(mode, isdir, true)),
               grp := true)
  {
    hide Step, Join, Applies, ChangesOwner, Plain, Inheritance, GroupDenial, GroupGrant, Tallied, IsUserSid, Differ,
         GroupHasMore;
    var grant := GroupGrant(mode, isdir);
    var b := Ace(false, Inheritance(isdir), Mask(grant), g);
    assert GroupPart(mode, isdir, g, true) == [b];
    TalliedOne(k, t, true, b, u, g);
    MaskBits(mode, isdir, false);
    GroupStep(k, t, b, u, g);
    OrZero(grant);
  }

  lemma {:induction false} GroupStep(k: Scheme, t: Tally, a: Ace, u: Sid, g: Sid)
    requires k == SchemeOf(u, g) && Owner(u) && Owner(g)
    requires t.first == (k != AdminOwn) && a.sid == g && Applies(a.flags) && !ChangesOwner(a.mask)
    ensures a.deny && k == Standard ==> Step(k, t, a, u, g) == t.(denyGrp := Join(t.denyGrp, a.mask))
    ensures !a.deny && k == Standard ==> Step(k, t, a, u, g) == t.(allowGrp := Join(t.allowGrp, a.mask))
    ensures !a.deny && k != Standard && Plain(a.mask) ==>
              Step(k, t, a, u, g) == t.(allowGrp := Join(t.allowGrp, a.mask), grp := true)
  {
    hide Applies, ChangesOwner, Plain, Join, IsWorldSid, IsUserSid;
    SidsDiffer(g);
  }

  lemma {:induction false} WorldStep(k: Scheme, t: Tally, a: Ace, u: Sid, g: Sid)
    requires k == SchemeOf(u, g) && Owner(u) && Owner(g)
    requires t.first == (k != AdminOwn) && a.sid == worldsid && Applies(a.flags) && !a.deny && Plain(a.mask)
    ensures Step(k, t, a, u, g) == t.(allowAll := Join(t.allowAll, a.mask))
  {
    hide Applies, ChangesOwner, Plain, Join, IsWorldSid, IsUserSid;
    SidsDiffer(u);
    SidsDiffer(g);
  }

  /** The entries for administrators and system count for nobody. */
  lemma {:induction false} OtherStep(k: Scheme, t: Tally, a: Ace, u: Sid, g: Sid)
    requires k == SchemeOf(u, g) && Owner(u) && Owner(g)
    requires t.first == (k != AdminOwn) && (a.sid == adminsid || a.sid == systemsid) && ChangesOwner(a.mask)
    ensures Step(k, t, a, u, g) == t
  {
    hide Applies, ChangesOwner, Plain, Join, IsWorldSid, IsUserSid;
    SidsDiffer(u);
    SidsDiffer(g);
  }

  lemma {:induction false} SpecialStep(k: Scheme, t: Tally, a: Ace, u: Sid, g: Sid)
    requires k == SchemeOf(u, g) && Owner(u) && Owner(g)
    requires a.sid == nullsid && Applies(a.flags) && !a.deny && !Plain(a.mask)
    ensures Step(k, t, a, u, g) == t.(special := Join(t.special, a.mask))
  {
    hide Applies, ChangesOwner, Plain, Join, IsWorldSid, IsUserSid;
    SidsDiffer(u);
    SidsDiffer(g);
  }

  /** The entries about everybody else. */
  lemma {:induction false} WorldTallied(k: Scheme, mode: bv32, isdir: bool, u: Sid, g: Sid, t: Tally)
    requires k == SchemeOf(u, g) && Owner(u) && Owner(g)
    requires t.allowAll == NONE && t.special == NONE && t.first == (k != AdminOwn)
    ensures Tallied(k, t, WorldPart(mode, isdir), u, g)
            == t.(allowAll := Mask(WorldGrant(mode, isdir)), special := Mask(Special(mode)))
  {
    hide Step, Join, Applies, ChangesOwner, Plain, Inheritance, WorldGrant, Special, Tallied, IsUserSid, Has;
    var i := Inheritance(isdir);
    var a, b, c := Ace(false, i, Mask(WorldGrant(mode, isdir)), worldsid), Ace(false, i, ALL_RIGHTS, adminsid),
        Ace(false, i, ALL_RIGHTS, systemsid);
    var d, p := Ace(false, 4, Mask(Special(mode)), nullsid), Has(mode, 0xE00);
    assert [a, b, c] == [a] + [b] + [c];
    TalliedConcat(k, t, [a, b, c], If(p, d), u, g);
    Tallied3(k, t, [a], [b], [c], u, g);
    TalliedOne(k, t, true, a, u, g);
    var t1 := Step(k, t, a, u, g);
    TalliedOne(k, t1, true, b, u, g);
    var t2 := Step(k, t1, b, u, g);
    TalliedOne(k, t2, true, c, u, g);
    var t3 := Step(k, t2, c, u, g);
    TalliedOne(k, t3, p, d, u, g);
    MaskBits(mode, isdir, false);
    WorldStep(k, t, a, u, g);
    OtherStep(k, t1, b, u, g);
    OtherStep(k, t2, c, u, g);
    SpecialStep(k, t3, d, u, g);
    OrZero(WorldGrant(mode, isdir));
    OrZero(Special(mode));
    NoSpecial(mode);
  }

  /** For every mode, for files and directories, and for all owners and groups that are users or the
      administrators: interpreting the ACL built from a mode gives that mode. */
  lemma {:induction false} ModeRoundTrip(mode: bv32, isdir: bool, u: Sid, g: Sid)
    requires IsMode(mode) && Owner(u) && Owner(g)
    ensures Mode(Acl(mode, isdir, u, g), u, g) == mode
  {
    hide IsMode, OwnerPart, GroupPart, WorldPart, Tallied, Merge, Conclude, IsUserSid, OwnerGrant, GroupGrant,
         WorldGrant, OwnerDenial, AllowGroup, DenyGroup, Special;
    var k := SchemeOf(u, g);
    var a, b, c := OwnerPart(mode, isdir, u, k == AdminOwn, k == GroupOwns), GroupPart(mode, isdir, g, k != Standard),
        WorldPart(mode, isdir);
    Tallied3(k, EMPTY, a, b, c, u, g);
    OwnerTallied(k, mode, isdir, u, g);
    var t1 := Tallied(k, EMPTY, a, u, g);
    if k == Standard {
      GroupTallied(mode, isdir, u, g, t1);
    } else {
      GroupTalliedAlone(k, mode, isdir, u, g, t1);
    }
    var t2 := Tallied(k, t1, b, u, g);
    WorldTallied(k, mode, isdir, u, g, t2);
    if k == Standard {
      StandardMode(mode, isdir);
    } else {
      AloneMode(k, mode, isdir);
    }
  }

  lemma {:induction false} StandardMode(mode: bv32, isdir: bool)
    requires IsMode(mode)
    ensures Merge(Conclude(Standard,
                           Tally(Mask(OwnerGrant(mode, isdir)), Mask(AllowGroup(mode, isdir, false)),
                                 Mask(WorldGrant(mode, isdir)), Mask(OwnerDenial(mode, isdir, false)),
                                 Mask(DenyGroup(mode, isdir, false)), NONE, Mask(Special(mode)), true, false,
                                 true))) == mode
  {
    hide IsMode, Plus, Net, All, Bits, Triple, Special, SpecialMode, OwnerGrant, GroupGrant, WorldGrant, OwnerDenial,
         AllowGroup, DenyGroup;
    AllowIs(mode, isdir);
    OwnerMeans(mode, isdir, AllowGroup(mode, isdir, false));
    GroupMeans(mode, isdir);
    WorldMeans(mode, isdir);
    AllBits(mode);
  }

  lemma {:induction false} AllowIs(mode: bv32, isdir: bool)
    ensures AllowGroup(mode, isdir, false) == 0 || AllowGroup(mode, isdir, false) == GroupGrant(mode, isdir)
    ensures AllowGroup(mode, isdir, true) == GroupGrant(mode, isdir) && DenyGroup(mode, isdir, true) == 0
  {
  }

  lemma {:induction false} AloneMode(k: Scheme, mode: bv32, isdir: bool)
    requires IsMode(mode) && k != Standard
    ensures Merge(Conclude(k, Tally(Mask(OwnerGrant(mode, isdir)), Mask(AllowGroup(mode, isdir, true)),
                                    Mask(WorldGrant(mode, isdir)), NONE, Mask(DenyGroup(mode, isdir, true)), NONE,
                                    Mask(Special(mode)), true, true, k != AdminOwn))) == mode
  {
    hide IsMode, Plus, Net, All, Bits, Triple, Special, SpecialMode, OwnerGrant, GroupGrant, WorldGrant, AllowGroup,
         DenyGroup;
    AllowIs(mode, isdir);
    GrantsMean(mode, isdir);
    WorldMeans(mode, isdir);
    AllBits(mode);
  }

  // ---- what is inherited --------------------------------------------------------------------------

  /** New files, and new directories, take the entry over. */
  predicate ForFiles(flags: bv8) {
    flags & 1 != 0
  }

  predicate ForDirectories(flags: bv8) {
    flags & 2 != 0
  }

  lemma {:induction false} FlagBits(isdir: bool)
    ensures Applies(Inheritance(isdir)) && ForFiles(Inheritance(isdir)) == ForDirectories(Inheritance(isdir)) == isdir
    ensures !Applies(9) && ForFiles(9) && !ForDirectories(9)
    ensures Applies(4) && !ForFiles(4) && !ForDirectories(4)
  {
  }

  /** The entries of a file are not inherited.  Those of a directory apply to it and are inherited by all that
      is created in it, but for the special bits, which are not inherited, and the denial of execution, which
      is for new files only. */
  lemma {:induction false} WhatIsInherited(mode: bv32, isdir: bool, u: Sid, g: Sid, a: Ace)
    requires Owner(u) && Owner(g) && a in Acl(mode, isdir, u, g)
    ensures isdir && a.deny && a.sid == worldsid ==>
              a.mask == Mask(FILE_EXECUTE) && !Applies(a.flags) && ForFiles(a.flags) && !ForDirectories(a.flags)
    ensures !(isdir && a.deny && a.sid == worldsid) ==>
              && Applies(a.flags)
              && ForFiles(a.flags) == ForDirectories(a.flags) == (isdir && a.sid != nullsid)
  {
    hide OwnerDenial, OwnerGrant, GroupDenial, GroupGrant, WorldGrant, Special, Has, Differ, GroupHasMore, Applies,
         ForFiles, ForDirectories, Inheritance, Owner, IsWorldSid;
    FlagBits(isdir);
    SidsDiffer(u);
    SidsDiffer(g);
    if isdir && a.deny && a.sid == worldsid {
      WorldDenial(mode, u, g, a);
    }
  }

  lemma {:induction false} WorldDenial(mode: bv32, u: Sid, g: Sid, a: Ace)
    requires a in Acl(mode, true, u, g) && a.deny && a.sid == worldsid && u != worldsid && g != worldsid
    ensures a == Ace(true, 9, Mask(FILE_EXECUTE), worldsid)
  {
    hide OwnerDenial, OwnerGrant, GroupDenial, GroupGrant, WorldGrant, Special, Has, Differ, GroupHasMore, Inheritance;
  }

  /** Administrators and system get all rights an owner of a file can have. */
  lemma {:induction false} FullAccess(mode: bv32, isdir: bool, u: Sid, g: Sid)
    ensures Ace(false, Inheritance(isdir), ALL_RIGHTS, adminsid) in Acl(mode, isdir, u, g)
    ensures Ace(false, Inheritance(isdir), ALL_RIGHTS, systemsid) in Acl(mode, isdir, u, g)
    ensures ALL_RIGHTS.bits == OWNER_RIGHTS | Rights(false, true, true, true)
  {
    hide OwnerPart, GroupPart, WorldGrant, Special, Has, Inheritance;
    var w := WorldPart(mode, isdir);
    assert w[1] == Ace(false, Inheritance(isdir), ALL_RIGHTS, adminsid);
    assert w[2] == Ace(false, Inheritance(isdir), ALL_RIGHTS, systemsid);
  }

  /** `buildacls`: what is built reads as the mode it was built from. */
  method BuildAcls(mode: bv32, isdir: bool, u: Sid, g: Sid) returns (acl: seq<Ace>)
    ensures acl == Acl(mode, isdir, u, g)
    ensures IsMode(mode) && Owner(u) && Owner(g) ==> Mode(acl, u, g) == mode
  {
    hide IsMode, OwnerPart, GroupPart, WorldGrant, Special, Mode, Has, IsUserSid;
    var adminowns := u == adminsid || g == adminsid;
    var groupowns := !adminowns && u == g;
    var owner := BuildOwner(mode, isdir, u, adminowns, groupowns);
    var group := BuildGroup(mode, isdir, g, adminowns || groupowns);
    var flags := Inheritance(isdir);
    var world := [Ace(false, flags, Mask(WorldGrant(mode, isdir)), worldsid), Ace(false, flags, ALL_RIGHTS, adminsid),
                  Ace(false, flags, ALL_RIGHTS, systemsid)];
    if Has(mode, S_ISVTX | S_ISGID | S_ISUID) {
      world := world + [Ace(false, 4, Mask(Special(mode)), nullsid)];
    }
    acl := owner + group + world;
    if IsMode(mode) && Owner(u) && Owner(g) {
      ModeRoundTrip(mode, isdir, u, g);
    }
  }
}
