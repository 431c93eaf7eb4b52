/** What the interpretation of an access control list means for every list: who may do what, told from the
    entries without regard to how they are collected (`acls.c`). */
module AclMeaning {
  import opened SidMapping
  import opened FilePermissions

  /** Whom an entry speaks about. */
  datatype Subject = TheOwner | TheGroup | TheWorld | SpecialBits | Nobody

  /** An entry for the file itself that is complete enough to count when the administrators own. */
  predicate Counts(a: Ace) {
    Applies(a.flags) && Plain(a.mask)
  }

  /** Whom an entry speaks about; where the administrators own, the owner must come in the first entry that
      counts, and where owner and group are the same, denials to them are ignored. */
  function About(k: Scheme, a: Ace, u: Sid, g: Sid, first: bool): Subject {
    if !Applies(a.flags) then Nobody
    else match k
      case Standard =>
        if OwnerSid(u, a.sid) then TheOwner
        else if a.sid == g && !ChangesOwner(a.mask) then TheGroup
        else if IsWorldSid(a.sid) then TheWorld
        else if a.sid == nullsid then SpecialBits else Nobody
      case GroupOwns =>
        if OwnerSid(u, a.sid) && ChangesOwner(a.mask) then if a.deny then Nobody else TheOwner
        else if a.sid == u then if a.deny then Nobody else TheGroup
        else if IsWorldSid(a.sid) then TheWorld
        else if a.sid == nullsid then SpecialBits else Nobody
      case AdminOwn =>
        if !Plain(a.mask) then if a.sid == nullsid then SpecialBits else Nobody
        else if OwnerSid(u, a.sid) && ChangesOwner(a.mask) && first then TheOwner
        else if a.sid == g && !ChangesOwner(a.mask) then TheGroup
        else if IsWorldSid(a.sid) then TheWorld else Nobody
  }

  /** The mask holds one of the rights `c`. */
  predicate Meets(m: Mask, c: bv32) {
    Any(m.bits, c)
  }

  predicate Any(bits: bv32, c: bv32) {
    bits & c != 0
  }

  ghost predicate FirstOf(acl: seq<Ace>, i: nat)
    requires i <= |acl|
  {
    forall j :: 0 <= j < i ==> !Counts(acl[j])
  }

  ghost function Speaks(k: Scheme, acl: seq<Ace>, i: nat, u: Sid, g: Sid): Subject
    requires i < |acl|
  {
    About(k, acl[i], u, g, FirstOf(acl, i))
  }

  /** One of the first `n` entries allows, or denies, one of the rights `c` to `who`. */
  ghost predicate Says(k: Scheme, acl: seq<Ace>, n: nat, u: Sid, g: Sid, who: Subject, deny: bool, c: bv32)
    requires n <= |acl|
  {
    exists i :: 0 <= i < n && Speaks(k, acl, i, u, g) == who && acl[i].deny == deny && Meets(acl[i].mask, c)
  }

  /** One of the first `n` entries allows something to `who`; any entry about a plain owner will do. */
  ghost predicate Names(k: Scheme, acl: seq<Ace>, n: nat, u: Sid, g: Sid, who: Subject)
    requires n <= |acl|
  {
    exists i :: 0 <= i < n && Speaks(k, acl, i, u, g) == who && (k == Standard || !acl[i].deny)
  }

  // ---- who may do what ----------------------------------------------------------------------------

  ghost predicate Allowed(k: Scheme, acl: seq<Ace>, u: Sid, g: Sid, who: Subject, c: bv32) {
    Says(k, acl, |acl|, u, g, who, false, c)
  }

  ghost predicate Denied(k: Scheme, acl: seq<Ace>, u: Sid, g: Sid, who: Subject, c: bv32) {
    Says(k, acl, |acl|, u, g, who, true, c)
  }

  ghost predicate Named(k: Scheme, acl: seq<Ace>, u: Sid, g: Sid, who: Subject) {
    Names(k, acl, |acl|, u, g, who)
  }

  /** A right of the world: allowed to it and not denied to it. */
  ghost predicate WorldMay(k: Scheme, acl: seq<Ace>, u: Sid, g: Sid, c: bv32) {
    Allowed(k, acl, u, g, TheWorld, c) && !Denied(k, acl, u, g, TheWorld, c)
  }

  /** A right of the group.  It shares those of the world, unless it has entries of its own where owner and
      group are the same, or both owner and group have where the administrators own. */
  ghost predicate GroupMay(k: Scheme, acl: seq<Ace>, u: Sid, g: Sid, c: bv32) {
    && !Denied(k, acl, u, g, TheGroup, c) && !Denied(k, acl, u, g, TheWorld, c)
    && match k
       case Standard => Allowed(k, acl, u, g, TheGroup, c) || Allowed(k, acl, u, g, TheWorld, c)
       case GroupOwns => Allowed(k, acl, u, g, if Named(k, acl, u, g, TheGroup) then TheGroup else TheWorld, c)
       case AdminOwn => Allowed(k, acl, u, g, TheGroup, c) || (Foreign(acl, u, g) && Allowed(k, acl, u, g, TheWorld, c))
  }

  /** TheOwner or group of a file of the administrators are not granted anything. */
  ghost predicate Foreign(acl: seq<Ace>, u: Sid, g: Sid) {
    !(Named(AdminOwn, acl, u, g, TheOwner) && Named(AdminOwn, acl, u, g, TheGroup))
  }

  /** A right of the owner.  It shares those of group and world in the same way; an owner not mentioned may
      read, write and execute. */
  ghost predicate OwnerMay(k: Scheme, acl: seq<Ace>, u: Sid, g: Sid, c: bv32) {
    && !Denied(k, acl, u, g, TheOwner, c) && !Denied(k, acl, u, g, TheWorld, c)
    && match k
       case Standard =>
         || Allowed(k, acl, u, g, TheOwner, c)
         || Allowed(k, acl, u, g, TheGroup, c) || Allowed(k, acl, u, g, TheWorld, c)
         || (!Named(k, acl, u, g, TheOwner) && Meets(Mask(FILE_READ_DATA | FILE_WRITE_DATA | FILE_EXECUTE), c))
       case GroupOwns => Allowed(k, acl, u, g, if Named(k, acl, u, g, TheOwner) then TheOwner else TheWorld, c)
       case AdminOwn =>
         || Allowed(k, acl, u, g, TheOwner, c)
         || (Foreign(acl, u, g) && (Allowed(k, acl, u, g, TheGroup, c) || Allowed(k, acl, u, g, TheWorld, c)))
  }

  // ---- the tally ----------------------------------------------------------------------------------

  /** What is collected for `who`. */
  function Field(t: Tally, who: Subject, deny: bool): Mask {
    match who
    case TheOwner => if deny then t.denyOwn else t.allowOwn
    case TheGroup => if deny then t.denyGrp else t.allowGrp
    case TheWorld => if deny then t.denyAll else t.allowAll
    case SpecialBits => if deny then NONE else t.special
    case Nobody => NONE
  }

  predicate Collected(who: Subject, deny: bool) {
    who != Nobody && !(who == SpecialBits && deny)
  }

  /** What the tally of the first `n` entries shows about the rights `c`. */
  ghost predicate Shows(k: Scheme, acl: seq<Ace>, n: nat, u: Sid, g: Sid, t: Tally, c: bv32)
    requires n <= |acl|
  {
    forall who, deny :: Collected(who, deny) ==>
      (Meets(Field(t, who, deny), c) <==> Says(k, acl, n, u, g, who, deny, c))
  }

  ghost predicate ShowsNames(k: Scheme, acl: seq<Ace>, n: nat, u: Sid, g: Sid, t: Tally)
    requires n <= |acl|
  {
    && (t.own <==> Names(k, acl, n, u, g, TheOwner))
    && (k != Standard ==> (t.grp <==> Names(k, acl, n, u, g, TheGroup)))
    && (k == AdminOwn ==> (t.first <==> FirstOf(acl, n)))
  }

  // ---- one step -----------------------------------------------------------------------------------

  /** The tally with entry `a` added for `s`. */
  function Added(k: Scheme, t: Tally, a: Ace, s: Subject): Tally {
    var t1 := if k == AdminOwn && Counts(a) then t.(first := false) else t;
    match s
    case TheOwner =>
      if a.deny then t1.(denyOwn := Join(t.denyOwn, a.mask), own := t.own || k == Standard)
      else t1.(allowOwn := Join(t.allowOwn, a.mask), own := true)
    case TheGroup =>
      if a.deny then t1.(denyGrp := Join(t.denyGrp, a.mask))
      else t1.(allowGrp := Join(t.allowGrp, a.mask), grp := t.grp || k != Standard)
    case TheWorld =>
      if a.deny then t1.(denyAll := Join(t.denyAll, a.mask)) else t1.(allowAll := Join(t.allowAll, a.mask))
    case SpecialBits => if a.deny then t1 else t1.(special := Join(t.special, a.mask))
    case Nobody => t1
  }

  lemma {:induction false} StandardStep(t: Tally, a: Ace, u: Sid, g: Sid)
    ensures StdStep(t, a, u, g) == Added(Standard, t, a, About(Standard, a, u, g, t.first))
  {
    hide Applies, ChangesOwner, Join, IsWorldSid, OwnerSid;
  }

  lemma {:induction false} GroupOwnsStep(t: Tally, a: Ace, u: Sid, g: Sid)
    ensures OwnGrpStep(t, a, u) == Added(GroupOwns, t, a, About(GroupOwns, a, u, g, t.first))
  {
    hide Applies, ChangesOwner, Join, IsWorldSid;
  }

  lemma {:induction false} AdminCounts(t: Tally, a: Ace, u: Sid, g: Sid)
    requires Counts(a)
    ensures OwnAdminStep(t, a, u, g) == Added(AdminOwn, t, a, About(AdminOwn, a, u, g, t.first))
  {
    hide Applies, ChangesOwner, Plain, Join, IsWorldSid, OwnerSid;
  }

  lemma {:induction false} AdminOther(t: Tally, a: Ace, u: Sid, g: Sid)
    requires !Counts(a)
    ensures OwnAdminStep(t, a, u, g) == Added(AdminOwn, t, a, About(AdminOwn, a, u, g, t.first))
  {
    hide Applies, ChangesOwner, Plain, Join, IsWorldSid, OwnerSid;
  }

  lemma {:induction false} StepIs(k: Scheme, t: Tally, a: Ace, u: Sid, g: Sid)
    ensures Step(k, t, a, u, g) == Added(k, t, a, About(k, a, u, g, t.first))
  {
    hide About, StdStep, OwnGrpStep, OwnAdminStep, Added, Counts;
    match k
    case Standard => StandardStep(t, a, u, g);
    case GroupOwns => GroupOwnsStep(t, a, u, g);
    case AdminOwn => if Counts(a) { AdminCounts(t, a, u, g); } else { AdminOther(t, a, u, g); }
  }

  lemma {:induction false} AddedField(k: Scheme, t: Tally, a: Ace, s: Subject, who: Subject, deny: bool)
    requires Collected(who, deny)
    ensures Field(Added(k, t, a, s), who, deny)
         == if s == who && a.deny == deny then Join(Field(t, who, deny), a.mask) else Field(t, who, deny)
  {
    hide Counts, Join;
  }

  lemma {:induction false} AddedNames(k: Scheme, t: Tally, a: Ace, s: Subject)
    ensures var t' := Added(k, t, a, s);
            && t'.own == (t.own || (s == TheOwner && (k == Standard || !a.deny)))
            && (k != Standard ==> t'.grp == (t.grp || (s == TheGroup && !a.deny)))
            && (k == AdminOwn ==> t'.first == (t.first && !Counts(a)))
  {
    hide Counts, Join;
  }

  lemma {:induction false} MaskOr(a: bv32, b: bv32, c: bv32)
    ensures Plus(a, b) & c == (a & c) | (b & c)
  {
  }

  lemma {:induction false} OrNotZero(x: bv32, y: bv32)
    ensures x | y != 0 <==> x != 0 || y != 0
  {
  }

  lemma {:induction false} PlusBit(a: bv32, b: bv32, c: bv32)
    ensures Any(Plus(a, b), c) <==> Any(a, c) || Any(b, c)
  {
    hide Plus;
    MaskOr(a, b, c);
    OrNotZero(a & c, b & c);
  }

  lemma {:induction false} MeetsJoin(a: Mask, b: Mask, c: bv32)
    ensures Meets(Join(a, b), c) <==> Meets(a, c) || Meets(b, c)
  {
    hide Plus, Any;
    PlusBit(a.bits, b.bits, c);
  }

  lemma {:induction false} SaysStep(k: Scheme, acl: seq<Ace>, n: nat, u: Sid, g: Sid, who: Subject, deny: bool, c: bv32)
    requires n < |acl|
    ensures Says(k, acl, n + 1, u, g, who, deny, c) <==>
            || Says(k, acl, n, u, g, who, deny, c)
            || (Speaks(k, acl, n, u, g) == who && acl[n].deny == deny && Meets(acl[n].mask, c))
  {
    hide Speaks;
  }

  lemma {:induction false} NamesStep(k: Scheme, acl: seq<Ace>, n: nat, u: Sid, g: Sid, who: Subject)
    requires n < |acl|
    ensures Names(k, acl, n + 1, u, g, who) <==>
            Names(k, acl, n, u, g, who) || (Speaks(k, acl, n, u, g) == who && (k == Standard || !acl[n].deny))
  {
    hide Speaks;
  }

  // ---- the whole tally ----------------------------------------------------------------------------

  lemma {:induction false} ShowsStep(k: Scheme, acl: seq<Ace>, n: nat, u: Sid, g: Sid, t: Tally, c: bv32)
    requires n < |acl| && Shows(k, acl, n, u, g, t, c) && ShowsNames(k, acl, n, u, g, t)
    ensures var t' := Step(k, t, acl[n], u, g);
            Shows(k, acl, n + 1, u, g, t', c) && ShowsNames(k, acl, n + 1, u, g, t')
  {
    hide Says, Names, Speaks, Field, Meets, Join, Added, Step, Collected, Counts;
    var a, s := acl[n], Speaks(k, acl, n, u, g);
    var t' := Step(k, t, a, u, g);
    StepSpeaks(k, acl, n, u, g, t);
    forall who, deny | Collected(who, deny)
      ensures Meets(Field(t', who, deny), c) <==> Says(k, acl, n + 1, u, g, who, deny, c)
    {
      SaysStep(k, acl, n, u, g, who, deny, c);
      AddedField(k, t, a, s, who, deny);
      MeetsJoin(Field(t, who, deny), a.mask, c);
    }
    AddedNames(k, t, a, s);
    NamesStep(k, acl, n, u, g, TheOwner);
    NamesStep(k, acl, n, u, g, TheGroup);
    FirstStep(acl, n);
  }

  lemma {:induction false} StepSpeaks(k: Scheme, acl: seq<Ace>, n: nat, u: Sid, g: Sid, t: Tally)
    requires n < |acl| && (k == AdminOwn ==> (t.first <==> FirstOf(acl, n)))
    ensures Step(k, t, acl[n], u, g) == Added(k, t, acl[n], Speaks(k, acl, n, u, g))
  {
    hide Added, Step, FirstOf, Applies, Plain, ChangesOwner, IsWorldSid, OwnerSid;
    StepIs(k, t, acl[n], u, g);
  }

  lemma {:induction false} FirstStep(acl: seq<Ace>, n: nat)
    requires n < |acl|
    ensures FirstOf(acl, n + 1) <==> FirstOf(acl, n) && !Counts(acl[n])
  {
    hide Counts;
  }

  lemma {:induction false} NothingYet(k: Scheme, acl: seq<Ace>, u: Sid, g: Sid, c: bv32)
    ensures Shows(k, acl, 0, u, g, EMPTY, c) && ShowsNames(k, acl, 0, u, g, EMPTY)
  {
    hide Speaks;
  }

  /** What is collected from the first `n` entries. */
  lemma {:induction false} TallyShows(k: Scheme, acl: seq<Ace>, n: nat, u: Sid, g: Sid, c: bv32)
    requires n <= |acl|
    ensures var t := Tallied(k, EMPTY, acl[..n], u, g);
            Shows(k, acl, n, u, g, t, c) && ShowsNames(k, acl, n, u, g, t)
    decreases n
  {
    hide Shows, ShowsNames, Step;
    if n == 0 {
      NothingYet(k, acl, u, g, c);
    } else {
      TallyShows(k, acl, n - 1, u, g, c);
      assert acl[..n] == acl[..n - 1] + [acl[n - 1]];
      TalliedConcat(k, EMPTY, acl[..n - 1], [acl[n - 1]], u, g);
      TalliedOne(k, Tallied(k, EMPTY, acl[..n - 1], u, g), true, acl[n - 1], u, g);
      ShowsStep(k, acl, n - 1, u, g, Tallied(k, EMPTY, acl[..n - 1], u, g), c);
    }
  }

  // ---- the mode -----------------------------------------------------------------------------------

  /** The rights concluded for the owner, of which those denied are still to be taken away. */
  lemma {:induction false} OwnerConcluded(k: Scheme, acl: seq<Ace>, u: Sid, g: Sid, t: Tally, c: bv32)
    requires Shows(k, acl, |acl|, u, g, t, c) && ShowsNames(k, acl, |acl|, u, g, t)
    ensures var t' := Conclude(k, t);
            Meets(t'.allowOwn, c) && !Meets(t'.denyOwn, c) && !Meets(t'.denyAll, c) <==> OwnerMay(k, acl, u, g, c)
  {
    hide Says, Names, Meets, Join;
    ShownFields(k, acl, u, g, t, c);
    MeetsJoin(t.allowGrp, t.allowAll, c);
    MeetsJoin(t.allowOwn, Join(t.allowGrp, t.allowAll), c);
    MeetsJoin(Mask(FILE_READ_DATA | FILE_WRITE_DATA | FILE_EXECUTE), Join(t.allowGrp, t.allowAll), c);
    OwnerOnlyNamed(k, acl, u, g, c);
  }

  lemma {:induction false} GroupConcluded(k: Scheme, acl: seq<Ace>, u: Sid, g: Sid, t: Tally, c: bv32)
    requires Shows(k, acl, |acl|, u, g, t, c) && ShowsNames(k, acl, |acl|, u, g, t)
    ensures var t' := Conclude(k, t);
            Meets(t'.allowGrp, c) && !Meets(t'.denyGrp, c) && !Meets(t'.denyAll, c) <==> GroupMay(k, acl, u, g, c)
    ensures var t' := Conclude(k, t);
            Meets(t'.allowAll, c) && !Meets(t'.denyAll, c) <==> WorldMay(k, acl, u, g, c)
    ensures Meets(Conclude(k, t).special, c) <==> Allowed(k, acl, u, g, SpecialBits, c)
  {
    hide Says, Names, Meets, Join;
    ShownFields(k, acl, u, g, t, c);
    MeetsJoin(t.allowGrp, t.allowAll, c);
  }

  /** Rights allowed to the owner are in an entry that names it. */
  lemma {:induction false} OwnerOnlyNamed(k: Scheme, acl: seq<Ace>, u: Sid, g: Sid, c: bv32)
    ensures k == Standard && Allowed(k, acl, u, g, TheOwner, c) ==> Named(k, acl, u, g, TheOwner)
  {
    hide Speaks, Meets;
  }

  lemma {:induction false} ShownFields(k: Scheme, acl: seq<Ace>, u: Sid, g: Sid, t: Tally, c: bv32)
    requires Shows(k, acl, |acl|, u, g, t, c)
    ensures Meets(t.allowOwn, c) <==> Allowed(k, acl, u, g, TheOwner, c)
    ensures Meets(t.denyOwn, c) <==> Denied(k, acl, u, g, TheOwner, c)
    ensures Meets(t.allowGrp, c) <==> Allowed(k, acl, u, g, TheGroup, c)
    ensures Meets(t.denyGrp, c) <==> Denied(k, acl, u, g, TheGroup, c)
    ensures Meets(t.allowAll, c) <==> Allowed(k, acl, u, g, TheWorld, c)
    ensures Meets(t.denyAll, c) <==> Denied(k, acl, u, g, TheWorld, c)
    ensures Meets(t.special, c) <==> Allowed(k, acl, u, g, SpecialBits, c)
  {
    hide Says, Meets;
    assert Field(t, TheOwner, false) == t.allowOwn && Field(t, TheOwner, true) == t.denyOwn;
    assert Field(t, TheGroup, false) == t.allowGrp && Field(t, TheGroup, true) == t.denyGrp;
    assert Field(t, TheWorld, false) == t.allowAll && Field(t, TheWorld, true) == t.denyAll;
    assert Field(t, SpecialBits, false) == t.special;
  }

  /** One of the rights that mean exec, write or read is left when those denied are taken away. */
  lemma {:induction false} ExecLeft(a: bv32, d: bv32, e: bv32)
    ensures Net(a, d, e) & ANY_EXEC != 0 <==>
            (a & 0x20 != 0 && d & 0x20 == 0 && e & 0x20 == 0)
            || (a & 0x2000_0000 != 0 && d & 0x2000_0000 == 0 && e & 0x2000_0000 == 0)
  {
  }

  lemma {:induction false} WriteLeft(a: bv32, d: bv32, e: bv32)
    ensures Net(a, d, e) & ANY_WRITE != 0 <==>
            (a & 0x2 != 0 && d & 0x2 == 0 && e & 0x2 == 0) || (a & 0x4 != 0 && d & 0x4 == 0 && e & 0x4 == 0)
            || (a & 0x4000_0000 != 0 && d & 0x4000_0000 == 0 && e & 0x4000_0000 == 0)
  {
  }

  lemma {:induction false} ReadLeft(a: bv32, d: bv32, e: bv32)
    ensures Net(a, d, e) & ANY_READ != 0 <==>
            (a & 0x1 != 0 && d & 0x1 == 0 && e & 0x1 == 0)
            || (a & 0x8000_0000 != 0 && d & 0x8000_0000 == 0 && e & 0x8000_0000 == 0)
  {
  }

  lemma {:induction false} NothingDenied(c: bv32)
    ensures !Any(0, c)
  {
  }

  /** Each bit of the mode comes from the rights it stands for. */
  lemma {:induction false} ModeBits(o: bv32, g: bv32, w: bv32, sp: bv32)
    ensures var m := All(Triple(o, 0x40, 0x80, 0x100), Triple(g, 0x8, 0x10, 0x20), Triple(w, 0x1, 0x2, 0x4),
                         SpecialMode(sp));
            && m & 0xFFFF_F000 == 0
            && (m & 0x40 != 0 <==> o & ANY_EXEC != 0) && (m & 0x80 != 0 <==> o & ANY_WRITE != 0)
            && (m & 0x100 != 0 <==> o & ANY_READ != 0)
            && (m & 0x8 != 0 <==> g & ANY_EXEC != 0) && (m & 0x10 != 0 <==> g & ANY_WRITE != 0)
            && (m & 0x20 != 0 <==> g & ANY_READ != 0)
            && (m & 0x1 != 0 <==> w & ANY_EXEC != 0) && (m & 0x2 != 0 <==> w & ANY_WRITE != 0)
            && (m & 0x4 != 0 <==> w & ANY_READ != 0)
            && (m & S_ISUID != 0 <==> sp & FILE_APPEND_DATA != 0) && (m & S_ISGID != 0 <==> sp & FILE_WRITE_DATA != 0)
            && (m & S_ISVTX != 0 <==> sp & FILE_READ_DATA != 0)
  {
  }

  /** For every list: each bit of the mode is set if and only if one of the rights it stands for is allowed
      and not denied, by the entries that speak about owner, group or world. */
  lemma {:induction false} ModeMeans(acl: seq<Ace>, u: Sid, g: Sid)
    ensures var k, m := SchemeOf(u, g), Mode(acl, u, g);
            && m & 0xFFFF_F000 == 0
            && (m & 0x40 != 0 <==> OwnerMay(k, acl, u, g, 0x20) || OwnerMay(k, acl, u, g, 0x2000_0000))
            && (m & 0x80 != 0 <==>
                  OwnerMay(k, acl, u, g, 0x2) || OwnerMay(k, acl, u, g, 0x4) || OwnerMay(k, acl, u, g, 0x4000_0000))
            && (m & 0x100 != 0 <==> OwnerMay(k, acl, u, g, 0x1) || OwnerMay(k, acl, u, g, 0x8000_0000))
            && (m & 0x8 != 0 <==> GroupMay(k, acl, u, g, 0x20) || GroupMay(k, acl, u, g, 0x2000_0000))
            && (m & 0x10 != 0 <==>
                  GroupMay(k, acl, u, g, 0x2) || GroupMay(k, acl, u, g, 0x4) || GroupMay(k, acl, u, g, 0x4000_0000))
            && (m & 0x20 != 0 <==> GroupMay(k, acl, u, g, 0x1) || GroupMay(k, acl, u, g, 0x8000_0000))
            && (m & 0x1 != 0 <==> WorldMay(k, acl, u, g, 0x20) || WorldMay(k, acl, u, g, 0x2000_0000))
            && (m & 0x2 != 0 <==>
                  WorldMay(k, acl, u, g, 0x2) || WorldMay(k, acl, u, g, 0x4) || WorldMay(k, acl, u, g, 0x4000_0000))
            && (m & 0x4 != 0 <==> WorldMay(k, acl, u, g, 0x1) || WorldMay(k, acl, u, g, 0x8000_0000))
            && (m & S_ISUID != 0 <==> Allowed(k, acl, u, g, SpecialBits, FILE_APPEND_DATA))
            && (m & S_ISGID != 0 <==> Allowed(k, acl, u, g, SpecialBits, FILE_WRITE_DATA))
            && (m & S_ISVTX != 0 <==> Allowed(k, acl, u, g, SpecialBits, FILE_READ_DATA))
  {
    hide OwnerMay, GroupMay, WorldMay, Allowed, Left, Net, All, Triple, SpecialMode, Conclude, Tallied;
    var k := SchemeOf(u, g);
    var t := Conclude(k, Tallied(k, EMPTY, acl, u, g));
    RightsLeft(acl, u, g, 0x20);
    RightsLeft(acl, u, g, 0x2000_0000);
    RightsLeft(acl, u, g, 0x2);
    RightsLeft(acl, u, g, 0x4);
    RightsLeft(acl, u, g, 0x4000_0000);
    RightsLeft(acl, u, g, 0x1);
    RightsLeft(acl, u, g, 0x8000_0000);
    AnyLeft(t.allowOwn.bits, t.denyOwn.bits, t.denyAll.bits);
    AnyLeft(t.allowGrp.bits, t.denyGrp.bits, t.denyAll.bits);
    AnyLeft(t.allowAll.bits, 0, t.denyAll.bits);
    ModeBits(Net(t.allowOwn.bits, t.denyOwn.bits, t.denyAll.bits), Net(t.allowGrp.bits, t.denyGrp.bits, t.denyAll.bits),
             Net(t.allowAll.bits, 0, t.denyAll.bits), t.special.bits);
  }

  lemma {:induction false} AnyLeft(a: bv32, d: bv32, e: bv32)
    ensures Net(a, d, e) & ANY_EXEC != 0 <==> Left(a, d, e, 0x20) || Left(a, d, e, 0x2000_0000)
    ensures Net(a, d, e) & ANY_WRITE != 0 <==>
            Left(a, d, e, 0x2) || Left(a, d, e, 0x4) || Left(a, d, e, 0x4000_0000)
    ensures Net(a, d, e) & ANY_READ != 0 <==> Left(a, d, e, 0x1) || Left(a, d, e, 0x8000_0000)
  {
    hide Net, Left;
    LeftIs(a, d, e, 0x20);
    LeftIs(a, d, e, 0x2000_0000);
    LeftIs(a, d, e, 0x2);
    LeftIs(a, d, e, 0x4);
    LeftIs(a, d, e, 0x4000_0000);
    LeftIs(a, d, e, 0x1);
    LeftIs(a, d, e, 0x8000_0000);
    ExecLeft(a, d, e);
    WriteLeft(a, d, e);
    ReadLeft(a, d, e);
  }

  /** Allowed and not denied. */
  predicate Left(a: bv32, d: bv32, e: bv32, c: bv32) {
    Any(a, c) && !Any(d, c) && !Any(e, c)
  }

  lemma {:induction false} LeftIs(a: bv32, d: bv32, e: bv32, c: bv32)
    ensures Left(a, d, e, c) <==> a & c != 0 && d & c == 0 && e & c == 0
  {
  }

  lemma {:induction false} RightsLeft(acl: seq<Ace>, u: Sid, g: Sid, c: bv32)
    ensures var k := SchemeOf(u, g);
            var t := Conclude(k, Tallied(k, EMPTY, acl, u, g));
            && (Left(t.allowOwn.bits, t.denyOwn.bits, t.denyAll.bits, c) <==> OwnerMay(k, acl, u, g, c))
            && (Left(t.allowGrp.bits, t.denyGrp.bits, t.denyAll.bits, c) <==> GroupMay(k, acl, u, g, c))
            && (Left(t.allowAll.bits, 0, t.denyAll.bits, c) <==> WorldMay(k, acl, u, g, c))
            && (Any(t.special.bits, c) <==> Allowed(k, acl, u, g, SpecialBits, c))
  {
    hide OwnerMay, GroupMay, WorldMay, Allowed, Any, Conclude, Tallied, Shows, ShowsNames;
    var k := SchemeOf(u, g);
    var t := Tallied(k, EMPTY, acl, u, g);
    assert acl[..|acl|] == acl;
    TallyShows(k, acl, |acl|, u, g, c);
    OwnerConcluded(k, acl, u, g, t, c);
    GroupConcluded(k, acl, u, g, t, c);
    NothingDenied(c);
  }
}
