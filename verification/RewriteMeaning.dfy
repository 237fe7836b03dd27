/** What the list rewritten after a change of mode decides: entries that name a user or a group keep
    ruling on reading, writing and executing, and the mode rules on what they leave open.  An entry is
    taken for one that names somebody when its number is none of the three special identifiers,
    whatever its flags say. */
module RewriteMeaning {
  import opened Basics
  import opened AclTypes
  import opened AccessCheck
  import opened FirstMatch
  import opened ModeAcl
  import opened ModeMeaning
  import opened ModeToAcl

  predicate KeepsItsRights(a: Ace) { !IsModeGen(a) && !IsSpecialWho(a) }

  /** The entries whose rights survive the rewriting. */
  function NamedPart(s: Acl): Acl {
    if s == [] then [] else NamedPart(s[..|s| - 1]) + if KeepsItsRights(s[|s| - 1]) then [s[|s| - 1]] else []
  }

  /** The first ruling, or else the second. */
  function OrElse(r: Ruling, r': Ruling): Ruling { if r == Silent then r' else r }

  lemma {:induction false} RulingConcat(b: Bit, c: Caller, s: Acl, t: Acl)
    ensures RulingOn(b, c, s + t) == OrElse(RulingOn(b, c, s), RulingOn(b, c, t))
  {
    if s == [] {
      assert s + t == t;
    } else {
      assert (s + t)[1..] == s[1..] + t;
      RulingConcat(b, c, s[1..], t);
    }
  }

  lemma RulingOfOne(b: Bit, c: Caller, a: Ace)
    ensures RulingOn(b, c, [a]) == if Mentions(a, c, b) then (if a.kind.Allow? then Granted else Refused) else Silent
  {
    assert RulingOn(b, c, [a][1..]) == Silent;
  }

  /** What one entry becomes rules as the entry does, or not at all. */
  lemma CarryRules(b: Bit, c: Caller, a: Ace)
    requires b in RWX_BITS
    ensures RulingOn(b, c, Carry(a)) == if KeepsItsRights(a) then RulingOn(b, c, [a]) else Silent
  {
    RulingOfOne(b, c, a);
    var l := Carry(a);
    if |l| == 1 {
      RulingOfOne(b, c, l[0]);
      assert l == [l[0]];
    } else if |l| == 2 {
      RulingConcat(b, c, [l[0]], [l[1]]);
      RulingOfOne(b, c, l[0]);
      RulingOfOne(b, c, l[1]);
      assert l == [l[0]] + [l[1]];
    }
  }

  lemma {:induction false} CarriedRules(b: Bit, c: Caller, s: Acl)
    requires b in RWX_BITS
    ensures RulingOn(b, c, CarryAll(s)) == RulingOn(b, c, NamedPart(s))
  {
    if s != [] {
      var p, a := s[..|s| - 1], s[|s| - 1];
      CarriedRules(b, c, p);
      CarryRules(b, c, a);
      RulingConcat(b, c, CarryAll(p), Carry(a));
      RulingConcat(b, c, NamedPart(p), if KeepsItsRights(a) then [a] else []);
    }
  }

  function ModeRuling(mode: bv32, k: Class, b: Bit): Ruling
    requires b in RWX_BITS
  {
    if ModeAllows(mode, k, RightOf(b)) then Granted else Refused
  }

  function ClassOfCaller(c: Caller): Class {
    if c.isOwner then OwnerClass else if c.isGroup then GroupClass else OtherClass
  }

  /** The law: for every list, mode and caller other than root, the rewritten list rules on a read, write
      or execute bit as the named entries of the source do, and as the mode does where these are
      silent. */
  lemma RewrittenRules(b: Bit, c: Caller, s: Acl, mode: bv32)
    requires !c.isRoot && b in RWX_BITS
    ensures RulingOn(b, c, Target(s, mode))
            == OrElse(RulingOn(b, c, NamedPart(s)), ModeRuling(mode, ClassOfCaller(c), b))
  {
    RulingConcat(b, c, CarryAll(s), ModeList(mode));
    CarriedRules(b, c, s);
    ModeListRules(mode, c, ClassOfCaller(c), b);
  }

  /** So a request is granted exactly when each bit is granted by the named entries or, where these are
      silent, by the mode; a refusal is EACCES. */
  lemma RewrittenListDecides(creds: Creds, q: Request, attrs: Attrs, s: Acl)
    requires creds.uid != 0 && q.v4mask - {Continue} <= RWX_BITS
    ensures var c, k := CallerOf(creds, attrs), ClassOf(creds, attrs);
            Evaluate(creds, q, attrs.(acl := Some(Target(s, attrs.mode)))).status
            == if forall b :: b in q.v4mask - {Continue} ==>
                    OrElse(RulingOn(b, c, NamedPart(s)), ModeRuling(attrs.mode, k, b)) == Granted
               then NoError else AccessError
  {
    var c, rewritten := CallerOf(creds, attrs), attrs.(acl := Some(Target(s, attrs.mode)));
    assert CallerOf(creds, rewritten) == c && ClassOfCaller(c) == ClassOf(creds, attrs);
    GrantedIffFirstMatchAllows(creds, q, rewritten);
    RefusalIsAccess(creds, q, rewritten);
    assert Needed(q.v4mask, c) == q.v4mask - {Continue};
    forall b | b in q.v4mask - {Continue}
      ensures RulingOn(b, c, Target(s, attrs.mode))
              == OrElse(RulingOn(b, c, NamedPart(s)), ModeRuling(attrs.mode, ClassOf(creds, attrs), b))
    {
      RewrittenRules(b, c, s, attrs.mode);
    }
  }

  /** Where the named entries of the source are silent the rewritten list decides as the mode does,
      whatever else the source said. */
  lemma RewrittenListDecidesAsTheMode(creds: Creds, q: Request, access: set<Rwx>, attrs: Attrs, s: Acl)
    requires creds.uid != 0 && Translates(access, q.v4mask)
    requires forall b :: b in RWX_BITS ==> RulingOn(b, CallerOf(creds, attrs), NamedPart(s)) == Silent
    ensures Evaluate(creds, q, attrs.(acl := Some(Target(s, attrs.mode)))).status == ByMode(creds, access, attrs).status
  {
    var rewritten := attrs.(acl := Some(Target(s, attrs.mode)));
    forall b | b in RWX_BITS
      ensures RulingOn(b, CallerOf(creds, rewritten), Target(s, attrs.mode))
              == ModeRuling(attrs.mode, ClassOf(creds, attrs), b)
    {
      RewrittenRules(b, CallerOf(creds, rewritten), s, attrs.mode);
    }
    RulingsGiveTheModeVerdict(creds, q, access, rewritten);
  }

  /** They are silent for a caller matched by no entry that names a user or a group. */
  lemma {:induction false} UnnamedCallerIsLeftToTheMode(b: Bit, c: Caller, s: Acl)
    requires !c.isRoot
    requires forall i :: 0 <= i < |s| && SpecialId !in s[i].iflags ==> !Matches(s[i], c)
    ensures RulingOn(b, c, NamedPart(s)) == Silent
  {
    if s != [] {
      var p, a := s[..|s| - 1], s[|s| - 1];
      UnnamedCallerIsLeftToTheMode(b, c, p);
      RulingConcat(b, c, NamedPart(p), if KeepsItsRights(a) then [a] else []);
      RulingOfOne(b, c, a);
    }
  }

  // ----- entries numbered 1, 2 or 3 -----

  lemma {:induction false} NamedPartConcat(s: Acl, t: Acl)
    ensures NamedPart(s + t) == NamedPart(s) + NamedPart(t)
    decreases |t|
  {
    if t == [] {
      assert s + t == s;
    } else {
      var n := |t| - 1;
      assert (s + t)[..|s + t| - 1] == s + t[..n];
      NamedPartConcat(s, t[..n]);
    }
  }

  /** An entry that rules on a bit, anywhere in any list with no named entry before it that does: it keeps
      ruling on it if the number it names is not 1, 2 or 3, and otherwise the rewritten list is as if the
      entry had not been there.  It may name a user or a group. */
  lemma NamedEntryKeptIffNotLowNumbered(b: Bit, c: Caller, before: Acl, a: Ace, after: Acl, mode: bv32)
    requires !c.isRoot && b in RWX_BITS && Mentions(a, c, b) && !IsModeGen(a)
    requires RulingOn(b, c, NamedPart(before)) == Silent
    ensures RulingOn(b, c, Target(before + [a] + after, mode))
            == if a.who in {SPECIAL_OWNER, SPECIAL_GROUP, SPECIAL_EVERYONE}
               then RulingOn(b, c, Target(before + after, mode))
               else if a.kind.Allow? then Granted else Refused
  {
    RewrittenRules(b, c, before + [a] + after, mode);
    RewrittenRules(b, c, before + after, mode);
    NamedPartConcat(before + [a], after);
    NamedPartConcat(before, [a]);
    NamedPartConcat(before, after);
    var named := NamedPart([a]);
    assert [a][..0] == [] && named == if KeepsItsRights(a) then [a] else [];
    RulingConcat(b, c, NamedPart(before) + named, NamedPart(after));
    RulingConcat(b, c, NamedPart(before), named);
    RulingConcat(b, c, NamedPart(before), NamedPart(after));
    RulingOfOne(b, c, a);
  }

  /** In particular, a user or a group allowed a right by the only entry has it after the rewriting
      exactly when its number is not 1, 2 or 3 or the mode gives the right anyway. */
  lemma NamedKeepsAccessIff(creds: Creds, b: Bit, a: Ace, attrs: Attrs)
    requires creds.uid != 0 && b in RWX_BITS && !IsModeGen(a)
    requires a.kind.Allow? && Mentions(a, CallerOf(creds, attrs), b)
    ensures Evaluate(creds, Request({b}, false, false, false), attrs.(acl := Some(Target([a], attrs.mode)))).status
            == NoError
            <==> || a.who !in {SPECIAL_OWNER, SPECIAL_GROUP, SPECIAL_EVERYONE}
                 || ModeAllows(attrs.mode, ClassOf(creds, attrs), RightOf(b))
  {
    var c := CallerOf(creds, attrs);
    RewrittenListDecides(creds, Request({b}, false, false, false), attrs, [a]);
    assert {b} - {Continue} == {b};
    assert [a][..0] == [] && NamedPart([a]) == if KeepsItsRights(a) then [a] else [];
    RulingOfOne(b, c, a);
  }

  // ----- the other permissions -----

  /** The source without its mode-generated entries. */
  function OwnPart(s: Acl): Acl {
    if s == [] then [] else OwnPart(s[..|s| - 1]) + if ModeGen !in s[|s| - 1].iflags then [s[|s| - 1]] else []
  }

  lemma CarryKeepsOtherRulings(b: Bit, c: Caller, a: Ace)
    requires b !in {ReadData, WriteData, AppendData, Execute} && ModeGen !in a.iflags
    ensures RulingOn(b, c, Carry(a)) == RulingOn(b, c, [a])
  {
    RulingOfOne(b, c, a);
    var l := Carry(a);
    if |l| == 1 {
      RulingOfOne(b, c, l[0]);
      assert l == [l[0]];
    } else {
      RulingConcat(b, c, [l[0]], [l[1]]);
      RulingOfOne(b, c, l[0]);
      RulingOfOne(b, c, l[1]);
      assert l == [l[0]] + [l[1]];
    }
  }

  lemma {:induction false} CarriedKeepsOtherRulings(b: Bit, c: Caller, s: Acl)
    requires b !in {ReadData, WriteData, AppendData, Execute}
    ensures RulingOn(b, c, CarryAll(s)) == RulingOn(b, c, OwnPart(s))
  {
    if s != [] {
      var p, a := s[..|s| - 1], s[|s| - 1];
      CarriedKeepsOtherRulings(b, c, p);
      if ModeGen !in a.iflags { CarryKeepsOtherRulings(b, c, a); }
      RulingConcat(b, c, CarryAll(p), Carry(a));
      RulingConcat(b, c, OwnPart(p), if ModeGen !in a.iflags then [a] else []);
    }
  }

  lemma {:induction false} SilentList(b: Bit, c: Caller, l: Acl)
    requires forall i :: 0 <= i < |l| ==> b !in l[i].perm
    ensures RulingOn(b, c, l) == Silent
  {
    if l != [] { SilentList(b, c, l[1..]); }
  }

  /** For every list, mode and caller, and every permission but the four the mode speaks of, the rewritten
      list rules as the source does without its mode-generated entries. */
  lemma OtherPermissionsAreKept(b: Bit, c: Caller, s: Acl, mode: bv32)
    requires b !in {ReadData, WriteData, AppendData, Execute}
    ensures RulingOn(b, c, Target(s, mode)) == RulingOn(b, c, OwnPart(s))
  {
    var l := ModeList(mode);
    assert forall k :: b !in PermsOf(mode, k);
    forall i | 0 <= i < |l| ensures b !in l[i].perm {
      assert l[i].perm <= RWX_BITS;
    }
    SilentList(b, c, l);
    RulingConcat(b, c, CarryAll(s), l);
    CarriedKeepsOtherRulings(b, c, s);
  }

  // ----- what children inherit -----

  /** What an entry passes on to children: everything but whether it applies to the object itself. */
  function PassedOn(a: Ace): Ace { a.(flags := a.flags - {InheritOnly}) }

  /** What a list passes on: the entries to be inherited by files or directories, in order. */
  function InheritedPart(s: Acl): Acl {
    if s == [] then []
    else InheritedPart(s[..|s| - 1])
         + if FileInherit in s[|s| - 1].flags || DirInherit in s[|s| - 1].flags then [PassedOn(s[|s| - 1])] else []
  }

  lemma {:induction false} InheritedConcat(s: Acl, t: Acl)
    ensures InheritedPart(s + t) == InheritedPart(s) + InheritedPart(t)
    decreases |t|
  {
    if t == [] {
      assert s + t == s;
    } else {
      var n := |t| - 1;
      assert (s + t)[..|s + t| - 1] == s + t[..n];
      InheritedConcat(s, t[..n]);
    }
  }

  lemma InheritedOne(a: Ace)
    ensures InheritedPart([a]) == if FileInherit in a.flags || DirInherit in a.flags then [PassedOn(a)] else []
  {
    assert [a][..0] == [];
  }

  lemma CarryPassesOn(a: Ace)
    requires ModeGen !in a.iflags
    ensures InheritedPart(Carry(a)) == InheritedPart([a])
  {
    InheritedOne(a);
    var l := Carry(a);
    if |l| == 1 {
      InheritedOne(l[0]);
      assert l == [l[0]];
    } else {
      InheritedConcat([l[0]], [l[1]]);
      InheritedOne(l[0]);
      InheritedOne(l[1]);
      assert l == [l[0]] + [l[1]];
      assert a.flags - {InheritOnly} == (a.flags + {InheritOnly}) - {InheritOnly};
    }
  }

  /** For every list and mode: the rewritten list passes on to children exactly what the source does
      without its mode-generated entries, in order: kind, permissions, who and flags. */
  lemma {:induction false} InheritanceIsKept(s: Acl, mode: bv32)
    ensures InheritedPart(Target(s, mode)) == InheritedPart(OwnPart(s))
  {
    CarriedPassOn(s);
    InheritedConcat(CarryAll(s), ModeList(mode));
    NothingInherited(ModeList(mode));
  }

  lemma {:induction false} CarriedPassOn(s: Acl)
    ensures InheritedPart(CarryAll(s)) == InheritedPart(OwnPart(s))
  {
    if s != [] {
      var p, a := s[..|s| - 1], s[|s| - 1];
      CarriedPassOn(p);
      InheritedConcat(CarryAll(p), Carry(a));
      InheritedConcat(OwnPart(p), if ModeGen !in a.iflags then [a] else []);
      if ModeGen !in a.iflags { CarryPassesOn(a); }
    }
  }

  lemma {:induction false} NothingInherited(l: Acl)
    requires forall i :: 0 <= i < |l| ==> FileInherit !in l[i].flags && DirInherit !in l[i].flags
    ensures InheritedPart(l) == []
  {
    if l != [] { NothingInherited(l[..|l| - 1]); }
  }

  // ----- entries that neither allow nor deny -----

  function AuditPart(s: Acl): Acl {
    if s == [] then []
    else AuditPart(s[..|s| - 1]) + if s[|s| - 1].kind == Audit || s[|s| - 1].kind == Alarm then [s[|s| - 1]] else []
  }

  lemma {:induction false} AuditConcat(s: Acl, t: Acl)
    ensures AuditPart(s + t) == AuditPart(s) + AuditPart(t)
    decreases |t|
  {
    if t == [] {
      assert s + t == s;
    } else {
      var n := |t| - 1;
      assert (s + t)[..|s + t| - 1] == s + t[..n];
      AuditConcat(s, t[..n]);
    }
  }

  lemma {:induction false} NoAudit(l: Acl)
    requires forall i :: 0 <= i < |l| ==> l[i].kind == Allow || l[i].kind == Deny
    ensures AuditPart(l) == []
  {
    if l != [] { NoAudit(l[..|l| - 1]); }
  }

  lemma {:induction false} CarriedAudit(s: Acl)
    ensures AuditPart(CarryAll(s)) == AuditPart(OwnPart(s))
  {
    if s != [] {
      var p, a := s[..|s| - 1], s[|s| - 1];
      CarriedAudit(p);
      AuditConcat(CarryAll(p), Carry(a));
      AuditConcat(OwnPart(p), if ModeGen !in a.iflags then [a] else []);
      if ModeGen !in a.iflags { CarryKeepsAudit(a); }
    }
  }

  lemma CarryKeepsAudit(a: Ace)
    requires ModeGen !in a.iflags
    ensures AuditPart(Carry(a)) == AuditPart([a])
  {
    if a.kind == Allow || a.kind == Deny {
      NoAudit(Carry(a));
      NoAudit([a]);
    }
  }

  /** Audit and alarm entries are all kept as they are, in order. */
  lemma AuditIsKept(s: Acl, mode: bv32)
    ensures AuditPart(Target(s, mode)) == AuditPart(OwnPart(s))
  {
    CarriedAudit(s);
    AuditConcat(CarryAll(s), ModeList(mode));
    NoAudit(ModeList(mode));
  }

  // ----- the next rewriting -----

  /** The compiled entries: a DENY and an ALLOW for each of owner, group and everyone, all marked as special
      and as generated from the mode, the group's with the group flag. */
  lemma CompiledEntries(mode: bv32, i: nat)
    requires i < 6
    ensures |ModeList(mode)| == 6
    ensures var a := ModeList(mode)[i];
            && a.kind == (if i % 2 == 0 then Deny else Allow) && a.who == i / 2 + 1
            && a.iflags == {ModeGen, SpecialId} && a.flags == (if i / 2 == 1 then {GroupId} else {})
  {
  }

  lemma {:induction false} OwnConcat(s: Acl, t: Acl)
    ensures OwnPart(s + t) == OwnPart(s) + OwnPart(t)
    decreases |t|
  {
    if t == [] {
      assert s + t == s;
    } else {
      var n := |t| - 1;
      assert (s + t)[..|s + t| - 1] == s + t[..n];
      OwnConcat(s, t[..n]);
    }
  }

  lemma {:induction false} OwnPartOf(l: Acl, generated: bool)
    requires forall i :: 0 <= i < |l| ==> (ModeGen in l[i].iflags <==> generated)
    ensures OwnPart(l) == if generated then [] else l
  {
    if l != [] { OwnPartOf(l[..|l| - 1], generated); }
  }

  lemma {:induction false} CarriedAreOwn(s: Acl)
    ensures forall i :: 0 <= i < |CarryAll(s)| ==> ModeGen !in CarryAll(s)[i].iflags
  {
    if s != [] { CarriedAreOwn(s[..|s| - 1]); }
  }

  /** Of the rewritten list the next rewriting takes the compiled entries for mode-generated and the carried
      ones for the list's own; so a second change of mode writes past the array exactly when the first
      list had an entry of its own. */
  lemma SecondRewriteOverrunsIff(s: Acl, mode: bv32)
    ensures OwnPart(Target(s, mode)) == CarryAll(s)
    ensures MixesGeneratedAndOwn(Target(s, mode)) <==> exists i :: 0 <= i < |s| && ModeGen !in s[i].iflags
  {
    CompiledAreGenerated(mode);
    CarriedAreOwn(s);
    OwnConcat(CarryAll(s), ModeList(mode));
    OwnPartOf(CarryAll(s), false);
    OwnPartOf(ModeList(mode), true);
    MixesIff(CarryAll(s), ModeList(mode));
    CarryAllEmpty(s);
  }

  lemma CompiledAreGenerated(mode: bv32)
    ensures ModeList(mode) != [] && forall i :: 0 <= i < |ModeList(mode)| ==> ModeGen in ModeList(mode)[i].iflags
  {
    CompiledEntries(mode, 0);
    forall i | 0 <= i < 6 ensures ModeGen in ModeList(mode)[i].iflags { CompiledEntries(mode, i); }
  }

  lemma MixesIff(own: Acl, generated: Acl)
    requires forall i :: 0 <= i < |own| ==> ModeGen !in own[i].iflags
    requires generated != [] && forall i :: 0 <= i < |generated| ==> ModeGen in generated[i].iflags
    ensures MixesGeneratedAndOwn(own + generated) <==> own != []
  {
    var l := own + generated;
    assert l[|own|] == generated[0] && IsModeGen(l[|own|]);
    if own != [] { assert l[0] == own[0] && !IsModeGen(l[0]); }
  }

  // ----- root -----

  lemma {:induction false} NamedAllowsExecute(c: Caller, s: Acl)
    ensures SomeEntryAllowsExecute(c, CarryAll(s)) <==> SomeEntryAllowsExecute(c, NamedPart(s))
  {
    if s != [] {
      var p, a := s[..|s| - 1], s[|s| - 1];
      NamedAllowsExecute(c, p);
      AllowsExecuteConcat(c, CarryAll(p), Carry(a));
      AllowsExecuteConcat(c, NamedPart(p), if KeepsItsRights(a) then [a] else []);
      CarriedAllowsExecute(c, a);
    }
  }

  lemma AllowsExecuteConcat(c: Caller, s: Acl, t: Acl)
    ensures SomeEntryAllowsExecute(c, s + t) <==> SomeEntryAllowsExecute(c, s) || SomeEntryAllowsExecute(c, t)
  {
    if i :| 0 <= i < |s| && Mentions(s[i], c, Execute) && s[i].kind.Allow? { assert (s + t)[i] == s[i]; }
    if i :| 0 <= i < |t| && Mentions(t[i], c, Execute) && t[i].kind.Allow? { assert (s + t)[|s| + i] == t[i]; }
    if i :| 0 <= i < |s + t| && Mentions((s + t)[i], c, Execute) && (s + t)[i].kind.Allow? {
      if i < |s| { assert s[i] == (s + t)[i]; } else { assert t[i - |s|] == (s + t)[i]; }
    }
  }

  lemma CarriedAllowsExecute(c: Caller, a: Ace)
    ensures SomeEntryAllowsExecute(c, Carry(a)) <==> KeepsItsRights(a) && SomeEntryAllowsExecute(c, [a])
  {
    var l := Carry(a);
    assert SomeEntryAllowsExecute(c, [a]) <==> Mentions(a, c, Execute) && a.kind.Allow? by {
      assert [a][0] == a;
    }
    if |l| == 2 {
      assert !Mentions(l[0], c, Execute);
      assert Mentions(l[1], c, Execute) <==> KeepsItsRights(a) && Mentions(a, c, Execute);
    } else if |l| == 1 {
      assert Mentions(l[0], c, Execute) <==> KeepsItsRights(a) && Mentions(a, c, Execute);
    }
  }

  /** Root is granted EXECUTE on a file exactly when some named entry, whoever it names, allows it or the
      mode gives it to some class; everything else always. */
  lemma RewrittenListForRoot(creds: Creds, q: Request, attrs: Attrs, s: Acl)
    requires creds.uid == 0
    ensures Evaluate(creds, q, attrs.(acl := Some(Target(s, attrs.mode)))).status == NoError <==>
            || attrs.isDir || Execute !in q.v4mask
            || AnyExecute(attrs.mode) || SomeEntryAllowsExecute(CallerOf(creds, attrs), NamedPart(s))
  {
    var c := CallerOf(creds, attrs);
    RootVerdict(creds, q, attrs.(acl := Some(Target(s, attrs.mode))));
    AllowsExecuteConcat(c, CarryAll(s), ModeList(attrs.mode));
    NamedAllowsExecute(c, s);
    RootOnModeList(attrs.mode, c);
  }
}
