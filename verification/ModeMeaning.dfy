/** Compiling a mode into entries preserves its meaning: the access control list built by
    fsal_mode_gen_set and evaluated by fsal_check_access_acl decides what
    fsal_check_access_no_acl decides on the mode. */
module ModeMeaning {
  import opened Basics
  import opened AclTypes
  import opened AccessCheck
  import opened FirstMatch
  import opened ExactOutcome
  import opened ModeAcl

  function RightOf(b: Bit): Rwx
    requires b in RWX_BITS
  {
    match b
    case ReadData => R
    case WriteData => W
    case AppendData => W
    case _ => X
  }

  /** The request word asks for the same thing as the mode request: W stands for WRITE_DATA,
      APPEND_DATA or both; CONTINUE may be set, REQ may not. */
  ghost predicate Translates(access: set<Rwx>, v4mask: Mask) {
    && v4mask - {Continue} <= RWX_BITS
    && (R in access <==> ReadData in v4mask)
    && (W in access <==> WriteData in v4mask || AppendData in v4mask)
    && (X in access <==> Execute in v4mask)
  }

  lemma TranslatedBits(access: set<Rwx>, v4mask: Mask)
    requires Translates(access, v4mask)
    ensures forall b :: b in v4mask - {Continue} ==> b in RWX_BITS && RightOf(b) in access
    ensures forall r :: r in access ==> exists b :: b in v4mask - {Continue} && b in RWX_BITS && RightOf(b) == r
  {
    forall r | r in access ensures exists b :: b in v4mask - {Continue} && b in RWX_BITS && RightOf(b) == r {
      match r
      case R => assert ReadData in v4mask - {Continue} && RightOf(ReadData) == R;
      case W =>
        if WriteData in v4mask {
          assert WriteData in v4mask - {Continue} && RightOf(WriteData) == W;
        } else {
          assert AppendData in v4mask - {Continue} && RightOf(AppendData) == W;
        }
      case X => assert Execute in v4mask - {Continue} && RightOf(Execute) == X;
    }
  }

  function FirstOf(k: Class): nat {
    match k
    case OwnerClass => 0
    case GroupClass => 2
    case OtherClass => 4
  }

  lemma PermsOfAllows(mode: bv32, k: Class, b: Bit)
    requires b in RWX_BITS
    ensures b in PermsOf(mode, k) <==> ModeAllows(mode, k, RightOf(b))
  {
  }

  /** In the compiled list the pair of the caller's class is the first that applies. */
  lemma OwnPairIsFirst(mode: bv32, c: Caller, k: Class)
    requires !c.isRoot
    requires k == if c.isOwner then OwnerClass else if c.isGroup then GroupClass else OtherClass
    ensures forall i :: 0 <= i < FirstOf(k) ==> !Decides(ModeList(mode)[i], c)
    ensures Decides(ModeList(mode)[FirstOf(k)], c) && Decides(ModeList(mode)[FirstOf(k) + 1], c)
    ensures ModeList(mode)[FirstOf(k)].kind == Deny && ModeList(mode)[FirstOf(k)].perm == RWX_BITS - PermsOf(mode, k)
    ensures ModeList(mode)[FirstOf(k) + 1].kind == Allow && ModeList(mode)[FirstOf(k) + 1].perm == PermsOf(mode, k)
  {
    ModeListCells(mode);
  }

  lemma ModeListCells(mode: bv32)
    ensures forall k :: ModeList(mode)[FirstOf(k)] == DenyCell(ZERO_ACE, k, mode)
    ensures forall k :: ModeList(mode)[FirstOf(k) + 1] == AllowCell(ZERO_ACE, k, mode)
    ensures ModeList(mode)[0] == DenyCell(ZERO_ACE, OwnerClass, mode)
    ensures ModeList(mode)[1] == AllowCell(ZERO_ACE, OwnerClass, mode)
    ensures ModeList(mode)[2] == DenyCell(ZERO_ACE, GroupClass, mode)
    ensures ModeList(mode)[3] == AllowCell(ZERO_ACE, GroupClass, mode)
  {
  }

  lemma {:induction false} RulingSkips(b: Bit, c: Caller, aces: Acl, n: nat)
    requires n <= |aces| && forall i :: 0 <= i < n ==> !Mentions(aces[i], c, b)
    ensures RulingOn(b, c, aces) == RulingOn(b, c, aces[n..])
    decreases n
  {
    if n == 0 {
      assert aces[0..] == aces;
    } else {
      RulingSkips(b, c, aces[1..], n - 1);
      assert aces[1..][n - 1..] == aces[n..];
    }
  }

  lemma ModeListRules(mode: bv32, c: Caller, k: Class, b: Bit)
    requires !c.isRoot && b in RWX_BITS
    requires k == if c.isOwner then OwnerClass else if c.isGroup then GroupClass else OtherClass
    ensures RulingOn(b, c, ModeList(mode)) == if ModeAllows(mode, k, RightOf(b)) then Granted else Refused
  {
    var l, n := ModeList(mode), FirstOf(k);
    OwnPairIsFirst(mode, c, k);
    PermsOfAllows(mode, k, b);
    RulingSkips(b, c, l, n);
    assert l[n..][0] == l[n] && l[n..][1..] == l[n + 1..] && l[n + 1..][0] == l[n + 1];
  }

  /** When no bit asked for is one that yields EPERM and no ALLOW entry is demanded, a refusal is
      always EACCES. */
  lemma {:induction false} ScanRefusesWithAccess(q: Request, c: Caller, aces: Acl,
                                                 missing: Mask, allowed: Mask, denied: Mask)
    requires missing !! EPERM_BITS && Req !in q.v4mask
    ensures Conclude(q, Scan(q, c, aces, missing, allowed, denied)).status in {NoError, AccessError}
    decreases |aces|
  {
    if aces != [] {
      var a, rest := aces[0], aces[1..];
      if !Decides(a, c) {
        ScanRefusesWithAccess(q, c, rest, missing, allowed, denied);
      } else if a.kind.Allow? {
        var tperm := a.perm - denied;
        ScanRefusesWithAccess(q, c, rest, missing - tperm,
                              if q.wantAllowed then allowed + q.v4mask * tperm else allowed, denied);
      } else if a.perm * missing != {} && !c.isRoot {
        assert a.perm * missing * EPERM_BITS == {};
        ScanRefusesWithAccess(q, c, rest, missing - a.perm, allowed,
                              if q.wantDenied then denied + q.v4mask * a.perm else denied);
      } else {
        ScanRefusesWithAccess(q, c, rest, missing, allowed, denied);
      }
    } else {
      assert missing * EPERM_BITS == {};
    }
  }

  lemma RefusalIsAccess(creds: Creds, q: Request, attrs: Attrs)
    requires attrs.acl.Some? && q.v4mask - {Continue} <= RWX_BITS
    ensures Evaluate(creds, q, attrs).status in {NoError, AccessError}
  {
    var c := CallerOf(creds, attrs);
    assert Req !in q.v4mask - {Continue};
    assert Needed(q.v4mask, c) <= RWX_BITS;
    ScanRefusesWithAccess(q, c, attrs.acl.value, Needed(q.v4mask, c),
                          if q.wantAllowed then Granted0(q.v4mask, c) else {}, {});
  }

  lemma RootOnModeList(mode: bv32, c: Caller)
    requires c.isRoot
    ensures SomeEntryAllowsExecute(c, ModeList(mode)) <==> AnyExecute(mode)
  {
    var l := ModeList(mode);
    assert l[0] == DenyCell(ZERO_ACE, OwnerClass, mode) && l[1] == AllowCell(ZERO_ACE, OwnerClass, mode);
    assert l[2] == DenyCell(ZERO_ACE, GroupClass, mode) && l[3] == AllowCell(ZERO_ACE, GroupClass, mode);
    assert l[4] == DenyCell(ZERO_ACE, OtherClass, mode) && l[5] == AllowCell(ZERO_ACE, OtherClass, mode);
    PermsOfAllows(mode, OwnerClass, Execute);
    PermsOfAllows(mode, GroupClass, Execute);
    PermsOfAllows(mode, OtherClass, Execute);
    assert ModeAllows(mode, OwnerClass, X) <==> Mentions(l[1], c, Execute);
    assert ModeAllows(mode, GroupClass, X) <==> Mentions(l[3], c, Execute);
    assert ModeAllows(mode, OtherClass, X) <==> Mentions(l[5], c, Execute);
  }

  /** An access control list decides a translated request as the mode does, provided its rulings
      on the four bits follow the mode (and, for root, its EXECUTE entries do). */
  lemma RulingsGiveTheModeVerdict(creds: Creds, q: Request, access: set<Rwx>, attrs: Attrs)
    requires attrs.acl.Some? && Translates(access, q.v4mask)
    requires creds.uid == 0 ==>
               (SomeEntryAllowsExecute(CallerOf(creds, attrs), attrs.acl.value) <==> AnyExecute(attrs.mode))
    requires creds.uid != 0 ==>
               forall b :: b in RWX_BITS ==>
                 RulingOn(b, CallerOf(creds, attrs), attrs.acl.value)
                 == if ModeAllows(attrs.mode, ClassOf(creds, attrs), RightOf(b)) then Granted else Refused
    ensures Evaluate(creds, q, attrs).status == ByMode(creds, access, attrs).status
  {
    var c := CallerOf(creds, attrs);
    TranslatedBits(access, q.v4mask);
    RefusalIsAccess(creds, q, attrs);
    if creds.uid == 0 {
      RootVerdict(creds, q, attrs);
      assert X in access && access - {X} == access ==> false;
    } else {
      GrantedIffFirstMatchAllows(creds, q, attrs);
      var k := ClassOf(creds, attrs);
      var needed := Needed(q.v4mask, c);
      assert needed == q.v4mask - {Continue};
      var granted := ByMode(creds, access, attrs).allowed;
      if granted == access {
        forall b | b in needed ensures RulingOn(b, c, attrs.acl.value) == Granted {
          assert RightOf(b) in granted;
        }
      } else {
        var r :| r in access && r !in granted;
        var b :| b in q.v4mask - {Continue} && b in RWX_BITS && RightOf(b) == r;
        assert RulingOn(b, c, attrs.acl.value) == Refused;
      }
    }
  }

  /** Compiling preserves meaning: for every mode, owner, group, credential (root included), kind
      of object, request, choice of outputs and build option. */
  lemma CompiledModeDecidesAsTheMode(creds: Creds, q: Request, access: set<Rwx>, attrs: Attrs)
    requires Translates(access, q.v4mask)
    ensures Evaluate(creds, q, attrs.(acl := Some(ModeList(attrs.mode)))).status == ByMode(creds, access, attrs).status
  {
    var compiled := attrs.(acl := Some(ModeList(attrs.mode)));
    var c := CallerOf(creds, compiled);
    if creds.uid == 0 {
      RootOnModeList(attrs.mode, c);
    } else {
      forall b | b in RWX_BITS
        ensures RulingOn(b, c, ModeList(attrs.mode))
                == if ModeAllows(attrs.mode, ClassOf(creds, attrs), RightOf(b)) then Granted else Refused
      {
        ModeListRules(attrs.mode, c, ClassOf(creds, attrs), b);
      }
    }
    RulingsGiveTheModeVerdict(creds, q, access, compiled);
  }

  lemma {:induction false} ScanSkips(q: Request, c: Caller, aces: Acl, n: nat,
                                     missing: Mask, allowed: Mask, denied: Mask)
    requires n <= |aces| && forall i :: 0 <= i < n ==> !Decides(aces[i], c)
    ensures Scan(q, c, aces, missing, allowed, denied) == Scan(q, c, aces[n..], missing, allowed, denied)
    decreases n
  {
    if n == 0 {
      assert aces[0..] == aces;
    } else {
      ScanSkips(q, c, aces[1..], n - 1, missing, allowed, denied);
      assert aces[1..][n - 1..] == aces[n..];
    }
  }

  /** A DENY entry followed by an ALLOW entry that together cover the request settle it, at the first
      of them if the walk is one that stops there. */
  lemma ScanOfAPair(q: Request, c: Caller, aces: Acl, missing: Mask)
    requires !c.isRoot
    requires |aces| >= 2 && Decides(aces[0], c) && Decides(aces[1], c) && aces[0].kind.Deny? && aces[1].kind.Allow?
    requires missing != {} && missing <= aces[0].perm + aces[1].perm && aces[0].perm !! aces[1].perm
    requires missing == q.v4mask - {Continue} && Continue !in aces[0].perm + aces[1].perm
    ensures var p := Scan(q, c, aces, missing, {}, {});
            && p.denied == (if q.wantDenied then missing * aces[0].perm else {})
            && p.allowed == (if q.wantAllowed && !(Stops(q) && missing * aces[0].perm != {})
                             then missing * aces[1].perm else {})
  {
    var d, a := aces[0], aces[1];
    assert aces[1..][0] == a;
    assert q.v4mask * d.perm == missing * d.perm;
    assert {} + missing * d.perm == missing * d.perm;
    if d.perm * missing != {} {
      assert missing * d.perm != {};
      var left, denied := missing - d.perm, missing * d.perm;
      if !Stops(q) {
        if left == {} {
          assert missing * a.perm == {};
        } else {
          assert Scan(q, c, aces, missing, {}, {}) == Scan(q, c, aces[1..], left, {}, denied);
          assert left - (a.perm - denied) == {};
          assert q.v4mask * (a.perm - denied) == missing * a.perm;
          assert {} + missing * a.perm == missing * a.perm;
        }
      }
    } else {
      assert missing * d.perm == {};
      assert missing - (a.perm - {}) == {};
      assert q.v4mask * (a.perm - {}) == missing * a.perm;
      assert {} + missing * a.perm == missing * a.perm;
    }
  }

  /** The bits of a request whose right is in a set. */
  ghost function BitsWith(v4mask: Mask, rights: set<Rwx>): Mask {
    set b | b in v4mask && b in RWX_BITS && RightOf(b) in rights
  }

  lemma BitsByMode(creds: Creds, v4mask: Mask, access: set<Rwx>, attrs: Attrs)
    requires creds.uid != 0 && Translates(access, v4mask)
    ensures var perms := PermsOf(attrs.mode, ClassOf(creds, attrs));
            && (v4mask - {Continue}) * perms == BitsWith(v4mask, ByMode(creds, access, attrs).allowed)
            && (v4mask - {Continue}) * (RWX_BITS - perms) == BitsWith(v4mask, ByMode(creds, access, attrs).denied)
  {
    var k := ClassOf(creds, attrs);
    TranslatedBits(access, v4mask);
    forall b | b in RWX_BITS ensures b in PermsOf(attrs.mode, k) <==> ModeAllows(attrs.mode, k, RightOf(b)) {
      PermsOfAllows(attrs.mode, k, b);
    }
  }

  /** A list whose first deciding entries are a DENY and an ALLOW that share out the request. */
  lemma PairSettles(creds: Creds, q: Request, attrs: Attrs, n: nat)
    requires creds.uid != 0 && q.v4mask - {Continue} <= RWX_BITS
    requires attrs.acl.Some? && n + 1 < |attrs.acl.value|
    requires var l, c := attrs.acl.value, CallerOf(creds, attrs);
             && (forall i :: 0 <= i < n ==> !Decides(l[i], c))
             && Decides(l[n], c) && Decides(l[n + 1], c) && l[n].kind.Deny? && l[n + 1].kind.Allow?
             && l[n].perm + l[n + 1].perm == RWX_BITS && l[n].perm !! l[n + 1].perm
    ensures var o, l, asked := Evaluate(creds, q, attrs), attrs.acl.value, q.v4mask - {Continue};
            && o.denied == (if q.wantDenied then asked * l[n].perm else {})
            && o.allowed == (if q.wantAllowed && !(Stops(q) && asked * l[n].perm != {})
                             then asked * l[n + 1].perm else {})
  {
    var l, c := attrs.acl.value, CallerOf(creds, attrs);
    var asked := q.v4mask - {Continue};
    assert Needed(q.v4mask, c) == asked;
    assert Granted0(q.v4mask, c) == {};
    if asked != {} {
      ScanSkips(q, c, l, n, asked, {}, {});
      assert l[n..][0] == l[n] && l[n..][1] == l[n + 1];
      ScanOfAPair(q, c, l[n..], asked);
    }
  }

  /** The outputs for every caller but root, bit by bit.  What is denied always agrees.  What is allowed
      agrees, except that a walk that stops at a refusal reports nothing allowed. */
  lemma CompiledModeReportsAsTheMode(creds: Creds, q: Request, access: set<Rwx>, attrs: Attrs)
    requires creds.uid != 0 && Translates(access, q.v4mask)
    ensures var o, m := Evaluate(creds, q, attrs.(acl := Some(ModeList(attrs.mode)))), ByMode(creds, access, attrs);
            && o.denied == (if q.wantDenied then BitsWith(q.v4mask, m.denied) else {})
            && o.allowed == (if q.wantAllowed && !(Stops(q) && m.denied != {})
                             then BitsWith(q.v4mask, m.allowed) else {})
  {
    var compiled := attrs.(acl := Some(ModeList(attrs.mode)));
    var k, m := ClassOf(creds, attrs), ByMode(creds, access, attrs);
    BitsByMode(creds, q.v4mask, access, attrs);
    OwnPairIsFirst(attrs.mode, CallerOf(creds, compiled), k);
    assert PermsOf(attrs.mode, k) <= RWX_BITS;
    PairSettles(creds, q, compiled, FirstOf(k));
    SomeBitDenied(q.v4mask, access, m.denied);
  }

  lemma SomeBitDenied(v4mask: Mask, access: set<Rwx>, rights: set<Rwx>)
    requires Translates(access, v4mask) && rights <= access
    ensures BitsWith(v4mask, rights) == {} <==> rights == {}
  {
    TranslatedBits(access, v4mask);
    if r :| r in rights {
      var b :| b in v4mask - {Continue} && b in RWX_BITS && RightOf(b) == r;
      assert b in BitsWith(v4mask, rights);
    }
  }

  // ----- the outputs for root -----

  /** Root's walk adds to what it starts from nothing but EXECUTE, and that when an entry allows it. */
  lemma {:induction false} ScanForRootAllows(q: Request, c: Caller, aces: Acl, allowed: Mask)
    requires c.isRoot && q.wantAllowed && Execute in q.v4mask && allowed == q.v4mask - {Execute}
    ensures Scan(q, c, aces, {Execute}, allowed, {}).allowed
            == if SomeEntryAllowsExecute(c, aces) then q.v4mask else allowed
    decreases |aces|
  {
    if aces != [] {
      var a, rest := aces[0], aces[1..];
      assert a.perm - {} == a.perm;
      if Mentions(a, c, Execute) && a.kind.Allow? {
        assert {Execute} - a.perm == {};
        assert allowed + q.v4mask * a.perm == q.v4mask;
      } else {
        if Decides(a, c) && a.kind.Allow? {
          assert {Execute} - a.perm == {Execute};
          assert allowed + q.v4mask * a.perm == allowed;
        }
        ScanForRootAllows(q, c, rest, allowed);
        assert SomeEntryAllowsExecute(c, aces) <==> SomeEntryAllowsExecute(c, rest) by {
          if i :| 0 <= i < |rest| && Mentions(rest[i], c, Execute) && rest[i].kind.Allow? {
            assert aces[i + 1] == rest[i];
          }
          if i :| 0 <= i < |aces| && Mentions(aces[i], c, Execute) && aces[i].kind.Allow? {
            assert rest[i - 1] == aces[i];
          }
        }
      }
    }
  }

  /** What the evaluation reports to root, for any list. */
  lemma RootOutputs(creds: Creds, q: Request, attrs: Attrs)
    requires creds.uid == 0 && attrs.acl.Some? && q.v4mask - {Continue} <= RWX_BITS
    ensures var o := Evaluate(creds, q, attrs);
            var refused := !attrs.isDir && Execute in q.v4mask
                           && !SomeEntryAllowsExecute(CallerOf(creds, attrs), attrs.acl.value);
            && o.denied == {}
            && o.allowed - {Continue} == (if !q.wantAllowed then {}
                                          else q.v4mask - {Continue} - if refused then {Execute} else {})
  {
    var c := CallerOf(creds, attrs);
    RootVerdict(creds, q, attrs);
    if !attrs.isDir && Execute in q.v4mask {
      assert Execute in q.v4mask - {Continue} && Needed(q.v4mask, c) == {Execute};
      assert Granted0(q.v4mask, c) == q.v4mask - {Execute};
      if q.wantAllowed {
        ScanForRootAllows(q, c, attrs.acl.value, q.v4mask - {Execute});
      } else {
        NothingAllowed(q, c, attrs.acl.value);
      }
    }
  }

  lemma {:induction false} NothingAllowed(q: Request, c: Caller, aces: Acl)
    requires c.isRoot && !q.wantAllowed
    ensures Scan(q, c, aces, {Execute}, {}, {}).allowed == {}
    decreases |aces|
  {
    if aces != [] {
      assert Execute !in aces[0].perm ==> {Execute} - (aces[0].perm - {}) == {Execute};
      assert Execute in aces[0].perm ==> {Execute} - (aces[0].perm - {}) == {};
      NothingAllowed(q, c, aces[1..]);
    }
  }

  /** For root what is allowed always agrees, up to the CONTINUE flag.  What is denied agrees exactly
      when EXECUTE is not refused: the mode check reports it denied, the evaluation reports nothing. */
  lemma RootOutputsAgreeIff(creds: Creds, q: Request, access: set<Rwx>, attrs: Attrs)
    requires creds.uid == 0 && Translates(access, q.v4mask)
    ensures var o, m := Evaluate(creds, q, attrs.(acl := Some(ModeList(attrs.mode)))), ByMode(creds, access, attrs);
            && o.allowed - {Continue} == (if q.wantAllowed then BitsWith(q.v4mask, m.allowed) else {})
            && (o.denied == BitsWith(q.v4mask, m.denied) <==> attrs.isDir || X !in access || AnyExecute(attrs.mode))
  {
    var compiled := attrs.(acl := Some(ModeList(attrs.mode)));
    var m := ByMode(creds, access, attrs);
    RootOutputs(creds, q, compiled);
    RootOnModeList(attrs.mode, CallerOf(creds, compiled));
    AllTheBits(q.v4mask, access);
    SomeBitDenied(q.v4mask, access, m.denied);
    assert X in access ==> access - {X} != access;
  }

  lemma AllTheBits(v4mask: Mask, access: set<Rwx>)
    requires Translates(access, v4mask)
    ensures BitsWith(v4mask, access) == v4mask - {Continue}
    ensures BitsWith(v4mask, access - {X}) == v4mask - {Continue} - {Execute}
  {
    TranslatedBits(access, v4mask);
  }
}
