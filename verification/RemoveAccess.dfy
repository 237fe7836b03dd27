/** May a caller remove an object from a directory (fsal_remove_access on top of
    fsal_test_access)?  The rule meant is "either DELETE on the object or DELETE_CHILD on the
    directory suffices"; what the code decides is stated and proved below. */
module RemoveAccess {
  import opened Basics
  import opened AclTypes
  import opened AccessCheck
  import opened FirstMatch
  import opened ExactOutcome
  import opened ModeAcl
  import opened ModeMeaning

  /** The dispatch between the two checks; no outputs are asked for here. */
  function TestAccess(creds: Creds, rights: set<Rwx>, perms: Mask, attrs: Attrs, rfcOnly: bool): Status {
    if Req in perms || attrs.acl.Some? then
      Evaluate(creds, Request(perms, false, false, rfcOnly), attrs).status
    else
      ByMode(creds, rights, attrs).status
  }

  function MayRemove(creds: Creds, dir: Attrs, victim: Attrs, victimIsDir: bool, rfcOnly: bool): Status {
    var search := TestAccess(creds, {X}, {Execute}, dir, rfcOnly);
    if search != NoError then search
    else
      var del := TestAccess(creds, {W}, {Delete, Req}, victim, rfcOnly);
      var child := TestAccess(creds, {W}, {DeleteChild, Req}, dir, rfcOnly);
      if child != NoError && del != NoError then
        if child != NoAceError then child
        else if del != NoAceError then del
        else TestAccess(creds, {W}, {if victimIsDir then AppendData else WriteData}, dir, rfcOnly)
      else
        NoError
  }

  /** What the object itself says about one right: its list if it has one, its mode if not. */
  ghost predicate Permits(creds: Creds, r: Rwx, b: Bit, attrs: Attrs) {
    var c := CallerOf(creds, attrs);
    if attrs.acl.Some? then
      if creds.uid == 0 then attrs.isDir || b != Execute || SomeEntryAllowsExecute(c, attrs.acl.value)
      else RulingOn(b, c, attrs.acl.value) == Granted
    else if creds.uid == 0 then r != X || attrs.isDir || AnyExecute(attrs.mode)
    else ModeAllows(attrs.mode, ClassOf(creds, attrs), r)
  }

  lemma TestPermits(creds: Creds, r: Rwx, b: Bit, attrs: Attrs, rfcOnly: bool)
    requires b in RWX_BITS
    ensures TestAccess(creds, {r}, {b}, attrs, rfcOnly) == if Permits(creds, r, b, attrs) then NoError else AccessError
  {
    var q, c := Request({b}, false, false, rfcOnly), CallerOf(creds, attrs);
    if attrs.acl.Some? {
      RefusalIsAccess(creds, q, attrs);
      if creds.uid == 0 {
        RootVerdict(creds, q, attrs);
      } else {
        GrantedIffFirstMatchAllows(creds, q, attrs);
        assert Needed({b}, c) == {b};
      }
    } else {
      assert X in {r} <==> r == X;
      assert r !in ByMode(creds, {r}, attrs).allowed ==> ByMode(creds, {r}, attrs).allowed != {r};
    }
  }

  /** What the object says about a permission asked with the REQ flag, which has to be found in the list
      as well. */
  ghost function RequiredRuling(creds: Creds, b: Bit, attrs: Attrs): Ruling {
    if attrs.acl.None? then Silent
    else if creds.uid == 0 then Granted
    else
      var c, l := CallerOf(creds, attrs), attrs.acl.value;
      if RulingOn(b, c, l) == Refused || RulingOn(Req, c, l) == Refused then Refused
      else if RulingOn(b, c, l) == Granted && RulingOn(Req, c, l) == Granted then Granted
      else Silent
  }

  /** The flagged test tells the three apart: success, a denial, NO_ACE. */
  lemma RequiredStatus(creds: Creds, b: Bit, attrs: Attrs, rights: set<Rwx>, rfcOnly: bool)
    requires b in {Delete, DeleteChild}
    ensures TestAccess(creds, rights, {b, Req}, attrs, rfcOnly)
            == match RequiredRuling(creds, b, attrs)
               case Granted => NoError
               case Refused => AccessError
               case Silent => NoAceError
  {
    var q, c := Request({b, Req}, false, false, rfcOnly), CallerOf(creds, attrs);
    if attrs.acl.Some? {
      var l := attrs.acl.value;
      if creds.uid == 0 {
        RootVerdict(creds, q, attrs);
      } else {
        assert Needed(q.v4mask, c) == {b, Req};
        StatusExactly(creds, q, attrs);
        if RequiredRuling(creds, b, attrs) == Refused {
          assert b in BitsRuled({b, Req}, Refused, c, l) || Req in BitsRuled({b, Req}, Refused, c, l);
          var i :| FirstDenial({b, Req}, c, l, i);
          assert HitAt({b, Req}, c, l, i) * EPERM_BITS == {};
        } else {
          assert BitsRuled({b, Req}, Refused, c, l) == {};
          var silent := BitsRuled({b, Req}, Silent, c, l);
          assert RequiredRuling(creds, b, attrs) == Silent ==> b in silent || Req in silent;
        }
      }
    }
  }

  /** What the code decides, for every caller and every pair of objects: the directory must permit
      EXECUTE; then either flagged permission granted is enough; and if neither says anything, ADD_FILE
      (or ADD_SUBDIRECTORY) on the directory.  Every refusal is EACCES. */
  lemma MayRemoveIff(creds: Creds, dir: Attrs, victim: Attrs, victimIsDir: bool, rfcOnly: bool)
    ensures MayRemove(creds, dir, victim, victimIsDir, rfcOnly) == NoError <==>
            && Permits(creds, X, Execute, dir)
            && (|| RequiredRuling(creds, DeleteChild, dir) == Granted
                || RequiredRuling(creds, Delete, victim) == Granted
                || (&& RequiredRuling(creds, DeleteChild, dir) == Silent
                    && RequiredRuling(creds, Delete, victim) == Silent
                    && Permits(creds, W, if victimIsDir then AppendData else WriteData, dir)))
    ensures MayRemove(creds, dir, victim, victimIsDir, rfcOnly) in {NoError, AccessError}
  {
    TestPermits(creds, X, Execute, dir, rfcOnly);
    RequiredStatus(creds, DeleteChild, dir, {W}, rfcOnly);
    RequiredStatus(creds, Delete, victim, {W}, rfcOnly);
    TestPermits(creds, W, if victimIsDir then AppendData else WriteData, dir, rfcOnly);
  }

  /** The rule meant is that DELETE or DELETE_CHILD suffices.  With both of them granted and EXECUTE
      permitted, the code lets a caller other than root remove the object exactly when one of the two
      lists grants the flag as well, or neither refuses it and ADD_FILE (or ADD_SUBDIRECTORY) is
      granted too. */
  lemma DeletePermissionsSufficeIff(creds: Creds, dir: Attrs, victim: Attrs, victimIsDir: bool, rfcOnly: bool)
    requires creds.uid != 0 && dir.acl.Some? && victim.acl.Some? && Permits(creds, X, Execute, dir)
    requires RulingOn(DeleteChild, CallerOf(creds, dir), dir.acl.value) == Granted
    requires RulingOn(Delete, CallerOf(creds, victim), victim.acl.value) == Granted
    ensures var onDir := RulingOn(Req, CallerOf(creds, dir), dir.acl.value);
            var onVictim := RulingOn(Req, CallerOf(creds, victim), victim.acl.value);
            MayRemove(creds, dir, victim, victimIsDir, rfcOnly) == NoError <==>
            || onDir == Granted || onVictim == Granted
            || (&& onDir == Silent && onVictim == Silent
                && Permits(creds, W, if victimIsDir then AppendData else WriteData, dir))
  {
    MayRemoveIff(creds, dir, victim, victimIsDir, rfcOnly);
  }

  /** So it does not hold: on lists of one entry each without the flag, both permissions granted, removal
      is refused to everybody but root unless ADD_FILE is granted too. */
  lemma DeletePermissionsDoNotSuffice(creds: Creds, onDir: Mask, onFile: Mask, rfcOnly: bool)
    requires creds.uid != 0 && {Execute, DeleteChild} <= onDir && Delete in onFile && Req !in onDir + onFile
    ensures var everyone := (perm: Mask) => Ace(Allow, perm, {}, {SpecialId}, SPECIAL_EVERYONE);
            var dir := Attrs(1, 1, true, 0, Some([everyone(onDir)]));
            var victim := Attrs(1, 1, false, 0, Some([everyone(onFile)]));
            && RulingOn(DeleteChild, CallerOf(creds, dir), dir.acl.value) == Granted
            && RulingOn(Delete, CallerOf(creds, victim), victim.acl.value) == Granted
            && (MayRemove(creds, dir, victim, false, rfcOnly) == NoError <==> WriteData in onDir)
  {
    var d := Ace(Allow, onDir, {}, {SpecialId}, SPECIAL_EVERYONE);
    var f := Ace(Allow, onFile, {}, {SpecialId}, SPECIAL_EVERYONE);
    var dir, victim := Attrs(1, 1, true, 0, Some([d])), Attrs(1, 1, false, 0, Some([f]));
    var cd, cf := CallerOf(creds, dir), CallerOf(creds, victim);
    assert Decides(d, cd) && Decides(f, cf) && [d][1..] == [] && [f][1..] == [];
    forall b ensures RulingOn(b, cd, [d]) == (if b in onDir then Granted else Silent) {
      assert RulingOn(b, cd, []) == Silent;
    }
    forall b ensures RulingOn(b, cf, [f]) == (if b in onFile then Granted else Silent) {
      assert RulingOn(b, cf, []) == Silent;
    }
    DeletePermissionsSufficeIff(creds, dir, victim, false, rfcOnly);
  }

  /** With the flag in an entry that grants DELETE, EXECUTE on the directory is all it takes. */
  lemma FlaggedEntrySuffices(creds: Creds, dir: Attrs, victim: Attrs, victimIsDir: bool, rfcOnly: bool)
    requires creds.uid != 0 && victim.acl.Some? && Permits(creds, X, Execute, dir)
    requires var c, l := CallerOf(creds, victim), victim.acl.value;
             RulingOn(Delete, c, l) == Granted && RulingOn(Req, c, l) == Granted
    ensures MayRemove(creds, dir, victim, victimIsDir, rfcOnly) == NoError
  {
    MayRemoveIff(creds, dir, victim, victimIsDir, rfcOnly);
  }
}
