/** Which entries concern which caller, and what a list then decides, written out from the numbers and
    flags of the entries: no notion of the evaluation appears in the statements. */
module WhoIsConcerned {
  import opened Basics
  import opened AclTypes
  import opened AccessCheck
  import opened FirstMatch
  import opened ExactOutcome

  /** An entry concerns a caller's access to an object: it is not for inheritance only, not excluded for
      the kind of object, and the caller is root, or is who it names: OWNER@ (1), GROUP@ (2), EVERYONE@
      (3), a group the caller is in, or the user. */
  predicate Concerns(a: Ace, creds: Creds, attrs: Attrs) {
    && InheritOnly !in a.flags
    && !(attrs.isDir && ExcludeDirs in a.iflags)
    && !(!attrs.isDir && ExcludeFiles in a.iflags)
    && (|| creds.uid == 0
        || (SpecialId in a.iflags && a.who == 1 && creds.uid == attrs.owner)
        || (SpecialId in a.iflags && a.who == 2 && (creds.gid == attrs.group || attrs.group in creds.groups))
        || (SpecialId in a.iflags && a.who == 3)
        || (SpecialId !in a.iflags && GroupId in a.flags && (creds.gid == a.who || a.who in creds.groups))
        || (SpecialId !in a.iflags && GroupId !in a.flags && creds.uid == a.who))
  }

  /** The entry rules on the bit for the caller. */
  predicate Speaks(a: Ace, creds: Creds, attrs: Attrs, b: Bit) {
    (a.kind == Allow || a.kind == Deny) && b in a.perm && Concerns(a, creds, attrs)
  }

  lemma MentionsIff(a: Ace, creds: Creds, attrs: Attrs, b: Bit)
    ensures Mentions(a, CallerOf(creds, attrs), b) <==> Speaks(a, creds, attrs, b)
  {
  }

  /** What is asked of the list: not CONTINUE, and not the four permissions an owner always has. */
  function Asked(v4mask: Mask, creds: Creds, attrs: Attrs): Mask {
    v4mask - {Continue} - (if creds.uid == attrs.owner then {ReadAcl, WriteAcl, ReadAttr, WriteAttr} else {})
  }

  ghost predicate AllowsFirst(aces: Acl, creds: Creds, attrs: Attrs, b: Bit, i: int) {
    && 0 <= i < |aces| && aces[i].kind == Allow && Speaks(aces[i], creds, attrs, b)
    && forall j :: 0 <= j < i ==> !Speaks(aces[j], creds, attrs, b)
  }

  /** For every list and every caller other than root: access is granted if and only if for each bit asked
      of the list the first entry that speaks of it allows it. */
  lemma GrantedIffAllowedFirst(creds: Creds, q: Request, attrs: Attrs)
    requires creds.uid != 0 && attrs.acl.Some?
    ensures Evaluate(creds, q, attrs).status == NoError <==>
            forall b :: b in Asked(q.v4mask, creds, attrs) ==>
              exists i :: AllowsFirst(attrs.acl.value, creds, attrs, b, i)
  {
    var c, l := CallerOf(creds, attrs), attrs.acl.value;
    GrantedIffFirstMatchAllows(creds, q, attrs);
    assert Needed(q.v4mask, c) == Asked(q.v4mask, creds, attrs);
    forall b ensures RulingOn(b, c, l) == Granted <==> exists i :: AllowsFirst(l, creds, attrs, b, i) {
      RulingIsTheFirst(b, c, l);
      forall i ensures FirstToMention(b, c, l, i) && l[i].kind.Allow? <==> AllowsFirst(l, creds, attrs, b, i) {
        forall j | 0 <= j < |l| ensures Mentions(l[j], c, b) <==> Speaks(l[j], creds, attrs, b) {
          MentionsIff(l[j], creds, attrs, b);
        }
      }
    }
  }

  /** Root on a file needs one entry that allows EXECUTE and concerns files, whoever it names. */
  lemma RootGrantedIff(creds: Creds, q: Request, attrs: Attrs)
    requires creds.uid == 0 && attrs.acl.Some?
    ensures Evaluate(creds, q, attrs).status == NoError <==>
            || attrs.isDir || Execute !in q.v4mask
            || exists i :: 0 <= i < |attrs.acl.value| && attrs.acl.value[i].kind == Allow
                           && Speaks(attrs.acl.value[i], creds, attrs, Execute)
  {
    var c, l := CallerOf(creds, attrs), attrs.acl.value;
    RootVerdict(creds, q, attrs);
    forall i | 0 <= i < |l| ensures Mentions(l[i], c, Execute) <==> Speaks(l[i], creds, attrs, Execute) {
      MentionsIff(l[i], creds, attrs, Execute);
    }
  }

  /** EPERM goes with three permissions, in the builds that know it. */
  function Refusal(hit: Mask, rfcOnly: bool): Status {
    if !rfcOnly && (WriteAttr in hit || WriteAcl in hit || WriteOwner in hit) then PermError else AccessError
  }

  lemma RefusalIs(hit: Mask, rfcOnly: bool)
    ensures DenialStatus(hit, rfcOnly) == Refusal(hit, rfcOnly)
  {
    assert WriteAttr in hit <==> WriteAttr in hit * EPERM_BITS;
    assert WriteAcl in hit <==> WriteAcl in hit * EPERM_BITS;
    assert WriteOwner in hit <==> WriteOwner in hit * EPERM_BITS;
  }

  /** The status on every list of one entry, for every caller other than root and every request. */
  lemma OneEntryStatus(creds: Creds, q: Request, attrs: Attrs, a: Ace)
    requires creds.uid != 0 && attrs.acl == Some([a])
    ensures var asked, concerned := Asked(q.v4mask, creds, attrs), Concerns(a, creds, attrs);
            var open := if concerned && (a.kind == Allow || a.kind == Deny) then asked - a.perm else asked;
            var refused := concerned && a.kind == Deny && asked * a.perm != {};
            Evaluate(creds, q, attrs).status
            == if refused && (!q.wantDenied || Continue !in q.v4mask) then Refusal(asked * a.perm, q.rfcOnly)
               else if open == {} && !refused then NoError
               else if open != {} && Req in q.v4mask then NoAceError
               else Refusal(open, q.rfcOnly)
  {
    var c, asked := CallerOf(creds, attrs), Asked(q.v4mask, creds, attrs);
    assert Needed(q.v4mask, c) == asked;
    assert Applicable(a, c) <==> Concerns(a, creds, attrs);
    OutcomeOfWalk(creds, q, attrs);
    if asked != {} {
      OneEntryWalk(q, c, a, asked, if q.wantAllowed then Granted0(q.v4mask, c) else {});
    }
    RefusalIs(asked * a.perm, q.rfcOnly);
    RefusalIs(asked - a.perm, q.rfcOnly);
    RefusalIs(asked, q.rfcOnly);
  }

  lemma OneEntryWalk(q: Request, c: Caller, a: Ace, asked: Mask, allowed: Mask)
    requires !c.isRoot && asked <= q.v4mask - {Continue}
    ensures var p := Scan(q, c, [a], asked, allowed, {});
            var refused := Decides(a, c) && a.kind.Deny? && asked * a.perm != {};
            if refused && Stops(q) then p.Stopped? && p.status == DenialStatus(asked * a.perm, q.rfcOnly)
            else && p.Reached? && p.missing == (if Decides(a, c) then asked - a.perm else asked)
                 && (p.denied != {} <==> refused) && (refused ==> q.wantDenied)
  {
    assert [a][1..] == [];
    assert a.perm - {} == a.perm && a.perm * asked == asked * a.perm;
    if Decides(a, c) && a.kind.Deny? {
      if b :| b in asked * a.perm {
        assert b in q.v4mask * a.perm;
      } else {
        assert asked * a.perm == {} && asked - a.perm == asked;
      }
    }
  }
}
