/** What an access control list means, stated bit by bit and without the server's loop:
    the first applicable ALLOW or DENY entry that mentions a bit rules on it
    (section 6.2.1 of RFC 7530).  The evaluation is proved to decide exactly that. */
module FirstMatch {
  import opened Basics
  import opened AclTypes
  import opened AccessCheck

  datatype Ruling = Granted | Refused | Silent

  predicate Mentions(a: Ace, c: Caller, b: Bit) {
    Decides(a, c) && b in a.perm
  }

  function RulingOn(b: Bit, c: Caller, aces: Acl): Ruling {
    if aces == [] then Silent
    else if Mentions(aces[0], c, b) then (if aces[0].kind.Allow? then Granted else Refused)
    else RulingOn(b, c, aces[1..])
  }

  ghost predicate FirstToMention(b: Bit, c: Caller, aces: Acl, i: int) {
    0 <= i < |aces| && Mentions(aces[i], c, b) && forall j :: 0 <= j < i ==> !Mentions(aces[j], c, b)
  }

  /** The ruling is that of the first entry mentioning the bit, and there is none exactly when
      no entry mentions it. */
  lemma {:induction false} RulingIsTheFirst(b: Bit, c: Caller, aces: Acl)
    ensures RulingOn(b, c, aces) == Granted <==> exists i :: FirstToMention(b, c, aces, i) && aces[i].kind.Allow?
    ensures RulingOn(b, c, aces) == Refused <==> exists i :: FirstToMention(b, c, aces, i) && aces[i].kind.Deny?
    ensures RulingOn(b, c, aces) == Silent <==> forall i :: 0 <= i < |aces| ==> !Mentions(aces[i], c, b)
  {
    if aces != [] {
      var rest := aces[1..];
      RulingIsTheFirst(b, c, rest);
      if Mentions(aces[0], c, b) {
        assert FirstToMention(b, c, aces, 0);
      } else {
        forall i | FirstToMention(b, c, aces, i)
          ensures i > 0 && FirstToMention(b, c, rest, i - 1) && aces[i] == rest[i - 1]
        {
          forall j | 0 <= j < i - 1
            ensures !Mentions(rest[j], c, b)
          {
            assert rest[j] == aces[j + 1];
          }
        }
        forall i | FirstToMention(b, c, rest, i)
          ensures FirstToMention(b, c, aces, i + 1) && aces[i + 1] == rest[i]
        {
          forall j | 0 <= j < i + 1
            ensures !Mentions(aces[j], c, b)
          {
            if j > 0 { assert aces[j] == rest[j - 1]; }
          }
        }
        forall i | 0 <= i < |rest|
          ensures rest[i] == aces[i + 1]
        {
        }
        if RulingOn(b, c, aces) == Silent {
          forall i | 0 <= i < |aces| ensures !Mentions(aces[i], c, b) {
            if i > 0 { assert aces[i] == rest[i - 1]; }
          }
        }
      }
    }
  }

  ghost predicate Accepts(q: Request, p: Progress) {
    Conclude(q, p).status == NoError
  }

  /** One walk over the entries, from any point of it, for a caller other than root. */
  lemma {:induction false} ScanGrants(q: Request, c: Caller, aces: Acl, missing: Mask, allowed: Mask, denied: Mask)
    requires !c.isRoot
    requires missing <= q.v4mask - {Continue}
    requires missing !! denied
    requires !q.wantDenied ==> denied == {}
    ensures Accepts(q, Scan(q, c, aces, missing, allowed, denied))
            <==> denied == {} && forall b :: b in missing ==> RulingOn(b, c, aces) == Granted
    decreases |aces|
  {
    if aces == [] {
      assert missing != {} ==> exists b :: b in missing;
    } else {
      var a, rest := aces[0], aces[1..];
      if !Decides(a, c) {
        ScanGrants(q, c, rest, missing, allowed, denied);
      } else if a.kind.Allow? {
        var tperm := a.perm - denied;
        var allowed' := if q.wantAllowed then allowed + q.v4mask * tperm else allowed;
        assert missing - tperm == missing - a.perm;
        if missing - tperm == {} {
          forall b | b in missing ensures RulingOn(b, c, aces) == Granted {
            assert b !in missing - tperm;
          }
        } else {
          ScanGrants(q, c, rest, missing - tperm, allowed', denied);
          forall b | b in missing
            ensures RulingOn(b, c, aces) == Granted <==> b !in missing - tperm || RulingOn(b, c, rest) == Granted
          {
          }
        }
      } else if a.perm * missing != {} {
        var hit :| hit in a.perm * missing;
        assert RulingOn(hit, c, aces) == Refused;
        var denied' := if q.wantDenied then denied + q.v4mask * a.perm else denied;
        assert q.wantDenied ==> hit in denied';
        if q.wantDenied && Continue in q.v4mask && missing - a.perm != {} {
          ScanGrants(q, c, rest, missing - a.perm, allowed, denied');
        }
      } else {
        ScanGrants(q, c, rest, missing, allowed, denied);
        forall b | b in missing ensures RulingOn(b, c, aces) == RulingOn(b, c, rest) {
          assert b !in a.perm * missing;
        }
      }
    }
  }

  /** The central law: a caller other than root is granted access exactly when every bit that
      has to come from the list is ruled GRANTED by the first entry mentioning it. */
  lemma GrantedIffFirstMatchAllows(creds: Creds, q: Request, attrs: Attrs)
    requires creds.uid != 0 && attrs.acl.Some?
    ensures Evaluate(creds, q, attrs).status == NoError
            <==> forall b :: b in Needed(q.v4mask, CallerOf(creds, attrs)) ==>
                   RulingOn(b, CallerOf(creds, attrs), attrs.acl.value) == Granted
  {
    var c := CallerOf(creds, attrs);
    ScanGrants(q, c, attrs.acl.value, Needed(q.v4mask, c),
               if q.wantAllowed then Granted0(q.v4mask, c) else {}, {});
  }

  /** Root on a file: only EXECUTE is looked up, DENY entries do not count, and one applicable
      ALLOW entry anywhere in the list is enough. */
  lemma {:induction false} ScanForRoot(q: Request, c: Caller, aces: Acl, allowed: Mask)
    requires c.isRoot
    ensures Scan(q, c, aces, {Execute}, allowed, {}).Reached?
    ensures Scan(q, c, aces, {Execute}, allowed, {}).denied == {}
    ensures Scan(q, c, aces, {Execute}, allowed, {}).missing
            == if exists i :: 0 <= i < |aces| && Mentions(aces[i], c, Execute) && aces[i].kind.Allow?
               then {} else {Execute}
    decreases |aces|
  {
    if aces != [] {
      var a, rest := aces[0], aces[1..];
      var allowed' := if q.wantAllowed then allowed + q.v4mask * (a.perm - {}) else allowed;
      if Mentions(a, c, Execute) && a.kind.Allow? {
        assert {Execute} - (a.perm - {}) == {};
      } else {
        assert {Execute} - (a.perm - {}) == {Execute} || (a.kind.Deny? || !Decides(a, c));
        ScanForRoot(q, c, rest, if Decides(a, c) && a.kind.Allow? then allowed' else allowed);
        if i :| 0 <= i < |rest| && Mentions(rest[i], c, Execute) && rest[i].kind.Allow? {
          assert aces[i + 1] == rest[i];
        }
        if i :| 0 <= i < |aces| && Mentions(aces[i], c, Execute) && aces[i].kind.Allow? {
          assert rest[i - 1] == aces[i];
        }
      }
    }
  }

  ghost predicate SomeEntryAllowsExecute(c: Caller, aces: Acl) {
    exists i :: 0 <= i < |aces| && Mentions(aces[i], c, Execute) && aces[i].kind.Allow?
  }

  lemma RootVerdict(creds: Creds, q: Request, attrs: Attrs)
    requires creds.uid == 0 && attrs.acl.Some?
    ensures Evaluate(creds, q, attrs).status == NoError
            <==> attrs.isDir || Execute !in q.v4mask
                 || SomeEntryAllowsExecute(CallerOf(creds, attrs), attrs.acl.value)
    ensures Evaluate(creds, q, attrs).denied == {}
    ensures Evaluate(creds, q, attrs).status !in {NoError, NoAceError} ==>
              Evaluate(creds, q, attrs).status == AccessError
    ensures Evaluate(creds, q, attrs).status == NoAceError ==> Req in q.v4mask
  {
    var c := CallerOf(creds, attrs);
    if !attrs.isDir && Execute in q.v4mask {
      assert Execute in q.v4mask - {Continue};
      assert Needed(q.v4mask, c) == {Execute};
      ScanForRoot(q, c, attrs.acl.value, if q.wantAllowed then Granted0(q.v4mask, c) else {});
    }
  }

  /** The grant-or-refuse verdict does not depend on which outputs were passed, on CONTINUE,
      or on the build option; only the error code may. */
  lemma VerdictIgnoresOutputsAndContinue(creds: Creds, q: Request, q': Request, attrs: Attrs)
    requires q.v4mask - {Continue} == q'.v4mask - {Continue}
    ensures Evaluate(creds, q, attrs).status == NoError <==> Evaluate(creds, q', attrs).status == NoError
  {
    var c := CallerOf(creds, attrs);
    assert Execute in q.v4mask - {Continue} <==> Execute in q.v4mask;
    assert Execute in q'.v4mask - {Continue} <==> Execute in q'.v4mask;
    if attrs.acl.Some? {
      if creds.uid == 0 {
        RootVerdict(creds, q, attrs);
        RootVerdict(creds, q', attrs);
      } else {
        GrantedIffFirstMatchAllows(creds, q, attrs);
        GrantedIffFirstMatchAllows(creds, q', attrs);
      }
    }
  }

  ghost function BitsRuled(s: Mask, r: Ruling, c: Caller, aces: Acl): Mask {
    set b | b in s && RulingOn(b, c, aces) == r
  }

  /** An entry that says nothing about the bits of `s` leaves their rulings to the rest. */
  lemma SameRulings(s: Mask, c: Caller, aces: Acl)
    requires aces != [] && (!Decides(aces[0], c) || aces[0].perm * s == {})
    ensures forall r :: BitsRuled(s, r, c, aces) == BitsRuled(s, r, c, aces[1..])
  {
    forall b | b in s ensures !Mentions(aces[0], c, b) {
      assert Decides(aces[0], c) ==> b !in aces[0].perm * s;
    }
    forall r ensures BitsRuled(s, r, c, aces) == BitsRuled(s, r, c, aces[1..]) {
    }
  }

  /** A deciding entry rules on the bits it holds and leaves the others to the rest. */
  lemma SplitRulings(s: Mask, c: Caller, aces: Acl)
    requires aces != [] && Decides(aces[0], c)
    ensures forall r :: BitsRuled(s, r, c, aces)
                        == BitsRuled(s - aces[0].perm, r, c, aces[1..])
                           + (if r == (if aces[0].kind.Allow? then Granted else Refused) then s * aces[0].perm else {})
    ensures forall r :: BitsRuled({}, r, c, aces[1..]) == {}
  {
  }
}
