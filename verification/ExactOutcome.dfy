/** Exactly what an evaluation answers, for a caller other than root: the error code, the bits
    reported allowed and the bits reported denied, in terms of which entry is the first to mention
    each bit.  Then the REQ flag. */
module ExactOutcome {
  import opened Basics
  import opened AclTypes
  import opened AccessCheck
  import opened FirstMatch

  // ----- entries that refuse something -----

  /** The bits of m that entry i is the first to mention. */
  ghost function HitAt(m: Mask, c: Caller, aces: Acl, i: int): Mask {
    set b | b in m && FirstToMention(b, c, aces, i)
  }

  /** Entry i refuses a bit of m that nobody before it mentioned. */
  ghost predicate DeniesSome(m: Mask, c: Caller, aces: Acl, i: int) {
    0 <= i < |aces| && aces[i].kind.Deny? && HitAt(m, c, aces, i) != {}
  }

  ghost predicate FirstDenial(m: Mask, c: Caller, aces: Acl, i: int) {
    DeniesSome(m, c, aces, i) && forall j :: 0 <= j < i ==> !DeniesSome(m, c, aces, j)
  }

  /** The requested bits of the entries that refuse something. */
  ghost function DeniedBy(v4mask: Mask, m: Mask, c: Caller, aces: Acl): Mask {
    set b | b in v4mask && exists i :: DeniesSome(m, c, aces, i) && b in aces[i].perm
  }

  /** What an entry leaves to the entries after it. */
  function Left(m: Mask, a: Ace, c: Caller): Mask {
    if Decides(a, c) then m - a.perm else m
  }

  lemma HitShift(m: Mask, c: Caller, aces: Acl, i: int)
    requires aces != [] && i > 0
    ensures HitAt(m, c, aces, i) == HitAt(Left(m, aces[0], c), c, aces[1..], i - 1)
  {
    var rest := aces[1..];
    forall b ensures FirstToMention(b, c, aces, i) <==>
                     !Mentions(aces[0], c, b) && FirstToMention(b, c, rest, i - 1) {
      if FirstToMention(b, c, aces, i) {
        forall j | 0 <= j < i - 1 ensures !Mentions(rest[j], c, b) {
          assert rest[j] == aces[j + 1];
        }
      }
      if !Mentions(aces[0], c, b) && FirstToMention(b, c, rest, i - 1) {
        forall j | 0 <= j < i ensures !Mentions(aces[j], c, b) {
          if j > 0 { assert aces[j] == rest[j - 1]; }
        }
      }
    }
  }

  lemma HitHead(m: Mask, c: Caller, aces: Acl)
    requires aces != []
    ensures HitAt(m, c, aces, 0) == if Decides(aces[0], c) then m * aces[0].perm else {}
  {
  }

  lemma DenialShift(m: Mask, c: Caller, aces: Acl, i: int)
    requires aces != [] && i > 0
    ensures DeniesSome(m, c, aces, i) <==> DeniesSome(Left(m, aces[0], c), c, aces[1..], i - 1)
  {
    HitShift(m, c, aces, i);
  }

  lemma DeniedStep(v4mask: Mask, m: Mask, c: Caller, aces: Acl)
    requires aces != []
    ensures DeniedBy(v4mask, m, c, aces)
            == DeniedBy(v4mask, Left(m, aces[0], c), c, aces[1..])
               + (if DeniesSome(m, c, aces, 0) then v4mask * aces[0].perm else {})
  {
    var m', rest := Left(m, aces[0], c), aces[1..];
    forall i | DeniesSome(m, c, aces, i) && i > 0 ensures DeniesSome(m', c, rest, i - 1) && rest[i - 1] == aces[i] {
      DenialShift(m, c, aces, i);
    }
    forall i | DeniesSome(m', c, rest, i) ensures DeniesSome(m, c, aces, i + 1) && rest[i] == aces[i + 1] {
      DenialShift(m, c, aces, i + 1);
    }
  }

  lemma {:induction false} LeastDenial(m: Mask, c: Caller, aces: Acl, i: int)
    requires DeniesSome(m, c, aces, i)
    ensures exists j :: FirstDenial(m, c, aces, j)
    decreases i
  {
    if j :| 0 <= j < i && DeniesSome(m, c, aces, j) {
      LeastDenial(m, c, aces, j);
    } else {
      assert FirstDenial(m, c, aces, i);
    }
  }

  lemma DenialIffRefused(m: Mask, c: Caller, aces: Acl)
    ensures (exists i :: FirstDenial(m, c, aces, i)) <==> BitsRuled(m, Refused, c, aces) != {}
  {
    if b :| b in BitsRuled(m, Refused, c, aces) {
      RulingIsTheFirst(b, c, aces);
      var i :| FirstToMention(b, c, aces, i) && aces[i].kind.Deny?;
      assert b in HitAt(m, c, aces, i);
      LeastDenial(m, c, aces, i);
    }
    if i :| FirstDenial(m, c, aces, i) {
      var b :| b in HitAt(m, c, aces, i);
      RulingIsTheFirst(b, c, aces);
      assert b in BitsRuled(m, Refused, c, aces);
    }
  }

  // ----- the walk -----

  /** Does the walk stop at the first entry that refuses something? */
  predicate Stops(q: Request) { !q.wantDenied || Continue !in q.v4mask }

  lemma {:induction false} ScanStopsAt(q: Request, c: Caller, aces: Acl, missing: Mask, allowed: Mask, i: int)
    requires !c.isRoot && Stops(q) && FirstDenial(missing, c, aces, i)
    ensures var p := Scan(q, c, aces, missing, allowed, {});
            && p.Stopped? && p.status == DenialStatus(HitAt(missing, c, aces, i), q.rfcOnly)
            && p.denied == if q.wantDenied then q.v4mask * aces[i].perm else {}
    decreases |aces|
  {
    var a, rest := aces[0], aces[1..];
    HitHead(missing, c, aces);
    if i == 0 {
      assert a.perm * missing == HitAt(missing, c, aces, 0);
      assert {} + q.v4mask * a.perm == q.v4mask * a.perm;
    } else {
      var left := Left(missing, a, c);
      assert !DeniesSome(missing, c, aces, 0);
      HitShift(missing, c, aces, i);
      assert left != {};
      forall j | 0 <= j < i - 1 ensures !DeniesSome(left, c, rest, j) {
        DenialShift(missing, c, aces, j + 1);
      }
      assert FirstDenial(left, c, rest, i - 1);
      assert a.perm - {} == a.perm;
      assert a.kind.Deny? && Decides(a, c) ==> left == missing;
      ScanStopsAt(q, c, rest, left,
                  if Decides(a, c) && a.kind.Allow? && q.wantAllowed then allowed + q.v4mask * a.perm else allowed,
                  i - 1);
    }
  }

  lemma {:induction false} ScanReaches(q: Request, c: Caller, aces: Acl, missing: Mask, allowed: Mask)
    requires !c.isRoot && BitsRuled(missing, Refused, c, aces) == {}
    ensures var p := Scan(q, c, aces, missing, allowed, {});
            p.Reached? && p.missing == BitsRuled(missing, Silent, c, aces) && p.denied == {}
    decreases |aces|
  {
    if aces != [] {
      var a, rest := aces[0], aces[1..];
      if Decides(a, c) {
        SplitRulings(missing, c, aces);
        assert a.perm - {} == a.perm;
        var left := missing - a.perm;
        assert BitsRuled(left, Refused, c, rest) == {};
        if a.kind.Allow? {
          ScanReaches(q, c, rest, left, if q.wantAllowed then allowed + q.v4mask * a.perm else allowed);
        } else {
          assert missing * a.perm == {} && left == missing;
          ScanReaches(q, c, rest, missing, allowed);
        }
      } else {
        SameRulings(missing, c, aces);
        ScanReaches(q, c, rest, missing, allowed);
      }
    }
  }

  /** With CONTINUE and a `denied` output the walk goes on to the end.  No bit is ever both denied and
      missing. */
  lemma {:induction false} ScanGoesOn(q: Request, c: Caller, aces: Acl, missing: Mask, allowed: Mask, denied: Mask)
    requires !c.isRoot && !Stops(q)
    requires missing <= q.v4mask - {Continue} && missing !! denied
    ensures var p := Scan(q, c, aces, missing, allowed, denied);
            && p.Reached? && p.missing == BitsRuled(missing, Silent, c, aces)
            && p.denied == denied + DeniedBy(q.v4mask, missing, c, aces)
            && p.denied !! p.missing
    decreases |aces|
  {
    if aces != [] {
      var a, rest, left := aces[0], aces[1..], Left(missing, aces[0], c);
      DeniedStep(q.v4mask, missing, c, aces);
      HitHead(missing, c, aces);
      if !Decides(a, c) {
        ScanGoesOn(q, c, rest, missing, allowed, denied);
        SameRulings(missing, c, aces);
      } else {
        SplitRulings(missing, c, aces);
        assert missing - (a.perm - denied) == left;
        var allowed' := if q.wantAllowed then allowed + q.v4mask * (a.perm - denied) else allowed;
        NothingLeft(q.v4mask, c, rest);
        if a.kind.Allow? {
          ScanGoesOn(q, c, rest, left, allowed', denied);
        } else if a.perm * missing != {} {
          ScanGoesOn(q, c, rest, left, allowed, denied + q.v4mask * a.perm);
        } else {
          assert left == missing;
          ScanGoesOn(q, c, rest, missing, allowed, denied);
        }
      }
    }
  }

  lemma NothingLeft(v4mask: Mask, c: Caller, aces: Acl)
    ensures DeniedBy(v4mask, {}, c, aces) == {} && BitsRuled({}, Silent, c, aces) == {}
  {
    forall i ensures !DeniesSome({}, c, aces, i) {
    }
  }

  /** With both outputs and CONTINUE every requested bit is missing, allowed or denied at all times, so
      what is added to `allowed` are the missing bits that get granted. */
  lemma {:induction false} ScanSorts(q: Request, c: Caller, aces: Acl, missing: Mask, allowed: Mask, denied: Mask)
    requires !c.isRoot && q.wantAllowed && !Stops(q)
    requires missing <= q.v4mask - {Continue} <= allowed + denied + missing
    requires missing !! denied && missing != {}
    ensures Scan(q, c, aces, missing, allowed, denied).allowed - {Continue}
            == (allowed - {Continue}) + BitsRuled(missing, Granted, c, aces)
    decreases |aces|
  {
    if aces != [] {
      var a, rest := aces[0], aces[1..];
      if !Decides(a, c) {
        ScanSorts(q, c, rest, missing, allowed, denied);
        SameRulings(missing, c, aces);
      } else if a.kind.Allow? {
        var tperm := a.perm - denied;
        var allowed' := allowed + q.v4mask * tperm;
        assert missing - tperm == missing - a.perm;
        forall b | b in q.v4mask * tperm && b != Continue ensures b in allowed + missing * a.perm {
          assert b in q.v4mask - {Continue};
        }
        assert allowed' - {Continue} == (allowed - {Continue}) + missing * a.perm;
        SplitRulings(missing, c, aces);
        if missing - tperm != {} {
          ScanSorts(q, c, rest, missing - tperm, allowed', denied);
        } else {
          assert missing * a.perm == missing;
        }
      } else if a.perm * missing != {} {
        SplitRulings(missing, c, aces);
        if missing - a.perm != {} {
          ScanSorts(q, c, rest, missing - a.perm, allowed, denied + q.v4mask * a.perm);
        } else {
          assert missing * a.perm == missing;
        }
      } else {
        ScanSorts(q, c, rest, missing, allowed, denied);
        SameRulings(missing, c, aces);
      }
    }
  }

  // ----- the answer -----

  lemma RefusedIsDenied(v4mask: Mask, m: Mask, c: Caller, aces: Acl)
    requires m <= v4mask
    ensures BitsRuled(m, Refused, c, aces) <= DeniedBy(v4mask, m, c, aces)
  {
    forall b | b in BitsRuled(m, Refused, c, aces) ensures b in DeniedBy(v4mask, m, c, aces) {
      RulingIsTheFirst(b, c, aces);
      var i :| FirstToMention(b, c, aces, i) && aces[i].kind.Deny?;
      assert b in HitAt(m, c, aces, i);
      assert DeniesSome(m, c, aces, i);
    }
  }

  /** The outcome without the early exits. */
  lemma OutcomeOfWalk(creds: Creds, q: Request, attrs: Attrs)
    requires creds.uid != 0 && attrs.acl.Some?
    ensures var c, needed := CallerOf(creds, attrs), Needed(q.v4mask, CallerOf(creds, attrs));
            var o := Evaluate(creds, q, attrs);
            if needed == {} then o.status == NoError && o.denied == {}
            else o == Conclude(q, Scan(q, c, attrs.acl.value, needed,
                                       if q.wantAllowed then Granted0(q.v4mask, c) else {}, {}))
  {
  }

  lemma StoppedOutcome(creds: Creds, q: Request, attrs: Attrs, i: int)
    requires creds.uid != 0 && attrs.acl.Some? && Stops(q)
    requires FirstDenial(Needed(q.v4mask, CallerOf(creds, attrs)), CallerOf(creds, attrs), attrs.acl.value, i)
    ensures var c, l, o := CallerOf(creds, attrs), attrs.acl.value, Evaluate(creds, q, attrs);
            && o.status == DenialStatus(HitAt(Needed(q.v4mask, c), c, l, i), q.rfcOnly)
            && o.denied == if q.wantDenied then q.v4mask * l[i].perm else {}
  {
    var c := CallerOf(creds, attrs);
    var needed := Needed(q.v4mask, c);
    OutcomeOfWalk(creds, q, attrs);
    assert needed != {};
    ScanStopsAt(q, c, attrs.acl.value, needed, if q.wantAllowed then Granted0(q.v4mask, c) else {}, i);
  }

  lemma ReachedOutcome(creds: Creds, q: Request, attrs: Attrs)
    requires creds.uid != 0 && attrs.acl.Some?
    requires var c := CallerOf(creds, attrs);
             !Stops(q) || BitsRuled(Needed(q.v4mask, c), Refused, c, attrs.acl.value) == {}
    ensures var c, l, o := CallerOf(creds, attrs), attrs.acl.value, Evaluate(creds, q, attrs);
            var needed := Needed(q.v4mask, c);
            var silent, refused := BitsRuled(needed, Silent, c, l), BitsRuled(needed, Refused, c, l);
            && o.status == (if silent == {} && refused == {} then NoError
                            else if Req in q.v4mask && silent != {} then NoAceError
                            else DenialStatus(silent, q.rfcOnly))
            && o.denied == (if Stops(q) then {} else DeniedBy(q.v4mask, needed, c, l))
            && o.denied !! silent
  {
    var c := CallerOf(creds, attrs);
    OutcomeOfWalk(creds, q, attrs);
    ReachedWalk(q, c, attrs.acl.value, Needed(q.v4mask, c), if q.wantAllowed then Granted0(q.v4mask, c) else {});
  }

  lemma ReachedWalk(q: Request, c: Caller, aces: Acl, needed: Mask, allowed: Mask)
    requires !c.isRoot && needed <= q.v4mask - {Continue}
    requires !Stops(q) || BitsRuled(needed, Refused, c, aces) == {}
    ensures var p, silent := Scan(q, c, aces, needed, allowed, {}), BitsRuled(needed, Silent, c, aces);
            && p.Reached? && p.missing == silent && p.denied !! silent
            && p.denied == (if Stops(q) then {} else DeniedBy(q.v4mask, needed, c, aces))
            && (p.denied != {} <==> BitsRuled(needed, Refused, c, aces) != {})
    ensures needed == {} ==> BitsRuled(needed, Silent, c, aces) == {} && BitsRuled(needed, Refused, c, aces) == {}
                             && DeniedBy(q.v4mask, needed, c, aces) == {}
  {
    NothingDenied(q.v4mask, needed, c, aces);
    if Stops(q) {
      ScanReaches(q, c, aces, needed, allowed);
    } else {
      ScanGoesOn(q, c, aces, needed, allowed, {});
      RefusedIsDenied(q.v4mask, needed, c, aces);
    }
  }

  lemma NothingDenied(v4mask: Mask, m: Mask, c: Caller, aces: Acl)
    ensures BitsRuled(m, Refused, c, aces) == {} ==> DeniedBy(v4mask, m, c, aces) == {}
  {
    DenialIffRefused(m, c, aces);
    forall i | DeniesSome(m, c, aces, i) ensures BitsRuled(m, Refused, c, aces) != {} {
      LeastDenial(m, c, aces, i);
    }
  }

  /** The status exactly.  A walk that stops gives EPERM when the first entry that refuses something
      refuses one of the three bits that yield it; a walk that reaches the end gives NO_ACE or EPERM by
      the bits nobody ruled on, whatever was refused. */
  lemma StatusExactly(creds: Creds, q: Request, attrs: Attrs)
    requires creds.uid != 0 && attrs.acl.Some?
    ensures var c, l := CallerOf(creds, attrs), attrs.acl.value;
            var needed, s := Needed(q.v4mask, c), Evaluate(creds, q, attrs).status;
            var silent, refused := BitsRuled(needed, Silent, c, l), BitsRuled(needed, Refused, c, l);
            && ((exists i :: FirstDenial(needed, c, l, i)) <==> refused != {})
            && (forall i :: Stops(q) && FirstDenial(needed, c, l, i) ==>
                  s == DenialStatus(HitAt(needed, c, l, i), q.rfcOnly))
            && (!Stops(q) || refused == {} ==>
                  s == if silent == {} && refused == {} then NoError
                       else if Req in q.v4mask && silent != {} then NoAceError
                       else DenialStatus(silent, q.rfcOnly))
  {
    var c, l := CallerOf(creds, attrs), attrs.acl.value;
    var needed := Needed(q.v4mask, c);
    DenialIffRefused(needed, c, l);
    forall i | Stops(q) && FirstDenial(needed, c, l, i) {
      StoppedOutcome(creds, q, attrs, i);
    }
    if !Stops(q) || BitsRuled(needed, Refused, c, l) == {} {
      ReachedOutcome(creds, q, attrs);
    }
  }

  /** The bits reported denied, exactly: with CONTINUE the requested bits of every entry that refuses
      something, otherwise those of the first such entry; all bits ruled refused are among them. */
  lemma DeniedExactly(creds: Creds, q: Request, attrs: Attrs)
    requires creds.uid != 0 && attrs.acl.Some?
    ensures var c, l := CallerOf(creds, attrs), attrs.acl.value;
            var needed, d := Needed(q.v4mask, c), Evaluate(creds, q, attrs).denied;
            && (!q.wantDenied ==> d == {})
            && (!Stops(q) ==> d == DeniedBy(q.v4mask, needed, c, l))
            && (forall i :: q.wantDenied && Stops(q) && FirstDenial(needed, c, l, i) ==> d == q.v4mask * l[i].perm)
            && ((forall i :: !FirstDenial(needed, c, l, i)) ==> d == {})
            && (!Stops(q) ==> BitsRuled(needed, Refused, c, l) <= d && d !! BitsRuled(needed, Silent, c, l))
  {
    var c, l := CallerOf(creds, attrs), attrs.acl.value;
    var needed := Needed(q.v4mask, c);
    DenialIffRefused(needed, c, l);
    RefusedIsDenied(q.v4mask, needed, c, l);
    NothingDenied(q.v4mask, needed, c, l);
    forall i | Stops(q) && FirstDenial(needed, c, l, i) {
      StoppedOutcome(creds, q, attrs, i);
    }
    if !Stops(q) || BitsRuled(needed, Refused, c, l) == {} {
      ReachedOutcome(creds, q, attrs);
    }
  }

  /** The bits of m granted by the entries before i. */
  ghost function GrantedBefore(m: Mask, c: Caller, aces: Acl, i: int): Mask {
    set b | b in m && exists j :: 0 <= j < i && j < |aces| && aces[j].kind.Allow? && FirstToMention(b, c, aces, j)
  }

  lemma GrantedBeforeStep(m: Mask, c: Caller, aces: Acl, i: int)
    requires aces != [] && i > 0
    ensures GrantedBefore(m, c, aces, i)
            == GrantedBefore(Left(m, aces[0], c), c, aces[1..], i - 1)
               + (if Decides(aces[0], c) && aces[0].kind.Allow? then m * aces[0].perm else {})
  {
    var rest, left := aces[1..], Left(m, aces[0], c);
    forall b | b in GrantedBefore(m, c, aces, i)
      ensures || b in GrantedBefore(left, c, rest, i - 1)
              || (Decides(aces[0], c) && aces[0].kind.Allow? && b in aces[0].perm)
    {
      var j :| 0 <= j < i && j < |aces| && aces[j].kind.Allow? && FirstToMention(b, c, aces, j);
      assert b in HitAt(m, c, aces, j);
      if j > 0 {
        HitShift(m, c, aces, j);
        assert b in HitAt(left, c, rest, j - 1) && rest[j - 1].kind.Allow?;
      }
    }
    forall b | b in GrantedBefore(left, c, rest, i - 1) ensures b in GrantedBefore(m, c, aces, i) {
      var j :| 0 <= j < i - 1 && j < |rest| && rest[j].kind.Allow? && FirstToMention(b, c, rest, j);
      assert b in HitAt(left, c, rest, j);
      HitShift(m, c, aces, j + 1);
      assert b in HitAt(m, c, aces, j + 1) && aces[j + 1].kind.Allow?;
    }
    forall b | b in m * aces[0].perm && Decides(aces[0], c) && aces[0].kind.Allow?
      ensures b in GrantedBefore(m, c, aces, i)
    {
      assert FirstToMention(b, c, aces, 0);
    }
  }

  /** A walk that stops has added to `allowed` the missing bits granted before the entry it stops at. */
  lemma {:induction false} ScanAllowsBefore(q: Request, c: Caller, aces: Acl, missing: Mask, allowed: Mask, i: int)
    requires !c.isRoot && q.wantAllowed && Stops(q) && FirstDenial(missing, c, aces, i)
    requires missing <= q.v4mask - {Continue} <= allowed + missing
    ensures Scan(q, c, aces, missing, allowed, {}).allowed - {Continue}
            == (allowed - {Continue}) + GrantedBefore(missing, c, aces, i)
    decreases |aces|
  {
    var a, rest := aces[0], aces[1..];
    HitHead(missing, c, aces);
    if i == 0 {
      assert a.perm * missing == HitAt(missing, c, aces, 0);
      assert GrantedBefore(missing, c, aces, 0) == {};
    } else {
      var left := Left(missing, a, c);
      assert !DeniesSome(missing, c, aces, 0);
      HitShift(missing, c, aces, i);
      GrantedBeforeStep(missing, c, aces, i);
      forall j | 0 <= j < i - 1 ensures !DeniesSome(left, c, rest, j) {
        DenialShift(missing, c, aces, j + 1);
      }
      assert FirstDenial(left, c, rest, i - 1) && left != {};
      assert a.perm - {} == a.perm;
      if Decides(a, c) && a.kind.Allow? {
        AllowedGrows(q.v4mask, missing, allowed, a.perm);
        ScanAllowsBefore(q, c, rest, left, allowed + q.v4mask * a.perm, i - 1);
      } else {
        assert left == missing;
        ScanAllowsBefore(q, c, rest, missing, allowed, i - 1);
      }
    }
  }

  lemma AllowedGrows(v4mask: Mask, missing: Mask, allowed: Mask, perm: Mask)
    requires missing <= v4mask - {Continue} <= allowed + missing
    ensures (allowed + v4mask * perm) - {Continue} == (allowed - {Continue}) + missing * perm
  {
    forall b | b in v4mask * perm && b != Continue ensures b in allowed + missing * perm {
      assert b in v4mask - {Continue};
    }
  }

  /** A walk that meets no refusal adds the missing bits that are granted. */
  lemma {:induction false} ScanAllowsAll(q: Request, c: Caller, aces: Acl, missing: Mask, allowed: Mask)
    requires !c.isRoot && q.wantAllowed && BitsRuled(missing, Refused, c, aces) == {} && missing != {}
    requires missing <= q.v4mask - {Continue} <= allowed + missing
    ensures Scan(q, c, aces, missing, allowed, {}).allowed - {Continue}
            == (allowed - {Continue}) + BitsRuled(missing, Granted, c, aces)
    decreases |aces|
  {
    if aces != [] {
      var a, rest := aces[0], aces[1..];
      assert a.perm - {} == a.perm;
      if !Decides(a, c) {
        SameRulings(missing, c, aces);
        ScanAllowsAll(q, c, rest, missing, allowed);
      } else {
        SplitRulings(missing, c, aces);
        if a.kind.Allow? {
          AllowedGrows(q.v4mask, missing, allowed, a.perm);
          if missing - a.perm != {} {
            ScanAllowsAll(q, c, rest, missing - a.perm, allowed + q.v4mask * a.perm);
          } else {
            assert missing * a.perm == missing;
          }
        } else {
          assert missing * a.perm == {} && missing - a.perm == missing;
          ScanAllowsAll(q, c, rest, missing, allowed);
        }
      }
    }
  }

  lemma {:induction false} NothingReported(q: Request, c: Caller, aces: Acl, missing: Mask, denied: Mask)
    requires !q.wantAllowed
    ensures Scan(q, c, aces, missing, {}, denied).allowed == {}
    decreases |aces|
  {
    if aces != [] {
      var a, rest := aces[0], aces[1..];
      NothingReported(q, c, rest, missing, denied);
      NothingReported(q, c, rest, missing - (a.perm - denied), denied);
      NothingReported(q, c, rest, missing - a.perm, if q.wantDenied then denied + q.v4mask * a.perm else denied);
    }
  }

  /** The bits reported allowed, exactly: the implicit owner bits and, with CONTINUE or without a refusal,
      all bits ruled granted, otherwise those granted before the first entry that refuses something. */
  lemma AllowedExactly(creds: Creds, q: Request, attrs: Attrs)
    requires creds.uid != 0 && attrs.acl.Some?
    ensures var c, l := CallerOf(creds, attrs), attrs.acl.value;
            var needed, allowed := Needed(q.v4mask, c), Evaluate(creds, q, attrs).allowed;
            var implicit := if c.isOwner then q.v4mask * OWNER_IMPLICIT else {};
            && (!q.wantAllowed ==> allowed == {})
            && (q.wantAllowed && (!Stops(q) || BitsRuled(needed, Refused, c, l) == {}) ==>
                  allowed - {Continue} == implicit + BitsRuled(needed, Granted, c, l))
            && (forall i :: q.wantAllowed && Stops(q) && FirstDenial(needed, c, l, i) ==>
                  allowed - {Continue} == implicit + GrantedBefore(needed, c, l, i))
  {
    var c, l := CallerOf(creds, attrs), attrs.acl.value;
    var needed, granted := Needed(q.v4mask, c), Granted0(q.v4mask, c);
    assert granted - {Continue} == (if c.isOwner then q.v4mask * OWNER_IMPLICIT else {});
    assert needed == {} ==> BitsRuled(needed, Granted, c, l) == {} && forall i :: HitAt(needed, c, l, i) == {};
    if !q.wantAllowed {
      NothingReported(q, c, l, needed, {});
    } else if needed != {} {
      if !Stops(q) {
        ScanSorts(q, c, l, needed, granted, {});
      }
      if BitsRuled(needed, Refused, c, l) == {} {
        ScanAllowsAll(q, c, l, needed, granted);
      }
      forall i | Stops(q) && FirstDenial(needed, c, l, i) {
        ScanAllowsBefore(q, c, l, needed, granted, i);
      }
    }
  }

  /** The error code does depend on CONTINUE: a refused WRITE_ACL is EPERM when the walk stops at
      the DENY entry and EACCES when it goes on. */
  lemma ErrorCodeDependsOnContinue()
    ensures exists creds: Creds, q: Request, q': Request, attrs: Attrs ::
              && q.v4mask - {Continue} == q'.v4mask - {Continue}
              && Evaluate(creds, q, attrs).status == PermError
              && Evaluate(creds, q', attrs).status == AccessError
  {
    var creds := Creds(7, 7, []);
    var deny := Ace(Deny, {WriteAcl}, {}, {SpecialId}, SPECIAL_EVERYONE);
    var attrs := Attrs(1, 1, false, 0, Some([deny]));
    var q := Request({WriteAcl}, true, true, false);
    var q' := Request({WriteAcl, Continue}, true, true, false);
    var c := CallerOf(creds, attrs);
    assert q.v4mask - {Continue} == {WriteAcl} == q'.v4mask - {Continue};
    assert Needed(q.v4mask, c) == {WriteAcl} == Needed(q'.v4mask, c);
    assert Decides(deny, c);
    assert WriteAcl in deny.perm * {WriteAcl} * EPERM_BITS;
    assert deny.perm * {WriteAcl} != {};
    assert Evaluate(creds, q, attrs).status == PermError;
    assert {WriteAcl} - deny.perm == {};
    assert WriteAcl in {} + q'.v4mask * deny.perm;
    assert Scan(q', c, [deny], {WriteAcl}, {}, {}) == Reached({}, {}, {} + q'.v4mask * deny.perm);
    assert Evaluate(creds, q', attrs).status == AccessError;
  }

  /** The same bit can end up in both outputs: allowed by an early entry, then added to `denied`
      by a DENY entry that refuses some other bit. */
  lemma OutputsMayOverlap()
    ensures exists creds: Creds, q: Request, attrs: Attrs ::
              && creds.uid != 0 && q.wantAllowed && q.wantDenied && Continue in q.v4mask
              && Evaluate(creds, q, attrs).allowed * Evaluate(creds, q, attrs).denied != {}
  {
    var creds := Creds(7, 7, []);
    var allow := Ace(Allow, {ReadData}, {}, {SpecialId}, SPECIAL_EVERYONE);
    var deny := Ace(Deny, {ReadData, WriteData}, {}, {SpecialId}, SPECIAL_EVERYONE);
    var attrs := Attrs(1, 1, false, 0, Some([allow, deny]));
    var q := Request({ReadData, WriteData, Continue}, true, true, false);
    var c := CallerOf(creds, attrs);
    var m: Mask := {ReadData, WriteData};
    assert Needed(q.v4mask, c) == m;
    assert Decides(allow, c) && Decides(deny, c);
    assert m - (allow.perm - {}) == {WriteData};
    var a1 := {} + q.v4mask * (allow.perm - {});
    assert [allow, deny][1..] == [deny];
    assert Scan(q, c, [allow, deny], m, {}, {}) == Scan(q, c, [deny], {WriteData}, a1, {});
    assert WriteData in deny.perm * {WriteData};
    assert {WriteData} - deny.perm == {};
    var d1 := {} + q.v4mask * deny.perm;
    assert Scan(q, c, [deny], {WriteData}, a1, {}) == Reached({}, a1, d1);
    assert ReadData in a1 * d1;
    assert q.v4mask - {Continue} == m;
    assert Granted0(q.v4mask, c) == {};
    assert Evaluate(creds, q, attrs) == Conclude(q, Reached({}, a1, d1));
  }

  // ----- the REQ flag -----

  /** A request flagged REQ ("an ALLOW entry is required") keeps the flag itself among the bits the list
      has to grant.  So it is granted when the list would grant it without the flag and, besides, has an
      entry that grants the flag as if it were a permission; root is judged as without the flag. */
  lemma ReqGrantedIff(creds: Creds, q: Request, attrs: Attrs)
    requires Req in q.v4mask
    ensures Evaluate(creds, q, attrs).status == NoError <==>
            attrs.acl.Some?
            && var c, l := CallerOf(creds, attrs), attrs.acl.value;
               if creds.uid == 0 then
                 attrs.isDir || Execute !in q.v4mask || SomeEntryAllowsExecute(c, l)
               else
                 && RulingOn(Req, c, l) == Granted
                 && forall b :: b in Needed(q.v4mask - {Req}, c) ==> RulingOn(b, c, l) == Granted
  {
    if attrs.acl.Some? {
      if creds.uid == 0 {
        RootVerdict(creds, q, attrs);
      } else {
        GrantedIffFirstMatchAllows(creds, q, attrs);
        assert Needed(q.v4mask, CallerOf(creds, attrs)) == Needed(q.v4mask - {Req}, CallerOf(creds, attrs)) + {Req};
      }
    }
  }

  /** An entry's permission word is stored as the client sent it, so the flag can be there: with it in
      the entry the request is granted, without it the same request is not. */
  lemma ReqCanBeGranted(b: Bit, perm: Mask)
    requires b != Req && b != Continue && b in perm
    ensures var attrs := Attrs(1, 1, false, 0, Some([Ace(Allow, perm, {}, {SpecialId}, SPECIAL_EVERYONE)]));
            Evaluate(Creds(7, 7, []), Request({b, Req}, false, false, false), attrs).status == NoError <==> Req in perm
  {
    var a := Ace(Allow, perm, {}, {SpecialId}, SPECIAL_EVERYONE);
    var creds, attrs := Creds(7, 7, []), Attrs(1, 1, false, 0, Some([a]));
    var c := CallerOf(creds, attrs);
    ReqGrantedIff(creds, Request({b, Req}, false, false, false), attrs);
    assert {b, Req} - {Req} == {b} && Needed({b}, c) == {b};
    assert Decides(a, c) && [a][1..] == [];
    assert RulingOn(b, c, [a]) == Granted;
    assert RulingOn(Req, c, [a]) == if Req in perm then Granted else Silent;
  }
}
