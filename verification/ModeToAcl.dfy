/** Rewriting an access control list after a change of mode (fsal_mode_to_acl): a counting pass,
    an emitting pass that copies, duplicates and strips entries, and the six compiled entries at
    the end. */
module ModeToAcl {
  import opened Basics
  import opened AclTypes
  import opened ModeAcl

  predicate IsModeGen(a: Ace) { ModeGen in a.iflags }
  predicate IsPerm(a: Ace) { a.kind.Allow? || a.kind.Deny? }
  predicate IsInherit(a: Ace) { a.flags * INHERIT_FLAGS != {} }

  /** The macro looks at the identifier only, not at the flag that says it is a special one. */
  predicate IsSpecialWho(a: Ace) {
    a.who == SPECIAL_OWNER || a.who == SPECIAL_GROUP || a.who == SPECIAL_EVERYONE
  }

  function Stripped(a: Ace): Ace {
    if IsSpecialWho(a) then a.(perm := a.perm - RWX_BITS) else a
  }

  /** What becomes of one source entry. */
  function Carry(a: Ace): Acl {
    if IsModeGen(a) then []
    else if InheritOnly in a.flags || !IsPerm(a) then [a]
    else if IsInherit(a) then
      [a.(flags := a.flags + {InheritOnly}), Stripped(a.(flags := a.flags - INHERIT_FLAGS))]
    else [Stripped(a)]
  }

  function CarryAll(s: Acl): Acl {
    if s == [] then [] else CarryAll(s[..|s| - 1]) + Carry(s[|s| - 1])
  }

  function GenCount(s: Acl): nat {
    if s == [] then 0 else GenCount(s[..|s| - 1]) + if IsModeGen(s[|s| - 1]) then 1 else 0
  }

  /** The entries the emitting pass stores, out of bounds writes included as an outcome. */
  datatype Rewrite = Untouched | Rewritten(acl: Acl) | ServerFault | PastTheEnd

  /** The list that replaces the old one. */
  function Target(s: Acl, mode: bv32): Acl {
    CarryAll(s) + ModeList(mode)
  }

  ghost predicate MixesGeneratedAndOwn(s: Acl) {
    (exists i :: 0 <= i < |s| && IsModeGen(s[i])) && (exists i :: 0 <= i < |s| && !IsModeGen(s[i]))
  }

  lemma {:induction false} GenCountPositive(s: Acl)
    ensures GenCount(s) > 0 <==> exists i :: 0 <= i < |s| && IsModeGen(s[i])
  {
    if s != [] {
      var p := s[..|s| - 1];
      GenCountPositive(p);
      if i :| 0 <= i < |p| && IsModeGen(p[i]) { assert IsModeGen(s[i]); }
      if i :| 0 <= i < |s| && IsModeGen(s[i]) {
        if i < |p| { assert IsModeGen(p[i]); }
      }
    }
  }

  lemma {:induction false} CarryAllEmpty(s: Acl)
    ensures CarryAll(s) != [] <==> exists i :: 0 <= i < |s| && !IsModeGen(s[i])
  {
    if s != [] {
      var p := s[..|s| - 1];
      CarryAllEmpty(p);
      if i :| 0 <= i < |p| && !IsModeGen(p[i]) { assert !IsModeGen(s[i]); }
      if i :| 0 <= i < |s| && !IsModeGen(s[i]) {
        if i < |p| { assert !IsModeGen(p[i]); }
      }
    }
  }

  lemma NextEntry(s: Acl, i: nat)
    requires i < |s|
    ensures CarryAll(s[..i + 1]) == CarryAll(s[..i]) + Carry(s[i])
    ensures GenCount(s[..i + 1]) == GenCount(s[..i]) + if IsModeGen(s[i]) then 1 else 0
  {
    assert s[..i + 1][..i] == s[..i];
  }

  /** Storing the next entries after a filled prefix extends the prefix. */
  lemma PrefixExtends(before: Acl, after: Acl, filled: Acl, more: Acl, zeros: Acl)
    requires |filled| + |more| <= |zeros| && before == filled + zeros[|filled|..]
    requires after == before[..|filled|] + more + before[|filled| + |more|..]
    ensures after == filled + more + zeros[|filled| + |more|..]
  {
  }

  lemma {:induction false} CarryAllGrows(s: Acl, i: nat)
    requires i <= |s|
    ensures |CarryAll(s[..i])| <= |CarryAll(s)| && GenCount(s[..i]) <= GenCount(s)
    decreases |s| - i
  {
    if i < |s| {
      assert s[..i + 1][..i] == s[..i];
      CarryAllGrows(s, i + 1);
    } else {
      assert s[..i] == s;
    }
  }

  method CountKept(s: Acl) returns (naces: nat)
    ensures naces == |CarryAll(s)|
  {
    naces := 0;
    for i := 0 to |s|
      invariant naces == |CarryAll(s[..i])|
    {
      assert s[..i + 1][..i] == s[..i];
      if IsModeGen(s[i]) {
        continue;
      }
      naces := naces + 1;
      if InheritOnly in s[i].flags {
        continue;
      }
      if !IsPerm(s[i]) {
        continue;
      }
      if IsInherit(s[i]) {
        naces := naces + 1;
      }
    }
    assert s[..|s|] == s;
  }

  /** Emit one entry that is not mode-generated: copy it, and duplicate and strip the copy that
      applies to the object itself.  Stores outside the array are noticed, not made. */
  method EmitOne(a: Ace, aces: array<Ace>, dace: nat) returns (inside: bool, next: nat)
    requires !IsModeGen(a)
    modifies aces
    ensures next == dace + |Carry(a)|
    ensures inside == (next <= aces.Length)
    ensures inside ==> aces[..] == old(aces[..dace]) + Carry(a) + old(aces[next..])
  {
    next := dace + 1;
    if InheritOnly in a.flags || !IsPerm(a) {
      inside := dace < aces.Length;
      if inside { aces[dace] := a; }
    } else if IsInherit(a) {
      if dace < aces.Length { aces[dace] := a.(flags := a.flags + {InheritOnly}); }
      next := next + 1;
      inside := dace + 1 < aces.Length;
      if inside { aces[dace + 1] := Stripped(a.(flags := a.flags - INHERIT_FLAGS)); }
    } else {
      inside := dace < aces.Length;
      if inside { aces[dace] := Stripped(a); }
    }
  }

  /** After a source prefix: where the next entry goes, how many were stored, and, as long as nothing
      was skipped, the stored entries themselves. */
  ghost predicate EmittedSoFar(prefix: Acl, cells: Acl, start: Acl, dace: nat, emitted: nat) {
    && dace == |CarryAll(prefix)| + GenCount(prefix)
    && emitted == |CarryAll(prefix)|
    && (GenCount(prefix) == 0 ==> dace <= |start| && cells == CarryAll(prefix) + start[dace..])
  }

  lemma NothingEmitted(start: Acl)
    ensures EmittedSoFar([], start, start, 0, 0)
  {
  }

  /** One entry of the emitting pass.  `dace` advances even when the entry is skipped. */
  method EmitNext(s: Acl, i: nat, aces: array<Ace>, ghost start: Acl, at: nat, stored: nat)
    returns (inside: bool, dace: nat, emitted: nat)
    requires i < |s| && aces.Length == |start| == |CarryAll(s)| + 6
    requires EmittedSoFar(s[..i], aces[..], start, at, stored)
    modifies aces
    ensures inside ==> EmittedSoFar(s[..i + 1], aces[..], start, dace, emitted)
    ensures !inside ==> GenCount(s) > 0 && CarryAll(s) != []
  {
    NextEntry(s, i);
    CarryAllGrows(s, i + 1);
    inside, dace, emitted := true, at + 1, stored;
    ghost var before := aces[..];
    if !IsModeGen(s[i]) {
      inside, dace := EmitOne(s[i], aces, at);
      emitted := stored + (dace - at);
      if inside && GenCount(s[..i]) == 0 {
        PrefixExtends(before, aces[..], CarryAll(s[..i]), Carry(s[i]), start);
      }
    }
  }

  /** The emitting pass. */
  method EmitKept(s: Acl, aces: array<Ace>) returns (inside: bool, dace: nat, emitted: nat)
    requires aces.Length == |CarryAll(s)| + 6
    modifies aces
    ensures inside ==> EmittedSoFar(s, aces[..], old(aces[..]), dace, emitted)
    ensures !inside ==> GenCount(s) > 0 && CarryAll(s) != []
  {
    inside, dace, emitted := true, 0, 0;
    ghost var start := aces[..];
    NothingEmitted(start);
    assert s[..0] == [];
    for i := 0 to |s|
      invariant EmittedSoFar(s[..i], aces[..], start, dace, emitted)
    {
      inside, dace, emitted := EmitNext(s, i, aces, start, dace, emitted);
      if !inside {
        return;
      }
    }
    assert s[..|s|] == s;
  }

  /** The whole rewrite.  It never answers SERVERFAULT; the six compiled entries fall outside the
      array exactly when the source mixes mode-generated entries with others; otherwise the array
      is exactly filled with the carried entries and the compiled ones. */
  method RewriteForMode(hasMode: bool, mode: bv32, sacl: Option<Acl>) returns (r: Rewrite)
    ensures !hasMode ==> r == Untouched
    ensures hasMode ==> r != Untouched
    ensures r != ServerFault
    ensures hasMode ==> (r == PastTheEnd <==> sacl.Some? && MixesGeneratedAndOwn(sacl.value))
    ensures r.Rewritten? ==> r.acl == Target(if sacl.Some? then sacl.value else [], mode)
  {
    if !hasMode {
      return Untouched;
    }
    var s := if sacl.Some? then sacl.value else [];
    GenCountPositive(s);
    CarryAllEmpty(s);
    var naces := 0;
    if s != [] {
      naces := CountKept(s);
    }
    if naces == 0 {
      var generated := ModeGenAcl(mode);
      assert [] + ModeList(mode) == ModeList(mode);
      return Rewritten(generated);
    }
    naces := naces + 6;
    var aces := new Ace[naces](_ => ZERO_ACE);
    ghost var n := |CarryAll(s)|;
    SixZeros(aces[n..]);
    assert aces[..][n..] == aces[n..];
    var inside, dace, emitted := EmitKept(s, aces);
    if !inside {
      return PastTheEnd;
    }
    if naces - emitted != 6 {
      return ServerFault;
    }
    if dace + 6 > naces {
      return PastTheEnd;
    }
    AppendGenerated(aces, dace, mode, CarryAll(s));
    return Rewritten(aces[..]);
  }

  lemma SixZeros(cells: Acl)
    requires |cells| == 6 && forall i :: 0 <= i < 6 ==> cells[i] == ZERO_ACE
    ensures cells == SIX_ZEROS
  {
  }

  /** The list of a mode alone. */
  method ModeGenAcl(mode: bv32) returns (acl: Acl)
    ensures acl == ModeList(mode)
  {
    var aces := new Ace[6](_ => ZERO_ACE);
    SixZeros(aces[0..6]);
    ModeGenSet(aces, 0, mode);
    acl := aces[..];
    assert acl == aces[0..6];
  }

  /** The compiled entries go into the zeroed cells after the carried ones. */
  method AppendGenerated(aces: array<Ace>, at: nat, mode: bv32, ghost carried: Acl)
    requires at == |carried| && aces[..] == carried + SIX_ZEROS
    modifies aces
    ensures aces[..] == carried + ModeList(mode)
  {
    assert aces[..at] == carried && aces[at..at + 6] == SIX_ZEROS;
    ModeGenSet(aces, at, mode);
    assert aces[..at] == carried;
    assert aces[..] == aces[..at] + aces[at..at + 6];
  }
}
