/** POSIX modes: the mode check (fsal_check_access_no_acl) and the compiler from a mode to six
    access control entries (fsal_mode_gen_set). */
module ModeAcl {
  import opened Basics
  import opened AclTypes

  datatype Rwx = R | W | X

  datatype Class = OwnerClass | GroupClass | OtherClass

  /** Does the mode word give one right to one class? */
  predicate ModeAllows(mode: bv32, k: Class, r: Rwx) {
    match (k, r)
    case (OwnerClass, R) => mode & 0x100 != 0
    case (OwnerClass, W) => mode & 0x80 != 0
    case (OwnerClass, X) => mode & 0x40 != 0
    case (GroupClass, R) => mode & 0x20 != 0
    case (GroupClass, W) => mode & 0x10 != 0
    case (GroupClass, X) => mode & 0x8 != 0
    case (OtherClass, R) => mode & 0x4 != 0
    case (OtherClass, W) => mode & 0x2 != 0
    case (OtherClass, X) => mode & 0x1 != 0
  }

  function ClassOf(creds: Creds, attrs: Attrs): Class {
    if creds.uid == attrs.owner then OwnerClass
    else if InGroup(attrs.group, creds) then GroupClass
    else OtherClass
  }

  predicate AnyExecute(mode: bv32) {
    ModeAllows(mode, OwnerClass, X) || ModeAllows(mode, GroupClass, X) || ModeAllows(mode, OtherClass, X)
  }

  datatype ModeOutcome = ModeOutcome(status: Status, allowed: set<Rwx>, denied: set<Rwx>)

  /** What a mode means: one class of three bits rules, root is refused EXECUTE on a file nobody
      may execute and nothing else. */
  function ByMode(creds: Creds, access: set<Rwx>, attrs: Attrs): ModeOutcome {
    var granted :=
      if creds.uid == 0 then
        (if X in access && !attrs.isDir && !AnyExecute(attrs.mode) then access - {X} else access)
      else
        set r | r in access && ModeAllows(attrs.mode, ClassOf(creds, attrs), r);
    ModeOutcome(if granted == access then NoError else AccessError, granted, access - granted)
  }

  function Shifted(mode: bv32, k: Class): bv32 {
    match k
    case OwnerClass => mode >> 6
    case GroupClass => mode >> 3
    case OtherClass => mode
  }

  lemma ShiftedWords(mode: bv32)
    ensures ((mode >> 6) & 0x4 != 0) == (mode & 0x100 != 0)
    ensures ((mode >> 6) & 0x2 != 0) == (mode & 0x80 != 0)
    ensures ((mode >> 6) & 0x1 != 0) == (mode & 0x40 != 0)
    ensures ((mode >> 3) & 0x4 != 0) == (mode & 0x20 != 0)
    ensures ((mode >> 3) & 0x2 != 0) == (mode & 0x10 != 0)
    ensures ((mode >> 3) & 0x1 != 0) == (mode & 0x8 != 0)
  {
  }

  /** The rights in the three lowest bits of a shifted mode. */
  function LowRights(mode: bv32): set<Rwx> {
    (if mode & 0x4 != 0 then {R} else {}) + (if mode & 0x2 != 0 then {W} else {})
    + (if mode & 0x1 != 0 then {X} else {})
  }

  lemma LowRightsOfShifted(mode: bv32, k: Class)
    ensures LowRights(Shifted(mode, k)) == set r: Rwx | ModeAllows(mode, k, r)
  {
    ShiftedWords(mode);
    forall r: Rwx ensures r in LowRights(Shifted(mode, k)) <==> ModeAllows(mode, k, r) {
      match k
      case OwnerClass =>
      case GroupClass =>
      case OtherClass =>
    }
  }

  /** Bring the bits of the caller's class to the bottom of the mode. */
  method ShiftMode(creds: Creds, attrs: Attrs) returns (mode: bv32)
    ensures mode == Shifted(attrs.mode, ClassOf(creds, attrs))
  {
    mode := attrs.mode;
    if creds.uid == attrs.owner {
      mode := mode >> 6;
    } else if creds.gid == attrs.group {
      mode := mode >> 3;
    } else {
      for i := 0 to |creds.groups|
        invariant attrs.group !in creds.groups[..i]
        invariant mode == attrs.mode
      {
        if creds.groups[i] == attrs.group {
          mode := mode >> 3;
          return;
        }
      }
    }
  }

  lemma ExecuteWord(mode: bv32)
    ensures (mode & 0x49 != 0) == AnyExecute(mode)
  {
  }

  /** The rights a caller other than root has on the object. */
  method ClassRights(creds: Creds, attrs: Attrs) returns (mask: set<Rwx>)
    ensures mask == set r: Rwx | ModeAllows(attrs.mode, ClassOf(creds, attrs), r)
  {
    var mode := ShiftMode(creds, attrs);
    LowRightsOfShifted(attrs.mode, ClassOf(creds, attrs));
    mask := LowRights(mode);
  }

  /** Root may execute a file only if somebody may. */
  method RootMayExecute(mode: bv32) returns (may: bool)
    ensures may == AnyExecute(mode)
  {
    ExecuteWord(mode);
    may := mode & 0x49 != 0;
  }

  /** The mode check as the server runs it. */
  method CheckAccessNoAcl(creds: Creds, access: set<Rwx>, wantAllowed: bool, wantDenied: bool, attrs: Attrs)
    returns (status: Status, allowed: set<Rwx>, denied: set<Rwx>)
    ensures status == ByMode(creds, access, attrs).status
    ensures allowed == if wantAllowed then ByMode(creds, access, attrs).allowed else {}
    ensures denied == if wantDenied then ByMode(creds, access, attrs).denied else {}
  {
    allowed, denied := {}, {};
    if access == {} {
      return NoError, allowed, denied;
    }
    if creds.uid == 0 {
      if attrs.isDir {
        if wantAllowed { allowed := access; }
        return NoError, allowed, denied;
      }
      var may := RootMayExecute(attrs.mode);
      var rc := X !in access || may;
      if !rc {
        if wantAllowed { allowed := access - {X}; }
        if wantDenied { denied := access * {X}; }
        assert access - (access - {X}) == access * {X};
      } else {
        if wantAllowed { allowed := access; }
      }
      return if rc then NoError else AccessError, allowed, denied;
    }
    var mask := ClassRights(creds, attrs);
    assert mask * access == ByMode(creds, access, attrs).allowed;
    assert access - mask == ByMode(creds, access, attrs).denied;
    if wantAllowed { allowed := mask * access; }
    if wantDenied { denied := access - mask; }
    return if mask * access == access then NoError else AccessError, allowed, denied;
  }

  lemma NineBits(mode: bv32)
    ensures ((mode >> 8) & 1 == 1) == (mode & 0x100 != 0)
    ensures ((mode >> 7) & 1 == 1) == (mode & 0x80 != 0)
    ensures ((mode >> 6) & 1 == 1) == (mode & 0x40 != 0)
    ensures ((mode >> 5) & 1 == 1) == (mode & 0x20 != 0)
    ensures ((mode >> 4) & 1 == 1) == (mode & 0x10 != 0)
    ensures ((mode >> 3) & 1 == 1) == (mode & 0x8 != 0)
    ensures ((mode >> 2) & 1 == 1) == (mode & 0x4 != 0)
    ensures ((mode >> 1) & 1 == 1) == (mode & 0x2 != 0)
    ensures (mode & 1 == 1) == (mode & 0x1 != 0)
  {
  }

  /** The number of the mode bit that gives a right: `rwxrwxrwx` from bit 8 down to bit 0, owner, group,
      others. */
  function PlaceOf(creds: Creds, attrs: Attrs, r: Rwx): nat {
    (if creds.uid == attrs.owner then 6
     else if creds.gid == attrs.group || attrs.group in creds.groups then 3
     else 0)
    + (match r case R => 2 case W => 1 case X => 0)
  }

  lemma AllowedAtPlace(creds: Creds, attrs: Attrs, r: Rwx)
    ensures ModeAllows(attrs.mode, ClassOf(creds, attrs), r) <==> (attrs.mode >> PlaceOf(creds, attrs, r)) & 1 == 1
  {
    NineBits(attrs.mode);
    match (ClassOf(creds, attrs), r)
    case (OwnerClass, R) => assert PlaceOf(creds, attrs, r) == 8;
    case (OwnerClass, W) => assert PlaceOf(creds, attrs, r) == 7;
    case (OwnerClass, X) => assert PlaceOf(creds, attrs, r) == 6;
    case (GroupClass, R) => assert PlaceOf(creds, attrs, r) == 5;
    case (GroupClass, W) => assert PlaceOf(creds, attrs, r) == 4;
    case (GroupClass, X) => assert PlaceOf(creds, attrs, r) == 3;
    case (OtherClass, R) => assert PlaceOf(creds, attrs, r) == 2;
    case (OtherClass, W) => assert PlaceOf(creds, attrs, r) == 1;
    case (OtherClass, X) => assert PlaceOf(creds, attrs, r) == 0;
  }

  /** What the mode check decides, written out from the bits of the mode: a caller other than root needs the
      bit of the first class it is in for each right; root needs some execute bit to execute a file. */
  lemma ModeGrantsIff(creds: Creds, access: set<Rwx>, attrs: Attrs)
    ensures creds.uid != 0 ==>
              (ByMode(creds, access, attrs).status == NoError <==>
               forall r :: r in access ==> (attrs.mode >> PlaceOf(creds, attrs, r)) & 1 == 1)
    ensures creds.uid == 0 ==>
              (ByMode(creds, access, attrs).status == NoError <==>
               attrs.isDir || X !in access || attrs.mode & 0x49 != 0)
    ensures ByMode(creds, access, attrs).status in {NoError, AccessError}
  {
    var m := ByMode(creds, access, attrs);
    if creds.uid == 0 {
      ExecuteWord(attrs.mode);
      assert X in access ==> access - {X} != access;
    } else {
      forall r ensures ModeAllows(attrs.mode, ClassOf(creds, attrs), r) <==>
                       (attrs.mode >> PlaceOf(creds, attrs, r)) & 1 == 1 {
        AllowedAtPlace(creds, attrs, r);
      }
      assert m.allowed == access <==> forall r :: r in access ==> r in m.allowed;
    }
  }

  // ----- the compiler -----

  const RWX_BITS: Mask := {ReadData, WriteData, AppendData, Execute}

  /** The permissions one class of a mode stands for. */
  function PermsOf(mode: bv32, k: Class): Mask {
    (if ModeAllows(mode, k, R) then {ReadData} else {})
    + (if ModeAllows(mode, k, W) then {WriteData, AppendData} else {})
    + (if ModeAllows(mode, k, X) then {Execute} else {})
  }

  function SpecialWho(k: Class): nat {
    match k
    case OwnerClass => SPECIAL_OWNER
    case GroupClass => SPECIAL_GROUP
    case OtherClass => SPECIAL_EVERYONE
  }

  /** A cell after the compiler has been over it: permissions and internal flags are added to what
      the cell held. */
  function DenyCell(cell: Ace, k: Class, mode: bv32): Ace {
    Ace(Deny, cell.perm + (RWX_BITS - PermsOf(mode, k)), if k.GroupClass? then {GroupId} else cell.flags,
        cell.iflags + {ModeGen, SpecialId}, SpecialWho(k))
  }

  function AllowCell(cell: Ace, k: Class, mode: bv32): Ace {
    Ace(Allow, cell.perm + PermsOf(mode, k), if k.GroupClass? then {GroupId} else cell.flags,
        cell.iflags + {ModeGen, SpecialId}, SpecialWho(k))
  }

  function GenCells(cells: Acl, mode: bv32): Acl
    requires |cells| == 6
  {
    [DenyCell(cells[0], OwnerClass, mode), AllowCell(cells[1], OwnerClass, mode),
     DenyCell(cells[2], GroupClass, mode), AllowCell(cells[3], GroupClass, mode),
     DenyCell(cells[4], OtherClass, mode), AllowCell(cells[5], OtherClass, mode)]
  }

  const SIX_ZEROS: Acl := [ZERO_ACE, ZERO_ACE, ZERO_ACE, ZERO_ACE, ZERO_ACE, ZERO_ACE]

  /** The list a mode compiles to. */
  function ModeList(mode: bv32): Acl {
    GenCells(SIX_ZEROS, mode)
  }

  /** Sort the rights of one class, brought to the owner position, into a DENY and an ALLOW cell. */
  method ModeSetAce(aces: array<Ace>, deny: nat, allow: nat, mode: bv32)
    requires deny < allow < aces.Length
    modifies aces
    ensures aces[deny] ==
              old(aces[deny]).(kind := Deny, perm := old(aces[deny]).perm + (RWX_BITS - PermsOf(mode, OwnerClass)))
    ensures aces[allow] == old(aces[allow]).(kind := Allow, perm := old(aces[allow]).perm + PermsOf(mode, OwnerClass))
    ensures forall i :: 0 <= i < aces.Length && i != deny && i != allow ==> aces[i] == old(aces[i])
  {
    var a, d := aces[allow].(kind := Allow), aces[deny].(kind := Deny);
    if mode & 0x100 != 0 {
      a := a.(perm := a.perm + {ReadData});
    } else {
      d := d.(perm := d.perm + {ReadData});
    }
    if mode & 0x80 != 0 {
      a := a.(perm := a.perm + {WriteData, AppendData});
    } else {
      d := d.(perm := d.perm + {WriteData, AppendData});
    }
    if mode & 0x40 != 0 {
      a := a.(perm := a.perm + {Execute});
    } else {
      d := d.(perm := d.perm + {Execute});
    }
    assert a.perm == aces[allow].perm + PermsOf(mode, OwnerClass);
    assert d.perm == aces[deny].perm + (RWX_BITS - PermsOf(mode, OwnerClass));
    aces[deny], aces[allow] := d, a;
  }

  lemma MovedUp(mode: bv32)
    ensures PermsOf(mode & 0x1C0, OwnerClass) == PermsOf(mode, OwnerClass)
    ensures PermsOf((mode & 0x38) << 3, OwnerClass) == PermsOf(mode, GroupClass)
    ensures PermsOf((mode & 0x7) << 6, OwnerClass) == PermsOf(mode, OtherClass)
  {
  }

  /** Label a pair of cells with the class they speak for and sort its rights into them. */
  method GeneratePair(aces: array<Ace>, deny: nat, k: Class, mode: bv32, ghost whole: bv32)
    requires deny + 1 < aces.Length
    requires PermsOf(mode, OwnerClass) == PermsOf(whole, k)
    modifies aces
    ensures aces[deny] == DenyCell(old(aces[deny]), k, whole)
    ensures aces[deny + 1] == AllowCell(old(aces[deny + 1]), k, whole)
    ensures forall i :: 0 <= i < aces.Length && i != deny && i != deny + 1 ==> aces[i] == old(aces[i])
  {
    var a, d := aces[deny + 1], aces[deny];
    a := a.(who := SpecialWho(k), iflags := a.iflags + {ModeGen, SpecialId});
    d := d.(who := SpecialWho(k), iflags := d.iflags + {ModeGen, SpecialId});
    if k.GroupClass? {
      a, d := a.(flags := {GroupId}), d.(flags := {GroupId});
    }
    aces[deny], aces[deny + 1] := d, a;
    ModeSetAce(aces, deny, deny + 1, mode);
  }

  /** Compile a mode into the six cells starting at `at`. */
  method ModeGenSet(aces: array<Ace>, at: nat, mode: bv32)
    requires at + 6 <= aces.Length
    modifies aces
    ensures aces[at..at + 6] == GenCells(old(aces[at..at + 6]), mode)
    ensures forall i :: 0 <= i < aces.Length && !(at <= i < at + 6) ==> aces[i] == old(aces[i])
  {
    MovedUp(mode);
    GeneratePair(aces, at, OwnerClass, mode & 0x1C0, mode);
    GeneratePair(aces, at + 2, GroupClass, (mode & 0x38) << 3, mode);
    GeneratePair(aces, at + 4, OtherClass, (mode & 0x7) << 6, mode);
  }
}
