/** Credentials, access control entries and permission masks.

    A 32-bit permission word is modelled as the set of the bits that are set in it, so
    `a & b` is `a * b`, `a | b` is `a + b` and `a & ~b` is `a - b`.  The two control flags that
    travel in the same word as the permissions, CONTINUE (0x40000000) and REQ (0x10000000),
    are ordinary members of the set, exactly as they are ordinary bits of the word. */
module AclTypes {
  import opened Basics

  datatype Bit =
    | ReadData | WriteData | AppendData
    | ReadNamedAttr | WriteNamedAttr
    | Execute | DeleteChild
    | ReadAttr | WriteAttr
    | Delete
    | ReadAcl | WriteAcl | WriteOwner
    | Synchronize
    | Continue
    | Req
    | Unassigned(position: nat)

  type Mask = set<Bit>

  datatype AceType = Allow | Deny | Audit | Alarm

  datatype AceFlag =
    | FileInherit | DirInherit | NoPropagate | InheritOnly
    | Successful | Failed | GroupId | Inherited

  datatype AceIFlag = ModeGen | ExcludeFiles | ExcludeDirs | SpecialId

  /** `who` is the union of a uid, a gid and a special identifier: one number. */
  datatype Ace = Ace(kind: AceType, perm: Mask, flags: set<AceFlag>, iflags: set<AceIFlag>, who: nat)

  type Acl = seq<Ace>

  /** The contents of a freshly allocated entry: ALLOW is type number 0. */
  const ZERO_ACE := Ace(Allow, {}, {}, {}, 0)

  const SPECIAL_OWNER: nat := 1
  const SPECIAL_GROUP: nat := 2
  const SPECIAL_EVERYONE: nat := 3

  /** Any one of these makes an entry inheritable. */
  const INHERIT_FLAGS: set<AceFlag> := {FileInherit, DirInherit, InheritOnly}

  const OWNER_IMPLICIT: Mask := {WriteAcl, ReadAcl, WriteAttr, ReadAttr}
  const EPERM_BITS: Mask := {WriteAttr, WriteAcl, WriteOwner}

  datatype Creds = Creds(uid: nat, gid: nat, groups: seq<nat>)

  datatype Attrs = Attrs(owner: nat, group: nat, isDir: bool, mode: bv32, acl: Option<Acl>)

  datatype Status = NoError | PermError | AccessError | NoAceError

  /** Is `gid` the caller's primary group or one of the supplementary ones? */
  predicate InGroup(gid: nat, creds: Creds) {
    creds.gid == gid || gid in creds.groups
  }

  /** The group test as the server runs it: primary group, then the list in order. */
  method CheckAceGroup(gid: nat, creds: Creds) returns (member: bool)
    ensures member == InGroup(gid, creds)
  {
    if creds.gid == gid {
      return true;
    }
    for i := 0 to |creds.groups|
      invariant gid !in creds.groups[..i]
    {
      if creds.groups[i] == gid {
        return true;
      }
    }
    return false;
  }
}
