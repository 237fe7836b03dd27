/** Share reservations: five counters stand for all the opens of a file (update_share_counters,
    check_share_conflict, merge_share). */
module Share {
  import opened OpenFlags

  /** The counters are unsigned in the original; here they are integers, and never negative is
      something to prove. */
  datatype Counters = Counters(accessRead: int, accessWrite: int, denyRead: int, denyWrite: int, denyWriteMand: int)

  const NO_OPENS := Counters(0, 0, 0, 0, 0)

  function FlagBit(mode: OpenMode, f: OpenFlag): int { if f in mode then 1 else 0 }

  function Updated(s: Counters, before: OpenMode, after: OpenMode): Counters {
    Counters(s.accessRead + (FlagBit(after, Read) - FlagBit(before, Read)),
             s.accessWrite + (FlagBit(after, Write) - FlagBit(before, Write)),
             s.denyRead + (FlagBit(after, DenyRead) - FlagBit(before, DenyRead)),
             s.denyWrite + (FlagBit(after, DenyWrite) - FlagBit(before, DenyWrite)
                            + FlagBit(after, DenyWriteMand) - FlagBit(before, DenyWriteMand)),
             s.denyWriteMand + (FlagBit(after, DenyWriteMand) - FlagBit(before, DenyWriteMand)))
  }

  predicate Conflict(s: Counters, mode: OpenMode, bypass: bool) {
    || (Read in mode && s.denyRead > 0 && !bypass)
    || (Write in mode && (s.denyWriteMand > 0 || (!bypass && s.denyWrite > 0)))
    || (DenyRead in mode && s.accessRead > 0)
    || ((DenyWrite in mode || DenyWriteMand in mode) && s.accessWrite > 0)
  }

  predicate MergeConflict(orig: Counters, dupe: Counters) {
    || (dupe.accessRead > 0 && orig.denyRead > 0)
    || (dupe.denyRead > 0 && orig.accessRead > 0)
    || (dupe.accessWrite > 0 && orig.denyWrite > 0)
    || (dupe.denyWrite > 0 && orig.accessWrite > 0)
  }

  function Sum(a: Counters, b: Counters): Counters {
    Counters(a.accessRead + b.accessRead, a.accessWrite + b.accessWrite, a.denyRead + b.denyRead,
             a.denyWrite + b.denyWrite, a.denyWriteMand + b.denyWriteMand)
  }

  /** The counters of one file, updated in place. */
  class FsalShare {
    var accessRead: int
    var accessWrite: int
    var denyRead: int
    var denyWrite: int
    var denyWriteMand: int

    function View(): Counters
      reads this
    {
      Counters(accessRead, accessWrite, denyRead, denyWrite, denyWriteMand)
    }

    constructor ()
      ensures View() == NO_OPENS
    {
      accessRead, accessWrite, denyRead, denyWrite, denyWriteMand := 0, 0, 0, 0, 0;
    }

    method UpdateShareCounters(before: OpenMode, after: OpenMode)
      modifies this
      ensures View() == Updated(old(View()), before, after)
    {
      var accessReadInc := FlagBit(after, Read) - FlagBit(before, Read);
      var accessWriteInc := FlagBit(after, Write) - FlagBit(before, Write);
      var denyReadInc := FlagBit(after, DenyRead) - FlagBit(before, DenyRead);
      var denyWriteInc := FlagBit(after, DenyWrite) - FlagBit(before, DenyWrite)
                          + FlagBit(after, DenyWriteMand) - FlagBit(before, DenyWriteMand);
      var denyWriteMandInc := FlagBit(after, DenyWriteMand) - FlagBit(before, DenyWriteMand);
      accessRead := accessRead + accessReadInc;
      accessWrite := accessWrite + accessWriteInc;
      denyRead := denyRead + denyReadInc;
      denyWrite := denyWrite + denyWriteInc;
      denyWriteMand := denyWriteMand + denyWriteMandInc;
    }

    method CheckShareConflict(mode: OpenMode, bypass: bool) returns (denied: bool)
      ensures denied == Conflict(View(), mode, bypass)
    {
      if Read in mode && denyRead > 0 && !bypass {
        return true;
      }
      if Write in mode && (denyWriteMand > 0 || (!bypass && denyWrite > 0)) {
        return true;
      }
      if DenyRead in mode && accessRead > 0 {
        return true;
      }
      if (DenyWrite in mode || DenyWriteMand in mode) && accessWrite > 0 {
        return true;
      }
      return false;
    }

    /** Merge the counters of a duplicate handle; a refused merge changes nothing. */
    method MergeShare(dupe: FsalShare) returns (denied: bool)
      modifies this
      ensures denied == MergeConflict(old(View()), old(dupe.View()))
      ensures View() == if denied then old(View()) else Sum(old(View()), old(dupe.View()))
      ensures dupe != this ==> dupe.View() == old(dupe.View())
    {
      if dupe.accessRead > 0 && denyRead > 0 {
        return true;
      }
      if dupe.denyRead > 0 && accessRead > 0 {
        return true;
      }
      if dupe.accessWrite > 0 && denyWrite > 0 {
        return true;
      }
      if dupe.denyWrite > 0 && accessWrite > 0 {
        return true;
      }
      accessRead := accessRead + dupe.accessRead;
      accessWrite := accessWrite + dupe.accessWrite;
      denyRead := denyRead + dupe.denyRead;
      denyWrite := denyWrite + dupe.denyWrite;
      denyWriteMand := denyWriteMand + dupe.denyWriteMand;
      return false;
    }
  }

  // ----- what the counters count -----

  /** How many of the opens have a flag. */
  function Count(opens: seq<OpenMode>, f: OpenFlag): (n: nat)
    ensures n <= |opens|
  {
    if opens == [] then 0 else Count(opens[..|opens| - 1], f) + FlagBit(opens[|opens| - 1], f)
  }

  /** The counters equal the per-flag counts, the deny-write counter counting both kinds. */
  ghost predicate Counts(s: Counters, opens: seq<OpenMode>) {
    && s.accessRead == Count(opens, Read)
    && s.accessWrite == Count(opens, Write)
    && s.denyRead == Count(opens, DenyRead)
    && s.denyWrite == Count(opens, DenyWrite) + Count(opens, DenyWriteMand)
    && s.denyWriteMand == Count(opens, DenyWriteMand)
  }

  predicate DeniesWrite(m: OpenMode) { DenyWrite in m || DenyWriteMand in m }

  /** Two opens can coexist: neither reads or writes what the other denies
      (section 9.9 of RFC 7530). */
  predicate Compatible(a: OpenMode, b: OpenMode) {
    && !(Read in a && DenyRead in b) && !(Read in b && DenyRead in a)
    && !(Write in a && DeniesWrite(b)) && !(Write in b && DeniesWrite(a))
  }

  ghost predicate PairwiseCompatible(opens: seq<OpenMode>) {
    forall i, j :: 0 <= i < j < |opens| ==> Compatible(opens[i], opens[j])
  }

  ghost predicate CompatibleWithAll(m: OpenMode, opens: seq<OpenMode>) {
    forall i :: 0 <= i < |opens| ==> Compatible(m, opens[i])
  }

  lemma {:induction false} CountPositive(opens: seq<OpenMode>, f: OpenFlag)
    ensures Count(opens, f) > 0 <==> exists i :: 0 <= i < |opens| && f in opens[i]
  {
    if opens != [] {
      var p := opens[..|opens| - 1];
      CountPositive(p, f);
      if i :| 0 <= i < |p| && f in p[i] { assert f in opens[i]; }
      if i :| 0 <= i < |opens| && f in opens[i] {
        if i < |p| { assert f in p[i]; }
      }
    }
  }

  lemma {:induction false} CountConcat(s: seq<OpenMode>, t: seq<OpenMode>, f: OpenFlag)
    ensures Count(s + t, f) == Count(s, f) + Count(t, f)
    decreases |t|
  {
    if t == [] {
      assert s + t == s;
    } else {
      var n := |t| - 1;
      assert (s + t)[..|s + t| - 1] == s + t[..n];
      CountConcat(s, t[..n], f);
    }
  }

  lemma CountReplace(opens: seq<OpenMode>, i: nat, m: OpenMode, f: OpenFlag)
    requires i < |opens|
    ensures Count(opens[i := m], f) == Count(opens, f) - FlagBit(opens[i], f) + FlagBit(m, f)
  {
    var l, r := opens[..i], opens[i + 1..];
    assert opens == l + [opens[i]] + r;
    assert opens[i := m] == l + [m] + r;
    CountConcat(l + [opens[i]], r, f);
    CountConcat(l, [opens[i]], f);
    CountConcat(l + [m], r, f);
    CountConcat(l, [m], f);
    assert [opens[i]][..0] == [] && [m][..0] == [];
  }

  lemma CountRemove(opens: seq<OpenMode>, i: nat, f: OpenFlag)
    requires i < |opens|
    ensures Count(opens[..i] + opens[i + 1..], f) == Count(opens, f) - FlagBit(opens[i], f)
  {
    var l, r := opens[..i], opens[i + 1..];
    assert opens == l + [opens[i]] + r;
    CountConcat(l + [opens[i]], r, f);
    CountConcat(l, [opens[i]], f);
    CountConcat(l, r, f);
    assert [opens[i]][..0] == [];
  }

  lemma CountsGivePositive(s: Counters, opens: seq<OpenMode>)
    requires Counts(s, opens)
    ensures s.accessRead > 0 <==> exists i :: 0 <= i < |opens| && Read in opens[i]
    ensures s.accessWrite > 0 <==> exists i :: 0 <= i < |opens| && Write in opens[i]
    ensures s.denyRead > 0 <==> exists i :: 0 <= i < |opens| && DenyRead in opens[i]
    ensures s.denyWrite > 0 <==> exists i :: 0 <= i < |opens| && DeniesWrite(opens[i])
    ensures s.denyWriteMand > 0 <==> exists i :: 0 <= i < |opens| && DenyWriteMand in opens[i]
  {
    CountPositive(opens, Read);
    CountPositive(opens, Write);
    CountPositive(opens, DenyRead);
    CountPositive(opens, DenyWrite);
    CountPositive(opens, DenyWriteMand);
    if s.denyWrite > 0 {
      if i :| 0 <= i < |opens| && DenyWrite in opens[i] { assert DeniesWrite(opens[i]); }
      if i :| 0 <= i < |opens| && DenyWriteMand in opens[i] { assert DeniesWrite(opens[i]); }
    }
  }

  /** The check passes exactly when the new open is compatible with every live one. */
  lemma CheckIffCompatible(s: Counters, opens: seq<OpenMode>, m: OpenMode)
    requires Counts(s, opens)
    ensures !Conflict(s, m, false) <==> CompatibleWithAll(m, opens)
  {
    CountsGivePositive(s, opens);
    if Conflict(s, m, false) {
      var i :| 0 <= i < |opens| && !Compatible(m, opens[i]);
    }
  }

  /** A bypassing open ignores the denials of the others except the mandatory deny-write, but still
      has its own denials checked. */
  ghost predicate CompatibleOnBypass(m: OpenMode, o: OpenMode) {
    && !(Write in m && DenyWriteMand in o)
    && !(DenyRead in m && Read in o) && !(DeniesWrite(m) && Write in o)
  }

  lemma BypassedCheckIff(s: Counters, opens: seq<OpenMode>, m: OpenMode)
    requires Counts(s, opens)
    ensures !Conflict(s, m, true) <==> forall i :: 0 <= i < |opens| ==> CompatibleOnBypass(m, opens[i])
  {
    CountsGivePositive(s, opens);
    if Conflict(s, m, true) {
      var i :| 0 <= i < |opens| && !CompatibleOnBypass(m, opens[i]);
    }
  }

  lemma MergeCheckIff(s: Counters, opens: seq<OpenMode>, s': Counters, opens': seq<OpenMode>)
    requires Counts(s, opens) && Counts(s', opens')
    ensures !MergeConflict(s, s') <==>
            forall i, j :: 0 <= i < |opens| && 0 <= j < |opens'| ==> Compatible(opens[i], opens'[j])
  {
    CountsGivePositive(s, opens);
    CountsGivePositive(s', opens');
    if MergeConflict(s, s') {
      var i, j :| 0 <= i < |opens| && 0 <= j < |opens'| && !Compatible(opens[i], opens'[j]);
    }
  }

  // ----- runs -----

  /** A history of the share of one object handle.  A merge joins two histories. */
  datatype Run =
    | Start
    | Opening(prev: Run, mode: OpenMode)                   // checked, refused on conflict
    | Closing(prev: Run, which: nat)
    | Downgrade(prev: Run, which: nat, mode: OpenMode)     // gives up flags, unchecked
    | Reopen(prev: Run, which: nat, mode: OpenMode)        // checked against all opens, its own included
    | Merging(orig: Run, dupe: Run)

  datatype World = World(share: Counters, opens: seq<OpenMode>)

  function Opened(w: World, m: OpenMode): World {
    World(Updated(w.share, CLOSED, m), w.opens + [m])
  }

  function Replaced(w: World, i: nat, m: OpenMode): World
    requires i < |w.opens|
  {
    World(Updated(w.share, w.opens[i], m), w.opens[i := m])
  }

  /** The counters and the live opens after a history; steps on opens that do not exist, and
      downgrades that add flags, are no steps. */
  function After(r: Run): World {
    match r
    case Start => World(NO_OPENS, [])
    case Opening(prev, m) =>
      var w := After(prev);
      if Conflict(w.share, m, false) then w else Opened(w, m)
    case Closing(prev, i) =>
      var w := After(prev);
      if i >= |w.opens| then w
      else World(Updated(w.share, w.opens[i], CLOSED), w.opens[..i] + w.opens[i + 1..])
    case Downgrade(prev, i, m) =>
      var w := After(prev);
      if i >= |w.opens| || !(m <= w.opens[i]) then w
      else Replaced(w, i, m)
    case Reopen(prev, i, m) =>
      var w := After(prev);
      if i >= |w.opens| || Conflict(w.share, m, false) then w
      else Replaced(w, i, m)
    case Merging(orig, dupe) =>
      var w, d := After(orig), After(dupe);
      if MergeConflict(w.share, d.share) then w else World(Sum(w.share, d.share), w.opens + d.opens)
  }

  ghost predicate Sound(w: World) {
    Counts(w.share, w.opens) && PairwiseCompatible(w.opens)
  }

  lemma AddedOpenIsSound(w: World, m: OpenMode)
    requires Sound(w) && !Conflict(w.share, m, false)
    ensures Sound(Opened(w, m))
  {
    CheckIffCompatible(w.share, w.opens, m);
    forall f: OpenFlag ensures Count(w.opens + [m], f) == Count(w.opens, f) + FlagBit(m, f) {
      assert (w.opens + [m])[..|w.opens|] == w.opens;
    }
  }

  lemma RemovedOpenIsSound(w: World, i: nat)
    requires Sound(w) && i < |w.opens|
    ensures Sound(World(Updated(w.share, w.opens[i], CLOSED), w.opens[..i] + w.opens[i + 1..]))
  {
    forall f: OpenFlag ensures Count(w.opens[..i] + w.opens[i + 1..], f) == Count(w.opens, f) - FlagBit(w.opens[i], f) {
      CountRemove(w.opens, i, f);
    }
    var left := w.opens[..i] + w.opens[i + 1..];
    forall j, k | 0 <= j < k < |left| ensures Compatible(left[j], left[k]) {
      assert left[j] == w.opens[if j < i then j else j + 1] && left[k] == w.opens[if k < i then k else k + 1];
    }
  }

  /** Replacing the mode of an open is sound exactly when the new mode suits all the others. */
  lemma ReplacedOpenIsSoundIff(w: World, i: nat, m: OpenMode)
    requires Sound(w) && i < |w.opens|
    ensures Counts(Replaced(w, i, m).share, Replaced(w, i, m).opens)
    ensures Sound(Replaced(w, i, m)) <==> forall j :: 0 <= j < |w.opens| && j != i ==> Compatible(m, w.opens[j])
  {
    forall f: OpenFlag ensures Count(w.opens[i := m], f) == Count(w.opens, f) - FlagBit(w.opens[i], f) + FlagBit(m, f) {
      CountReplace(w.opens, i, m, f);
    }
    var after := w.opens[i := m];
    if PairwiseCompatible(after) {
      forall j | 0 <= j < |w.opens| && j != i ensures Compatible(m, w.opens[j]) {
        assert after[i] == m && after[j] == w.opens[j];
        assert if i < j then Compatible(after[i], after[j]) else Compatible(after[j], after[i]);
      }
    }
  }

  lemma DowngradeSuits(w: World, i: nat, m: OpenMode)
    requires Sound(w) && i < |w.opens| && m <= w.opens[i]
    ensures forall j :: 0 <= j < |w.opens| && j != i ==> Compatible(m, w.opens[j])
  {
  }

  lemma MergedIsSound(w: World, d: World)
    requires Sound(w) && Sound(d) && !MergeConflict(w.share, d.share)
    ensures Sound(World(Sum(w.share, d.share), w.opens + d.opens))
  {
    MergeCheckIff(w.share, w.opens, d.share, d.opens);
    forall f: OpenFlag ensures Count(w.opens + d.opens, f) == Count(w.opens, f) + Count(d.opens, f) {
      CountConcat(w.opens, d.opens, f);
    }
  }

  /** In every history of checked opens, closes, downgrades, checked reopens and merges: the five
      counters are the per-flag counts of the live opens (so none goes below zero), and any two live
      opens are compatible. */
  lemma {:induction false} EveryRunIsSound(r: Run)
    ensures Sound(After(r))
  {
    match r
    case Start =>
    case Opening(prev, m) =>
      EveryRunIsSound(prev);
      if !Conflict(After(prev).share, m, false) { AddedOpenIsSound(After(prev), m); }
    case Closing(prev, i) =>
      EveryRunIsSound(prev);
      if i < |After(prev).opens| { RemovedOpenIsSound(After(prev), i); }
    case Downgrade(prev, i, m) =>
      EveryRunIsSound(prev);
      var w := After(prev);
      if i < |w.opens| && m <= w.opens[i] {
        DowngradeSuits(w, i, m);
        ReplacedOpenIsSoundIff(w, i, m);
      }
    case Reopen(prev, i, m) =>
      EveryRunIsSound(prev);
      var w := After(prev);
      if i < |w.opens| && !Conflict(w.share, m, false) {
        CheckIffCompatible(w.share, w.opens, m);
        ReplacedOpenIsSoundIff(w, i, m);
      }
    case Merging(orig, dupe) =>
      EveryRunIsSound(orig);
      EveryRunIsSound(dupe);
      if !MergeConflict(After(orig).share, After(dupe).share) { MergedIsSound(After(orig), After(dupe)); }
  }

  /** A reopen whose file system open then fails puts the old mode back without a check, after the lock
      was given up and any history may have gone by.  That is sound exactly when the check, made on the
      counters without the open itself, would let the old mode in. */
  lemma RevertIsSoundIff(w: World, i: nat, before: OpenMode)
    requires Sound(w) && i < |w.opens|
    ensures Counts(Replaced(w, i, before).share, Replaced(w, i, before).opens)
    ensures Sound(Replaced(w, i, before)) <==> !Conflict(Updated(w.share, w.opens[i], CLOSED), before, false)
  {
    var others := w.opens[..i] + w.opens[i + 1..];
    ReplacedOpenIsSoundIff(w, i, before);
    RemovedOpenIsSound(w, i);
    CheckIffCompatible(Updated(w.share, w.opens[i], CLOSED), others, before);
    CompatibleWithOthers(w.opens, i, before);
  }

  lemma CompatibleWithOthers(opens: seq<OpenMode>, i: nat, m: OpenMode)
    requires i < |opens|
    ensures CompatibleWithAll(m, opens[..i] + opens[i + 1..])
            <==> forall j :: 0 <= j < |opens| && j != i ==> Compatible(m, opens[j])
  {
    var others := opens[..i] + opens[i + 1..];
    forall j | 0 <= j < |opens| && j != i ensures opens[j] == others[if j < i then j else j - 1] {
    }
    forall j | 0 <= j < |others| ensures others[j] == opens[if j < i then j else j + 1] {
    }
  }

  /** It does break: an open for reading and writing is reopened for reading only, a second client then
      opens with deny-write, and the revert leaves a writer beside it. */
  lemma RevertMayBreak(rw: OpenMode, ro: OpenMode, other: OpenMode)
    requires rw == {Read, Write} && ro == {Read} && other == {Read, DenyWrite}
    ensures var w := After(Opening(Reopen(Opening(Start, rw), 0, ro), other));
            w.opens == [ro, other] && !Sound(Replaced(w, 0, rw))
  {
    var w0, w1 := After(Opening(Start, rw)), After(Reopen(Opening(Start, rw), 0, ro));
    assert After(Start) == World(NO_OPENS, []) && !Conflict(NO_OPENS, rw, false);
    assert w0 == Opened(World(NO_OPENS, []), rw);
    assert w1 == Replaced(w0, 0, ro) && !Conflict(w1.share, other, false);
    var w := Opened(w1, other);
    var after := Replaced(w, 0, rw).opens;
    assert after[0] == rw && after[1] == other && !Compatible(rw, other);
  }
}
