/** Whole runs over the client id tables: any number of threads insert, look up, confirm, remove,
    expire and release records.  A thread gives back only references it has; the other operations are
    made on any record in memory, held by somebody or not, since their callers reach records through
    the client record as well. */
module ClientIdRuns {
  import opened Basics
  import opened ClientIds

  datatype Step =
    | InsertStep(cid: Cid)
    | GetStep(h: HolderId, confirmed: bool, cid: Cid, epoch: nat)
    | PutStep(h: HolderId)
    | ConfirmStep(r: RecId)
    | RemoveConfirmedStep(r: RecId)
    | RemoveUnconfirmedStep(r: RecId)
    | ExpireStep(r: RecId, makeStale: bool)

  predicate Holds(w: World, h: HolderId) { h in w.holders && w.holders[h] in w.recs }

  predicate Is(w: World, r: RecId, state: ConfState) { r in w.recs && w.recs[r].state == state }

  /** As the callers use them: confirm and remove match the record's state, and only records that are
      not unconfirmed are made stale.  Other steps are no steps. */
  function Next(w: World, s: Step): World {
    match s
    case InsertStep(cid) => Insert(w, cid)
    case GetStep(h, confirmed, cid, epoch) => if h in w.holders then w else Get(w, h, confirmed, cid, epoch).0
    case PutStep(h) => if Holds(w, h) then Put(w, h) else w
    case ConfirmStep(r) => if Is(w, r, Unconfirmed) then Confirm(w, r) else w
    case RemoveConfirmedStep(r) => if Is(w, r, Confirmed) || Is(w, r, Stale) then RemoveConfirmed(w, r) else w
    case RemoveUnconfirmedStep(r) => if Is(w, r, Unconfirmed) then RemoveUnconfirmed(w, r) else w
    case ExpireStep(r, makeStale) =>
      if r in w.recs && !(makeStale && Is(w, r, Unconfirmed)) then Expire(w, r, makeStale) else w
  }

  // ----- the invariant -----

  predicate InConf(s: ConfState) { s == Confirmed || s == Stale }

  /** A record is in the unconfirmed table iff it is unconfirmed, in the confirmed table iff it is
      confirmed or stale, and so in neither iff it is expired. */
  ghost predicate Tables(recs: map<RecId, Rec>, conf: map<Cid, RecId>, unconf: map<Cid, RecId>) {
    && (forall cid :: cid in unconf ==>
          unconf[cid] in recs && recs[unconf[cid]].cid == cid && recs[unconf[cid]].state == Unconfirmed)
    && (forall cid :: cid in conf ==> conf[cid] in recs && recs[conf[cid]].cid == cid && InConf(recs[conf[cid]].state))
    && (forall r :: r in recs && recs[r].state == Unconfirmed ==> recs[r].cid in unconf && unconf[recs[r].cid] == r)
    && (forall r :: r in recs && InConf(recs[r].state) ==> recs[r].cid in conf && conf[recs[r].cid] == r)
  }

  ghost function HoldersOf(holders: map<HolderId, RecId>, r: RecId): set<HolderId> {
    set h | h in holders && holders[h] == r
  }

  function TableRef(s: ConfState): int { if s == Expired then 0 else 1 }

  /** The count of a record is the references held plus one for the table while it is hashed; only
      expired records lose the last one. */
  ghost predicate References(recs: map<RecId, Rec>, holders: map<HolderId, RecId>) {
    && (forall h :: h in holders ==> holders[h] in recs)
    && (forall r :: r in recs ==>
          recs[r].refcount == |HoldersOf(holders, r)| + TableRef(recs[r].state) && recs[r].refcount > 0)
  }

  ghost predicate Inv(w: World) {
    && Tables(w.recs, w.conf, w.unconf)
    && References(w.recs, w.holders)
    && (forall r :: r in w.recs ==> r < w.next)
    && !w.aborted
  }

  // ----- holders -----

  lemma AddHolderOf(holders: map<HolderId, RecId>, h: HolderId, r: RecId, x: RecId)
    requires h !in holders
    ensures |HoldersOf(holders[h := r], x)| == |HoldersOf(holders, x)| + if x == r then 1 else 0
  {
    if x == r {
      assert HoldersOf(holders[h := r], x) == HoldersOf(holders, x) + {h};
    } else {
      assert HoldersOf(holders[h := r], x) == HoldersOf(holders, x);
    }
  }

  lemma AddHolder(holders: map<HolderId, RecId>, h: HolderId, r: RecId)
    requires h !in holders
    ensures forall x :: |HoldersOf(holders[h := r], x)| == |HoldersOf(holders, x)| + if x == r then 1 else 0
  {
    forall x ensures |HoldersOf(holders[h := r], x)| == |HoldersOf(holders, x)| + if x == r then 1 else 0 {
      AddHolderOf(holders, h, r, x);
    }
  }

  lemma RemoveHolderOf(holders: map<HolderId, RecId>, h: HolderId, x: RecId)
    requires h in holders
    ensures |HoldersOf(holders - {h}, x)| == |HoldersOf(holders, x)| - if x == holders[h] then 1 else 0
  {
    if x == holders[h] {
      assert HoldersOf(holders, x) == HoldersOf(holders - {h}, x) + {h};
    } else {
      assert HoldersOf(holders - {h}, x) == HoldersOf(holders, x);
    }
  }

  lemma RemoveHolder(holders: map<HolderId, RecId>, h: HolderId)
    requires h in holders
    ensures forall x :: |HoldersOf(holders - {h}, x)| == |HoldersOf(holders, x)| - if x == holders[h] then 1 else 0
    ensures |HoldersOf(holders, holders[h])| >= 1
  {
    forall x ensures |HoldersOf(holders - {h}, x)| == |HoldersOf(holders, x)| - if x == holders[h] then 1 else 0 {
      RemoveHolderOf(holders, h, x);
    }
    assert h in HoldersOf(holders, holders[h]);
  }

  // ----- steps -----

  lemma TablesInsert(recs: map<RecId, Rec>, conf: map<Cid, RecId>, unconf: map<Cid, RecId>, r: RecId, rec: Rec)
    requires Tables(recs, conf, unconf) && r !in recs && rec.cid !in unconf && rec.state == Unconfirmed
    ensures Tables(recs[r := rec], conf, unconf[rec.cid := r])
  {
  }

  lemma ReferencesInsert(recs: map<RecId, Rec>, holders: map<HolderId, RecId>, r: RecId, rec: Rec)
    requires References(recs, holders) && r !in recs && rec.state != Expired && rec.refcount == 1
    ensures References(recs[r := rec], holders)
  {
  }

  lemma InsertKeeps(w: World, cid: Cid)
    requires Inv(w)
    ensures Inv(Insert(w, cid))
  {
    if cid !in w.unconf {
      assert w.next !in w.recs;
      var rec := Insert(w, cid).recs[w.next];
      TablesInsert(w.recs, w.conf, w.unconf, w.next, rec);
      ReferencesInsert(w.recs, w.holders, w.next, rec);
    }
  }

  lemma TablesCount(recs: map<RecId, Rec>, conf: map<Cid, RecId>, unconf: map<Cid, RecId>, r: RecId, n: int)
    requires Tables(recs, conf, unconf) && r in recs
    ensures Tables(recs[r := recs[r].(refcount := n)], conf, unconf)
  {
  }

  lemma TablesFree(recs: map<RecId, Rec>, conf: map<Cid, RecId>, unconf: map<Cid, RecId>, r: RecId)
    requires Tables(recs, conf, unconf) && r in recs && recs[r].state == Expired
    ensures Tables(recs - {r}, conf, unconf)
  {
  }

  lemma ReferencesGrow(recs: map<RecId, Rec>, holders: map<HolderId, RecId>, h: HolderId, r: RecId)
    requires References(recs, holders) && h !in holders && r in recs
    ensures References(recs[r := recs[r].(refcount := recs[r].refcount + 1)], holders[h := r])
  {
    AddHolder(holders, h, r);
  }

  lemma GetFoundKeeps(w: World, h: HolderId, r: RecId)
    requires Inv(w) && h !in w.holders && r in w.recs
    ensures Inv(IncRef(w, r).(holders := w.holders[h := r]))
  {
    TablesCount(w.recs, w.conf, w.unconf, r, w.recs[r].refcount + 1);
    ReferencesGrow(w.recs, w.holders, h, r);
  }

  lemma UpAndDown(w: World, r: RecId)
    requires r in w.recs && w.recs[r].refcount > 0
    ensures DecRef(IncRef(w, r), r) == w
  {
  }

  lemma GetKeeps(w: World, h: HolderId, confirmed: bool, cid: Cid, epoch: nat)
    requires Inv(w) && h !in w.holders
    ensures Inv(Get(w, h, confirmed, cid, epoch).0)
  {
    var table := if confirmed then w.conf else w.unconf;
    if EpochMatches(cid, epoch) && cid in table && table[cid] in w.recs {
      GetFoundKeeps(w, h, table[cid]);
      UpAndDown(w, table[cid]);
    }
  }

  lemma ReferencesShrink(recs: map<RecId, Rec>, holders: map<HolderId, RecId>, h: HolderId)
    requires References(recs, holders) && h in holders && recs[holders[h]].refcount > 1
    ensures var r := holders[h]; References(recs[r := recs[r].(refcount := recs[r].refcount - 1)], holders - {h})
  {
    RemoveHolder(holders, h);
  }

  lemma ReferencesFree(recs: map<RecId, Rec>, holders: map<HolderId, RecId>, h: HolderId)
    requires References(recs, holders) && h in holders && recs[holders[h]].refcount == 1
    ensures References(recs - {holders[h]}, holders - {h})
    ensures recs[holders[h]].state == Expired
    ensures HoldersOf(holders, holders[h]) == {h}
  {
    var r := holders[h];
    RemoveHolder(holders, h);
    var rest := HoldersOf(holders - {h}, r);
    assert |rest| == 0 && rest == {};
    assert HoldersOf(holders, r) == rest + {h};
    forall x | x in holders - {h} ensures holders[x] != r {
      assert x !in rest;
    }
  }

  lemma PutKeeps(w: World, h: HolderId)
    requires Inv(w) && Holds(w, h)
    ensures Inv(Put(w, h))
  {
    var r := w.holders[h];
    if w.recs[r].refcount == 1 {
      ReferencesFree(w.recs, w.holders, h);
      TablesFree(w.recs, w.conf, w.unconf, r);
    } else {
      ReferencesShrink(w.recs, w.holders, h);
      TablesCount(w.recs, w.conf, w.unconf, r, w.recs[r].refcount - 1);
    }
  }

  /** A record taken out of its table: expired, without the table's reference, and freed if that was the
      last one. */
  function Unhashed(w: World, r: RecId): World
    requires r in w.recs
  {
    var rec := w.recs[r];
    w.(recs := if rec.refcount > 1 then w.recs[r := Rec(rec.cid, Expired, rec.refcount - 1)] else w.recs - {r},
       conf := if InConf(rec.state) then w.conf - {rec.cid} else w.conf,
       unconf := if rec.state == Unconfirmed then w.unconf - {rec.cid} else w.unconf)
  }

  lemma UnhashedTables(w: World, r: RecId)
    requires Tables(w.recs, w.conf, w.unconf) && r in w.recs && w.recs[r].state != Expired
    ensures Tables(Unhashed(w, r).recs, Unhashed(w, r).conf, Unhashed(w, r).unconf)
  {
    var w', cid := Unhashed(w, r), w.recs[r].cid;
    forall x | x in w'.recs && x != r && w'.recs[x].state == Unconfirmed ensures w'.recs[x].cid in w'.unconf {
      assert w.unconf[w.recs[x].cid] == x;
    }
    forall x | x in w'.recs && x != r && InConf(w'.recs[x].state) ensures w'.recs[x].cid in w'.conf {
      assert w.conf[w.recs[x].cid] == x;
    }
  }

  lemma UnhashedReferences(w: World, r: RecId)
    requires References(w.recs, w.holders) && r in w.recs && w.recs[r].state != Expired
    ensures References(Unhashed(w, r).recs, w.holders)
    ensures r !in Unhashed(w, r).recs <==> HoldersOf(w.holders, r) == {}
  {
    var held := HoldersOf(w.holders, r);
    assert w.recs[r].refcount == |held| + 1;
    assert |held| == 0 <==> held == {};
    if held == {} {
      forall h | h in w.holders ensures w.holders[h] != r {
        assert h !in held;
      }
    }
  }

  lemma UnhashedKeeps(w: World, r: RecId)
    requires Inv(w) && r in w.recs && w.recs[r].state != Expired
    ensures Inv(Unhashed(w, r))
    ensures r !in Unhashed(w, r).recs <==> HoldersOf(w.holders, r) == {}
  {
    UnhashedTables(w, r);
    UnhashedReferences(w, r);
  }

  lemma TablesStale(recs: map<RecId, Rec>, conf: map<Cid, RecId>, unconf: map<Cid, RecId>, r: RecId)
    requires Tables(recs, conf, unconf) && r in recs && InConf(recs[r].state)
    ensures Tables(recs[r := recs[r].(state := Stale)], conf, unconf)
  {
  }

  lemma MarkedKeeps(w: World, r: RecId)
    requires Inv(w) && r in w.recs && InConf(w.recs[r].state)
    ensures Inv(SetState(w, r, Stale))
  {
    TablesStale(w.recs, w.conf, w.unconf, r);
  }

  /** The record is in the table its state says, and counted for it. */
  ghost predicate WellHashed(w: World, r: RecId) {
    && r in w.recs && w.recs[r].refcount >= 1
    && (w.recs[r].state == Unconfirmed ==> w.recs[r].cid in w.unconf)
    && (InConf(w.recs[r].state) ==> w.recs[r].cid in w.conf)
  }

  /** Every way of taking a record out of its table comes to the same. */
  lemma AllUnhash(w: World, r: RecId)
    requires WellHashed(w, r) && w.recs[r].state != Expired
    ensures Expire(w, r, false) == Unhashed(w, r)
    ensures w.recs[r].state == Unconfirmed ==> RemoveUnconfirmed(w, r) == Unhashed(w, r)
    ensures InConf(w.recs[r].state) ==> RemoveConfirmed(w, r) == Unhashed(w, r)
    ensures w.recs[r].state == Unconfirmed && w.recs[r].cid in w.conf ==> Confirm(w, r) == Unhashed(w, r)
  {
    var rec := w.recs[r];
    assert w.recs[r := rec.(state := Confirmed)][r := rec.(state := Expired)] == w.recs[r := rec.(state := Expired)];
    if rec.refcount > 1 {
      assert w.recs[r := rec.(state := Expired)][r := Rec(rec.cid, Expired, rec.refcount - 1)] == Unhashed(w, r).recs;
    } else {
      assert w.recs[r := rec.(state := Expired)] - {r} == Unhashed(w, r).recs;
    }
  }

  /** Does the step take the record out of its table? */
  predicate Unhashes(w: World, s: Step, r: RecId) {
    match s
    case ConfirmStep(x) => x == r && Is(w, r, Unconfirmed) && w.recs[r].cid in w.conf
    case RemoveConfirmedStep(x) => x == r && (Is(w, r, Confirmed) || Is(w, r, Stale))
    case RemoveUnconfirmedStep(x) => x == r && Is(w, r, Unconfirmed)
    case ExpireStep(x, makeStale) => x == r && r in w.recs && !makeStale && w.recs[r].state != Expired
    case _ => false
  }

  lemma UnhashingStep(w: World, s: Step, r: RecId)
    requires Inv(w) && Unhashes(w, s, r)
    ensures r in w.recs && w.recs[r].state != Expired && Next(w, s) == Unhashed(w, r)
    ensures Inv(Next(w, s))
    ensures r !in Next(w, s).recs <==> HoldersOf(w.holders, r) == {}
  {
    assert WellHashed(w, r);
    AllUnhash(w, r);
    UnhashedKeeps(w, r);
  }

  lemma ConfirmedTables(recs: map<RecId, Rec>, conf: map<Cid, RecId>, unconf: map<Cid, RecId>, r: RecId)
    requires Tables(recs, conf, unconf) && r in recs && recs[r].state == Unconfirmed && recs[r].cid !in conf
    ensures Tables(recs[r := recs[r].(state := Confirmed)], conf[recs[r].cid := r], unconf - {recs[r].cid})
  {
  }

  lemma ConfirmedKeeps(w: World, r: RecId)
    requires Inv(w) && Is(w, r, Unconfirmed) && w.recs[r].cid !in w.conf
    ensures Inv(Confirm(w, r)) && Confirm(w, r).recs.Keys == w.recs.Keys
  {
    ConfirmedTables(w.recs, w.conf, w.unconf, r);
  }

  /** A step on a record that does not unhash it: it confirms it, marks it stale, or does nothing. */
  lemma OtherRecordStepKeeps(w: World, s: Step)
    requires Inv(w) && !s.InsertStep? && !s.GetStep? && !s.PutStep?
    requires !Unhashes(w, s, s.r)
    ensures Inv(Next(w, s)) && Next(w, s).recs.Keys == w.recs.Keys
  {
    if s.ConfirmStep? && Is(w, s.r, Unconfirmed) { ConfirmedKeeps(w, s.r); }
    if s.ExpireStep? && s.r in w.recs && InConf(w.recs[s.r].state) { MarkedKeeps(w, s.r); }
  }

  lemma StepKeeps(w: World, s: Step)
    requires Inv(w)
    ensures Inv(Next(w, s))
  {
    match s
    case InsertStep(cid) => InsertKeeps(w, cid);
    case GetStep(h, confirmed, cid, epoch) => if h !in w.holders { GetKeeps(w, h, confirmed, cid, epoch); }
    case PutStep(h) => if Holds(w, h) { PutKeeps(w, h); }
    case _ => if Unhashes(w, s, s.r) { UnhashingStep(w, s, s.r); } else { OtherRecordStepKeeps(w, s); }
  }

  function After(steps: seq<Step>): World {
    if steps == [] then EMPTY else Next(After(steps[..|steps| - 1]), steps[|steps| - 1])
  }

  lemma {:induction false} EveryRunKeeps(steps: seq<Step>)
    ensures Inv(After(steps))
  {
    if steps == [] {
      assert forall r :: r !in EMPTY.recs;
    } else {
      EveryRunKeeps(steps[..|steps| - 1]);
      StepKeeps(After(steps[..|steps| - 1]), steps[|steps| - 1]);
    }
  }

  /** Over every run: membership of the tables follows the state, a hashed record carries exactly one
      table reference, a held record is never freed, and the server never gives up. */
  lemma TablesFollowStates(steps: seq<Step>, r: RecId)
    requires r in After(steps).recs
    ensures var w := After(steps); var rec := w.recs[r];
            && ((rec.cid in w.unconf && w.unconf[rec.cid] == r) <==> rec.state == Unconfirmed)
            && ((rec.cid in w.conf && w.conf[rec.cid] == r) <==> rec.state == Confirmed || rec.state == Stale)
            && rec.refcount == |HoldersOf(w.holders, r)| + TableRef(rec.state)
            && (forall h :: h in w.holders ==> w.holders[h] in w.recs)
            && !w.aborted
  {
    EveryRunKeeps(steps);
  }

  lemma InsertAndGetFreeNothing(w: World, s: Step)
    requires Inv(w) && (s.InsertStep? || s.GetStep?)
    ensures forall r :: r in w.recs ==> r in Next(w, s).recs
  {
    if s.GetStep? {
      var table := if s.confirmed then w.conf else w.unconf;
      if EpochMatches(s.cid, s.epoch) && s.cid in table && table[s.cid] in w.recs { UpAndDown(w, table[s.cid]); }
    }
  }

  lemma PutFreesIff(w: World, h: HolderId, r: RecId)
    requires Inv(w) && r in w.recs
    ensures r !in Next(w, PutStep(h)).recs <==> w.recs[r].state == Expired && HoldersOf(w.holders, r) == {h}
  {
    var held := HoldersOf(w.holders, r);
    if Holds(w, h) && w.holders[h] == r {
      if w.recs[r].refcount == 1 {
        ReferencesFree(w.recs, w.holders, h);
      } else {
        assert w.recs[r].state == Expired ==> |held| != 1;
      }
    } else {
      assert held == {h} ==> h in held;
    }
  }

  lemma RecordStepFreesIff(w: World, s: Step, r: RecId)
    requires Inv(w) && !s.InsertStep? && !s.GetStep? && !s.PutStep? && r in w.recs
    ensures r !in Next(w, s).recs <==> Unhashes(w, s, r) && HoldersOf(w.holders, r) == {}
  {
    if Unhashes(w, s, s.r) {
      UnhashingStep(w, s, s.r);
    } else {
      OtherRecordStepKeeps(w, s);
    }
  }

  /** Over every run, exactly when a record leaves memory: the only holder of an expired record gives its
      reference back, or a record nobody holds is taken out of its table, which makes it expired. */
  lemma FreedIff(steps: seq<Step>, s: Step, r: RecId)
    requires r in After(steps).recs
    ensures var w := After(steps);
            r !in Next(w, s).recs <==>
            || (s.PutStep? && w.recs[r].state == Expired && HoldersOf(w.holders, r) == {s.h})
            || (Unhashes(w, s, r) && HoldersOf(w.holders, r) == {})
  {
    EveryRunKeeps(steps);
    var w := After(steps);
    match s
    case InsertStep(_) => InsertAndGetFreeNothing(w, s);
    case GetStep(_, _, _, _) => InsertAndGetFreeNothing(w, s);
    case PutStep(h) => PutFreesIff(w, h, r);
    case _ => RecordStepFreesIff(w, s, r);
  }

  /** In particular a record that was inserted and never looked up is freed by its removal. */
  lemma UnheldRemovalFrees(steps: seq<Step>, r: RecId)
    requires Is(After(steps), r, Unconfirmed) && HoldersOf(After(steps).holders, r) == {}
    ensures var w := Next(After(steps), RemoveUnconfirmedStep(r)); r !in w.recs && Inv(w)
  {
    EveryRunKeeps(steps);
    UnhashingStep(After(steps), RemoveUnconfirmedStep(r), r);
  }

  /** Without the proviso the server can be brought down: a record made stale while unconfirmed stays
      in the unconfirmed table, and expiring it later looks in the confirmed table only.  Expiring a
      record is fatal exactly when the table its state points to does not have its id; for records in the
      table of their state that leaves the stale ones. */
  lemma ExpiryIsFatalIff(w: World, r: RecId)
    requires !w.aborted && r in w.recs && w.recs[r].state != Expired
    ensures Expire(w, r, false).aborted <==>
            w.recs[r].cid !in if w.recs[r].state == Unconfirmed then w.unconf else w.conf
    ensures (w.recs[r].state == Unconfirmed ==> w.recs[r].cid in w.unconf)
            && (w.recs[r].state == Confirmed ==> w.recs[r].cid in w.conf) ==>
            (Expire(w, r, false).aborted <==> w.recs[r].state == Stale && w.recs[r].cid !in w.conf)
  {
  }

  /** A record in use that loses its last reference is the other fatal case; it is not freed then. */
  lemma LosingTheLastReference(w: World, r: RecId)
    requires !w.aborted && r in w.recs
    ensures DecRef(w, r).aborted <==> w.recs[r].refcount <= 1 && w.recs[r].state != Expired
    ensures r !in DecRef(w, r).recs <==> w.recs[r].refcount <= 1 && w.recs[r].state == Expired
  {
  }

  /** From any reachable state: make an unconfirmed record stale, expire it, and that state is
      reached, unless a confirmed record has the same id. */
  lemma StaleUnconfirmedIsFatal(steps: seq<Step>, r: RecId)
    requires Is(After(steps), r, Unconfirmed)
    ensures var w := After(steps);
            Expire(Expire(w, r, true), r, false).aborted <==> w.recs[r].cid !in w.conf
  {
    EveryRunKeeps(steps);
    ExpiryIsFatalIff(Expire(After(steps), r, true), r);
  }
}
