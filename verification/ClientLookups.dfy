/** What the operations on client ids achieve, over every run: what lookups find, that an inserted record
    is found, that confirming confirms, and that a removed or expired record is found no more. */
module ClientLookups {
  import opened Basics
  import opened ClientIds
  import opened ClientIdRuns

  // ----- lookups -----

  /** The record a lookup should find: of the id asked for, in the state asked for. */
  predicate Wanted(w: World, r: RecId, confirmed: bool, cid: Cid) {
    r in w.recs && w.recs[r].cid == cid && w.recs[r].state == if confirmed then Confirmed else Unconfirmed
  }

  /** The record a confirmed lookup meets and does not take. */
  predicate MadeStale(w: World, r: RecId, confirmed: bool, cid: Cid) {
    confirmed && r in w.recs && w.recs[r].cid == cid && w.recs[r].state == Stale
  }

  /** The table looked in holds the record wanted or made stale, if there is one, and nothing else. */
  ghost predicate Answers(w: World, table: map<Cid, RecId>, confirmed: bool, cid: Cid) {
    && (cid in table ==> Wanted(w, table[cid], confirmed, cid) || MadeStale(w, table[cid], confirmed, cid))
    && (forall r :: Wanted(w, r, confirmed, cid) || MadeStale(w, r, confirmed, cid) ==>
          cid in table && table[cid] == r)
  }

  lemma TableAnswers(w: World, confirmed: bool, cid: Cid)
    requires Tables(w.recs, w.conf, w.unconf)
    ensures Answers(w, if confirmed then w.conf else w.unconf, confirmed, cid)
  {
  }

  lemma LookupIn(w: World, h: HolderId, confirmed: bool, cid: Cid, epoch: nat)
    requires Answers(w, if confirmed then w.conf else w.unconf, confirmed, cid)
    requires forall r :: r in w.recs ==> w.recs[r].refcount > 0
    ensures var (w', found) := Get(w, h, confirmed, cid, epoch);
            var ours := cid / 0x1_0000_0000 == epoch % 0x1_0000_0000;
            && (!ours ==> found == IsStale)
            && (forall r :: ours && Wanted(w, r, confirmed, cid) ==>
                  && found == Found(r)
                  && w' == w.(recs := w.recs[r := w.recs[r].(refcount := w.recs[r].refcount + 1)],
                              holders := w.holders[h := r]))
            && (forall r :: ours && MadeStale(w, r, confirmed, cid) ==> found == IsStale)
            && ((ours && forall r :: !Wanted(w, r, confirmed, cid) && !MadeStale(w, r, confirmed, cid)) ==>
                  found == IsExpired)
            && (found.Found? || w' == w)
  {
    var table := if confirmed then w.conf else w.unconf;
    if cid in table { UpAndDown(w, table[cid]); }
  }

  /** After every run a lookup with the right epoch finds exactly the confirmed, or the unconfirmed,
      record with the id and takes a reference to it; it says "stale" when a confirmed lookup meets a stale
      record, and "expired" otherwise.  With the wrong epoch it says "stale".  Only a find changes
      anything. */
  lemma LookupExactly(steps: seq<Step>, h: HolderId, confirmed: bool, cid: Cid, epoch: nat)
    requires h !in After(steps).holders
    ensures var w := After(steps); var (w', found) := Get(w, h, confirmed, cid, epoch);
            var ours := cid / 0x1_0000_0000 == epoch % 0x1_0000_0000;
            && (!ours ==> found == IsStale)
            && (forall r :: ours && Wanted(w, r, confirmed, cid) ==>
                  && found == Found(r)
                  && w' == w.(recs := w.recs[r := w.recs[r].(refcount := w.recs[r].refcount + 1)],
                              holders := w.holders[h := r]))
            && (forall r :: ours && MadeStale(w, r, confirmed, cid) ==> found == IsStale)
            && ((ours && forall r :: !Wanted(w, r, confirmed, cid) && !MadeStale(w, r, confirmed, cid)) ==>
                  found == IsExpired)
            && (found.Found? || w' == w)
  {
    EveryRunKeeps(steps);
    TableAnswers(After(steps), confirmed, cid);
    LookupIn(After(steps), h, confirmed, cid, epoch);
  }

  /** At most one record is wanted, so the lookup has no choice. */
  lemma WantedIsUnique(steps: seq<Step>, r: RecId, r': RecId, confirmed: bool, cid: Cid)
    requires Wanted(After(steps), r, confirmed, cid) && Wanted(After(steps), r', confirmed, cid)
    ensures r == r'
  {
    EveryRunKeeps(steps);
  }

  /** Ids of this epoch match it, and ids of another one do not. */
  lemma IdsOfOtherEpochs(counter: nat, epoch: nat, n: nat, epoch': nat)
    ensures EpochMatches(NthId(counter, epoch, n), epoch') <==> epoch % U32 == epoch' % U32
  {
    IdParts((counter + n) % U32, epoch);
  }

  // ----- inserting -----

  /** After every run: inserting an id no unconfirmed record has makes a new unconfirmed record with the
      table's reference only, which a lookup then finds; otherwise nothing in memory or in the tables
      changes. */
  lemma InsertedIsFound(steps: seq<Step>, cid: Cid)
    ensures var w := After(steps); var w' := Next(w, InsertStep(cid));
            if exists r :: Is(w, r, Unconfirmed) && w.recs[r].cid == cid then
              w'.recs == w.recs && w'.conf == w.conf && w'.unconf == w.unconf && w'.holders == w.holders
            else
              && w.next !in w.recs && w'.recs == w.recs[w.next := Rec(cid, Unconfirmed, 1)]
              && w'.conf == w.conf && w'.holders == w.holders && Wanted(w', w.next, false, cid)
  {
    EveryRunKeeps(steps);
    var w := After(steps);
    if cid in w.unconf { assert Is(w, w.unconf[cid], Unconfirmed); }
  }

  // ----- confirming -----

  /** After every run: confirming an unconfirmed record whose id no confirmed or stale record has makes it
      confirmed, in the confirmed table and no longer in the other, with its count and everybody's
      references kept; a confirmed lookup then finds it. */
  lemma ConfirmConfirms(steps: seq<Step>, r: RecId)
    requires Is(After(steps), r, Unconfirmed)
    requires var w := After(steps);
             forall x :: x in w.recs && w.recs[x].cid == w.recs[r].cid ==> !InConf(w.recs[x].state)
    ensures var w := After(steps); var w' := Next(w, ConfirmStep(r)); var cid := w.recs[r].cid;
            && w'.recs == w.recs[r := Rec(cid, Confirmed, w.recs[r].refcount)] && w'.holders == w.holders
            && w'.conf == w.conf[cid := r] && cid !in w'.unconf && Wanted(w', r, true, cid)
            && (forall c :: c != cid ==> (c in w'.unconf <==> c in w.unconf))
  {
    EveryRunKeeps(steps);
  }

  /** If there is such a record the confirming fails and the unconfirmed record is expired. */
  lemma ConfirmFails(steps: seq<Step>, r: RecId, x: RecId)
    requires Is(After(steps), r, Unconfirmed)
    requires var w := After(steps); x in w.recs && w.recs[x].cid == w.recs[r].cid && InConf(w.recs[x].state)
    ensures Unhashes(After(steps), ConfirmStep(r), r)
  {
    EveryRunKeeps(steps);
  }

  // ----- removing, expiring, making stale -----

  /** After every run: a record taken out of its table is expired, if it is still in memory, with the
      references of its holders only; nothing happens to other records or to anybody's references; and no
      lookup finds it any more. */
  lemma UnhashedIsNotFound(steps: seq<Step>, s: Step, r: RecId, confirmed: bool, cid: Cid)
    requires Unhashes(After(steps), s, r)
    ensures var w := After(steps); var w' := Next(w, s);
            && (r in w'.recs ==> w'.recs[r] == Rec(w.recs[r].cid, Expired, |HoldersOf(w.holders, r)|))
            && (forall x :: x != r ==> (x in w'.recs <==> x in w.recs) && (x in w.recs ==> w'.recs[x] == w.recs[x]))
            && w'.holders == w.holders && !Wanted(w', r, confirmed, cid)
  {
    EveryRunKeeps(steps);
    UnhashingStep(After(steps), s, r);
    UnhashedEffect(After(steps), r);
  }

  lemma UnhashedEffect(w: World, r: RecId)
    requires References(w.recs, w.holders) && r in w.recs && w.recs[r].state != Expired
    ensures var w' := Unhashed(w, r);
            && (r in w'.recs ==> w'.recs[r] == Rec(w.recs[r].cid, Expired, |HoldersOf(w.holders, r)|))
            && (forall x :: x != r ==> (x in w'.recs <==> x in w.recs) && (x in w.recs ==> w'.recs[x] == w.recs[x]))
            && w'.holders == w.holders
  {
  }

  /** Made stale, a confirmed record is found no more either, though it stays where it is. */
  lemma StaleIsNotFound(steps: seq<Step>, r: RecId, confirmed: bool, cid: Cid)
    requires Is(After(steps), r, Confirmed)
    ensures var w := After(steps); var w' := Next(w, ExpireStep(r, true));
            && w' == w.(recs := w.recs[r := w.recs[r].(state := Stale)])
            && !Wanted(w', r, confirmed, cid)
  {
  }
}
