/** Client id records and their two hash tables (nfs4_clientid.c): insertion, confirmation, removal,
    expiry, lookup, and the reference counts that decide when a record is freed. */
module ClientIds {
  import opened Basics

  // ----- client id numbers -----

  /** A client id is the low half of the server epoch followed by a 32-bit counter. */
  function NewClientId(counter: nat, epoch: nat): nat {
    (counter + 1) % U32 + (epoch % U32) * U32
  }

  predicate EpochMatches(cid: nat, epoch: nat) { cid / U32 == epoch % U32 }

  /** The n-th id handed out from a counter value. */
  function NthId(counter: nat, epoch: nat, n: nat): nat { NewClientId((counter + n) % U32, epoch) }

  /** New ids pass the epoch test of the lookup, and 2^32 successive ones are all different. */
  lemma NewIdsMatchAndDiffer(counter: nat, epoch: nat, m: nat, n: nat)
    requires m < n < m + U32
    ensures EpochMatches(NthId(counter, epoch, m), epoch)
    ensures NthId(counter, epoch, m) != NthId(counter, epoch, n)
  {
    IdParts((counter + m) % U32, epoch);
    IdParts((counter + n) % U32, epoch);
    CountersDiffer(counter, m, n);
  }

  lemma IdParts(counter: nat, epoch: nat)
    ensures NewClientId(counter, epoch) / U32 == epoch % U32
    ensures NewClientId(counter, epoch) % U32 == (counter + 1) % U32
  {
  }

  lemma CountersDiffer(counter: nat, m: nat, n: nat)
    requires m < n < m + U32
    ensures ((counter + m) % U32 + 1) % U32 != ((counter + n) % U32 + 1) % U32
  {
  }

  // ----- records and tables -----

  type Cid = nat
  type RecId = nat     // a record, by its address
  type HolderId = nat  // a reference held by some thread

  datatype ConfState = Unconfirmed | Confirmed | Stale | Expired

  datatype Rec = Rec(cid: Cid, state: ConfState, refcount: int)

  /** `recs` holds the records not yet freed; `aborted` is set when the server gives up in
      nfs_client_id_expire or finds a live record without references. */
  datatype World = World(recs: map<RecId, Rec>, conf: map<Cid, RecId>, unconf: map<Cid, RecId>,
                         holders: map<HolderId, RecId>, next: RecId, aborted: bool)

  const EMPTY := World(map[], map[], map[], map[], 0, false)

  function IncRef(w: World, r: RecId): World
    requires r in w.recs
  {
    w.(recs := w.recs[r := w.recs[r].(refcount := w.recs[r].refcount + 1)])
  }

  /** The last reference frees an expired record; a live record must not lose its last reference. */
  function DecRef(w: World, r: RecId): World
    requires r in w.recs
  {
    var rec := w.recs[r].(refcount := w.recs[r].refcount - 1);
    if rec.refcount > 0 then w.(recs := w.recs[r := rec])
    else if rec.state == Expired then w.(recs := w.recs - {r})
    else w.(recs := w.recs[r := rec], aborted := true)
  }

  function SetState(w: World, r: RecId, s: ConfState): World
    requires r in w.recs
  {
    w.(recs := w.recs[r := w.recs[r].(state := s)])
  }

  /** Create a record and enter it as unconfirmed; if the id is taken the record is freed. */
  function Insert(w: World, cid: Cid): World {
    if cid in w.unconf then w.(next := w.next + 1)
    else
      w.(recs := w.recs[w.next := Rec(cid, Unconfirmed, 1)], unconf := w.unconf[cid := w.next], next := w.next + 1)
  }

  function Confirm(w: World, r: RecId): World
    requires r in w.recs
  {
    var cid := w.recs[r].cid;
    if cid !in w.unconf then w
    else
      var w1 := SetState(w.(unconf := w.unconf - {cid}), r, Confirmed);
      if cid !in w1.conf then w1.(conf := w1.conf[cid := r])
      else DecRef(SetState(w1, r, Expired), r)
  }

  function RemoveConfirmed(w: World, r: RecId): World
    requires r in w.recs
  {
    var cid := w.recs[r].cid;
    if cid !in w.conf then w else DecRef(SetState(w.(conf := w.conf - {cid}), r, Expired), r)
  }

  function RemoveUnconfirmed(w: World, r: RecId): World
    requires r in w.recs
  {
    var cid := w.recs[r].cid;
    if cid !in w.unconf then w else DecRef(SetState(w.(unconf := w.unconf - {cid}), r, Expired), r)
  }

  /** Expiry picks the table by the state the record had.  The second attempt, on the unconfirmed
      table for stale records, is guarded by the state the record has by then, which is Expired: it
      is never made. */
  function Expire(w: World, r: RecId, makeStale: bool): World
    requires r in w.recs
  {
    var rec := w.recs[r];
    if rec.state == Expired then w
    else if makeStale then SetState(w, r, Stale)
    else
      var w1 := SetState(w, r, Expired);
      if rec.state == Confirmed || rec.state == Stale then
        (if rec.cid in w.conf then DecRef(w1.(conf := w.conf - {rec.cid}), r) else w1.(aborted := true))
      else
        (if rec.cid in w.unconf then DecRef(w1.(unconf := w.unconf - {rec.cid}), r) else w1.(aborted := true))
  }

  datatype Lookup = Found(r: RecId) | IsStale | IsExpired

  /** A lookup takes a reference, and gives it back if the record turns out to be stale. */
  function Get(w: World, h: HolderId, confirmed: bool, cid: Cid, epoch: nat): (World, Lookup) {
    var table := if confirmed then w.conf else w.unconf;
    if !EpochMatches(cid, epoch) then (w, IsStale)
    else if cid !in table || table[cid] !in w.recs then (w, IsExpired)
    else
      var r := table[cid];
      var w1 := IncRef(w, r);
      if w1.recs[r].state == Stale then (DecRef(w1, r), IsStale)
      else (w1.(holders := w1.holders[h := r]), Found(r))
  }

  function Put(w: World, h: HolderId): World
    requires h in w.holders && w.holders[h] in w.recs
  {
    DecRef(w, w.holders[h]).(holders := w.holders - {h})
  }

  // ----- the tables as they are worked on -----

  class ClientTables {
    var recs: map<RecId, Rec>
    var conf: map<Cid, RecId>
    var unconf: map<Cid, RecId>
    var holders: map<HolderId, RecId>
    var next: RecId
    var aborted: bool

    function View(): World
      reads this
    {
      World(recs, conf, unconf, holders, next, aborted)
    }

    constructor ()
      ensures View() == EMPTY
    {
      recs, conf, unconf, holders, next, aborted := map[], map[], map[], map[], 0, false;
    }

    method DecClientIdRef(r: RecId)
      requires r in recs
      modifies this`recs, this`aborted
      ensures View() == DecRef(old(View()), r)
    {
      var rec := recs[r].(refcount := recs[r].refcount - 1);
      recs := recs[r := rec];
      if rec.refcount > 0 {
        return;
      }
      if rec.state == Expired {
        assert old(recs)[r := rec] - {r} == old(recs) - {r};
        recs := recs - {r};
      } else {
        aborted := true;
      }
    }

    /** A new record enters the unconfirmed table, or is freed if its id is taken. */
    method InsertClientId(cid: Cid) returns (done: bool)
      modifies this
      ensures View() == Insert(old(View()), cid) && done == (cid !in old(unconf))
    {
      var r, rec := next, Rec(cid, Unconfirmed, 0);
      next := next + 1;
      if cid in unconf {
        return false;
      }
      unconf := unconf[cid := r];
      rec := rec.(refcount := rec.refcount + 1);
      recs := recs[r := rec];
      return true;
    }

    method RemoveConfirmedClientId(r: RecId) returns (done: bool)
      requires r in recs
      modifies this
      ensures View() == RemoveConfirmed(old(View()), r) && done == (old(recs)[r].cid in old(conf))
    {
      var cid := recs[r].cid;
      if cid !in conf {
        return false;
      }
      conf := conf - {cid};
      recs := recs[r := recs[r].(state := Expired)];
      DecClientIdRef(r);
      return true;
    }

    method RemoveUnconfirmedClientId(r: RecId) returns (done: bool)
      requires r in recs
      modifies this
      ensures View() == RemoveUnconfirmed(old(View()), r) && done == (old(recs)[r].cid in old(unconf))
    {
      var cid := recs[r].cid;
      if cid !in unconf {
        return false;
      }
      unconf := unconf - {cid};
      recs := recs[r := recs[r].(state := Expired)];
      DecClientIdRef(r);
      return true;
    }

    method GetClientId(h: HolderId, confirmed: bool, cid: Cid, epoch: nat) returns (found: Lookup)
      modifies this
      ensures (View(), found) == Get(old(View()), h, confirmed, cid, epoch)
    {
      if cid / U32 != epoch % U32 {
        return IsStale;
      }
      var table := if confirmed then conf else unconf;
      if cid !in table || table[cid] !in recs {
        return IsExpired;
      }
      var r := table[cid];
      recs := recs[r := recs[r].(refcount := recs[r].refcount + 1)];
      if recs[r].state == Stale {
        DecClientIdRef(r);
        return IsStale;
      }
      holders := holders[h := r];
      return Found(r);
    }

    method ConfirmClientId(r: RecId) returns (done: bool)
      requires r in recs
      modifies this
      ensures View() == Confirm(old(View()), r)
      ensures done == (old(recs)[r].cid in old(unconf) && old(recs)[r].cid !in old(conf))
    {
      var cid := recs[r].cid;
      if cid !in unconf {
        return false;
      }
      unconf := unconf - {cid};
      recs := recs[r := recs[r].(state := Confirmed)];
      if cid in conf {
        recs := recs[r := recs[r].(state := Expired)];
        DecClientIdRef(r);
        return false;
      }
      conf := conf[cid := r];
      return true;
    }

    /** The deletion that expiry makes: from the confirmed table or from the other one, and, for a record
        that is stale by then, a second attempt on the unconfirmed table. */
    method DeleteForExpiry(r: RecId, inConfirmed: bool) returns (deleted: bool)
      requires r in recs
      modifies this`conf, this`unconf
      ensures var cid := recs[r].cid;
              var second := recs[r].state == Stale && inConfirmed && cid !in old(conf);
              && deleted == ((if inConfirmed then cid in old(conf) else cid in old(unconf))
                             || (second && cid in old(unconf)))
              && conf == (if inConfirmed then old(conf) - {cid} else old(conf))
              && unconf == (if !inConfirmed || second then old(unconf) - {cid} else old(unconf))
    {
      var cid := recs[r].cid;
      if inConfirmed {
        deleted := cid in conf;
        conf := conf - {cid};
      } else {
        deleted := cid in unconf;
        unconf := unconf - {cid};
      }
      if !deleted && recs[r].state == Stale {
        deleted := cid in unconf;
        unconf := unconf - {cid};
      }
    }

    method ExpireClientId(r: RecId, makeStale: bool) returns (expired: bool)
      requires r in recs
      modifies this
      ensures View() == Expire(old(View()), r, makeStale)
      ensures expired == (old(recs)[r].state != Expired)
    {
      var rec := recs[r];
      if rec.state == Expired {
        return false;
      }
      if makeStale {
        recs := recs[r := rec.(state := Stale)];
        return true;
      }
      var inConfirmed := rec.state == Confirmed || rec.state == Stale;
      recs := recs[r := rec.(state := Expired)];
      var deleted := DeleteForExpiry(r, inConfirmed);
      if !deleted {
        assert conf == old(conf) && unconf == old(unconf);
        aborted := true;
        return true;
      }
      DecClientIdRef(r);
      return true;
    }
  }
}
