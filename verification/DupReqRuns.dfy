/** Whole runs of the duplicate request cache: any number of requests, in any interleaving, each
    started once, finished or deleted at most once by the thread it was granted to, and released
    once.  A granted request may also be released without being finished or deleted, as happens
    when its reply cannot be sent. */
module DupReqRuns {
  import opened Basics
  import opened DupReq

  type ReqId = nat

  /** How a request came by its entry: it was told to execute (and has yet to finish), it has
      finished or deleted, or it was given a recorded reply. */
  datatype Role = Owns | Done | Shares

  datatype Handle = Handle(entry: Id, role: Role)

  datatype Step =
    | StartStep(r: ReqId, k: Key)
    | FinishStep(r: ReqId, res: Reply)
    | DeleteStep(r: ReqId)
    | ReleStep(r: ReqId)

  /** What has happened to entries, in order. */
  datatype Event =
    | Granted(e: Id, k: Key)
    | Replayed(e: Id, k: Key, answer: Option<Reply>)
    | Stored(e: Id, k: Key, res: Reply)
    | Retired(e: Id, left: nat)     // removed from index and queue, and freed
    | Dropped(e: Id)                // removed from index and queue by a delete
    | Freed(e: Id)                  // a dropped entry freed by its last release

  datatype World = World(c: Cache, reqs: map<ReqId, Handle>, log: seq<Event>)

  function Init(maxsize: int, hiwat: int): World {
    World(Cache(map[], [], map[], 0, 0, maxsize, hiwat, 0), map[], [])
  }

  // ----- the invariant -----

  ghost predicate Ascending(s: seq<Id>) { forall i, j :: 0 <= i < j < |s| ==> s[i] < s[j] }

  /** Index and queue hold the same entries under unique keys, in order of insertion; every other
      allocated entry is marked deleted. */
  ghost predicate Tables(c: Cache) {
    && Ascending(c.fifo)
    && (forall e :: e in c.fifo ==> e in c.heap && c.heap[e].state != Deleted
                                    && c.heap[e].key in c.index && c.index[c.heap[e].key] == e)
    && (forall k :: k in c.index ==> c.index[k] in c.fifo && c.index[k] in c.heap && c.heap[c.index[k]].key == k)
    && (forall e :: e in c.heap ==> e < c.next && (e in c.fifo || c.heap[e].state == Deleted))
    && c.size == |c.fifo| && c.retwnd >= 0
  }

  ghost function Holders(reqs: map<ReqId, Handle>, e: Id): set<ReqId> {
    set r | r in reqs && reqs[r].entry == e
  }

  /** No request refers to a freed entry, and the reference count of every entry is the number of
      requests that refer to it. */
  ghost predicate References(c: Cache, reqs: map<ReqId, Handle>) {
    && (forall r :: r in reqs ==> reqs[r].entry in c.heap)
    && (forall e :: e in c.heap ==> c.heap[e].refcnt == |Holders(reqs, e)|)
    && (forall e :: e in c.heap && c.heap[e].state == Deleted ==> c.heap[e].refcnt > 0)
  }

  /** An entry being processed has one request at most, the one that executes it. */
  ghost predicate Roles(c: Cache, reqs: map<ReqId, Handle>)
    requires References(c, reqs)
  {
    && (forall r :: r in reqs ==> (c.heap[reqs[r].entry].state == Started <==> reqs[r].role == Owns))
    && (forall r, r' :: r in reqs && r' in reqs && reqs[r].role == Owns && reqs[r'].entry == reqs[r].entry ==> r == r')
  }

  predicate Removes(ev: Event, e: Id) { ev == Dropped(e) || (ev.Retired? && ev.e == e) }

  ghost predicate RemovedAfter(log: seq<Event>, e: Id, i: int) {
    exists m :: 0 <= i < m < |log| && Removes(log[m], e)
  }

  ghost predicate RemovedBetween(log: seq<Event>, e: Id, i: int, j: int) {
    exists m :: i < m < j && m < |log| && i >= 0 && Removes(log[m], e)
  }

  ghost predicate Resident(c: Cache, e: Id, k: Key) {
    e in c.fifo && e in c.heap && c.heap[e].key == k
  }

  /** A granted entry is still cached under its key or has been retired or deleted since. */
  ghost predicate GrantsAccounted(c: Cache, log: seq<Event>) {
    forall i :: 0 <= i < |log| && log[i].Granted? ==>
      log[i].e < c.next && (Resident(c, log[i].e, log[i].k) || RemovedAfter(log, log[i].e, i))
  }

  /** Two grants of the same key are separated by the retirement or deletion of the first entry. */
  ghost predicate GrantsSeparated(log: seq<Event>) {
    forall i, j :: 0 <= i < j < |log| && log[i].Granted? && log[j].Granted? && log[i].k == log[j].k ==>
      RemovedBetween(log, log[i].e, i, j)
  }

  predicate Frees(ev: Event) { ev.Freed? || ev.Retired? }

  /** Every grant is of a new entry; an entry is freed at most once and is gone then. */
  ghost predicate FreedOnce(c: Cache, log: seq<Event>) {
    && (forall i :: 0 <= i < |log| && Frees(log[i]) ==> log[i].e !in c.heap && log[i].e < c.next)
    && (forall i, j :: 0 <= i < j < |log| && Frees(log[i]) && Frees(log[j]) ==> log[i].e != log[j].e)
    && (forall i, j :: 0 <= i < j < |log| && log[i].Granted? && log[j].Granted? ==> log[i].e != log[j].e)
  }

  /** One reply at most is stored for an entry, a completed entry holds the stored reply, and every
      replayed reply is the one stored for the same entry and key. */
  ghost predicate RepliesStored(c: Cache, log: seq<Event>) {
    && (forall i :: 0 <= i < |log| && log[i].Stored? ==>
          log[i].e < c.next && (log[i].e in c.heap ==> c.heap[log[i].e].state != Started))
    && (forall i, j :: 0 <= i < j < |log| && log[i].Stored? && log[j].Stored? ==> log[i].e != log[j].e)
    && (forall e :: e in c.heap && c.heap[e].state == Complete ==>
          c.heap[e].res.Some? && Stored(e, c.heap[e].key, c.heap[e].res.value) in log)
    && (forall j :: 0 <= j < |log| && log[j].Replayed? ==>
          log[j].answer.Some? && Stored(log[j].e, log[j].k, log[j].answer.value) in log[..j])
  }

  function Min(a: int, b: int): int { if a < b then a else b }

  /** At every retirement at least min(hiwat, maxsize) later entries stay cached. */
  ghost predicate WindowKept(c: Cache, log: seq<Event>) {
    forall i :: 0 <= i < |log| && log[i].Retired? ==> log[i].left >= Min(c.hiwat, c.maxsize)
  }

  ghost predicate Core(c: Cache, reqs: map<ReqId, Handle>) {
    Tables(c) && References(c, reqs) && Roles(c, reqs)
  }

  ghost predicate History(c: Cache, log: seq<Event>) {
    && GrantsAccounted(c, log)
    && GrantsSeparated(log)
    && FreedOnce(c, log)
    && RepliesStored(c, log)
    && WindowKept(c, log)
  }

  ghost predicate Inv(w: World) {
    Core(w.c, w.reqs) && History(w.c, w.log)
  }

  // ----- one step -----

  predicate MayStart(w: World, r: ReqId, k: Key) {
    r !in w.reqs && (k in w.c.index ==> w.c.index[k] in w.c.heap)
  }

  predicate MayFinish(w: World, r: ReqId) {
    r in w.reqs && w.reqs[r].role == Owns && w.reqs[r].entry in w.c.heap
  }

  predicate MayRele(w: World, r: ReqId) {
    r in w.reqs && w.reqs[r].entry in w.c.heap
  }

  function AfterStart(w: World, r: ReqId, k: Key): World
    requires MayStart(w, r, k)
  {
    var a := Start(w.c, k);
    match a.status
    case Success => World(a.cache, w.reqs[r := Handle(a.entry, Owns)], w.log + [Granted(a.entry, k)])
    case Exists => World(a.cache, w.reqs[r := Handle(a.entry, Shares)], w.log + [Replayed(a.entry, k, a.res)])
    case BeingProcessed => World(a.cache, w.reqs, w.log)
  }

  /** A finish is a store followed by a retirement. */
  function AfterStore(w: World, r: ReqId, res: Reply): World
    requires MayFinish(w, r)
  {
    var e := w.reqs[r].entry;
    World(Recorded(w.c, e, res), w.reqs[r := Handle(e, Done)], w.log + [Stored(e, w.c.heap[e].key, res)])
  }

  function AfterRetire(w: World): World {
    World(Retire(w.c), w.reqs,
          if ToRetire(w.c).None? then w.log else w.log + [Retired(ToRetire(w.c).value, |Retire(w.c).fifo|)])
  }

  function AfterDelete(w: World, r: ReqId): World
    requires MayFinish(w, r)
  {
    var e := w.reqs[r].entry;
    World(Delete(w.c, e), w.reqs[r := Handle(e, Done)], w.log + [Dropped(e)])
  }

  function AfterRele(w: World, r: ReqId): World
    requires MayRele(w, r)
  {
    var e := w.reqs[r].entry;
    World(Rele(w.c, e), w.reqs - {r}, if e in Rele(w.c, e).heap then w.log else w.log + [Freed(e)])
  }

  /** Steps that the callers never take (finishing a request not granted, say) are no steps. */
  function Next(w: World, s: Step): World {
    match s
    case StartStep(r, k) => if MayStart(w, r, k) then AfterStart(w, r, k) else w
    case FinishStep(r, res) => if MayFinish(w, r) then AfterRetire(AfterStore(w, r, res)) else w
    case DeleteStep(r) => if MayFinish(w, r) then AfterDelete(w, r) else w
    case ReleStep(r) => if MayRele(w, r) then AfterRele(w, r) else w
  }

  function After(maxsize: int, hiwat: int, steps: seq<Step>): World {
    if steps == [] then Init(maxsize, hiwat)
    else Next(After(maxsize, hiwat, steps[..|steps| - 1]), steps[|steps| - 1])
  }

  // ----- queues without an entry -----

  lemma {:induction false} WithoutElements(s: seq<Id>, e: Id)
    requires Ascending(s) && e in s
    ensures Ascending(Without(s, e)) && |Without(s, e)| == |s| - 1
    ensures forall x :: x in Without(s, e) <==> x in s && x != e
  {
    var t := Without(s, e);
    if s[0] == e {
      forall x | x in s ensures x == e || x in s[1..] {
        var i :| 0 <= i < |s| && s[i] == x;
        if i > 0 { assert s[1..][i - 1] == x; }
      }
      assert forall x :: x in s[1..] ==> x != e;
    } else {
      assert e in s[1..] by {
        var i :| 0 <= i < |s| && s[i] == e;
        assert s[1..][i - 1] == e;
      }
      WithoutElements(s[1..], e);
      assert forall x :: x in s <==> x == s[0] || x in s[1..];
      var u := Without(s[1..], e);
      assert t == [s[0]] + u;
      forall i | 0 <= i < |u| ensures s[0] < u[i] {
        assert u[i] in u;
        assert u[i] in s[1..];
      }
      forall i, j | 0 <= i < j < |t| ensures t[i] < t[j] {
        assert t[j] == u[j - 1];
        if i > 0 { assert t[i] == u[i - 1]; }
      }
    }
  }

  lemma TailElements(s: seq<Id>)
    requires Ascending(s) && s != []
    ensures Ascending(s[1..])
    ensures forall x :: x in s[1..] <==> x in s && x != s[0]
    ensures forall x :: x in s[1..] ==> s[0] < x
  {
  }

  // ----- reference counts -----

  lemma AddHolder(reqs: map<ReqId, Handle>, r: ReqId, h: Handle)
    requires r !in reqs
    ensures forall e :: |Holders(reqs[r := h], e)| == |Holders(reqs, e)| + if e == h.entry then 1 else 0
  {
    forall e ensures |Holders(reqs[r := h], e)| == |Holders(reqs, e)| + if e == h.entry then 1 else 0 {
      if e == h.entry {
        assert Holders(reqs[r := h], e) == Holders(reqs, e) + {r};
      } else {
        assert Holders(reqs[r := h], e) == Holders(reqs, e);
      }
    }
  }

  lemma SameHolders(reqs: map<ReqId, Handle>, r: ReqId, role: Role)
    requires r in reqs
    ensures forall e :: Holders(reqs[r := Handle(reqs[r].entry, role)], e) == Holders(reqs, e)
  {
  }

  lemma RemoveHolder(reqs: map<ReqId, Handle>, r: ReqId)
    requires r in reqs
    ensures forall e :: |Holders(reqs - {r}, e)| == |Holders(reqs, e)| - if e == reqs[r].entry then 1 else 0
  {
    forall e ensures |Holders(reqs - {r}, e)| == |Holders(reqs, e)| - if e == reqs[r].entry then 1 else 0 {
      if e == reqs[r].entry {
        assert r in Holders(reqs, e);
        assert Holders(reqs - {r}, e) == Holders(reqs, e) - {r};
      } else {
        assert Holders(reqs - {r}, e) == Holders(reqs, e);
      }
    }
  }

  lemma HeldIsCounted(reqs: map<ReqId, Handle>, r: ReqId)
    requires r in reqs
    ensures |Holders(reqs, reqs[r].entry)| >= 1
  {
    var rest := Holders(reqs, reqs[r].entry) - {r};
    assert Holders(reqs, reqs[r].entry) == rest + {r};
  }

  // ----- index and queue -----

  lemma TablesStartNew(c: Cache, k: Key)
    requires Tables(c) && k !in c.index
    ensures Tables(Start(c, k).cache)
  {
    var e, c1 := c.next, Start(c, k).cache;
    assert e !in c.heap && e !in c.fifo;
    forall i | 0 <= i < |c.fifo| ensures c.fifo[i] < e {
      assert c.fifo[i] in c.fifo;
    }
    assert forall x :: x in c1.fifo <==> x in c.fifo || x == e;
  }

  /** A change to one entry that keeps its key and its being cached or not. */
  lemma TablesChange(c: Cache, e: Id, dv: Entry, retwnd: int)
    requires Tables(c) && e in c.heap && dv.key == c.heap[e].key && retwnd >= 0
    requires dv.state == Deleted <==> c.heap[e].state == Deleted
    ensures Tables(c.(heap := c.heap[e := dv], retwnd := retwnd))
  {
  }

  /** Two cached entries have different keys. */
  lemma KeysDiffer(c: Cache, e: Id, x: Id)
    requires Tables(c) && e in c.fifo && x in c.fifo && e != x
    ensures c.heap[e].key != c.heap[x].key
  {
  }

  lemma TablesRemoveHead(c: Cache, retwnd: int)
    requires Tables(c) && c.fifo != [] && retwnd >= 0
    ensures Tables(c.(fifo := c.fifo[1..], size := c.size - 1, index := c.index - {c.heap[c.fifo[0]].key},
                      heap := c.heap - {c.fifo[0]}, retwnd := retwnd))
  {
    var ov := c.fifo[0];
    var index1, heap1, fifo1 := c.index - {c.heap[ov].key}, c.heap - {ov}, c.fifo[1..];
    TailElements(c.fifo);
    assert ov in c.fifo;
    forall e | e in fifo1
      ensures e in heap1 && heap1[e].state != Deleted && heap1[e].key in index1 && index1[heap1[e].key] == e
    {
      KeysDiffer(c, ov, e);
    }
    forall k | k in index1 ensures index1[k] in fifo1 && index1[k] in heap1 && heap1[index1[k]].key == k {
      assert index1[k] == c.index[k];
      assert c.index[k] != ov;
    }
  }

  lemma TablesRetire(c: Cache)
    requires Tables(c)
    ensures Tables(Retire(c))
    ensures ToRetire(c).Some? ==> |Retire(c).fifo| >= Min(c.hiwat, c.maxsize)
    ensures ToRetire(c).Some? ==> forall e :: e in Retire(c).fifo ==> e > ToRetire(c).value
  {
    if ToRetire(c).Some? {
      TablesRemoveHead(c, DecRetwnd(c.retwnd));
      TailElements(c.fifo);
    }
  }

  lemma TablesDelete(c: Cache, e: Id)
    requires Tables(c) && e in c.heap && c.heap[e].state != Deleted
    ensures Tables(Delete(c, e))
  {
    var c1 := Delete(c, e);
    assert e in c.fifo;
    WithoutElements(c.fifo, e);
    forall x | x in c1.fifo ensures c1.heap[x].key in c1.index {
      assert c.heap[x].key != c.heap[e].key;
    }
  }

  lemma TablesFree(c: Cache, e: Id)
    requires Tables(c) && e in c.heap && c.heap[e].state == Deleted
    ensures Tables(c.(heap := c.heap - {e}))
  {
  }

  lemma TablesRele(c: Cache, e: Id)
    requires Tables(c) && e in c.heap
    ensures Tables(Rele(c, e))
  {
    var dv := c.heap[e].(refcnt := c.heap[e].refcnt - 1);
    if dv.refcnt == 0 && dv.state == Deleted {
      TablesFree(c, e);
    } else {
      TablesChange(c, e, dv, c.retwnd);
    }
  }

  // ----- references and roles -----

  lemma RefsStartNew(c: Cache, reqs: map<ReqId, Handle>, r: ReqId, k: Key)
    requires Tables(c) && References(c, reqs) && Roles(c, reqs) && r !in reqs && k !in c.index
    ensures var c1, reqs1 := Start(c, k).cache, reqs[r := Handle(c.next, Owns)];
            References(c1, reqs1) && Roles(c1, reqs1)
  {
    assert c.next !in c.heap;
    assert Holders(reqs, c.next) == {};
    AddHolder(reqs, r, Handle(c.next, Owns));
  }

  lemma RefsStartHit(c: Cache, reqs: map<ReqId, Handle>, r: ReqId, k: Key)
    requires References(c, reqs) && Roles(c, reqs) && r !in reqs
    requires k in c.index && c.index[k] in c.heap && c.heap[c.index[k]].state != Started
    ensures var c1, reqs1 := Start(c, k).cache, reqs[r := Handle(c.index[k], Shares)];
            References(c1, reqs1) && Roles(c1, reqs1)
  {
    AddHolder(reqs, r, Handle(c.index[k], Shares));
  }

  lemma RefsRecord(c: Cache, reqs: map<ReqId, Handle>, r: ReqId, res: Reply)
    requires References(c, reqs) && Roles(c, reqs) && r in reqs && reqs[r].role == Owns
    ensures var c1, reqs1 := Recorded(c, reqs[r].entry, res), reqs[r := Handle(reqs[r].entry, Done)];
            References(c1, reqs1) && Roles(c1, reqs1)
  {
    SameHolders(reqs, r, Done);
  }

  lemma RefsRetire(c: Cache, reqs: map<ReqId, Handle>)
    requires References(c, reqs) && Roles(c, reqs)
    ensures References(Retire(c), reqs) && Roles(Retire(c), reqs)
  {
    if ToRetire(c).Some? {
      var ov := c.fifo[0];
      forall r | r in reqs ensures reqs[r].entry != ov {
        HeldIsCounted(reqs, r);
      }
    }
  }

  lemma RefsDelete(c: Cache, reqs: map<ReqId, Handle>, r: ReqId)
    requires References(c, reqs) && Roles(c, reqs) && r in reqs && reqs[r].role == Owns
    ensures var c1, reqs1 := Delete(c, reqs[r].entry), reqs[r := Handle(reqs[r].entry, Done)];
            References(c1, reqs1) && Roles(c1, reqs1)
    ensures c.heap[reqs[r].entry].refcnt == 1
  {
    SameHolders(reqs, r, Done);
    assert Holders(reqs, reqs[r].entry) == {r};
  }

  lemma RefsRele(c: Cache, reqs: map<ReqId, Handle>, r: ReqId)
    requires References(c, reqs) && Roles(c, reqs) && r in reqs
    ensures References(Rele(c, reqs[r].entry), reqs - {r})
    ensures Roles(Rele(c, reqs[r].entry), reqs - {r})
  {
    var e := reqs[r].entry;
    var reqs1 := reqs - {r};
    RemoveHolder(reqs, r);
    HeldIsCounted(reqs, r);
    if e !in Rele(c, e).heap {
      forall r' | r' in reqs1 ensures reqs1[r'].entry != e {
        HeldIsCounted(reqs1, r');
      }
    }
  }

  // ----- the history -----

  ghost predicate ResidentsKept(c: Cache, c1: Cache, ev: Event) {
    forall e, k :: Resident(c, e, k) ==> Resident(c1, e, k) || Removes(ev, e)
  }

  lemma AccountedGrows(c: Cache, log: seq<Event>, c1: Cache, ev: Event)
    requires GrantsAccounted(c, log) && c.next <= c1.next && ResidentsKept(c, c1, ev)
    requires ev.Granted? ==> ev.e < c1.next && Resident(c1, ev.e, ev.k)
    ensures GrantsAccounted(c1, log + [ev])
  {
    var log1 := log + [ev];
    forall i | 0 <= i < |log1| && log1[i].Granted?
      ensures log1[i].e < c1.next && (Resident(c1, log1[i].e, log1[i].k) || RemovedAfter(log1, log1[i].e, i))
    {
      if i < |log| {
        var e, k := log[i].e, log[i].k;
        assert log[i] == log1[i];
        if RemovedAfter(log, e, i) {
          var m :| 0 <= i < m < |log| && Removes(log[m], e);
          assert log1[m] == log[m];
        } else if !Resident(c1, e, k) {
          assert Removes(log1[|log|], e);
        }
      }
    }
  }

  lemma SeparatedGrows(log: seq<Event>, ev: Event)
    requires GrantsSeparated(log) && !ev.Granted?
    ensures GrantsSeparated(log + [ev])
  {
    var log1 := log + [ev];
    forall i, j | 0 <= i < j < |log1| && log1[i].Granted? && log1[j].Granted? && log1[i].k == log1[j].k
      ensures RemovedBetween(log1, log1[i].e, i, j)
    {
      assert log1[i] == log[i] && log1[j] == log[j];
      var m :| i < m < j && m < |log| && i >= 0 && Removes(log[m], log[i].e);
      assert log1[m] == log[m];
    }
  }

  /** A key is granted again only when it is not in the index, so its earlier entry has left. */
  lemma SeparatedByGrant(c: Cache, log: seq<Event>, e: Id, k: Key)
    requires Tables(c) && GrantsAccounted(c, log) && GrantsSeparated(log) && k !in c.index
    ensures GrantsSeparated(log + [Granted(e, k)])
  {
    var log1 := log + [Granted(e, k)];
    forall i, j | 0 <= i < j < |log1| && log1[i].Granted? && log1[j].Granted? && log1[i].k == log1[j].k
      ensures RemovedBetween(log1, log1[i].e, i, j)
    {
      assert log1[i] == log[i];
      if j < |log| {
        assert log1[j] == log[j];
        var m :| i < m < j && m < |log| && i >= 0 && Removes(log[m], log[i].e);
        assert log1[m] == log[m];
      } else {
        assert !Resident(c, log[i].e, k);
        var m :| 0 <= i < m < |log| && Removes(log[m], log[i].e);
        assert log1[m] == log[m];
      }
    }
  }

  lemma FreedGrows(c: Cache, log: seq<Event>, c1: Cache, ev: Event)
    requires GrantsAccounted(c, log) && FreedOnce(c, log) && c.next <= c1.next
    requires forall e :: e in c1.heap ==> e in c.heap || e >= c.next
    requires Frees(ev) ==> ev.e in c.heap && ev.e !in c1.heap && ev.e < c1.next
    requires ev.Granted? ==> ev.e >= c.next
    ensures FreedOnce(c1, log + [ev])
  {
  }

  /** Entries completed before stay completed with the same reply, entries seen before are not
      started again, and `fresh` is the only one that may be completed by this step. */
  ghost predicate RepliesCarryOver(c: Cache, c1: Cache, done: Option<Id>) {
    && c.next <= c1.next
    && (forall e :: e in c1.heap && e !in c.heap ==> e >= c.next && c1.heap[e].state == Started)
    && (forall e :: e in c1.heap && e in c.heap ==> c1.heap[e].key == c.heap[e].key)
    && (forall e :: e in c1.heap && e in c.heap && c.heap[e].state != Started ==> c1.heap[e].state != Started)
    && (forall e :: e in c1.heap && e in c.heap && c1.heap[e].state == Complete && done != Some(e) ==>
          c.heap[e].state == Complete && c1.heap[e].res == c.heap[e].res)
  }

  lemma RepliesSame(c: Cache, log: seq<Event>, c1: Cache)
    requires RepliesStored(c, log) && RepliesCarryOver(c, c1, None)
    ensures RepliesStored(c1, log)
  {
  }

  lemma RepliesGrow(c: Cache, log: seq<Event>, c1: Cache, ev: Event)
    requires RepliesStored(c, log) && RepliesCarryOver(c, c1, None)
    requires !ev.Stored?
    requires ev.Replayed? ==> ev.answer.Some? && Stored(ev.e, ev.k, ev.answer.value) in log
    ensures RepliesStored(c1, log + [ev])
  {
    var log1 := log + [ev];
    RepliesSame(c, log, c1);
    assert log1[..|log|] == log;
    forall j | 0 <= j < |log1| && log1[j].Replayed?
      ensures log1[j].answer.Some? && Stored(log1[j].e, log1[j].k, log1[j].answer.value) in log1[..j]
    {
      if j < |log| { assert log1[j] == log[j] && log1[..j] == log[..j]; }
    }
    forall x | x in log ensures x in log1 {
      var i :| 0 <= i < |log| && log[i] == x;
      assert log1[i] == x;
    }
    assert forall i :: 0 <= i < |log1| && log1[i].Stored? ==> i < |log| && log1[i] == log[i];
  }

  lemma RepliesGrowByOne(c: Cache, log: seq<Event>, e: Id, res: Reply)
    requires RepliesStored(c, log) && e in c.heap && e < c.next && c.heap[e].state == Started
    ensures RepliesStored(Recorded(c, e, res), log + [Stored(e, c.heap[e].key, res)])
  {
    var c1, ev := Recorded(c, e, res), Stored(e, c.heap[e].key, res);
    var log1 := log + [ev];
    assert log1[|log|] == ev;
    forall x | x in log ensures x in log1 {
      var i :| 0 <= i < |log| && log[i] == x;
      assert log1[i] == x;
    }
    forall j | 0 <= j < |log1| && log1[j].Replayed?
      ensures log1[j].answer.Some? && Stored(log1[j].e, log1[j].k, log1[j].answer.value) in log1[..j]
    {
      assert j < |log| && log1[j] == log[j] && log1[..j] == log[..j];
    }
    forall i, j | 0 <= i < j < |log1| && log1[i].Stored? && log1[j].Stored? ensures log1[i].e != log1[j].e {
      assert log1[i] == log[i];
      if j < |log| { assert log1[j] == log[j]; }
    }
    forall i | 0 <= i < |log1| && log1[i].Stored?
      ensures log1[i].e < c1.next && (log1[i].e in c1.heap ==> c1.heap[log1[i].e].state != Started)
    {
      if i < |log| { assert log1[i] == log[i]; }
    }
  }

  lemma WindowGrows(c: Cache, log: seq<Event>, c1: Cache, ev: Event)
    requires WindowKept(c, log) && c1.hiwat == c.hiwat && c1.maxsize == c.maxsize
    requires ev.Retired? ==> ev.left >= Min(c.hiwat, c.maxsize)
    ensures WindowKept(c1, log + [ev])
  {
  }

  /** What a step does to the cache, as far as the history is concerned. */
  ghost predicate Transition(c: Cache, c1: Cache, ev: Event) {
    && c1.hiwat == c.hiwat && c1.maxsize == c.maxsize
    && RepliesCarryOver(c, c1, if ev.Stored? then Some(ev.e) else None)
    && ResidentsKept(c, c1, ev)
    && (Frees(ev) ==> ev.e in c.heap && ev.e !in c1.heap && ev.e < c1.next)
    && (ev.Retired? ==> ev.left >= Min(c.hiwat, c.maxsize))
    && (ev.Granted? ==> ev.k !in c.index && ev.e >= c.next && ev.e < c1.next && Resident(c1, ev.e, ev.k))
  }

  lemma HistoryGrows(c: Cache, log: seq<Event>, c1: Cache, ev: Event)
    requires Tables(c) && History(c, log) && Transition(c, c1, ev)
    requires !ev.Stored?
    requires ev.Replayed? ==> ev.answer.Some? && Stored(ev.e, ev.k, ev.answer.value) in log
    ensures History(c1, log + [ev])
  {
    AccountedGrows(c, log, c1, ev);
    if ev.Granted? { SeparatedByGrant(c, log, ev.e, ev.k); } else { SeparatedGrows(log, ev); }
    FreedGrows(c, log, c1, ev);
    RepliesGrow(c, log, c1, ev);
    WindowGrows(c, log, c1, ev);
  }

  lemma HistorySame(c: Cache, log: seq<Event>, c1: Cache)
    requires History(c, log)
    requires c1.hiwat == c.hiwat && c1.maxsize == c.maxsize && c1.next == c.next && c1.heap.Keys == c.heap.Keys
    requires RepliesCarryOver(c, c1, None)
    requires forall e, k :: Resident(c, e, k) ==> Resident(c1, e, k)
    ensures History(c1, log)
  {
    RepliesSame(c, log, c1);
  }

  // ----- every step keeps the invariant -----

  lemma StartNewTransition(c: Cache, k: Key)
    requires Tables(c) && k !in c.index
    ensures Transition(c, Start(c, k).cache, Granted(c.next, k))
  {
    var c1 := Start(c, k).cache;
    assert c.next !in c.heap && c.next in c1.fifo;
    forall x, k' | Resident(c, x, k') ensures Resident(c1, x, k') {
      assert x in c1.fifo;
    }
  }

  lemma StepStartNew(w: World, r: ReqId, k: Key)
    requires Inv(w) && MayStart(w, r, k) && k !in w.c.index
    ensures Inv(AfterStart(w, r, k))
  {
    TablesStartNew(w.c, k);
    RefsStartNew(w.c, w.reqs, r, k);
    StartNewTransition(w.c, k);
    HistoryGrows(w.c, w.log, Start(w.c, k).cache, Granted(w.c.next, k));
  }

  lemma StartHitTransition(c: Cache, k: Key)
    requires Tables(c) && k in c.index && c.heap[c.index[k]].state != Started
    ensures Transition(c, Start(c, k).cache, Replayed(c.index[k], k, c.heap[c.index[k]].res))
  {
  }

  lemma StoredWasLogged(c: Cache, log: seq<Event>, k: Key)
    requires Tables(c) && RepliesStored(c, log) && k in c.index && c.heap[c.index[k]].state != Started
    ensures c.heap[c.index[k]].res.Some? && Stored(c.index[k], k, c.heap[c.index[k]].res.value) in log
  {
  }

  lemma StartHitCore(c: Cache, reqs: map<ReqId, Handle>, r: ReqId, k: Key)
    requires Core(c, reqs) && r !in reqs && k in c.index && c.heap[c.index[k]].state != Started
    ensures Core(Start(c, k).cache, reqs[r := Handle(c.index[k], Shares)])
  {
    var dv := c.heap[c.index[k]];
    TablesChange(c, c.index[k], dv.(refcnt := dv.refcnt + 1), IncRetwnd(c.retwnd));
    RefsStartHit(c, reqs, r, k);
  }

  lemma StartHitHistory(c: Cache, log: seq<Event>, k: Key)
    requires Tables(c) && History(c, log) && k in c.index && c.heap[c.index[k]].state != Started
    ensures History(Start(c, k).cache, log + [Replayed(c.index[k], k, c.heap[c.index[k]].res)])
  {
    StartHitTransition(c, k);
    StoredWasLogged(c, log, k);
    HistoryGrows(c, log, Start(c, k).cache, Replayed(c.index[k], k, c.heap[c.index[k]].res));
  }

  lemma StepStartHit(w: World, r: ReqId, k: Key)
    requires Inv(w) && MayStart(w, r, k) && k in w.c.index && w.c.heap[w.c.index[k]].state != Started
    ensures Inv(AfterStart(w, r, k))
  {
    StartHitCore(w.c, w.reqs, r, k);
    StartHitHistory(w.c, w.log, k);
  }

  lemma StoreHistory(c: Cache, log: seq<Event>, e: Id, res: Reply)
    requires Tables(c) && History(c, log) && e in c.heap && c.heap[e].state == Started
    ensures History(Recorded(c, e, res), log + [Stored(e, c.heap[e].key, res)])
  {
    var c1, ev := Recorded(c, e, res), Stored(e, c.heap[e].key, res);
    AccountedGrows(c, log, c1, ev);
    SeparatedGrows(log, ev);
    FreedGrows(c, log, c1, ev);
    RepliesGrowByOne(c, log, e, res);
    WindowGrows(c, log, c1, ev);
  }

  lemma StepStore(w: World, r: ReqId, res: Reply)
    requires Inv(w) && MayFinish(w, r)
    ensures Inv(AfterStore(w, r, res))
  {
    var e := w.reqs[r].entry;
    TablesChange(w.c, e, Recorded(w.c, e, res).heap[e], w.c.retwnd);
    RefsRecord(w.c, w.reqs, r, res);
    StoreHistory(w.c, w.log, e, res);
  }

  lemma RetireTransition(c: Cache)
    requires Tables(c) && ToRetire(c).Some?
    ensures Transition(c, Retire(c), Retired(ToRetire(c).value, |Retire(c).fifo|))
  {
    TablesRetire(c);
    TailElements(c.fifo);
    assert c.fifo[0] in c.fifo;
  }

  lemma StepRetire(w: World)
    requires Inv(w)
    ensures Inv(AfterRetire(w))
  {
    TablesRetire(w.c);
    RefsRetire(w.c, w.reqs);
    if ToRetire(w.c).None? {
      HistorySame(w.c, w.log, Retire(w.c));
    } else {
      RetireTransition(w.c);
      HistoryGrows(w.c, w.log, Retire(w.c), Retired(ToRetire(w.c).value, |Retire(w.c).fifo|));
    }
  }

  lemma DeleteTransition(c: Cache, e: Id)
    requires Tables(c) && e in c.heap && c.heap[e].state == Started
    ensures Transition(c, Delete(c, e), Dropped(e))
  {
    WithoutElements(c.fifo, e);
  }

  lemma StepDelete(w: World, r: ReqId)
    requires Inv(w) && MayFinish(w, r)
    ensures Inv(AfterDelete(w, r))
  {
    var e := w.reqs[r].entry;
    TablesDelete(w.c, e);
    RefsDelete(w.c, w.reqs, r);
    DeleteTransition(w.c, e);
    HistoryGrows(w.c, w.log, Delete(w.c, e), Dropped(e));
  }

  lemma ReleTransition(c: Cache, e: Id)
    requires Tables(c) && e in c.heap && e !in Rele(c, e).heap
    ensures Transition(c, Rele(c, e), Freed(e))
  {
  }

  lemma ReleHistory(c: Cache, log: seq<Event>, e: Id)
    requires Tables(c) && History(c, log) && e in c.heap
    ensures History(Rele(c, e), if e in Rele(c, e).heap then log else log + [Freed(e)])
  {
    if e in Rele(c, e).heap {
      HistorySame(c, log, Rele(c, e));
    } else {
      ReleTransition(c, e);
      HistoryGrows(c, log, Rele(c, e), Freed(e));
    }
  }

  lemma StepRele(w: World, r: ReqId)
    requires Inv(w) && MayRele(w, r)
    ensures Inv(AfterRele(w, r))
  {
    var e := w.reqs[r].entry;
    TablesRele(w.c, e);
    RefsRele(w.c, w.reqs, r);
    ReleHistory(w.c, w.log, e);
  }

  /** Every step, of any request in any order, keeps the invariant. */
  lemma StepKeeps(w: World, s: Step)
    requires Inv(w)
    ensures Inv(Next(w, s))
  {
    match s
    case StartStep(r, k) =>
      if MayStart(w, r, k) {
        if k !in w.c.index { StepStartNew(w, r, k); }
        else if w.c.heap[w.c.index[k]].state != Started { StepStartHit(w, r, k); }
      }
    case FinishStep(r, res) =>
      if MayFinish(w, r) {
        StepStore(w, r, res);
        StepRetire(AfterStore(w, r, res));
      }
    case DeleteStep(r) =>
      if MayFinish(w, r) { StepDelete(w, r); }
    case ReleStep(r) =>
      if MayRele(w, r) { StepRele(w, r); }
  }

  // ----- whole runs -----

  lemma InitKeeps(maxsize: int, hiwat: int)
    ensures Inv(Init(maxsize, hiwat))
  {
  }

  lemma LimitsFixed(w: World, s: Step)
    ensures Next(w, s).c.maxsize == w.c.maxsize && Next(w, s).c.hiwat == w.c.hiwat
  {
  }

  lemma {:induction false} EveryRunKeeps(maxsize: int, hiwat: int, steps: seq<Step>)
    ensures Inv(After(maxsize, hiwat, steps))
    ensures After(maxsize, hiwat, steps).c.maxsize == maxsize && After(maxsize, hiwat, steps).c.hiwat == hiwat
    decreases |steps|
  {
    if steps == [] {
      InitKeeps(maxsize, hiwat);
    } else {
      var before, last := steps[..|steps| - 1], steps[|steps| - 1];
      EveryRunKeeps(maxsize, hiwat, before);
      StepKeeps(After(maxsize, hiwat, before), last);
      LimitsFixed(After(maxsize, hiwat, before), last);
    }
  }

  /** At most once, over every run: a second order to execute the same key comes only after the
      first entry was retired or deleted; and if it was retired, at least min(hiwat, maxsize) later
      entries were still cached then. */
  lemma ExecutedAtMostOnce(maxsize: int, hiwat: int, steps: seq<Step>, i: nat, j: nat)
    requires var log := After(maxsize, hiwat, steps).log;
             i < j < |log| && log[i].Granted? && log[j].Granted? && log[i].k == log[j].k
    ensures var log := After(maxsize, hiwat, steps).log;
            exists m :: i < m < j && m < |log|
              && (log[m] == Dropped(log[i].e)
                  || (log[m].Retired? && log[m].e == log[i].e && log[m].left >= Min(hiwat, maxsize)))
  {
    EveryRunKeeps(maxsize, hiwat, steps);
    var w := After(maxsize, hiwat, steps);
    assert RemovedBetween(w.log, w.log[i].e, i, j);
  }

  /** A request answered from the cache gets the reply stored for that key, and only one reply was
      ever stored for the entry. */
  lemma ReplayedReplyIsTheStoredOne(maxsize: int, hiwat: int, steps: seq<Step>, j: nat)
    requires var log := After(maxsize, hiwat, steps).log; j < |log| && log[j].Replayed?
    ensures var log := After(maxsize, hiwat, steps).log;
            && log[j].answer.Some?
            && Stored(log[j].e, log[j].k, log[j].answer.value) in log[..j]
            && forall i, i' :: 0 <= i < i' < |log| && log[i].Stored? && log[i'].Stored? ==> log[i].e != log[i'].e
  {
    EveryRunKeeps(maxsize, hiwat, steps);
  }

  /** Reference counts and lifetimes, over every run: the count of an entry is the number of requests
      that hold it, no request holds a freed entry, no entry is freed twice, and index, queue and
      size agree. */
  lemma ReferencesAreExact(maxsize: int, hiwat: int, steps: seq<Step>)
    ensures var w := After(maxsize, hiwat, steps);
            && (forall r :: r in w.reqs ==> w.reqs[r].entry in w.c.heap)
            && (forall e :: e in w.c.heap ==> w.c.heap[e].refcnt == |Holders(w.reqs, e)|)
            && (forall i, j :: 0 <= i < j < |w.log| && Frees(w.log[i]) && Frees(w.log[j]) ==> w.log[i].e != w.log[j].e)
            && w.c.size == |w.c.fifo| == |w.c.index|
  {
    EveryRunKeeps(maxsize, hiwat, steps);
    IndexAndQueueMatch(After(maxsize, hiwat, steps).c);
  }

  lemma IndexAndQueueMatch(c: Cache)
    requires Tables(c)
    ensures |c.index| == |c.fifo|
  {
    CardOfAscending(c.fifo);
    KeysToIds(c, c.index.Keys, Elements(c.fifo));
    assert |c.index| == |c.index.Keys|;
  }

  ghost function Elements(s: seq<Id>): set<Id> { set e | e in s }

  lemma {:induction false} CardOfAscending(s: seq<Id>)
    requires Ascending(s)
    ensures |Elements(s)| == |s|
  {
    if s != [] {
      var n := |s| - 1;
      var p := s[..n];
      CardOfAscending(p);
      assert s[n] !in p;
      assert Elements(s) == Elements(p) + {s[n]} by {
        assert s == p + [s[n]];
      }
    }
  }

  /** The index maps its keys one to one onto the queued entries. */
  lemma {:induction false} KeysToIds(c: Cache, keys: set<Key>, ids: set<Id>)
    requires forall k :: k in keys ==> k in c.index && c.index[k] in ids
    requires forall e :: e in ids ==> e in c.heap && c.heap[e].key in keys
    requires forall k :: k in keys ==> c.index[k] in c.heap && c.heap[c.index[k]].key == k
    requires forall e :: e in ids ==> c.index[c.heap[e].key] == e
    ensures |keys| == |ids|
    decreases keys
  {
    if keys == {} {
      assert ids == {};
    } else {
      var k :| k in keys;
      KeysToIds(c, keys - {k}, ids - {c.index[k]});
    }
  }
}
