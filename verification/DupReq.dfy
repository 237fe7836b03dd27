/** The duplicate request cache (nfs_dupreq.c): an index from request keys to entries, the same
    entries in order of insertion, and a count of the requests that refer to each entry.  Each
    public call is one atomic step. */
module DupReq {
  import opened Basics

  type Key = nat      // transaction id, checksum and address of a request
  type Id = nat       // an entry; numbered in order of allocation
  type Reply = int

  datatype EntryState = Started | Complete | Deleted

  datatype Entry = Entry(key: Key, state: EntryState, refcnt: int, res: Option<Reply>)

  /** `heap` holds the entries that are allocated and not yet freed. */
  datatype Cache = Cache(index: map<Key, Id>, fifo: seq<Id>, heap: map<Id, Entry>,
                         size: int, retwnd: int, maxsize: int, hiwat: int, next: Id)

  datatype Status = Success | BeingProcessed | Exists

  const RETWND_START_BIAS := 16

  function IncRetwnd(w: int): int { if w == 0 then RETWND_START_BIAS else w + 1 }

  function DecRetwnd(w: int): int { if w > 0 then w - 1 else w }

  predicate ShouldRetire(c: Cache) {
    if c.size > c.maxsize then true
    else if c.retwnd > 0 then false
    else c.size > c.hiwat
  }

  /** The queue without one entry. */
  function Without(s: seq<Id>, e: Id): seq<Id> {
    if s == [] then [] else if s[0] == e then s[1..] else [s[0]] + Without(s[1..], e)
  }

  // ----- the four operations -----

  datatype StartResult = Answer(cache: Cache, status: Status, entry: Id, res: Option<Reply>)

  function Start(c: Cache, k: Key): StartResult
    requires k in c.index ==> c.index[k] in c.heap
  {
    if k in c.index then
      var e := c.index[k];
      var dv := c.heap[e];
      if dv.state == Started then Answer(c, BeingProcessed, e, None)
      else Answer(c.(heap := c.heap[e := dv.(refcnt := dv.refcnt + 1)], retwnd := IncRetwnd(c.retwnd)),
                  Exists, e, dv.res)
    else
      var e := c.next;
      Answer(c.(index := c.index[k := e], fifo := c.fifo + [e], heap := c.heap[e := Entry(k, Started, 1, None)],
                size := c.size + 1, next := e + 1),
             Success, e, None)
  }

  /** The entry that finishing a request retires, if any: the oldest, when one is due and nobody
      refers to it. */
  function ToRetire(c: Cache): Option<Id> {
    if ShouldRetire(c) && c.fifo != [] && c.fifo[0] in c.heap && c.heap[c.fifo[0]].refcnt <= 0
    then Some(c.fifo[0]) else None
  }

  function Retire(c: Cache): Cache {
    var c1 := if ShouldRetire(c) && c.fifo != [] then c.(retwnd := DecRetwnd(c.retwnd)) else c;
    if ToRetire(c).None? then c1
    else
      var ov := c.fifo[0];
      c1.(fifo := c.fifo[1..], size := c.size - 1, index := c.index - {c.heap[ov].key}, heap := c.heap - {ov})
  }

  function Recorded(c: Cache, e: Id, res: Reply): Cache
    requires e in c.heap
  {
    c.(heap := c.heap[e := c.heap[e].(res := Some(res), state := Complete)])
  }

  function Finish(c: Cache, e: Id, res: Reply): Cache
    requires e in c.heap
  {
    Retire(Recorded(c, e, res))
  }

  function Delete(c: Cache, e: Id): Cache
    requires e in c.heap
  {
    c.(heap := c.heap[e := c.heap[e].(state := Deleted)], index := c.index - {c.heap[e].key},
       fifo := Without(c.fifo, e), size := c.size - 1)
  }

  function Rele(c: Cache, e: Id): Cache
    requires e in c.heap
  {
    var dv := c.heap[e].(refcnt := c.heap[e].refcnt - 1);
    if dv.refcnt == 0 && dv.state == Deleted then c.(heap := c.heap - {e})
    else c.(heap := c.heap[e := dv])
  }

  // ----- the operations as they run -----

  class Drc {
    var index: map<Key, Id>
    var fifo: seq<Id>
    var heap: map<Id, Entry>
    var size: int
    var retwnd: int
    var next: Id
    const maxsize: int
    const hiwat: int

    function View(): Cache
      reads this
    {
      Cache(index, fifo, heap, size, retwnd, maxsize, hiwat, next)
    }

    constructor (maxsize: int, hiwat: int)
      ensures View() == Cache(map[], [], map[], 0, 0, maxsize, hiwat, 0)
    {
      index, fifo, heap, size, retwnd, next := map[], [], map[], 0, 0, 0;
      this.maxsize, this.hiwat := maxsize, hiwat;
    }

    method DupreqStart(k: Key) returns (status: Status, entry: Id, res: Option<Reply>)
      requires k in index ==> index[k] in heap
      modifies this
      ensures Answer(View(), status, entry, res) == Start(old(View()), k)
    {
      if k in index {
        entry := index[k];
        var dv := heap[entry];
        if dv.state == Started {
          status, res := BeingProcessed, None;
        } else {
          res := dv.res;
          if retwnd == 0 {
            retwnd := RETWND_START_BIAS;
          } else {
            retwnd := retwnd + 1;
          }
          status := Exists;
          heap := heap[entry := dv.(refcnt := dv.refcnt + 1)];
        }
      } else {
        var dk := Entry(k, Started, 0, None);
        entry, res := next, None;
        index := index[k := entry];
        dk := dk.(refcnt := dk.refcnt + 1);
        fifo := fifo + [entry];
        size := size + 1;
        heap, next := heap[entry := dk], next + 1;
        status := Success;
      }
    }

    method DupreqFinish(dv: Id, res: Reply)
      requires dv in heap && forall e :: e in fifo ==> e in heap
      modifies this
      ensures View() == Finish(old(View()), dv, res)
    {
      heap := heap[dv := heap[dv].(res := Some(res), state := Complete)];
      if ShouldRetire(View()) {
        if |fifo| > 0 {
          var ov := fifo[0];
          if retwnd > 0 {
            retwnd := retwnd - 1;
          }
          if heap[ov].refcnt > 0 {
            return;
          }
          fifo := fifo[1..];
          size := size - 1;
          index := index - {heap[ov].key};
          heap := heap - {ov};
        }
      }
    }

    method DupreqDelete(dv: Id)
      requires dv in heap
      modifies this
      ensures View() == Delete(old(View()), dv)
    {
      heap := heap[dv := heap[dv].(state := Deleted)];
      index := index - {heap[dv].key};
      NotThere(fifo, dv);
      if dv in fifo {
        fifo := Without(fifo, dv);
      }
      size := size - 1;
    }

    method DupreqRele(dv: Id)
      requires dv in heap
      modifies this
      ensures View() == Rele(old(View()), dv)
    {
      var e := heap[dv].(refcnt := heap[dv].refcnt - 1);
      heap := heap[dv := e];
      if e.refcnt == 0 {
        if e.state == Deleted {
          assert heap - {dv} == old(heap) - {dv};
          heap := heap - {dv};
        }
      }
    }
  }

  lemma {:induction false} NotThere(s: seq<Id>, e: Id)
    ensures e !in s ==> Without(s, e) == s
  {
    if s != [] { NotThere(s[1..], e); }
  }
}
