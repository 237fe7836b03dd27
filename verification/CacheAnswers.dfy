/** What the duplicate request cache answers and when it lets go of an entry, over every run, in terms of
    the entries it holds, the requests that hold them and what has happened. */
module CacheAnswers {
  import opened Basics
  import opened DupReq
  import opened DupReqRuns
  import opened AbandonedRequests

  // ----- answers -----

  /** The entry cached under a key, by the queue alone. */
  ghost predicate CachedAs(w: World, e: Id, k: Key) {
    e in w.c.fifo && e in w.c.heap && w.c.heap[e].key == k
  }

  /** After every run, what a new request for a key gets: the reply recorded for it, if one is; nothing,
      if the first request for it has not finished; and otherwise it is told to execute, and a new entry
      is cached last.  A reply recorded for an entry is the one that was stored for it. */
  lemma EveryStartAnswered(maxsize: int, hiwat: int, steps: seq<Step>, r: ReqId, k: Key)
    requires r !in After(maxsize, hiwat, steps).reqs
    ensures var w := After(maxsize, hiwat, steps); var w' := Next(w, StartStep(r, k));
            && (forall e :: CachedAs(w, e, k) && w.c.heap[e].state == Started ==> w' == w)
            && (forall e :: CachedAs(w, e, k) && w.c.heap[e].state != Started ==>
                  && w'.log == w.log + [Replayed(e, k, w.c.heap[e].res)] && w'.reqs == w.reqs[r := Handle(e, Shares)]
                  && w.c.heap[e].res.Some? && Stored(e, k, w.c.heap[e].res.value) in w.log
                  && w'.c.fifo == w.c.fifo)
            && ((forall e :: !CachedAs(w, e, k)) ==>
                  && w'.log == w.log + [Granted(w.c.next, k)] && w'.reqs == w.reqs[r := Handle(w.c.next, Owns)]
                  && w'.c.fifo == w.c.fifo + [w.c.next] && CachedAs(w', w.c.next, k)
                  && w'.c.heap[w.c.next].state == Started)
  {
    EveryRunKeeps(maxsize, hiwat, steps);
    var w := After(maxsize, hiwat, steps);
    if k in w.c.index { assert CachedAs(w, w.c.index[k], k); }
  }

  // ----- retirement -----

  /** The oldest entry is the one a finish may retire; nobody may hold it. */
  ghost predicate OldestIsFree(w: World) { w.c.fifo != [] && Holders(w.reqs, w.c.fifo[0]) == {} }

  lemma StoreKeepsQueue(w: World, r: ReqId, res: Reply)
    requires MayFinish(w, r)
    ensures var w1 := AfterStore(w, r, res);
            && w1.c.fifo == w.c.fifo && w1.c.retwnd == w.c.retwnd && w1.c.size == w.c.size
            && w1.c.maxsize == w.c.maxsize && w1.c.hiwat == w.c.hiwat
            && (forall e :: Holders(w1.reqs, e) == Holders(w.reqs, e))
  {
    var w1 := AfterStore(w, r, res);
    forall e ensures Holders(w1.reqs, e) == Holders(w.reqs, e) {
    }
  }

  /** Retirement on the cache alone; `free` says that nobody holds the oldest entry. */
  lemma RetireExactly(c: Cache, free: bool)
    requires Tables(c) && (c.fifo != [] ==> (c.heap[c.fifo[0]].refcnt <= 0 <==> free))
    ensures var n := |c.fifo|;
            var retires := n > 0 && free && (n > c.maxsize || (n > c.hiwat && c.retwnd == 0));
            && ToRetire(c) == (if retires then Some(c.fifo[0]) else None)
            && Retire(c).fifo == (if retires then c.fifo[1..] else c.fifo)
            && Retire(c).heap == (if retires then c.heap - {c.fifo[0]} else c.heap)
            && Retire(c).retwnd == (if n > c.maxsize && n > 0 && c.retwnd > 0 then c.retwnd - 1 else c.retwnd)
            && Retire(c).maxsize == c.maxsize
  {
    if c.fifo != [] { assert c.fifo[0] in c.fifo; }
  }

  lemma FreeMeansUnreferenced(c: Cache, reqs: map<ReqId, Handle>)
    requires Tables(c) && References(c, reqs) && c.fifo != []
    ensures c.fifo[0] in c.heap && (c.heap[c.fifo[0]].refcnt <= 0 <==> Holders(reqs, c.fifo[0]) == {})
  {
    assert c.fifo[0] in c.fifo;
    var held := Holders(reqs, c.fifo[0]);
    assert |held| == 0 <==> held == {};
  }

  /** Finishing a request retires the oldest entry if it is due and nobody holds it. */
  ghost predicate Due(w: World) {
    && OldestIsFree(w)
    && (|w.c.fifo| > w.c.maxsize || (|w.c.fifo| > w.c.hiwat && w.c.retwnd == 0))
  }

  lemma RetiresIff(w: World)
    requires Tables(w.c) && References(w.c, w.reqs)
    ensures var n, w' := |w.c.fifo|, AfterRetire(w);
            && w'.log == (if Due(w) then w.log + [Retired(w.c.fifo[0], n - 1)] else w.log)
            && w'.c.fifo == (if Due(w) then w.c.fifo[1..] else w.c.fifo)
            && w'.c.heap == (if Due(w) then w.c.heap - {w.c.fifo[0]} else w.c.heap)
            && w'.c.retwnd == (if n > w.c.maxsize && n > 0 && w.c.retwnd > 0 then w.c.retwnd - 1 else w.c.retwnd)
            && w'.c.maxsize == w.c.maxsize
  {
    if w.c.fifo != [] { FreeMeansUnreferenced(w.c, w.reqs); }
    RetireExactly(w.c, OldestIsFree(w));
  }

  lemma FinishRetires(w: World, r: ReqId, res: Reply)
    requires Inv(w) && MayFinish(w, r)
    ensures var n, w' := |w.c.fifo|, Next(w, FinishStep(r, res));
            var stored := w.log + [Stored(w.reqs[r].entry, w.c.heap[w.reqs[r].entry].key, res)];
            && n > 0
            && w'.log == (if Due(w) then stored + [Retired(w.c.fifo[0], n - 1)] else stored)
            && w'.c.fifo == (if Due(w) then w.c.fifo[1..] else w.c.fifo)
            && (Due(w) ==> w.c.fifo[0] !in w'.c.heap)
            && w'.c.retwnd == (if n > w.c.maxsize && w.c.retwnd > 0 then w.c.retwnd - 1 else w.c.retwnd)
            && w'.c.maxsize == w.c.maxsize
  {
    StoreKeepsQueue(w, r, res);
    StepStore(w, r, res);
    RetiresIff(AfterStore(w, r, res));
    assert w.reqs[r].entry in w.c.fifo;
  }

  /** After every run: finishing a request retires the oldest entry, which frees it, if and only if nobody
      holds it and more than maxsize entries are cached, or more than hiwat while no retirement window is
      open.  The window closes by one at each finish above maxsize. */
  lemma FinishRetiresIff(maxsize: int, hiwat: int, steps: seq<Step>, r: ReqId, res: Reply)
    requires MayFinish(After(maxsize, hiwat, steps), r)
    ensures var w := After(maxsize, hiwat, steps); var w' := Next(w, FinishStep(r, res));
            var n, stored := |w.c.fifo|, w.log + [Stored(w.reqs[r].entry, w.c.heap[w.reqs[r].entry].key, res)];
            && n > 0
            && (if OldestIsFree(w) && (n > maxsize || (n > hiwat && w.c.retwnd == 0)) then
                  && w'.log == stored + [Retired(w.c.fifo[0], n - 1)] && w'.c.fifo == w.c.fifo[1..]
                  && w.c.fifo[0] !in w'.c.heap
                else
                  w'.log == stored && w'.c.fifo == w.c.fifo)
            && w'.c.retwnd == if n > maxsize && w.c.retwnd > 0 then w.c.retwnd - 1 else w.c.retwnd
  {
    EveryRunKeeps(maxsize, hiwat, steps);
    FinishRetires(After(maxsize, hiwat, steps), r, res);
  }

  /** A replay opens a window of 16, or extends an open one by one. */
  lemma ReplayOpensWindow(w: World, r: ReqId, k: Key, e: Id)
    requires Inv(w) && r !in w.reqs && CachedAs(w, e, k) && w.c.heap[e].state != Started
    ensures Next(w, StartStep(r, k)).c.retwnd == if w.c.retwnd == 0 then 16 else w.c.retwnd + 1
  {
    assert w.c.index[k] == e;
  }

  // ----- the window over later steps -----

  /** Nothing retired since the log was n long. */
  ghost predicate NoneRetiredSince(log: seq<Event>, n: nat) {
    forall i :: n <= i < |log| ==> !log[i].Retired?
  }

  ghost predicate WithinMaxsize(w: World, steps: seq<Step>) {
    forall n :: 0 <= n <= |steps| ==> |RunFrom(w, steps[..n]).c.fifo| <= w.c.maxsize
  }

  /** The later state keeps the log and the window, and nothing was retired. */
  ghost predicate NoneRetired(w: World, w': World) {
    && w'.c.retwnd >= w.c.retwnd && w'.c.maxsize == w.c.maxsize
    && |w.log| <= |w'.log| && w'.log[..|w.log|] == w.log && NoneRetiredSince(w'.log, |w.log|)
  }

  lemma OtherStepsRetireNone(w: World, s: Step)
    requires !s.FinishStep? && w.c.retwnd >= 0
    ensures NoneRetired(w, Next(w, s))
  {
    LogGrows(w, s);
  }

  lemma WindowStep(w: World, s: Step)
    requires Inv(w) && |w.c.fifo| <= w.c.maxsize && w.c.retwnd > 0
    ensures NoneRetired(w, Next(w, s))
  {
    if s.FinishStep? {
      LogGrows(w, s);
      if MayFinish(w, s.r) { FinishRetires(w, s.r, s.res); }
    } else {
      OtherStepsRetireNone(w, s);
    }
  }

  lemma NoneRetiredTwice(w: World, w1: World, w2: World)
    requires NoneRetired(w, w1) && NoneRetired(w1, w2)
    ensures NoneRetired(w, w2)
  {
    forall i | |w.log| <= i < |w2.log| ensures !w2.log[i].Retired? {
      if i < |w1.log| { assert w2.log[..|w1.log|][i] == w1.log[i]; }
    }
    assert w2.log[..|w.log|] == w2.log[..|w1.log|][..|w.log|];
  }

  /** While a window is open nothing at all is retired, over any number of steps of any kind, as long as no
      more than maxsize entries are cached; and the window does not shrink. */
  lemma {:induction false} NothingRetiredInWindow(w: World, steps: seq<Step>)
    requires Inv(w) && w.c.retwnd > 0 && WithinMaxsize(w, steps)
    ensures Inv(RunFrom(w, steps)) && NoneRetired(w, RunFrom(w, steps))
  {
    if steps != [] {
      var before, s := steps[..|steps| - 1], steps[|steps| - 1];
      assert WithinMaxsize(w, before) by {
        forall n | 0 <= n <= |before| ensures |RunFrom(w, before[..n]).c.fifo| <= w.c.maxsize {
          assert before[..n] == steps[..n];
        }
      }
      NothingRetiredInWindow(w, before);
      var w1 := RunFrom(w, before);
      assert |w1.c.fifo| <= w.c.maxsize;
      StepKeeps(w1, s);
      WindowStep(w1, s);
      NoneRetiredTwice(w, w1, Next(w1, s));
    }
  }
}
