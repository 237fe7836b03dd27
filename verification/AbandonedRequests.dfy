/** Requests released by the thread that was to execute them before they were finished or deleted, as
    happens when a reply cannot be sent: when that leaves an entry nobody will ever finish, and what
    becomes of it. */
module AbandonedRequests {
  import opened Basics
  import opened DupReq
  import opened DupReqRuns

  /** Released without having been finished or deleted. */
  ghost predicate Abandoned(w: World, e: Id) {
    e in w.c.fifo && e in w.c.heap && w.c.heap[e].state == Started && Holders(w.reqs, e) == {}
  }

  ghost predicate StaysAbandoned(w: World, w': World, e: Id) {
    Abandoned(w', e) && e in w.c.heap && w'.c.heap[e].key == w.c.heap[e].key
  }

  lemma ReleasedUnfinishedIsAbandoned(w: World, r: ReqId)
    requires Core(w.c, w.reqs) && MayFinish(w, r)
    ensures Abandoned(Next(w, ReleStep(r)), w.reqs[r].entry)
  {
    var e := w.reqs[r].entry;
    assert e in w.c.fifo;
    assert Holders(w.reqs, e) == {r};
    assert Holders(w.reqs - {r}, e) == {};
  }

  lemma NotHeld(w: World, e: Id, r: ReqId)
    requires Abandoned(w, e) && r in w.reqs
    ensures w.reqs[r].entry != e
  {
    assert r !in Holders(w.reqs, e);
  }

  lemma AbandonedStart(w: World, e: Id, r: ReqId, k: Key)
    requires Core(w.c, w.reqs) && Abandoned(w, e) && MayStart(w, r, k)
    ensures StaysAbandoned(w, AfterStart(w, r, k), e)
    ensures k == w.c.heap[e].key ==> AfterStart(w, r, k) == w
  {
    assert k == w.c.heap[e].key ==> k in w.c.index && w.c.index[k] == e && Start(w.c, k).status == BeingProcessed;
    assert Holders(AfterStart(w, r, k).reqs, e) == {};
  }

  lemma AbandonedStore(w: World, e: Id, r: ReqId, res: Reply)
    requires Abandoned(w, e) && MayFinish(w, r)
    ensures StaysAbandoned(w, AfterStore(w, r, res), e)
  {
    NotHeld(w, e, r);
    assert Holders(AfterStore(w, r, res).reqs, e) == {};
  }

  lemma AbandonedDelete(w: World, e: Id, r: ReqId)
    requires Core(w.c, w.reqs) && Abandoned(w, e) && MayFinish(w, r)
    ensures StaysAbandoned(w, AfterDelete(w, r), e)
  {
    NotHeld(w, e, r);
    WithoutElements(w.c.fifo, w.reqs[r].entry);
    assert Holders(AfterDelete(w, r).reqs, e) == {};
  }

  lemma AbandonedRele(w: World, e: Id, r: ReqId)
    requires Abandoned(w, e) && MayRele(w, r)
    ensures StaysAbandoned(w, AfterRele(w, r), e)
  {
  }

  lemma RetireLeaves(w: World, e: Id)
    requires Tables(w.c) && Abandoned(w, e)
    ensures var w' := AfterRetire(w);
            StaysAbandoned(w, w', e) || RetiredIn(w'.log, e)
  {
    var w' := AfterRetire(w);
    if ToRetire(w.c).Some? {
      if w.c.fifo[0] == e {
        assert w'.log[|w.log|] == Retired(e, |Retire(w.c).fifo|);
      } else {
        TailElements(w.c.fifo);
      }
    }
  }

  /** The entry is still as it was when abandoned, and a request for its key is told that it is being
      processed and changes nothing; or it has been retired, which the log shows. */
  ghost predicate Stuck(w: World, e: Id, k: Key) {
    && Abandoned(w, e) && w.c.heap[e].key == k
    && forall r :: Next(w, StartStep(r, k)) == w
  }

  ghost predicate RetiredIn(log: seq<Event>, e: Id) {
    exists i :: 0 <= i < |log| && log[i].Retired? && log[i].e == e
  }

  lemma AbandonedIsStuck(w: World, e: Id)
    requires Inv(w) && Abandoned(w, e)
    ensures Stuck(w, e, w.c.heap[e].key)
  {
    var k := w.c.heap[e].key;
    forall r ensures Next(w, StartStep(r, k)) == w {
      if MayStart(w, r, k) { AbandonedStart(w, e, r, k); }
    }
  }

  lemma LogGrows(w: World, s: Step)
    ensures |w.log| <= |Next(w, s).log| && Next(w, s).log[..|w.log|] == w.log
  {
  }

  /** One step: an abandoned entry stays abandoned under its key, or is retired. */
  lemma AbandonedUntilRetired(w: World, e: Id, s: Step)
    requires Inv(w) && Abandoned(w, e)
    ensures var w' := Next(w, s);
            StaysAbandoned(w, w', e) || RetiredIn(w'.log, e)
  {
    match s
    case StartStep(r, k) =>
      if MayStart(w, r, k) { AbandonedStart(w, e, r, k); }
    case FinishStep(r, res) =>
      if MayFinish(w, r) {
        AbandonedStore(w, e, r, res);
        StepStore(w, r, res);
        RetireLeaves(AfterStore(w, r, res), e);
      }
    case DeleteStep(r) =>
      if MayFinish(w, r) { AbandonedDelete(w, e, r); }
    case ReleStep(r) =>
      if MayRele(w, r) { AbandonedRele(w, e, r); }
  }

  /** What a run makes of a state. */
  function RunFrom(w: World, steps: seq<Step>): World {
    if steps == [] then w else Next(RunFrom(w, steps[..|steps| - 1]), steps[|steps| - 1])
  }

  /** Over all later steps, whatever they are: until the log shows the entry retired, every request for
      its key is told that it is being processed and changes nothing. */
  lemma {:induction false} StuckUntilRetired(w: World, e: Id, steps: seq<Step>)
    requires Inv(w) && Abandoned(w, e)
    ensures Inv(RunFrom(w, steps))
    ensures Stuck(RunFrom(w, steps), e, w.c.heap[e].key) || RetiredIn(RunFrom(w, steps).log, e)
  {
    if steps == [] {
      AbandonedIsStuck(w, e);
    } else {
      var before, s := steps[..|steps| - 1], steps[|steps| - 1];
      StuckUntilRetired(w, e, before);
      var w1 := RunFrom(w, before);
      StepKeeps(w1, s);
      LogGrows(w1, s);
      if RetiredIn(w1.log, e) {
        var i :| 0 <= i < |w1.log| && w1.log[i].Retired? && w1.log[i].e == e;
        assert Next(w1, s).log[i] == w1.log[i];
      } else {
        AbandonedUntilRetired(w1, e, s);
        if !RetiredIn(Next(w1, s).log, e) { AbandonedIsStuck(Next(w1, s), e); }
      }
    }
  }

  // ----- how an entry comes to be abandoned -----

  /** The step is the release of a request that was told to execute and has neither finished nor
      deleted. */
  predicate ReleasesUnfinished(w: World, s: Step, e: Id) {
    s.ReleStep? && MayFinish(w, s.r) && w.reqs[s.r].entry == e
  }

  lemma StartAbandonsNone(w: World, r: ReqId, k: Key, e: Id)
    requires Core(w.c, w.reqs) && MayStart(w, r, k) && !Abandoned(w, e)
    ensures !Abandoned(AfterStart(w, r, k), e)
  {
    var w' := AfterStart(w, r, k);
    if k !in w.c.index && e == w.c.next { assert r in Holders(w'.reqs, e); }
    if e in w.c.heap && Holders(w.reqs, e) != {} {
      var x :| x in Holders(w.reqs, e);
      assert x in Holders(w'.reqs, e);
    }
  }

  lemma StoreAbandonsNone(w: World, r: ReqId, res: Reply, e: Id)
    requires Core(w.c, w.reqs) && MayFinish(w, r) && !Abandoned(w, e)
    ensures !Abandoned(AfterStore(w, r, res), e)
  {
    assert Holders(AfterStore(w, r, res).reqs, e) == Holders(w.reqs, e);
  }

  lemma RetireAbandonsNone(w: World, e: Id)
    requires Tables(w.c) && !Abandoned(w, e)
    ensures !Abandoned(AfterRetire(w), e)
  {
    if w.c.fifo != [] { TailElements(w.c.fifo); }
  }

  lemma DeleteAbandonsNone(w: World, r: ReqId, e: Id)
    requires Core(w.c, w.reqs) && MayFinish(w, r) && !Abandoned(w, e)
    ensures !Abandoned(AfterDelete(w, r), e)
  {
    assert Holders(AfterDelete(w, r).reqs, e) == Holders(w.reqs, e);
    WithoutElements(w.c.fifo, w.reqs[r].entry);
  }

  lemma ReleaseOfAnother(w: World, r: ReqId, e: Id)
    requires MayRele(w, r) && w.reqs[r].entry != e
    ensures Abandoned(AfterRele(w, r), e) <==> Abandoned(w, e)
  {
    assert Holders(w.reqs - {r}, e) == Holders(w.reqs, e);
  }

  lemma ReleaseAbandonsIff(w: World, r: ReqId, e: Id)
    requires Core(w.c, w.reqs) && MayRele(w, r) && !Abandoned(w, e)
    ensures Abandoned(AfterRele(w, r), e) <==> ReleasesUnfinished(w, ReleStep(r), e)
  {
    if w.reqs[r].entry != e {
      ReleaseOfAnother(w, r, e);
    } else if w.reqs[r].role == Owns {
      ReleasedUnfinishedIsAbandoned(w, r);
    } else {
      assert w.c.heap[e].state != Started;
    }
  }

  /** Exactly one kind of step abandons an entry: the release of its request while that is unfinished. */
  lemma AbandonedByReleaseOnly(w: World, s: Step, e: Id)
    requires Inv(w) && !Abandoned(w, e)
    ensures Abandoned(Next(w, s), e) <==> ReleasesUnfinished(w, s, e)
  {
    match s
    case StartStep(r, k) => if MayStart(w, r, k) { StartAbandonsNone(w, r, k, e); }
    case FinishStep(r, res) =>
      if MayFinish(w, r) {
        StoreAbandonsNone(w, r, res, e);
        StepStore(w, r, res);
        RetireAbandonsNone(AfterStore(w, r, res), e);
      }
    case DeleteStep(r) => if MayFinish(w, r) { DeleteAbandonsNone(w, r, e); }
    case ReleStep(r) => if MayRele(w, r) { ReleaseAbandonsIff(w, r, e); }
  }

  // ----- whole runs -----

  /** Every entry being processed has its executor. */
  ghost predicate AllExecuted(w: World) {
    forall e :: e in w.c.heap && w.c.heap[e].state == Started ==>
      exists r :: r in w.reqs && w.reqs[r] == Handle(e, Owns)
  }

  lemma AllExecutedIffNoneAbandoned(w: World)
    requires Core(w.c, w.reqs)
    ensures AllExecuted(w) <==> forall e :: !Abandoned(w, e)
  {
    if AllExecuted(w) {
      forall e ensures !Abandoned(w, e) {
        if e in w.c.heap && w.c.heap[e].state == Started {
          var r :| r in w.reqs && w.reqs[r] == Handle(e, Owns);
          assert r in Holders(w.reqs, e);
        }
      }
    }
    if forall e :: !Abandoned(w, e) {
      forall e | e in w.c.heap && w.c.heap[e].state == Started
        ensures exists r :: r in w.reqs && w.reqs[r] == Handle(e, Owns)
      {
        assert !Abandoned(w, e);
        var r :| r in Holders(w.reqs, e);
        assert w.reqs[r] == Handle(e, Owns);
      }
    }
  }

  /** Step n releases a request that is unfinished. */
  ghost predicate ReleasesAt(maxsize: int, hiwat: int, steps: seq<Step>, n: nat)
    requires n < |steps|
  {
    steps[n].ReleStep? && MayFinish(After(maxsize, hiwat, steps[..n]), steps[n].r)
  }

  ghost predicate ExecutedThroughout(maxsize: int, hiwat: int, steps: seq<Step>) {
    forall n :: 0 <= n <= |steps| ==> AllExecuted(After(maxsize, hiwat, steps[..n]))
  }

  ghost predicate NoneReleased(maxsize: int, hiwat: int, steps: seq<Step>) {
    forall n :: 0 <= n < |steps| ==> !ReleasesAt(maxsize, hiwat, steps, n)
  }

  /** Throughout a run every entry being processed has its executor, exactly when no request is released
      in the run while unfinished. */
  lemma {:induction false} ExecutedUnlessReleased(maxsize: int, hiwat: int, steps: seq<Step>)
    ensures ExecutedThroughout(maxsize, hiwat, steps) <==> NoneReleased(maxsize, hiwat, steps)
  {
    if steps == [] {
      assert steps[..0] == [];
    } else {
      var before, s := steps[..|steps| - 1], steps[|steps| - 1];
      ExecutedUnlessReleased(maxsize, hiwat, before);
      ThroughoutSplits(maxsize, hiwat, steps);
      NoneReleasedSplits(maxsize, hiwat, steps);
      EveryRunKeeps(maxsize, hiwat, before);
      LastStepExecuted(After(maxsize, hiwat, before), s);
    }
  }

  lemma ThroughoutSplits(maxsize: int, hiwat: int, steps: seq<Step>)
    requires steps != []
    ensures var before := steps[..|steps| - 1];
            && (ExecutedThroughout(maxsize, hiwat, steps)
                <==> AllExecuted(After(maxsize, hiwat, steps)) && ExecutedThroughout(maxsize, hiwat, before))
            && (ExecutedThroughout(maxsize, hiwat, before) ==> AllExecuted(After(maxsize, hiwat, before)))
  {
    var m := |steps| - 1;
    assert steps[..|steps|] == steps && steps[..m][..m] == steps[..m];
    forall n | 0 <= n <= m ensures steps[..m][..n] == steps[..n] {
    }
  }

  lemma NoneReleasedSplits(maxsize: int, hiwat: int, steps: seq<Step>)
    requires steps != []
    ensures NoneReleased(maxsize, hiwat, steps)
            <==> && !ReleasesAt(maxsize, hiwat, steps, |steps| - 1)
                 && NoneReleased(maxsize, hiwat, steps[..|steps| - 1])
  {
    var m := |steps| - 1;
    forall n | 0 <= n < m
      ensures ReleasesAt(maxsize, hiwat, steps[..m], n) <==> ReleasesAt(maxsize, hiwat, steps, n)
    {
      assert steps[..m][..n] == steps[..n] && steps[..m][n] == steps[n];
    }
  }

  lemma LastStepExecuted(w: World, s: Step)
    requires Inv(w)
    ensures AllExecuted(w) ==> (AllExecuted(Next(w, s)) <==> !(s.ReleStep? && MayFinish(w, s.r)))
  {
    StepKeeps(w, s);
    AllExecutedIffNoneAbandoned(w);
    AllExecutedIffNoneAbandoned(Next(w, s));
    if AllExecuted(w) { LastStepAbandons(w, s); }
  }

  lemma LastStepAbandons(w: World, s: Step)
    requires Inv(w) && forall e :: !Abandoned(w, e)
    ensures (forall e :: !Abandoned(Next(w, s), e)) <==> !(s.ReleStep? && MayFinish(w, s.r))
  {
    forall e ensures Abandoned(Next(w, s), e) <==> ReleasesUnfinished(w, s, e) {
      AbandonedByReleaseOnly(w, s, e);
    }
    if s.ReleStep? && MayFinish(w, s.r) {
      assert ReleasesUnfinished(w, s, w.reqs[s.r].entry);
    }
  }
}
