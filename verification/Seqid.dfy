/** The per-owner replay cache of NFSv4.0 (Check_nfs4_seqid, Copy_nfs4_state_req): one saved
    operation per open owner or lock owner, and sequence ids that wrap at 2^32
    (sections 9.1.7 and 9.1.8 of RFC 7530). */
module Seqid {
  import opened Basics

  type Id32 = n: int | 0 <= n < U32

  type Obj = nat     // a file, by the address of its handle
  type Op = nat      // an operation code

  datatype NfsStatus = NfsOk | BadSeqid | OtherStatus(code: nat)

  datatype Resp = Resp(status: NfsStatus, body: int)

  /** What an owner remembers; `last` is null until something has been recorded with a file. */
  datatype Owner = Owner(seqid: Id32, argop: Op, last: Option<Obj>, resp: Resp)

  datatype Request = Request(seqid: Id32, argop: Op, obj: Option<Obj>)

  /** The verdict on a request: execute it, or answer it with a response. */
  datatype Verdict = Execute | Reply(resp: Resp)

  predicate IsReplay(o: Owner, q: Request) {
    o.seqid == q.seqid && o.argop == q.argop && o.last == q.obj
  }

  /** `resp` is the response under construction; only its status is overwritten for a bad id. */
  function Check(owner: Option<Owner>, q: Request, resp: Resp): Verdict {
    if owner.None? || owner.value.last.None? then Execute
    else if q.seqid == (owner.value.seqid + 1) % U32 then Execute
    else if IsReplay(owner.value, q) then Reply(owner.value.resp)
    else Reply(resp.(status := BadSeqid))
  }

  function Recorded(q: Request, resp: Resp): Owner {
    Owner(q.seqid, q.argop, q.obj, resp)
  }

  class Nfs4Owner {
    var seqid: Id32
    var argop: Op
    var last: Option<Obj>
    var resp: Resp

    function View(): Owner
      reads this
    {
      Owner(seqid, argop, last, resp)
    }

    constructor (initial: Resp)
      ensures View() == Owner(0, 0, None, initial)
    {
      seqid, argop, last, resp := 0, 0, None, initial;
    }

    /** True when the caller should process the operation, false when it should answer `out`. */
    method CheckSeqid(q: Request, pending: Resp) returns (proceed: bool, out: Resp)
      ensures Check(Some(View()), q, pending) == if proceed then Execute else Reply(out)
      ensures proceed ==> out == pending
    {
      if last == None {
        return true, pending;
      }
      var next := (seqid + 1) % U32;
      if q.seqid == next {
        return true, pending;
      }
      out := pending.(status := BadSeqid);
      if seqid != q.seqid {
        return false, out;
      }
      if q.argop != argop {
        return false, out;
      }
      if last != q.obj {
        return false, out;
      }
      out := resp;
      return false, out;
    }

    method CopyStateReq(q: Request, response: Resp)
      modifies this
      ensures View() == Recorded(q, response)
    {
      resp := response;
      argop := q.argop;
      last := q.obj;
      seqid := q.seqid;
    }
  }

  // ----- runs -----

  /** A request as it arrives, and the response it would produce if executed. */
  datatype Arrival = Arrival(q: Request, result: Resp)

  /** The owner and the requests executed so far with their responses, in order. */
  datatype World = World(owner: Owner, executed: seq<Arrival>)

  function Next(w: World, a: Arrival): World {
    if Check(Some(w.owner), a.q, a.result).Execute?
    then World(Recorded(a.q, a.result), w.executed + [a])
    else w
  }

  function After(initial: Resp, arrivals: seq<Arrival>): World {
    if arrivals == [] then World(Owner(0, 0, None, initial), [])
    else Next(After(initial, arrivals[..|arrivals| - 1]), arrivals[|arrivals| - 1])
  }

  /** The owner remembers the request executed last, and each executed request that was recorded with
      a file is followed by the next sequence id. */
  ghost predicate Inv(w: World) {
    && (w.executed == [] ==> w.owner.last == None)
    && (w.executed != [] ==>
          var last := w.executed[|w.executed| - 1];
          w.owner == Owner(last.q.seqid, last.q.argop, last.q.obj, last.result))
    && (forall i :: 0 <= i < |w.executed| - 1 && w.executed[i].q.obj.Some? ==>
          w.executed[i + 1].q.seqid == (w.executed[i].q.seqid + 1) % U32)
  }

  lemma {:induction false} EveryRunKeeps(initial: Resp, arrivals: seq<Arrival>)
    ensures Inv(After(initial, arrivals))
  {
    if arrivals != [] {
      var before, a := arrivals[..|arrivals| - 1], arrivals[|arrivals| - 1];
      EveryRunKeeps(initial, before);
      var w := After(initial, before);
      var w' := Next(w, a);
      if Check(Some(w.owner), a.q, a.result).Execute? {
        forall i | 0 <= i < |w'.executed| - 1 && w'.executed[i].q.obj.Some?
          ensures w'.executed[i + 1].q.seqid == (w'.executed[i].q.seqid + 1) % U32
        {
          assert w'.executed[i] == w.executed[i];
        }
      }
    }
  }

  /** While every executed request is recorded with a file, the executed ids count up by one modulo
      2^32 from the first, so the same id is executed again only after a whole number of rounds of
      2^32 executions. */
  lemma {:induction false} ExecutedIdsCountUp(initial: Resp, arrivals: seq<Arrival>, i: nat, j: nat)
    requires var ex := After(initial, arrivals).executed;
             i <= j < |ex| && forall k :: i <= k < j ==> ex[k].q.obj.Some?
    ensures var ex := After(initial, arrivals).executed; ex[j].q.seqid == (ex[i].q.seqid + (j - i)) % U32
    ensures var ex := After(initial, arrivals).executed; ex[i].q.seqid == ex[j].q.seqid ==> (j - i) % U32 == 0
    decreases j - i
  {
    EveryRunKeeps(initial, arrivals);
    if i < j {
      ExecutedIdsCountUp(initial, arrivals, i, j - 1);
      SuccessorModulo(After(initial, arrivals).executed[i].q.seqid, j - 1 - i);
    }
  }

  lemma SuccessorModulo(s: nat, d: nat)
    ensures ((s + d) % U32 + 1) % U32 == (s + d + 1) % U32
    ensures s < U32 && s == (s + d + 1) % U32 ==> (d + 1) % U32 == 0
  {
  }

  /** Any number of retransmissions of the operation executed last, on the same file, are answered
      with the response that execution gave; nothing is executed and nothing changes. */
  lemma {:induction false} RetransmissionsAreAnswered(w: World, n: nat, result: Resp)
    requires Inv(w) && w.executed != [] && w.executed[|w.executed| - 1].q.obj.Some?
    ensures var last := w.executed[|w.executed| - 1];
            && Check(Some(w.owner), last.q, result) == Reply(last.result)
            && Repeated(w, Arrival(last.q, result), n) == w
  {
    if n > 0 { RetransmissionsAreAnswered(w, n - 1, result); }
  }

  function Repeated(w: World, a: Arrival, n: nat): World {
    if n == 0 then w else Next(Repeated(w, a, n - 1), a)
  }

  /** Recorded without a file, the operation is executed again on retransmission: at most once fails
      exactly then. */
  lemma RetransmissionExecutedIff(w: World, result: Resp)
    requires Inv(w) && w.executed != []
    ensures var q := w.executed[|w.executed| - 1].q;
            Check(Some(w.owner), q, result).Execute? <==> q.obj.None?
  {
  }

  /** After every run, what the next arrival gets, in terms of the request executed last: it is executed
      and becomes the last, when there was none, or that was recorded without a file, or the id is the
      next one; it gets the response that execution gave, when it is the same request; and otherwise it
      is refused.  In the last two cases nothing changes.  Without an owner it is executed. */
  lemma {:induction false} EveryArrival(initial: Resp, arrivals: seq<Arrival>, a: Arrival)
    ensures var w := After(initial, arrivals);
            var verdict, w' := Check(Some(w.owner), a.q, a.result), After(initial, arrivals + [a]);
            if w.executed == [] then verdict == Execute && w'.executed == [a]
            else
              var last := w.executed[|w.executed| - 1];
              if last.q.obj.None? || a.q.seqid == (last.q.seqid + 1) % U32 then
                verdict == Execute && w'.executed == w.executed + [a]
              else
                && verdict == Reply(if a.q == last.q then last.result else a.result.(status := BadSeqid))
                && w' == w
    ensures Check(None, a.q, a.result) == Execute
  {
    EveryRunKeeps(initial, arrivals);
    assert (arrivals + [a])[..|arrivals|] == arrivals;
  }
}
