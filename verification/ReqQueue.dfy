/** The request queues between the RPC decoders and the workers (nfs_rpc_enqueue_req,
    nfs_rpc_consume_req, nfs_rpc_dequeue_req): four pairs of a producer list and a consumer list,
    served in rotation from a shared 32-bit counter. */
module ReqQueue {
  import opened Basics

  type Req = int

  const REQ_Q_MOUNT: nat := 0
  const REQ_Q_CALL: nat := 1
  const REQ_Q_LOW_LATENCY: nat := 2
  const REQ_Q_HIGH_LATENCY: nat := 3

  datatype ReqType = NfsRequest(mount: bool, highLatency: bool) | NfsCall | NineP | OtherType

  /** Which pair a request goes to; a request of unknown type is not queued at all. */
  function Route(t: ReqType): Option<nat> {
    match t
    case NfsRequest(mount, high) =>
      Some(if mount then REQ_Q_MOUNT else if high then REQ_Q_HIGH_LATENCY else REQ_Q_LOW_LATENCY)
    case NfsCall => Some(REQ_Q_CALL)
    case NineP => Some(REQ_Q_LOW_LATENCY)
    case OtherType => None
  }

  /** A producer list, a consumer list and their recorded sizes. */
  datatype Pair = Pair(producer: seq<Req>, consumer: seq<Req>, psize: nat, csize: nat)

  ghost predicate PairValid(p: Pair) { p.psize == |p.producer| && p.csize == |p.consumer| }

  /** The one queue a pair stands for. */
  function Contents(p: Pair): seq<Req> { p.consumer + p.producer }

  // ----- the abstract dispatcher -----

  datatype Disp = Disp(qs: seq<seq<Req>>, ctr: nat, enqueued: nat, dequeued: nat)

  ghost predicate Valid(d: Disp) {
    |d.qs| == 4 && d.ctr < U32 && d.enqueued < U32 && d.dequeued < U32
  }

  /** The rotation counter never yields 0: at the wrap it is advanced once more. */
  function Bump(c: nat): nat {
    var n := (c + 1) % U32;
    if n == 0 then 1 else n
  }

  /** The first non-empty queue from `slot` round. */
  function Pick(qs: seq<seq<Req>>, slot: nat, tries: nat): Option<nat>
    requires |qs| == 4 && slot < 4
    decreases tries
  {
    if tries == 0 then None
    else if qs[slot] != [] then Some(slot)
    else Pick(qs, (slot + 1) % 4, tries - 1)
  }

  function Enqueue(d: Disp, q: nat, r: Req): Disp
    requires |d.qs| == 4 && q < 4
  {
    d.(qs := d.qs[q := d.qs[q] + [r]], enqueued := (d.enqueued + 1) % U32)
  }

  /** The head of one queue taken, or nothing. */
  function Taken(qs: seq<seq<Req>>, pick: Option<nat>): (seq<seq<Req>>, Option<Req>)
    requires |qs| == 4 && (pick.Some? ==> pick.value < 4 && qs[pick.value] != [])
  {
    match pick
    case None => (qs, None)
    case Some(q) => (qs[q := qs[q][1..]], Some(qs[q][0]))
  }

  /** One draw: advance the counter, look round the four queues, take the head of the first that has
      one. */
  function Draw(d: Disp): (Disp, Option<Req>)
    requires |d.qs| == 4
  {
    var c := Bump(d.ctr);
    var (qs, req) := Taken(d.qs, PickFrom(d.qs, c % 4));
    (Disp(qs, c, d.enqueued, if req.Some? then (d.dequeued + 1) % U32 else d.dequeued), req)
  }

  function PickFrom(qs: seq<seq<Req>>, slot: nat): (r: Option<nat>)
    requires |qs| == 4 && slot < 4
    ensures r.Some? ==> r.value < 4 && qs[r.value] != []
    ensures r.None? ==> forall i :: 0 <= i < 4 ==> qs[i] == []
    ensures qs[slot] != [] ==> r == Some(slot)
    ensures qs[slot] == [] && qs[(slot + 1) % 4] != [] ==> r == Some((slot + 1) % 4)
    ensures qs[slot] == qs[(slot + 1) % 4] == [] && qs[(slot + 2) % 4] != [] ==> r == Some((slot + 2) % 4)
  {
    Pick(qs, slot, 4)
  }

  // ----- the dispatcher as it runs -----

  class Dispatcher {
    var qset: seq<Pair>
    var ctr: nat
    var enqueued: nat
    var dequeued: nat
    ghost var queues: seq<seq<Req>>   // the queue each pair stands for

    ghost predicate Ok()
      reads this
    {
      && |qset| == 4 && |queues| == 4
      && (forall i :: 0 <= i < 4 ==> PairValid(qset[i]) && Contents(qset[i]) == queues[i])
      && ctr < U32 && enqueued < U32 && dequeued < U32
    }

    ghost function View(): Disp
      reads this
    {
      Disp(queues, ctr, enqueued, dequeued)
    }

    constructor ()
      ensures Ok() && View() == Disp([[], [], [], []], 0, 0, 0)
    {
      var p := Pair([], [], 0, 0);
      qset, ctr, enqueued, dequeued := [p, p, p, p], 0, 0, 0;
      queues := [[], [], [], []];
    }

    /** Append to the producer list of the pair the request belongs to. */
    method EnqueueReq(r: Req, t: ReqType)
      requires Ok()
      modifies this
      ensures Ok()
      ensures Route(t).Some? ==> Route(t).value < 4 && View() == Enqueue(old(View()), Route(t).value, r)
      ensures Route(t).None? ==> View() == old(View())
    {
      var route := Route(t);
      if route.None? {
        return;
      }
      var q := route.value;
      var p := qset[q];
      assert p.consumer + (p.producer + [r]) == (p.consumer + p.producer) + [r];
      p := p.(producer := p.producer + [r], psize := p.psize + 1);
      qset := qset[q := p];
      queues := queues[q := queues[q] + [r]];
      enqueued := (enqueued + 1) % U32;
    }

    /** Take the head of the consumer list, splicing the producer list over when it is empty. */
    method ConsumeReq(q: nat) returns (req: Option<Req>)
      requires Ok() && q < 4
      modifies this`qset, this`queues
      ensures Ok()
      ensures old(queues[q]) == [] ==> req == None && queues == old(queues)
      ensures old(queues[q]) != [] ==> req == Some(old(queues[q])[0]) && queues == old(queues)[q := old(queues[q])[1..]]
    {
      var p := qset[q];
      if p.csize > 0 {
        req := Some(p.consumer[0]);
        assert (p.consumer + p.producer)[1..] == p.consumer[1..] + p.producer;
        p := p.(consumer := p.consumer[1..], csize := p.csize - 1);
        qset, queues := qset[q := p], queues[q := queues[q][1..]];
      } else {
        if p.psize > 0 {
          assert p.consumer + p.producer == p.producer;
          p := p.(consumer := p.consumer + p.producer, producer := [], csize := p.psize, psize := 0);
          req := Some(p.consumer[0]);
          assert p.consumer[1..] + [] == p.consumer[1..];
          p := p.(consumer := p.consumer[1..], csize := p.csize - 1);
          qset, queues := qset[q := p], queues[q := queues[q][1..]];
        } else {
          req := None;
        }
      }
    }

    method NextSlot() returns (ix: nat)
      requires ctr < U32
      modifies this`ctr
      ensures ix == ctr == Bump(old(ctr)) && ctr < U32
    {
      ctr := (ctr + 1) % U32;
      ix := ctr;
      if ix == 0 {
        ctr := (ctr + 1) % U32;
        ix := ctr;
      }
    }

    /** Look round the four queues from a slot and consume from the first that has a request. */
    method LookRound(start: nat) returns (req: Option<Req>)
      requires Ok() && start < 4
      modifies this`qset, this`queues
      ensures Ok()
      ensures (queues, req) == Taken(old(queues), PickFrom(old(queues), start))
    {
      var slot := start;
      for ix := 0 to 4
        invariant slot < 4 && Ok() && queues == old(queues)
        invariant PickFrom(queues, start) == Pick(queues, slot, 4 - ix)
      {
        req := ConsumeReq(slot);
        if req.Some? {
          return;
        }
        slot := (slot + 1) % 4;
      }
      return None;
    }

    /** One round of a worker. */
    method DequeueReq() returns (req: Option<Req>)
      requires Ok()
      modifies this
      ensures Ok()
      ensures (View(), req) == Draw(old(View()))
    {
      var ix := NextSlot();
      req := LookRound(ix % 4);
      if req.Some? {
        dequeued := (dequeued + 1) % U32;
      }
    }
  }

  // ----- conservation -----

  datatype Op = EnqOp(q: nat, r: Req) | DrawOp

  function Step(d: Disp, op: Op): Disp
    requires |d.qs| == 4
  {
    match op
    case EnqOp(q, r) => if q < 4 then Enqueue(d, q, r) else d
    case DrawOp => Draw(d).0
  }

  function Held(d: Disp): nat
    requires |d.qs| == 4
  {
    |d.qs[0]| + |d.qs[1]| + |d.qs[2]| + |d.qs[3]|
  }

  function RunAll(d: Disp, ops: seq<Op>): (d': Disp)
    requires |d.qs| == 4
    ensures |d'.qs| == 4
    decreases |ops|
  {
    if ops == [] then d else RunAll(Step(d, ops[0]), ops[1..])
  }

  /** The requests served in a run, in order. */
  function Served(d: Disp, ops: seq<Op>): seq<Req>
    requires |d.qs| == 4
    decreases |ops|
  {
    if ops == [] then []
    else (if ops[0].DrawOp? && Draw(d).1.Some? then [Draw(d).1.value] else []) + Served(Step(d, ops[0]), ops[1..])
  }

  lemma ModInc(x: int, y: int)
    ensures ((x + 1) % U32 - y - 1) % U32 == (x - y) % U32
    ensures (y - (x + 1) % U32 + 1) % U32 == (y - x) % U32
  {
  }

  lemma HeldAfterEnqueue(d: Disp, q: nat, r: Req)
    requires Valid(d) && q < 4
    ensures Valid(Enqueue(d, q, r)) && Held(Enqueue(d, q, r)) == Held(d) + 1
  {
  }

  lemma HeldAfterDraw(d: Disp)
    requires Valid(d)
    ensures Valid(Draw(d).0) && Held(Draw(d).0) == Held(d) - if Draw(d).1.Some? then 1 else 0
  {
  }

  /** The surplus of the enqueue counter over the dequeue counter and the requests held. */
  function Surplus(d: Disp): int
    requires |d.qs| == 4
  {
    (d.enqueued - d.dequeued - Held(d)) % U32
  }

  lemma StepConserves(d: Disp, op: Op)
    requires Valid(d)
    ensures Valid(Step(d, op))
    ensures Surplus(Step(d, op)) == Surplus(d)
  {
    match op
    case EnqOp(q, r) =>
      if q < 4 {
        HeldAfterEnqueue(d, q, r);
        ModInc(d.enqueued, d.dequeued + Held(d));
      }
    case DrawOp =>
      HeldAfterDraw(d);
      if Draw(d).1.Some? {
        ModInc(d.dequeued, d.enqueued - Held(d));
      }
  }

  /** Modulo 2^32, the two counters differ by the number of requests held, throughout every run. */
  lemma {:induction false} CountersTellHeld(d: Disp, ops: seq<Op>)
    requires Valid(d) && Surplus(d) == 0
    ensures Valid(RunAll(d, ops))
    ensures Surplus(RunAll(d, ops)) == 0
    decreases |ops|
  {
    if ops != [] {
      StepConserves(d, ops[0]);
      CountersTellHeld(Step(d, ops[0]), ops[1..]);
    }
  }

  // ----- order -----

  /** What one step puts into a queue and what it serves from it. */
  function PutBy(op: Op, q: nat): seq<Req> {
    if op.EnqOp? && op.q == q then [op.r] else []
  }

  function ServedBy(d: Disp, op: Op, q: nat): seq<Req>
    requires |d.qs| == 4 && q < 4
  {
    if op.DrawOp? && PickFrom(d.qs, Bump(d.ctr) % 4) == Some(q) then [d.qs[q][0]] else []
  }

  function PutInto(ops: seq<Op>, q: nat): seq<Req> {
    if ops == [] then [] else PutBy(ops[0], q) + PutInto(ops[1..], q)
  }

  function ServedFrom(d: Disp, ops: seq<Op>, q: nat): seq<Req>
    requires |d.qs| == 4 && q < 4
    decreases |ops|
  {
    if ops == [] then [] else ServedBy(d, ops[0], q) + ServedFrom(Step(d, ops[0]), ops[1..], q)
  }

  lemma StepIsFifo(d: Disp, op: Op, q: nat)
    requires |d.qs| == 4 && q < 4
    ensures |Step(d, op).qs| == 4 && ServedBy(d, op, q) + Step(d, op).qs[q] == d.qs[q] + PutBy(op, q)
    ensures op.DrawOp? && ServedBy(d, op, q) != [] ==> Draw(d).1 == Some(ServedBy(d, op, q)[0])
  {
  }

  lemma Regroup(a: seq<Req>, b: seq<Req>, c: seq<Req>, d: seq<Req>, e: seq<Req>, f: seq<Req>, g: seq<Req>)
    requires a + b == c + d && e + f == b + g
    ensures (a + e) + f == c + (d + g)
  {
    assert (a + e) + f == a + (e + f) && a + (b + g) == (a + b) + g && (c + d) + g == c + (d + g);
  }

  /** Over every run each pair of lists is one first-in first-out queue: what it held followed by what
      was put into it is what was served from it followed by what it holds. */
  lemma {:induction false} EachQueueIsFifo(d: Disp, ops: seq<Op>, q: nat)
    requires |d.qs| == 4 && q < 4
    ensures ServedFrom(d, ops, q) + RunAll(d, ops).qs[q] == d.qs[q] + PutInto(ops, q)
    decreases |ops|
  {
    if ops != [] {
      var op, d', rest := ops[0], Step(d, ops[0]), ops[1..];
      StepIsFifo(d, op, q);
      EachQueueIsFifo(d', rest, q);
      Regroup(ServedBy(d, op, q), d'.qs[q], d.qs[q], PutBy(op, q),
              ServedFrom(d', rest, q), RunAll(d', rest).qs[q], PutInto(rest, q));
    }
  }

  // ----- fairness -----

  /** The next counter value above `c` that gives slot `q`, were there no wrap. */
  function Target(c: nat, q: nat): nat { c + 1 + (q - (c + 1)) % 4 }

  /** How many draws from counter value `c` until one starts at slot `q`, and the value then. */
  function DrawsTo(c: nat, q: nat): int {
    if Target(c, q) < U32 then Target(c, q) - c else U32 - 1 - c + if q == 0 then 4 else q
  }

  function CtrAt(c: nat, q: nat): nat {
    if Target(c, q) < U32 then Target(c, q) else if q == 0 then 4 else q
  }

  /** How many draws until the slot has come up k + 1 times. */
  function Due(c: nat, q: nat, k: nat): int
    decreases k
  {
    DrawsTo(c, q) + if k == 0 then 0 else Due(CtrAt(c, q), q, k - 1)
  }

  lemma TargetStep(c: nat, q: nat)
    requires q < 4
    ensures c + 1 <= Target(c, q) <= c + 4 && Target(c, q) % 4 == q
    ensures (c + 1) % 4 == q ==> Target(c, q) == c + 1
    ensures (c + 1) % 4 != q ==> Target(c + 1, q) == Target(c, q)
  {
  }

  lemma DrawsToStep(c: nat, q: nat)
    requires c < U32 && q < 4
    ensures DrawsTo(c, q) >= 1
    ensures Bump(c) < U32 && CtrAt(c, q) < U32
    ensures Bump(c) % 4 == q ==> DrawsTo(c, q) == 1 && CtrAt(c, q) == Bump(c)
    ensures Bump(c) % 4 != q ==> DrawsTo(c, q) == 1 + DrawsTo(Bump(c), q) && CtrAt(c, q) == CtrAt(Bump(c), q)
  {
    TargetStep(c, q);
    if c + 1 < U32 {
      assert Bump(c) == c + 1;
    } else {
      assert Bump(c) == 1;
      TargetStep(1, q);
    }
  }

  lemma {:induction false} DueGrows(c: nat, q: nat, k: nat)
    requires c < U32 && q < 4 && k >= 1
    ensures Due(c, q, k - 1) < Due(c, q, k)
    decreases k
  {
    DrawsToStep(c, q);
    if k == 1 {
      DrawsToStep(CtrAt(c, q), q);
    } else {
      DueGrows(CtrAt(c, q), q, k - 1);
    }
  }

  function Draws(ops: seq<Op>): nat {
    if ops == [] then 0 else (if ops[0].DrawOp? then 1 else 0) + Draws(ops[1..])
  }

  /** The request at position k of queue q is served by the time its slot has come up k + 1 times,
      whatever is enqueued in between. */
  lemma {:induction false} ServedWhenDue(d: Disp, ops: seq<Op>, q: nat, k: nat)
    requires Valid(d) && q < 4 && k < |d.qs[q]| && Draws(ops) >= Due(d.ctr, q, k)
    ensures d.qs[q][k] in Served(d, ops)
    decreases |ops|
  {
    DrawsToStep(d.ctr, q);
    DuePositive(d.ctr, q, k);
    var op, rest := ops[0], ops[1..];
    var d', x := Step(d, op), d.qs[q][k];
    StepConserves(d, op);
    match op
    case EnqOp(q', r) =>
      assert d'.qs[q][k] == x;
      ServedWhenDue(d', rest, q, k);
    case DrawOp =>
      var p := PickFrom(d.qs, Bump(d.ctr) % 4);
      assert d.qs[q] != [];
      if p == Some(q) {
        if k > 0 {
          assert d'.qs[q][k - 1] == x;
          if Bump(d.ctr) % 4 != q {
            DueGrows(Bump(d.ctr), q, k);
          }
          ServedWhenDue(d', rest, q, k - 1);
        }
      } else {
        assert d'.qs[q] == d.qs[q];
        ServedWhenDue(d', rest, q, k);
      }
  }

  lemma {:induction false} DuePositive(c: nat, q: nat, k: nat)
    requires c < U32 && q < 4
    ensures Due(c, q, k) >= 1
    decreases k
  {
    DrawsToStep(c, q);
    if k > 0 { DuePositive(CtrAt(c, q), q, k - 1); }
  }

  /** The request is at position k of queue q and nowhere else. */
  ghost predicate OnlyAt(d: Disp, x: Req, q: nat, k: nat)
    requires |d.qs| == 4
  {
    && q < 4 && k < |d.qs[q]|
    && forall i, j :: 0 <= i < 4 && 0 <= j < |d.qs[i]| ==> (d.qs[i][j] == x <==> i == q && j == k)
  }

  /** The number of draws is exact: while the other queues have requests, the request is not served by
      fewer. */
  lemma {:induction false} NotServedBeforeDue(d: Disp, ops: seq<Op>, x: Req, q: nat, k: nat)
    requires Valid(d) && OnlyAt(d, x, q, k)
    requires (forall i :: 0 <= i < |ops| ==> ops[i].DrawOp?) && |ops| < Due(d.ctr, q, k)
    requires forall i :: 0 <= i < 4 && i != q ==> |d.qs[i]| >= |ops|
    ensures x !in Served(d, ops)
    decreases |ops|
  {
    if ops != [] {
      var slot, d' := Bump(d.ctr) % 4, Draw(d).0;
      DrawsToStep(d.ctr, q);
      assert PickFrom(d.qs, slot) == Some(slot);
      StepConserves(d, ops[0]);
      DrawKeepsPlace(d, x, q, k);
      NotServedBeforeDue(d', ops[1..], x, q, if slot == q then k - 1 else k);
    }
  }

  lemma DrawKeepsPlace(d: Disp, x: Req, q: nat, k: nat)
    requires Valid(d) && OnlyAt(d, x, q, k)
    requires var slot := Bump(d.ctr) % 4; d.qs[slot] != [] && (slot == q ==> k > 0)
    ensures OnlyAt(Draw(d).0, x, q, if Bump(d.ctr) % 4 == q then k - 1 else k)
    ensures Draw(d).1.Some? && Draw(d).1.value != x
  {
  }

  /** For every queue but the mount queue 4(k + 1) draws are enough, across any number of wraps. */
  lemma {:induction false} OthersDue(c: nat, q: nat, k: nat)
    requires c < U32 && 0 < q < 4
    ensures Due(c, q, k) <= 4 * (k + 1)
    decreases k
  {
    TargetStep(c, q);
    DrawsToStep(c, q);
    if k > 0 { OthersDue(CtrAt(c, q), q, k - 1); }
  }

  /** How often the counter wraps until the mount queue's slot has come up k + 1 times. */
  function Wraps(c: nat, k: nat): nat
    decreases k
  {
    (if Target(c, 0) < U32 then 0 else 1) + if k == 0 then 0 else Wraps(CtrAt(c, 0), k - 1)
  }

  /** The mount queue's turn is the one skipped at the wrap, which costs it three more draws. */
  lemma {:induction false} MountDue(c: nat, k: nat)
    requires c < U32
    ensures Due(c, 0, k) == Target(c, 0) - c + 4 * k + 3 * Wraps(c, k)
    decreases k
  {
    TargetStep(c, 0);
    if k > 0 { MountDue(CtrAt(c, 0), k - 1); }
  }

  lemma {:induction false} WrapsIff(c: nat, k: nat)
    requires c < U32
    ensures Wraps(c, k) == 0 <==> Target(c, 0) + 4 * k < U32
    ensures Wraps(c, k) <= 1 <==> Target(c, 0) + 4 * k < 2 * U32 - 4
    decreases k
  {
    TargetStep(c, 0);
    if k > 0 { WrapsIff(CtrAt(c, 0), k - 1); }
  }

  /** For the mount queue they are exactly when the counter does not wrap on the way, or wraps once and
      the queue's turn was the very next one. */
  lemma MountDueIff(c: nat, k: nat)
    requires c < U32
    ensures Due(c, 0, k) <= 4 * (k + 1) <==> InTime(c, 0, k)
    ensures Due(c, 0, k) <= 4 * (k + 1) + 3 * Wraps(c, k)
  {
    TargetStep(c, 0);
    MountDue(c, k);
    WrapsIff(c, k);
  }

  /** The counter value and the position alone tell whether 4(k + 1) draws are enough. */
  predicate InTime(c: nat, q: nat, k: nat) {
    q != 0 || Target(c, 0) + 4 * k < U32 || (c % 4 == 3 && Target(c, 0) + 4 * k < 2 * U32 - 4)
  }

  /** Whatever the queues hold and whatever is enqueued meanwhile, n draws from counter value c serve the
      request at position k of queue q. */
  ghost predicate AlwaysServed(c: nat, q: nat, k: nat, n: nat)
    requires q < 4
  {
    forall d, ops :: Valid(d) && d.ctr == c && k < |d.qs[q]| && Draws(ops) >= n ==> d.qs[q][k] in Served(d, ops)
  }

  /** Service within 4(k + 1) draws, for every queue, position and counter value: it is certain exactly
      when `InTime` says so, that is always but for the mount queue around the wrap of the counter. */
  lemma ServedInFourPerPositionIff(c: nat, q: nat, k: nat)
    requires c < U32 && q < 4
    ensures AlwaysServed(c, q, k, 4 * (k + 1)) <==> InTime(c, q, k)
  {
    if q == 0 { MountDueIff(c, k); } else { OthersDue(c, q, k); }
    if InTime(c, q, k) {
      forall d, ops | Valid(d) && d.ctr == c && k < |d.qs[q]| && Draws(ops) >= 4 * (k + 1)
        ensures d.qs[q][k] in Served(d, ops)
      {
        ServedWhenDue(d, ops, q, k);
      }
    } else {
      UnservedWitness(c, q, k, 4 * (k + 1));
    }
  }

  /** However late, it is certain after the draws counted by `Due`, and not before. */
  lemma ServedExactlyWhenDue(c: nat, q: nat, k: nat, n: nat)
    requires c < U32 && q < 4
    ensures AlwaysServed(c, q, k, n) <==> n >= Due(c, q, k)
  {
    if n >= Due(c, q, k) {
      forall d, ops | Valid(d) && d.ctr == c && k < |d.qs[q]| && Draws(ops) >= n ensures d.qs[q][k] in Served(d, ops) {
        ServedWhenDue(d, ops, q, k);
      }
    } else {
      UnservedWitness(c, q, k, n);
    }
  }

  function OnlyDraws(n: nat): seq<Op> { seq(n, _ => DrawOp) }

  lemma {:induction false} DrawsOfOnlyDraws(n: nat)
    ensures Draws(OnlyDraws(n)) == n
  {
    if n > 0 {
      assert OnlyDraws(n)[1..] == OnlyDraws(n - 1);
      DrawsOfOnlyDraws(n - 1);
    }
  }

  /** A dispatcher whose other queues are busy serves the request no earlier. */
  lemma UnservedWitness(c: nat, q: nat, k: nat, n: nat)
    requires c < U32 && q < 4 && n < Due(c, q, k)
    ensures !AlwaysServed(c, q, k, n)
  {
    var waiting, busy := seq(k + 1, i => if i == k then 1 else 0), seq(n, _ => 0);
    var d := Disp([busy, busy, busy, busy][q := waiting], c, 0, 0);
    assert OnlyAt(d, 1, q, k);
    DrawsOfOnlyDraws(n);
    NotServedBeforeDue(d, OnlyDraws(n), 1, q, k);
    assert d.qs[q][k] == 1;
  }

  /** Where a request has to wait: mount requests in queue 0, calls in 1, requests that are expected to take
      long in 3, all others and 9P in 2. */
  predicate WaitsIn(t: ReqType, q: nat) {
    match t
    case NfsRequest(mount, high) => (mount && q == 0) || (!mount && high && q == 3) || (!mount && !high && q == 2)
    case NfsCall => q == 1
    case NineP => q == 2
    case OtherType => false
  }

  /** From arrival to service: a request of a known type is put behind those waiting in its queue and served
      within four draws for each of these and itself, whatever arrives meanwhile; a mount request unless
      the counter wraps on the way. */
  lemma EnqueuedIsServed(d: Disp, t: ReqType, r: Req, q: nat, ops: seq<Op>)
    requires Valid(d) && WaitsIn(t, q)
    requires Draws(ops) >= 4 * (|d.qs[q]| + 1)
    requires q == 0 ==> d.ctr + 4 + 4 * |d.qs[0]| < U32
    ensures Route(t) == Some(q) && r in Served(Enqueue(d, q, r), ops)
  {
    var d', k := Enqueue(d, q, r), |d.qs[q]|;
    TargetStep(d.ctr, q);
    ServedInFourPerPositionIff(d.ctr, q, k);
    assert d'.qs[q][k] == r && AlwaysServed(d.ctr, q, k, 4 * (k + 1));
  }

  /** Only requests of unknown type are not queued. */
  lemma RoutedIff(t: ReqType)
    ensures Route(t).Some? <==> exists q: nat :: WaitsIn(t, q)
  {
    if Route(t).Some? { assert WaitsIn(t, Route(t).value); }
  }
}
