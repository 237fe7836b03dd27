/** Back channel slots of an NFSv4.1 session (find_cb_slot, release_cb_slot and their callers
    nfs_rpc_v41_single and nfs41_complete_single). */
module CbSlots {
  import opened Basics

  const NFS41_NB_SLOTS: nat := 3

  /** `sequence` is an unsigned 32-bit number. */
  datatype Slot = Slot(inUse: bool, sequence: nat)

  type Slots = s: seq<Slot> | |s| == NFS41_NB_SLOTS
    witness seq(NFS41_NB_SLOTS, _ => Slot(false, 0))

  const UNUSED: Slots := seq(NFS41_NB_SLOTS, _ => Slot(false, 0))

  function Usable(maxRequests: nat): nat {
    if maxRequests < NFS41_NB_SLOTS then maxRequests else NFS41_NB_SLOTS
  }

  ghost predicate LeastFree(s: Slots, n: nat, slot: nat) {
    n <= NFS41_NB_SLOTS && slot < n && !s[slot].inUse && forall i :: 0 <= i < slot ==> s[i].inUse
  }

  /** The highest of the slots in use and the new one. */
  ghost predicate Highest(s: Slots, n: nat, slot: nat, highest: nat) {
    && n <= NFS41_NB_SLOTS && highest < n && (highest == slot || s[highest].inUse) && highest >= slot
    && forall i :: highest < i < n ==> !s[i].inUse
  }

  function Reserved(s: Slots, slot: nat): Slots
    requires slot < NFS41_NB_SLOTS
  {
    s[slot := Slot(true, (s[slot].sequence + 1) % U32)]
  }

  function Released(s: Slots, slot: nat, sent: bool): Slots
    requires slot < NFS41_NB_SLOTS
  {
    s[slot := Slot(false, if sent then s[slot].sequence else (s[slot].sequence - 1) % U32)]
  }

  /** One pass over the slots: the first free one, and the highest in use counting that one. */
  method ScanSlots(s: Slots, n: nat) returns (found: bool, slot: nat, highest: nat)
    requires n <= NFS41_NB_SLOTS
    ensures found ==> LeastFree(s, n, slot) && Highest(s, n, slot, highest)
    ensures !found ==> forall i :: 0 <= i < n ==> s[i].inUse
  {
    found, slot, highest := false, 0, 0;
    for cur := 0 to n
      invariant found ==> slot < cur && LeastFree(s, n, slot)
      invariant found ==> slot <= highest < cur && (highest == slot || s[highest].inUse)
      invariant found ==> forall i :: highest < i < cur ==> !s[i].inUse
      invariant !found ==> forall i :: 0 <= i < cur ==> s[i].inUse
    {
      if !s[cur].inUse && !found {
        found := true;
        slot := cur;
        highest := cur;
      }
      if s[cur].inUse {
        highest := cur;
      }
    }
  }

  class Session {
    var slots: Slots
    const maxRequests: nat

    constructor (maxRequests: nat)
      ensures this.maxRequests == maxRequests && slots == UNUSED
    {
      this.maxRequests := maxRequests;
      slots := UNUSED;
    }

    /** Find and reserve a slot.  When none is free and the caller may wait, the lock is given up:
        `others` is what the slots have become if the wait was ended by a wake-up. */
    method FindCbSlot(wait: bool, woke: bool, others: Slots) returns (found: bool, slot: nat, highest: nat)
      modifies this
      ensures var n := Usable(maxRequests);
              var busy := forall i :: 0 <= i < n ==> old(slots)[i].inUse;
              var seen := if busy && wait && woke then others else old(slots);
              && (found <==> exists i :: 0 <= i < n && !seen[i].inUse)
              && (found ==>
                    LeastFree(seen, n, slot) && Highest(seen, n, slot, highest) && slots == Reserved(seen, slot))
              && (!found ==> slots == seen)
    {
      var n := Usable(maxRequests);
      found, slot, highest := ScanSlots(slots, n);
      if !found && wait {
        if woke {
          slots := others;
          found, slot, highest := ScanSlots(slots, n);
        }
      }
      if found {
        MarkUsed(slot);
      }
    }

    method MarkUsed(slot: nat)
      requires slot < NFS41_NB_SLOTS
      modifies this
      ensures slots == Reserved(old(slots), slot)
    {
      slots := slots[slot := slots[slot].(inUse := true)];
      slots := slots[slot := slots[slot].(sequence := (slots[slot].sequence + 1) % U32)];
    }

    method ReleaseCbSlot(slot: nat, sent: bool)
      requires slot < NFS41_NB_SLOTS
      modifies this
      ensures slots == Released(old(slots), slot, sent)
    {
      slots := slots[slot := slots[slot].(inUse := false)];
      if !sent {
        slots := slots[slot := slots[slot].(sequence := (slots[slot].sequence - 1) % U32)];
      }
    }
  }

  // ----- runs of calls -----

  type CallId = nat

  /** An outstanding call: its slot, its sequence id, and whether it went out on the wire. */
  datatype Call = Call(slot: nat, seqid: nat, sent: bool)

  /** `wire[i]` lists the sequence ids of the calls sent on slot i, in order; `owner[i]` is the call
      last given slot i, while it is outstanding. */
  datatype World = World(slots: Slots, calls: map<CallId, Call>, owner: map<nat, CallId>,
                         wire: seq<seq<nat>>, usable: nat)

  datatype Step = ReserveStep(c: CallId) | SendStep(c: CallId) | FailStep(c: CallId) | CompleteStep(c: CallId)

  function Init(maxRequests: nat): World {
    World(UNUSED, map[], map[], seq(NFS41_NB_SLOTS, _ => []), Usable(maxRequests))
  }

  /** The slot the scan gives. */
  function FirstFree(s: Slots, n: nat): (r: Option<nat>)
    requires n <= NFS41_NB_SLOTS
    ensures r.Some? ==> LeastFree(s, n, r.value)
    ensures r.None? ==> forall i :: 0 <= i < n ==> s[i].inUse
  {
    if n == 0 then None
    else
      var before := FirstFree(s, n - 1);
      if before.Some? then before else if s[n - 1].inUse then None else Some(n - 1)
  }

  ghost predicate Shaped(w: World) {
    && w.usable <= NFS41_NB_SLOTS && |w.wire| == NFS41_NB_SLOTS
    && forall c :: c in w.calls ==> w.calls[c].slot < NFS41_NB_SLOTS
  }

  ghost function AfterReserve(w: World, c: CallId): World
    requires Shaped(w)
  {
    var free := FirstFree(w.slots, w.usable);
    if c in w.calls || free.None? then w
    else
      var f := free.value;
      var slots := Reserved(w.slots, f);
      w.(slots := slots, calls := w.calls[c := Call(f, slots[f].sequence, false)], owner := w.owner[f := c])
  }

  ghost function AfterSend(w: World, c: CallId): World
    requires Shaped(w)
  {
    if c !in w.calls || w.calls[c].sent then w
    else
      var call := w.calls[c];
      w.(calls := w.calls[c := call.(sent := true)], wire := w.wire[call.slot := w.wire[call.slot] + [call.seqid]])
  }

  /** A failed send or a completion: the call gives its slot back. */
  ghost function AfterLeave(w: World, c: CallId, sent: bool): World
    requires Shaped(w)
  {
    if c !in w.calls || w.calls[c].sent != sent then w
    else
      var call := w.calls[c];
      w.(slots := Released(w.slots, call.slot, sent), calls := w.calls - {c}, owner := w.owner - {call.slot})
  }

  /** A call is reserved, then sent or failed; a sent call is completed.  Anything else is no step. */
  ghost function Next(w: World, s: Step): World
    requires Shaped(w)
  {
    match s
    case ReserveStep(c) => AfterReserve(w, c)
    case SendStep(c) => AfterSend(w, c)
    case FailStep(c) => AfterLeave(w, c, false)
    case CompleteStep(c) => AfterLeave(w, c, true)
  }

  /** Outstanding calls have slots of their own, exactly the slots in use. */
  ghost predicate SlotsOwned(slots: Slots, calls: map<CallId, Call>, owner: map<nat, CallId>) {
    && (forall c :: c in calls ==>
          calls[c].slot < NFS41_NB_SLOTS && calls[c].slot in owner && owner[calls[c].slot] == c)
    && (forall i :: i in owner ==> owner[i] in calls && calls[owner[i]].slot == i)
    && (forall i :: 0 <= i < NFS41_NB_SLOTS ==> (slots[i].inUse <==> i in owner))
  }

  /** Is the call that holds slot i still to be sent? */
  ghost predicate Awaiting(calls: map<CallId, Call>, owner: map<nat, CallId>, i: nat) {
    i in owner && owner[i] in calls && !calls[owner[i]].sent
  }

  /** On every slot the calls sent so far carry 1, 2, 3, ... modulo 2^32, the slot holds the last of
      these, or the next one while a reserved call has yet to be sent, and a call carries the number
      its slot holds. */
  ghost predicate Numbered(slots: Slots, calls: map<CallId, Call>, owner: map<nat, CallId>, wire: seq<seq<nat>>) {
    && |wire| == NFS41_NB_SLOTS
    && (forall i :: 0 <= i < NFS41_NB_SLOTS ==> CountsUp(wire[i]))
    && (forall i :: 0 <= i < NFS41_NB_SLOTS ==>
          slots[i].sequence == (|wire[i]| + if Awaiting(calls, owner, i) then 1 else 0) % U32)
    && (forall c :: c in calls && calls[c].slot < NFS41_NB_SLOTS ==> calls[c].seqid == slots[calls[c].slot].sequence)
  }

  ghost predicate CountsUp(ids: seq<nat>) { forall j :: 0 <= j < |ids| ==> ids[j] == (j + 1) % U32 }

  ghost predicate Inv(w: World) {
    && Shaped(w)
    && SlotsOwned(w.slots, w.calls, w.owner)
    && Numbered(w.slots, w.calls, w.owner, w.wire)
  }

  lemma Wraps(n: nat)
    ensures (n % U32 + 1) % U32 == (n + 1) % U32
    ensures ((n + 1) % U32 - 1) % U32 == n % U32
  {
  }

  lemma ReserveOwns(slots: Slots, calls: map<CallId, Call>, owner: map<nat, CallId>, c: CallId, f: nat, call: Call)
    requires SlotsOwned(slots, calls, owner) && c !in calls && f < NFS41_NB_SLOTS && !slots[f].inUse && call.slot == f
    ensures SlotsOwned(Reserved(slots, f), calls[c := call], owner[f := c])
  {
  }

  lemma ReserveNumbers(slots: Slots, calls: map<CallId, Call>, owner: map<nat, CallId>,
                       wire: seq<seq<nat>>, c: CallId, f: nat)
    requires SlotsOwned(slots, calls, owner) && Numbered(slots, calls, owner, wire)
    requires c !in calls && f < NFS41_NB_SLOTS && !slots[f].inUse
    ensures var slots' := Reserved(slots, f);
            Numbered(slots', calls[c := Call(f, slots'[f].sequence, false)], owner[f := c], wire)
  {
    var slots' := Reserved(slots, f);
    var calls', owner' := calls[c := Call(f, slots'[f].sequence, false)], owner[f := c];
    assert f !in owner;
    Wraps(|wire[f]|);
    assert Awaiting(calls', owner', f) && !Awaiting(calls, owner, f);
    forall i | 0 <= i < NFS41_NB_SLOTS && i != f
      ensures slots'[i] == slots[i] && (Awaiting(calls', owner', i) <==> Awaiting(calls, owner, i))
    {
    }
    forall x | x in calls' && x != c ensures calls'[x].slot != f {
    }
  }

  lemma ReserveKeeps(w: World, c: CallId)
    requires Inv(w)
    ensures Inv(AfterReserve(w, c))
  {
    var free := FirstFree(w.slots, w.usable);
    if c !in w.calls && free.Some? {
      var f := free.value;
      ReserveOwns(w.slots, w.calls, w.owner, c, f, AfterReserve(w, c).calls[c]);
      ReserveNumbers(w.slots, w.calls, w.owner, w.wire, c, f);
    }
  }

  lemma SendKeeps(w: World, c: CallId)
    requires Inv(w)
    ensures Inv(AfterSend(w, c))
  {
    var w' := AfterSend(w, c);
    if c in w.calls && !w.calls[c].sent {
      var f := w.calls[c].slot;
      assert Awaiting(w.calls, w.owner, f) && !Awaiting(w'.calls, w'.owner, f);
      assert CountsUp(w'.wire[f]);
      forall i | 0 <= i < NFS41_NB_SLOTS && i != f
        ensures w'.wire[i] == w.wire[i] && (Awaiting(w'.calls, w'.owner, i) <==> Awaiting(w.calls, w.owner, i))
      {
      }
    }
  }

  lemma LeaveOwns(slots: Slots, calls: map<CallId, Call>, owner: map<nat, CallId>, c: CallId, sent: bool)
    requires SlotsOwned(slots, calls, owner) && c in calls
    ensures SlotsOwned(Released(slots, calls[c].slot, sent), calls - {c}, owner - {calls[c].slot})
  {
  }

  lemma LeaveNumbers(slots: Slots, calls: map<CallId, Call>, owner: map<nat, CallId>, wire: seq<seq<nat>>, c: CallId)
    requires SlotsOwned(slots, calls, owner) && Numbered(slots, calls, owner, wire) && c in calls
    ensures Numbered(Released(slots, calls[c].slot, calls[c].sent), calls - {c}, owner - {calls[c].slot}, wire)
  {
    var f := calls[c].slot;
    var slots', calls', owner' := Released(slots, f, calls[c].sent), calls - {c}, owner - {f};
    Wraps(|wire[f]|);
    assert owner[f] == c;
    assert Awaiting(calls, owner, f) <==> !calls[c].sent;
    assert !Awaiting(calls', owner', f);
    assert slots'[f].sequence == |wire[f]| % U32;
    forall x | x in calls' ensures calls[x].slot != f {
      assert owner[calls[x].slot] == x;
    }
    forall i | 0 <= i < NFS41_NB_SLOTS && i != f
      ensures slots'[i] == slots[i] && (Awaiting(calls', owner', i) <==> Awaiting(calls, owner, i))
    {
    }
  }

  lemma LeaveKeeps(w: World, c: CallId, sent: bool)
    requires Inv(w)
    ensures Inv(AfterLeave(w, c, sent))
  {
    if c in w.calls && w.calls[c].sent == sent {
      LeaveOwns(w.slots, w.calls, w.owner, c, sent);
      LeaveNumbers(w.slots, w.calls, w.owner, w.wire, c);
    }
  }

  lemma StepKeeps(w: World, s: Step)
    requires Inv(w)
    ensures Inv(Next(w, s))
  {
    match s
    case ReserveStep(c) => ReserveKeeps(w, c);
    case SendStep(c) => SendKeeps(w, c);
    case FailStep(c) => LeaveKeeps(w, c, false);
    case CompleteStep(c) => LeaveKeeps(w, c, true);
  }

  ghost function After(maxRequests: nat, steps: seq<Step>): (w: World)
    ensures Inv(w)
  {
    if steps == [] then Init(maxRequests)
    else
      var w := After(maxRequests, steps[..|steps| - 1]);
      StepKeeps(w, steps[|steps| - 1]);
      Next(w, steps[|steps| - 1])
  }

  /** Over every run: no two outstanding calls share a slot, and the calls actually sent on a slot
      carry consecutive sequence ids from 1, whatever sends failed in between. */
  lemma CallsOwnSlotsAndCountUp(maxRequests: nat, steps: seq<Step>)
    ensures var w := After(maxRequests, steps);
            && (forall c, c' :: c in w.calls && c' in w.calls && w.calls[c].slot == w.calls[c'].slot ==> c == c')
            && |w.wire| == NFS41_NB_SLOTS
            && forall i :: 0 <= i < NFS41_NB_SLOTS ==> CountsUp(w.wire[i])
  {
  }

  ghost predicate NobodyOn(calls: map<CallId, Call>, i: nat) {
    forall x :: x in calls ==> calls[x].slot != i
  }

  ghost predicate AllBelow(calls: map<CallId, Call>, n: nat) {
    forall x :: x in calls ==> calls[x].slot < n
  }

  /** Over every run: calls use slots below the number of requests the client allows and below the size of
      the slot table, and a new call gets a slot if and only if nobody is on one of these. */
  lemma SlotGivenIffOneIsFree(maxRequests: nat, steps: seq<Step>, c: CallId)
    requires c !in After(maxRequests, steps).calls
    ensures var w := After(maxRequests, steps);
            && AllBelow(w.calls, maxRequests) && AllBelow(w.calls, NFS41_NB_SLOTS)
            && (c in Next(w, ReserveStep(c)).calls <==>
                exists i: nat :: i < NFS41_NB_SLOTS && i < maxRequests && NobodyOn(w.calls, i))
  {
    SlotsBelow(maxRequests, steps);
    var w := After(maxRequests, steps);
    FreeIffNobodyOn(w.slots, w.calls, w.owner);
    var free := FirstFree(w.slots, w.usable);
    if free.Some? { assert NobodyOn(w.calls, free.value); }
  }

  lemma FreeIffNobodyOn(slots: Slots, calls: map<CallId, Call>, owner: map<nat, CallId>)
    requires SlotsOwned(slots, calls, owner)
    ensures forall i: nat :: i < NFS41_NB_SLOTS ==> (!slots[i].inUse <==> NobodyOn(calls, i))
  {
    forall i: nat | i < NFS41_NB_SLOTS ensures !slots[i].inUse <==> NobodyOn(calls, i) {
      if i in owner { assert calls[owner[i]].slot == i; }
    }
  }

  lemma StepBelow(w: World, s: Step)
    requires Shaped(w) && AllBelow(w.calls, w.usable)
    ensures Next(w, s).usable == w.usable && AllBelow(Next(w, s).calls, w.usable)
  {
  }

  lemma {:induction false} SlotsBelow(maxRequests: nat, steps: seq<Step>)
    ensures var w := After(maxRequests, steps);
            && w.usable == (if maxRequests < NFS41_NB_SLOTS then maxRequests else NFS41_NB_SLOTS)
            && AllBelow(w.calls, w.usable)
  {
    if steps != [] {
      var before := steps[..|steps| - 1];
      SlotsBelow(maxRequests, before);
      StepBelow(After(maxRequests, before), steps[|steps| - 1]);
    }
  }
}
