/** Client leases (nfs4_lease.c) and the reaper that expires clients whose lease has run out
    (reap_hash_table). */
module Lease {

  /** The part of a client record that leases use. */
  datatype Client = Client(id: nat, expired: bool, reservations: int, lastRenew: int)

  /** Seconds left on the lease at a time, 0 when it is not valid. */
  function SecondsLeft(c: Client, now: int, lifetime: nat): int {
    if c.expired then 0
    else if c.reservations != 0 then lifetime
    else if c.lastRenew + lifetime > now then c.lastRenew + lifetime - now
    else 0
  }

  predicate ValidLease(c: Client, now: int, lifetime: nat) { SecondsLeft(c, now, lifetime) != 0 }

  function Reserve(c: Client, now: int, lifetime: nat): Client {
    if ValidLease(c, now, lifetime) then c.(reservations := c.reservations + 1) else c
  }

  function Update(c: Client, now: int): Client {
    var c := c.(reservations := c.reservations - 1);
    if c.reservations == 0 then c.(lastRenew := now) else c
  }

  class ClientId {
    const id: nat
    const lifetime: nat
    var expired: bool
    var reservations: int
    var lastRenew: int

    function View(): Client
      reads this
    {
      Client(id, expired, reservations, lastRenew)
    }

    constructor (id: nat, now: int, lifetime: nat)
      ensures View() == Client(id, false, 0, now) && this.lifetime == lifetime
    {
      this.id, this.lifetime := id, lifetime;
      expired, reservations, lastRenew := false, 0, now;
    }

    method ReserveLease(now: int) returns (valid: bool)
      modifies this
      ensures valid == ValidLease(old(View()), now, lifetime)
      ensures View() == Reserve(old(View()), now, lifetime)
    {
      var left := SecondsLeft(View(), now, lifetime);
      if left != 0 {
        reservations := reservations + 1;
      }
      return left != 0;
    }

    method UpdateLease(now: int)
      modifies this
      ensures View() == Update(old(View()), now)
    {
      reservations := reservations - 1;
      if reservations == 0 {
        lastRenew := now;
      }
    }
  }

  // ----- runs of one client -----

  /** What can happen to a client: the clock advances, a request reserves the lease, a request that
      did gives the reservation back, the client is expired, or CREATE_SESSION sets the renewal time
      without looking at the lease. */
  datatype Step = Tick(dt: nat) | ReserveStep | UpdateStep | ExpireStep | BumpStep

  datatype World = World(c: Client, now: int, outstanding: nat)

  function Next(w: World, s: Step, lifetime: nat): World {
    match s
    case Tick(dt) => w.(now := w.now + dt)
    case ReserveStep =>
      w.(c := Reserve(w.c, w.now, lifetime),
         outstanding := w.outstanding + if ValidLease(w.c, w.now, lifetime) then 1 else 0)
    case UpdateStep => if w.outstanding == 0 then w else w.(c := Update(w.c, w.now), outstanding := w.outstanding - 1)
    case ExpireStep => w.(c := w.c.(expired := true))
    case BumpStep => w.(c := w.c.(lastRenew := w.now))
  }

  function After(w: World, steps: seq<Step>, lifetime: nat): World {
    if steps == [] then w else Next(After(w, steps[..|steps| - 1], lifetime), steps[|steps| - 1], lifetime)
  }

  ghost predicate Inv(w: World) { w.c.reservations == w.outstanding && w.c.lastRenew <= w.now }

  lemma {:induction false} EveryRunKeeps(w: World, steps: seq<Step>, lifetime: nat)
    requires Inv(w)
    ensures Inv(After(w, steps, lifetime)) && After(w, steps, lifetime).now >= w.now
    ensures w.c.expired ==> After(w, steps, lifetime).c.expired
  {
    if steps != [] { EveryRunKeeps(w, steps[..|steps| - 1], lifetime); }
  }

  /** A lease once found invalid never becomes valid again by reserving, updating or the
      passing of time, so testing it, letting go of the client and expiring it later is safe. */
  lemma {:induction false} InvalidStaysInvalid(w: World, steps: seq<Step>, lifetime: nat)
    requires Inv(w) && !ValidLease(w.c, w.now, lifetime)
    requires BumpStep !in steps
    ensures !ValidLease(After(w, steps, lifetime).c, After(w, steps, lifetime).now, lifetime)
  {
    if steps != [] {
      var before := steps[..|steps| - 1];
      assert BumpStep !in before;
      assert steps[|steps| - 1] in steps;
      EveryRunKeeps(w, before, lifetime);
      InvalidStaysInvalid(w, before, lifetime);
    }
  }

  /** CREATE_SESSION brings an invalid lease back exactly when the client is not expired (and leases
      last at all). */
  lemma BumpRevivesIff(w: World, lifetime: nat)
    requires Inv(w) && !ValidLease(w.c, w.now, lifetime)
    ensures ValidLease(Next(w, BumpStep, lifetime).c, w.now, lifetime) <==> !w.c.expired && lifetime > 0
  {
  }

  /** After every run, while a reservation is outstanding and the client is not expired, the lease is
      valid at any time whatever. */
  lemma ReservedIsValid(w: World, steps: seq<Step>, lifetime: nat, now: int)
    requires Inv(w) && lifetime > 0
    requires After(w, steps, lifetime).outstanding > 0 && !After(w, steps, lifetime).c.expired
    ensures ValidLease(After(w, steps, lifetime).c, now, lifetime)
    ensures SecondsLeft(After(w, steps, lifetime).c, now, lifetime) == lifetime
  {
    EveryRunKeeps(w, steps, lifetime);
  }

  /** Giving back the last reservation renews the lease: it is then valid exactly at the times before
      `now + lifetime`, if the client is not expired. */
  lemma LastUpdateRenews(w: World, lifetime: nat, t: int)
    requires Inv(w) && w.outstanding == 1
    ensures var w' := Next(w, UpdateStep, lifetime);
            && w'.outstanding == 0
            && (ValidLease(w'.c, t, lifetime) <==> !w.c.expired && t < w.now + lifetime)
            && (ValidLease(w'.c, t, lifetime) ==> SecondsLeft(w'.c, t, lifetime) == w.now + lifetime - t)
  {
  }

  /** So the lease runs out after `lifetime` seconds of nothing happening, and not before; at any moment of
      it a request can reserve it again. */
  lemma {:induction false} LeaseLasts(w: World, ticks: seq<Step>, lifetime: nat)
    requires Inv(w) && w.outstanding == 1 && !w.c.expired
    requires forall i :: 0 <= i < |ticks| ==> ticks[i].Tick?
    ensures var w' := After(Next(w, UpdateStep, lifetime), ticks, lifetime);
            && w'.c == Next(w, UpdateStep, lifetime).c && w'.outstanding == 0
            && (ValidLease(w'.c, w'.now, lifetime) <==> w'.now - w.now < lifetime)
            && Next(w', ReserveStep, lifetime).outstanding == if w'.now - w.now < lifetime then 1 else 0
  {
    LastUpdateRenews(w, lifetime, After(Next(w, UpdateStep, lifetime), ticks, lifetime).now);
    if ticks != [] { LeaseLasts(w, ticks[..|ticks| - 1], lifetime); }
  }

  /** Reserving, and giving back one of several reservations, renew nothing and end nothing. */
  lemma OthersRenewNothing(w: World, lifetime: nat)
    requires Inv(w)
    ensures ValidLease(w.c, w.now, lifetime) ==>
              Next(w, ReserveStep, lifetime) == World(Client(w.c.id, w.c.expired, w.c.reservations + 1, w.c.lastRenew),
                                                      w.now, w.outstanding + 1)
    ensures !ValidLease(w.c, w.now, lifetime) ==> Next(w, ReserveStep, lifetime) == w
    ensures w.outstanding > 1 ==>
              Next(w, UpdateStep, lifetime) == World(Client(w.c.id, w.c.expired, w.c.reservations - 1, w.c.lastRenew),
                                                     w.now, w.outstanding - 1)
  {
  }

  // ----- the reaper -----

  /** The reaper's tests are numbered; `clock(n)` is the time of the n-th and `at(n, c)` what has become by
      then of the client that was c at the start. */
  predicate ValidAt(clock: nat -> int, at: (nat, Client) -> Client, lifetime: nat, n: nat, c: Client) {
    ValidLease(at(n, c), clock(n), lifetime)
  }

  /** Over a run without CREATE_SESSION a lease valid at the end was valid all along. */
  lemma {:induction false} RunsSettle(w: World, early: seq<Step>, late: seq<Step>, lifetime: nat)
    requires Inv(w) && early <= late && BumpStep !in late
    requires ValidLease(After(w, late, lifetime).c, After(w, late, lifetime).now, lifetime)
    ensures ValidLease(After(w, early, lifetime).c, After(w, early, lifetime).now, lifetime)
    decreases |late|
  {
    if early != late {
      var before := late[..|late| - 1];
      assert early <= before && BumpStep !in before && late[|late| - 1] in late;
      EveryRunKeeps(w, before, lifetime);
      var w1 := After(w, before, lifetime);
      assert After(w1, [late[|late| - 1]], lifetime) == After(w, late, lifetime) by {
        assert [late[|late| - 1]][..0] == [] && After(w1, [], lifetime) == w1;
      }
      if !ValidLease(w1.c, w1.now, lifetime) { InvalidStaysInvalid(w1, [late[|late| - 1]], lifetime); }
      RunsSettle(w, early, before, lifetime);
    }
  }

  /** Clients change between the tests as the threads act on them: `start(c)` is the world of client c when
      the reaper starts, and `cut(n, c)` what has happened to it by the n-th test, at time `clock(n)`.
      CREATE_SESSION is not among it. */
  ghost predicate FollowsRun(clock: nat -> int, at: (nat, Client) -> Client, lifetime: nat,
                             start: Client -> World, cut: (nat, Client) -> seq<Step>, c: Client) {
    && start(c).c == c && Inv(start(c))
    && (forall i: nat, j: nat :: i <= j ==> cut(i, c) <= cut(j, c))
    && (forall n: nat :: BumpStep !in cut(n, c))
    && (forall n: nat :: at(n, c) == After(start(c), cut(n, c), lifetime).c
                         && clock(n) == After(start(c), cut(n, c), lifetime).now)
  }

  ghost predicate FollowRuns(clock: nat -> int, at: (nat, Client) -> Client, lifetime: nat,
                             start: Client -> World, cut: (nat, Client) -> seq<Step>, clients: seq<Client>) {
    forall c :: c in clients ==> FollowsRun(clock, at, lifetime, start, cut, c)
  }

  /** So a lease found invalid at one test is invalid at all later ones. */
  lemma LaterTestsAgree(clock: nat -> int, at: (nat, Client) -> Client, lifetime: nat,
                        start: Client -> World, cut: (nat, Client) -> seq<Step>, c: Client, i: nat, j: nat)
    requires FollowsRun(clock, at, lifetime, start, cut, c) && i <= j
    ensures ValidAt(clock, at, lifetime, j, c) ==> ValidAt(clock, at, lifetime, i, c)
  {
    assert cut(i, c) <= cut(j, c) && BumpStep !in cut(j, c);
    if ValidAt(clock, at, lifetime, j, c) { RunsSettle(start(c), cut(i, c), cut(j, c), lifetime); }
  }

  function Minus(s: seq<Client>, i: nat): seq<Client>
    requires i < |s|
  {
    s[..i] + s[i + 1..]
  }

  /** Walk until a client whose lease is not valid; the i-th one is examined at test before + i + 1. */
  method FirstInvalid(bucket: seq<Client>, lifetime: nat, clock: nat -> int, at: (nat, Client) -> Client, before: nat)
    returns (found: bool, place: nat, count: nat)
    ensures count >= before
    ensures found ==> && place < |bucket| && count == before + place + 1
                      && !ValidAt(clock, at, lifetime, count, bucket[place])
                      && forall i :: 0 <= i < place ==> ValidAt(clock, at, lifetime, before + i + 1, bucket[i])
    ensures !found ==> && count == before + |bucket|
                       && forall i :: 0 <= i < |bucket| ==> ValidAt(clock, at, lifetime, before + i + 1, bucket[i])
  {
    found, place, count := false, 0, before;
    while place < |bucket|
      invariant place <= |bucket| && count == before + place
      invariant forall i :: 0 <= i < place ==> ValidAt(clock, at, lifetime, before + i + 1, bucket[i])
    {
      count := count + 1;
      if !ValidAt(clock, at, lifetime, count, bucket[place]) {
        return true, place, count;
      }
      place := place + 1;
    }
  }

  /** Found valid, or invalid, at some test after `first` and not after `last`. */
  ghost predicate FoundValid(clock: nat -> int, at: (nat, Client) -> Client, lifetime: nat,
                             first: nat, last: nat, c: Client) {
    exists n: nat :: first < n <= last && ValidAt(clock, at, lifetime, n, c)
  }

  ghost predicate FoundInvalid(clock: nat -> int, at: (nat, Client) -> Client, lifetime: nat,
                               first: nat, last: nat, c: Client) {
    exists n: nat :: first < n <= last && !ValidAt(clock, at, lifetime, n, c)
  }

  /** One bucket of the table: walk it from the start, expire and unhash the first client whose lease
      is not valid, start again, and stop after a walk that finds none.  No client is lost or taken
      twice; each one taken was found invalid and each one left was found valid. */
  method ReapBucket(bucket: seq<Client>, lifetime: nat, clock: nat -> int, at: (nat, Client) -> Client, first: nat)
    returns (left: seq<Client>, ghost reaped: seq<Client>, count: nat)
    ensures count >= first
    ensures multiset(bucket) == multiset(left) + multiset(reaped)
    ensures forall c :: c in reaped ==> FoundInvalid(clock, at, lifetime, first, count, c)
    ensures forall c :: c in left ==> FoundValid(clock, at, lifetime, first, count, c)
  {
    left, reaped, count := bucket, [], first;
    var restart := true;
    while restart
      invariant count >= first
      invariant multiset(bucket) == multiset(left) + multiset(reaped)
      invariant forall c :: c in reaped ==> FoundInvalid(clock, at, lifetime, first, count, c)
      invariant !restart ==> forall c :: c in left ==> FoundValid(clock, at, lifetime, first, count, c)
      decreases |left|, restart
    {
      var found, place, n := FirstInvalid(left, lifetime, clock, at, count);
      if found {
        ghost var gone := left[place];
        assert left == left[..place] + [gone] + left[place + 1..];
        reaped := reaped + [gone];
        left := Minus(left, place);
      } else {
        forall c | c in left ensures FoundValid(clock, at, lifetime, first, n, c) {
          var i :| 0 <= i < |left| && left[i] == c;
          assert ValidAt(clock, at, lifetime, count + i + 1, c);
        }
        restart := false;
      }
      count := n;
    }
  }

  /** What the tests tell of clients the threads act on as they may: one found invalid is invalid at the
      end, when it is expired, and has no reservation then; one found valid was valid at the start. */
  lemma FoundMeans(clock: nat -> int, at: (nat, Client) -> Client, lifetime: nat, start: Client -> World,
                   cut: (nat, Client) -> seq<Step>, first: nat, last: nat, c: Client)
    requires FollowsRun(clock, at, lifetime, start, cut, c)
    ensures FoundInvalid(clock, at, lifetime, first, last, c) ==>
              && !ValidAt(clock, at, lifetime, last, c)
              && (lifetime > 0 ==> at(last, c).expired || at(last, c).reservations == 0)
    ensures FoundValid(clock, at, lifetime, first, last, c) ==> ValidAt(clock, at, lifetime, first, c)
  {
    if n: nat :| first < n <= last && !ValidAt(clock, at, lifetime, n, c) {
      LaterTestsAgree(clock, at, lifetime, start, cut, c, n, last);
    }
    if n: nat :| first < n <= last && ValidAt(clock, at, lifetime, n, c) {
      LaterTestsAgree(clock, at, lifetime, start, cut, c, first, n);
    }
  }

  /** The clients left in a bucket were found valid, the others of it invalid. */
  ghost predicate Reaped(clock: nat -> int, at: (nat, Client) -> Client, lifetime: nat, first: nat, last: nat,
                         bucket: seq<Client>, left: seq<Client>) {
    && (forall c :: c in left ==> c in bucket && FoundValid(clock, at, lifetime, first, last, c))
    && (forall c :: c in bucket && c !in left ==> FoundInvalid(clock, at, lifetime, first, last, c))
  }

  lemma ReapedWidens(clock: nat -> int, at: (nat, Client) -> Client, lifetime: nat, first: nat, last: nat,
                     bucket: seq<Client>, left: seq<Client>, first': nat, last': nat)
    requires Reaped(clock, at, lifetime, first, last, bucket, left) && first' <= first && last <= last'
    ensures Reaped(clock, at, lifetime, first', last', bucket, left)
  {
    forall c | FoundValid(clock, at, lifetime, first, last, c)
      ensures FoundValid(clock, at, lifetime, first', last', c)
    {
      var n: nat :| first < n <= last && ValidAt(clock, at, lifetime, n, c);
    }
    forall c | FoundInvalid(clock, at, lifetime, first, last, c)
      ensures FoundInvalid(clock, at, lifetime, first', last', c)
    {
      var n: nat :| first < n <= last && !ValidAt(clock, at, lifetime, n, c);
    }
  }

  /** All buckets, while the threads act on the clients: whatever they do, a client goes only if found
      invalid and stays only if found valid.  At a fixed time with nobody else acting the clients removed
      are exactly those whose lease is not valid. */
  method ReapTable(buckets: seq<seq<Client>>, lifetime: nat, clock: nat -> int, at: (nat, Client) -> Client)
    returns (left: seq<seq<Client>>, count: nat)
    ensures |left| == |buckets|
    ensures forall i :: 0 <= i < |left| ==> Reaped(clock, at, lifetime, 0, count, buckets[i], left[i])
    ensures (forall n: nat, c :: clock(n) == clock(0) && at(n, c) == c) ==>
              forall i, c :: 0 <= i < |left| && c in buckets[i] ==>
                (c in left[i] <==> ValidLease(c, clock(0), lifetime))
  {
    left, count := [], 0;
    for i := 0 to |buckets|
      invariant |left| == i
      invariant forall k :: 0 <= k < i ==> Reaped(clock, at, lifetime, 0, count, buckets[k], left[k])
    {
      var rest, n;
      ghost var reaped;
      rest, reaped, n := ReapBucket(buckets[i], lifetime, clock, at, count);
      PartedBuckets(buckets[i], rest, reaped);
      ReapedWidens(clock, at, lifetime, count, n, buckets[i], rest, 0, n);
      forall k | 0 <= k < i ensures Reaped(clock, at, lifetime, 0, n, buckets[k], left[k]) {
        ReapedWidens(clock, at, lifetime, 0, count, buckets[k], left[k], 0, n);
      }
      left := left + [rest];
      count := n;
    }
    if forall n: nat, c :: clock(n) == clock(0) && at(n, c) == c {
      forall n: nat, c ensures ValidAt(clock, at, lifetime, n, c) == ValidLease(c, clock(0), lifetime) {
        assert at(n, c) == c;
      }
    }
  }

  /** What reaping means for clients the threads act on as they may, short of CREATE_SESSION: one that goes
      has an invalid lease at the end and no reservation, unless it is expired anyway; one that stays had
      a valid lease at the start. */
  lemma ReapingIsSafe(clock: nat -> int, at: (nat, Client) -> Client, lifetime: nat, start: Client -> World,
                      cut: (nat, Client) -> seq<Step>, first: nat, last: nat, bucket: seq<Client>, left: seq<Client>)
    requires Reaped(clock, at, lifetime, first, last, bucket, left)
    requires FollowRuns(clock, at, lifetime, start, cut, bucket)
    ensures forall c :: c in left ==> ValidAt(clock, at, lifetime, first, c)
    ensures forall c :: c in bucket && c !in left ==>
              && !ValidAt(clock, at, lifetime, last, c)
              && (lifetime > 0 ==> at(last, c).expired || at(last, c).reservations == 0)
  {
    forall c | c in bucket
      ensures c in left ==> ValidAt(clock, at, lifetime, first, c)
      ensures c !in left ==> && !ValidAt(clock, at, lifetime, last, c)
                             && (lifetime > 0 ==> at(last, c).expired || at(last, c).reservations == 0)
    {
      FoundMeans(clock, at, lifetime, start, cut, first, last, c);
    }
  }

  lemma PartedBuckets(bucket: seq<Client>, left: seq<Client>, reaped: seq<Client>)
    requires multiset(bucket) == multiset(left) + multiset(reaped)
    ensures forall c :: c in left ==> c in bucket
    ensures forall c :: c in bucket && c !in left ==> c in reaped
  {
    forall c | c in left ensures c in bucket {
      assert c in multiset(left);
      assert c in multiset(bucket);
    }
    forall c | c in bucket && c !in left ensures c in reaped {
      assert c in multiset(bucket) && c !in multiset(left);
      assert c in multiset(reaped);
    }
  }
}
