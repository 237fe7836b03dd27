/** Making the descriptor of an object usable in a wanted mode (fsal_reopen_obj), while other
    threads may change the descriptor and the share whenever this thread does not hold the lock. */
module Reopen {
  import opened OpenFlags
  import Share

  /** What this thread holds of the object's read-write lock. */
  datatype LockState = Free | ReadHeld | WriteHeld

  /** What the lock protects. */
  datatype Protected = Protected(fd: OpenMode, share: Share.Counters)

  /** Everything this thread does not decide: what the other threads have made of the protected
      state by the time the lock is had again, whether a try for the write lock finds it busy, and
      how the file system answers. */
  datatype Env = Env(others: (nat, Protected) -> Protected, busy: bool,
                     tempOpens: bool, globalCloses: bool, globalOpens: bool,
                     fdAfterFailedClose: OpenMode, fdAfterFailedOpen: OpenMode)

  datatype Status = Success | ShareDenied | BadDescriptor | TempOpenFailed | CloseFailed | OpenFailed

  /** Which descriptor the caller is given on return. */
  datatype OutFd = NoFd | Temporary(mode: OpenMode) | Global

  datatype Event =
    | TookRead | TookWrite | FoundBusy | Unlocked
    | CheckedShare(conflict: bool)
    | ClosedGlobal(was: OpenMode)
    | OpenedGlobal(from: OpenMode, mode: OpenMode)

  // ----- what a log of events says -----

  function HeldAfter(log: seq<Event>): LockState {
    if log == [] then Free
    else
      match log[|log| - 1]
      case TookRead => ReadHeld
      case TookWrite => WriteHeld
      case Unlocked => Free
      case _ => HeldAfter(log[..|log| - 1])
  }

  predicate EventAllowed(held: LockState, e: Event) {
    match e
    case TookRead => held == Free
    case TookWrite => held == Free
    case FoundBusy => held == Free
    case Unlocked => held != Free
    case CheckedShare(_) => held != Free
    case ClosedGlobal(_) => held == WriteHeld
    case OpenedGlobal(_, _) => held == WriteHeld
  }

  /** Locks are taken when none is held, dropped when held; the share is read under a lock; the
      global descriptor is closed or opened only under the write lock, and opened only in a mode
      that serves the caller and is no less than the mode it had. */
  ghost predicate Disciplined(log: seq<Event>, wanted: OpenMode) {
    forall i :: 0 <= i < |log| ==> Allowed(log[..i], log[i], wanted)
  }

  ghost predicate Allowed(log: seq<Event>, e: Event, wanted: OpenMode) {
    && EventAllowed(HeldAfter(log), e)
    && (e.OpenedGlobal? ==> Serves(e.mode, wanted) && e.from <= e.mode)
  }

  function Tries(log: seq<Event>): nat {
    if log == [] then 0
    else Tries(log[..|log| - 1]) + if log[|log| - 1] in {TookWrite, FoundBusy} then 1 else 0
  }

  lemma LogGrows(log: seq<Event>, e: Event, wanted: OpenMode)
    requires Disciplined(log, wanted) && Allowed(log, e, wanted)
    ensures Disciplined(log + [e], wanted)
    ensures Tries(log + [e]) == Tries(log) + if e in {TookWrite, FoundBusy} then 1 else 0
    ensures (log + [e])[..|log|] == log
  {
    var more := log + [e];
    assert more[..|log|] == log;
    forall i | 0 <= i < |more| ensures Allowed(more[..i], more[i], wanted) {
      if i < |log| {
        assert more[..i] == log[..i] && more[i] == log[i];
      }
    }
  }

  /** The mode to open the global descriptor in: what it had and what is wanted, except that a
      closed one opened for "any mode" is opened for reading. */
  function TryMode(fd: OpenMode, wanted: OpenMode): OpenMode {
    if fd != CLOSED then wanted + fd else if wanted == {Any} then {Read} else wanted
  }

  lemma TryModeIsUsable(fd: OpenMode, wanted: OpenMode)
    requires NotOpenUsable(fd, wanted)
    ensures Serves(TryMode(fd, wanted), wanted)
    ensures fd <= TryMode(fd, wanted) && fd != TryMode(fd, wanted)
  {
    NotUsableIff(fd, wanted);
  }

  ghost predicate Quiet(env: Env) {
    forall k: nat, p :: env.others(k, p) == p
  }

  class ObjHandle {
    var lock: LockState
    var p: Protected
    ghost var log: seq<Event>

    constructor (p: Protected)
      ensures lock == Free && this.p == p && log == []
    {
      lock, this.p, log := Free, p, [];
    }

    /** The log agrees with the lock and obeys the discipline. */
    ghost predicate Orderly(wanted: OpenMode)
      reads this
    {
      HeldAfter(log) == lock && Disciplined(log, wanted)
    }

    ghost method Record(e: Event, wanted: OpenMode)
      requires Disciplined(log, wanted) && Allowed(log, e, wanted)
      modifies this`log
      ensures log == old(log) + [e] && Disciplined(log, wanted)
      ensures Tries(log) == Tries(old(log)) + if e in {TookWrite, FoundBusy} then 1 else 0
      ensures log[..|old(log)|] == old(log)
    {
      LogGrows(log, e, wanted);
      log := log + [e];
    }

    /** Take the lock for reading.  It was free, so the other threads had their chance first. */
    method RdLock(env: Env, gap: nat, ghost wanted: OpenMode)
      requires Orderly(wanted) && lock == Free
      modifies this
      ensures Orderly(wanted) && lock == ReadHeld && p == env.others(gap, old(p))
      ensures log == old(log) + [TookRead] && Tries(log) == Tries(old(log))
    {
      p := env.others(gap, p);
      Record(TookRead, wanted);
      lock := ReadHeld;
    }

    method TryWrLock(env: Env, gap: nat, ghost wanted: OpenMode) returns (busy: bool)
      requires Orderly(wanted) && lock == Free
      modifies this
      ensures Orderly(wanted) && busy == env.busy && lock == (if busy then Free else WriteHeld)
      ensures p == env.others(gap, old(p))
      ensures log == old(log) + [if busy then FoundBusy else TookWrite] && Tries(log) == Tries(old(log)) + 1
    {
      p := env.others(gap, p);
      busy := env.busy;
      if busy {
        Record(FoundBusy, wanted);
      } else {
        Record(TookWrite, wanted);
        lock := WriteHeld;
      }
    }

    method Unlock(ghost wanted: OpenMode)
      requires Orderly(wanted) && lock != Free
      modifies this`lock, this`log
      ensures Orderly(wanted) && lock == Free
      ensures log == old(log) + [Unlocked] && Tries(log) == Tries(old(log))
    {
      Record(Unlocked, wanted);
      lock := Free;
    }

    /** Check the share when asked to; on a conflict the lock is dropped. */
    method CheckOrUnlock(checkShare: bool, bypass: bool, wanted: OpenMode) returns (denied: bool)
      requires Orderly(wanted) && lock != Free
      modifies this`lock, this`log
      ensures Orderly(wanted) && denied == (checkShare && Share.Conflict(p.share, wanted, bypass))
      ensures lock == (if denied then Free else old(lock)) && Tries(log) == Tries(old(log))
      ensures !checkShare ==> log == old(log)
    {
      denied := false;
      if checkShare {
        denied := Share.Conflict(p.share, wanted, bypass);
        Record(CheckedShare(denied), wanted);
        if denied {
          Unlock(wanted);
        }
      }
    }

    /** Under the write lock: close the descriptor if it is open and open it in the joint mode. */
    method SwitchMode(wanted: OpenMode, env: Env) returns (status: Status)
      requires Orderly(wanted) && lock == WriteHeld && NotOpenUsable(p.fd, wanted)
      modifies this`p, this`log
      ensures Orderly(wanted) && Tries(log) == Tries(old(log)) && p.share == old(p.share)
      ensures status in {Success, CloseFailed, OpenFailed}
      ensures status == Success ==> p.fd == TryMode(old(p.fd), wanted)
      ensures status == CloseFailed ==> old(p.fd) != CLOSED && !env.globalCloses
      ensures status == OpenFailed ==> !env.globalOpens
    {
      var tryMode;
      TryModeIsUsable(p.fd, wanted);
      if p.fd != CLOSED {
        tryMode := wanted + p.fd;
        Record(ClosedGlobal(p.fd), wanted);
        if !env.globalCloses {
          p := p.(fd := env.fdAfterFailedClose);
          return CloseFailed;
        }
      } else if wanted == {Any} {
        tryMode := {Read};
      } else {
        tryMode := wanted;
      }
      assert tryMode == TryMode(p.fd, wanted);
      if !env.globalOpens {
        p := p.(fd := env.fdAfterFailedOpen);
        return OpenFailed;
      }
      Record(OpenedGlobal(p.fd, tryMode), wanted);
      p := p.(fd := tryMode);
      return Success;
    }

    /** The busy path: a temporary descriptor, with the lock held for reading only if the share had
        to be checked. */
    method UseTemporary(checkShare: bool, bypass: bool, wanted: OpenMode, env: Env)
      returns (status: Status, hasLock: bool, closefd: bool, out: OutFd)
      requires Orderly(wanted) && lock == Free
      modifies this
      ensures Orderly(wanted) && Tries(log) == Tries(old(log))
      ensures hasLock == (lock == ReadHeld) && lock != WriteHeld
      ensures status in {Success, ShareDenied, TempOpenFailed}
      ensures status == Success ==> hasLock == checkShare && closefd && out == Temporary(wanted)
      ensures status == Success && checkShare ==> !Share.Conflict(p.share, wanted, bypass)
      ensures status != Success ==> !hasLock && !closefd
      ensures status == ShareDenied ==> checkShare && Share.Conflict(env.others(2, old(p)).share, wanted, bypass)
      ensures status == TempOpenFailed ==> !env.tempOpens
    {
      hasLock, closefd, out := false, false, Temporary(CLOSED);
      if checkShare {
        RdLock(env, 2, wanted);
        var denied := CheckOrUnlock(checkShare, bypass, wanted);
        if denied {
          return ShareDenied, false, false, out;
        }
      }
      if !env.tempOpens {
        if checkShare {
          Unlock(wanted);
        }
        return TempOpenFailed, false, false, out;
      }
      return Success, checkShare, true, Temporary(wanted);
    }

    /** With the write lock just obtained: check, switch the mode if it still has to be, and go back
        to the read lock and check again. */
    method SwitchAndReturn(checkShare: bool, bypass: bool, wanted: OpenMode, env: Env) returns (status: Status)
      requires Orderly(wanted) && lock == WriteHeld
      modifies this
      ensures Orderly(wanted) && Tries(log) == Tries(old(log))
      ensures lock == if status == Success then ReadHeld else Free
      ensures status in {Success, ShareDenied, CloseFailed, OpenFailed}
      ensures status == Success && checkShare ==> !Share.Conflict(p.share, wanted, bypass)
      ensures status == ShareDenied ==> checkShare
      ensures status == CloseFailed ==> !env.globalCloses
      ensures status == OpenFailed ==> !env.globalOpens
      ensures Quiet(env) && !Share.Conflict(old(p).share, wanted, bypass) ==> status != ShareDenied
      ensures Quiet(env) && status == Success && NotOpenUsable(old(p).fd, wanted) ==>
                p == old(p).(fd := TryMode(old(p).fd, wanted))
    {
      var denied := CheckOrUnlock(checkShare, bypass, wanted);
      if denied {
        return ShareDenied;
      }
      if NotOpenUsable(p.fd, wanted) {
        var switched := SwitchMode(wanted, env);
        if switched != Success {
          Unlock(wanted);
          return switched;
        }
      }
      Unlock(wanted);
      RdLock(env, 3, wanted);
      denied := CheckOrUnlock(checkShare, bypass, wanted);
      return if denied then ShareDenied else Success;
    }

    /** From the first look under the read lock to the end: the test, the switch under the write
        lock, and the one retry. */
    method MakeUsable(checkShare: bool, bypass: bool, openflags: OpenMode, env: Env)
      returns (status: Status, hasLock: bool, closefd: bool, out: OutFd)
      requires Orderly(openflags) && lock == ReadHeld && Tries(log) == 0
      requires checkShare ==> !Share.Conflict(p.share, openflags, bypass)
      modifies this
      ensures Orderly(openflags) && Tries(log) <= 1
      ensures hasLock == (lock == ReadHeld) && lock != WriteHeld
      ensures status != Success ==> !hasLock && !closefd
      ensures status == Success ==>
                || (out == Global && hasLock && !closefd && Serves(p.fd, openflags))
                || (out == Temporary(openflags) && closefd && hasLock == checkShare && env.busy)
      ensures status == Success && checkShare ==> !Share.Conflict(p.share, openflags, bypass)
      ensures status == ShareDenied ==> checkShare && !Quiet(env)
      ensures status == BadDescriptor ==> Tries(log) == 1 && !Quiet(env)
      ensures status == TempOpenFailed ==> env.busy && !env.tempOpens
      ensures status == CloseFailed ==> !env.globalCloses
      ensures status == OpenFailed ==> !env.globalOpens
      ensures Serves(old(p).fd, openflags) ==>
                status == Success && out == Global && p == old(p) && Tries(log) == 0
      ensures !Serves(old(p).fd, openflags) ==> Tries(log) == 1
      ensures Quiet(env) && status == Success && out == Global && !Serves(old(p).fd, openflags) ==>
                p == old(p).(fd := TryMode(old(p).fd, openflags))
    {
      closefd, hasLock, out := false, false, Temporary(CLOSED);
      var retried := false;
      NotUsableIff(p.fd, openflags);
      while NotOpenUsable(p.fd, openflags)
        invariant Orderly(openflags) && lock == ReadHeld
        invariant Tries(log) == if retried then 1 else 0
        invariant checkShare ==> !Share.Conflict(p.share, openflags, bypass)
        invariant !retried ==> p == old(p)
        invariant retried ==> NotOpenUsable(old(p).fd, openflags)
        invariant retried && Quiet(env) ==> p == old(p).(fd := TryMode(old(p).fd, openflags))
        decreases if retried then 0 else 1
      {
        Unlock(openflags);
        if retried {
          TryModeIsUsable(old(p).fd, openflags);
          NotUsableIff(p.fd, openflags);
          return BadDescriptor, false, false, out;
        }
        var busy := TryWrLock(env, 1, openflags);
        if busy {
          status, hasLock, closefd, out := UseTemporary(checkShare, bypass, openflags, env);
          return;
        }
        status := SwitchAndReturn(checkShare, bypass, openflags, env);
        if status != Success {
          return status, false, false, out;
        }
        retried := true;
      }
      NotUsableIff(p.fd, openflags);
      return Success, true, false, Global;
    }

    /** The whole operation.  On return this thread holds the read lock exactly when `hasLock` says
        so; success gives a usable global descriptor under the read lock or an opened temporary one
        to be closed; if the share was checked there is no conflict at return; there is at most one
        try for the write lock, hence at most one retry; and without interference, with a file
        system that answers, it succeeds. */
    method ReopenObj(checkShare: bool, bypass: bool, openflags: OpenMode, wantFd: bool, env: Env)
      returns (status: Status, hasLock: bool, closefd: bool, out: OutFd)
      requires lock == Free && log == []
      modifies this
      ensures Orderly(openflags) && Tries(log) <= 1
      ensures hasLock == (lock == ReadHeld) && lock != WriteHeld
      ensures status != Success ==> !hasLock && !closefd
      ensures status == Success && !wantFd ==>
                hasLock && !closefd && out == NoFd && p == env.others(0, old(p)) && Tries(log) == 0
      ensures status == Success && wantFd ==>
                || (&& out == Global && hasLock && !closefd
                    && (openflags <= p.fd || (openflags == {Any} && p.fd != CLOSED)))
                || (out == Temporary(openflags) && closefd && hasLock == checkShare && env.busy)
      ensures status == Success && checkShare ==> hasLock && !Share.Conflict(p.share, openflags, bypass)
      ensures status == ShareDenied ==> checkShare
      ensures status == BadDescriptor ==> Tries(log) == 1 && !Quiet(env)
      ensures var first := env.others(0, old(p));
              (checkShare && Share.Conflict(first.share, openflags, bypass) ==> status == ShareDenied && p == first)
      ensures var first := env.others(0, old(p));
              !(checkShare && Share.Conflict(first.share, openflags, bypass)) && wantFd ==>
                && (Serves(first.fd, openflags) ==> status == Success && out == Global && p == first)
                && (Tries(log) == if Serves(first.fd, openflags) then 0 else 1)
      ensures (&& Quiet(env) && !env.busy && env.globalCloses && env.globalOpens
               && !(checkShare && Share.Conflict(old(p).share, openflags, bypass))) ==> status == Success
      ensures Quiet(env) && status == Success && out == Global && !Serves(old(p).fd, openflags) ==>
                p == old(p).(fd := if old(p).fd != {} then openflags + old(p).fd
                                   else if openflags == {Any} then {Read} else openflags)
    {
      closefd, hasLock, out := false, false, if wantFd then Temporary(CLOSED) else NoFd;
      RdLock(env, 0, openflags);
      var denied := CheckOrUnlock(checkShare, bypass, openflags);
      if denied {
        return ShareDenied, false, false, out;
      }
      if !wantFd {
        return Success, true, false, NoFd;
      }
      status, hasLock, closefd, out := MakeUsable(checkShare, bypass, openflags, env);
    }
  }
}
