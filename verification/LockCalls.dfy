/**
 * `acquireLock`, `releaseLock` and `withFileLock` as the loops the source runs, one protocol
 * step at a time, against an arbitrary schedule of what the other processes do in between.
 */
module LockCalls {
  import opened Text
  import opened FileLock

  /** The process whose step this is; a clock tick is nobody's. */
  predicate ByAnother(st: Step, p: Pid) {
    st.Tick? || st.p != p
  }

  function CountLinks(steps: seq<Step>, p: Pid): nat {
    if steps == [] then 0 else (if steps[|steps| - 1] == Link(p) then 1 else 0) + CountLinks(steps[..|steps| - 1], p)
  }

  lemma RunSnoc(s: State, steps: seq<Step>, st: Step)
    requires Run(s, steps) && Enabled(After(s, steps), st)
    ensures Run(s, steps + [st]) && After(s, steps + [st]) == Do(After(s, steps), st)
  {
    var e := After(s, steps);
    Prepend(e, st, []);
    assert [st] + [] == [st];
    Append(s, steps, [st]);
  }

  lemma AnotherStepLeavesUsAlone(s: State, st: Step, p: Pid)
    requires Enabled(s, st) && ByAnother(st, p) && p in s.procs
    ensures var s' := Do(s, st);
      p in s'.procs && s'.procs[p] == s.procs[p] && (p in s'.temps <==> p in s.temps)
  {
  }

  /** How often `p` linked while the lock was not there. */
  ghost function FreeLinks(s: State, steps: seq<Step>, p: Pid): nat {
    if steps == [] then 0
    else
      var before := steps[..|steps| - 1];
      (if steps[|steps| - 1] == Link(p) && Run(s, before) && After(s, before).lock.None? then 1 else 0) + FreeLinks(s, before, p)
  }

  lemma LinkOneMore(s: State, steps: seq<Step>, st: Step, p: Pid)
    requires Run(s, steps)
    ensures CountLinks(steps + [st], p) == CountLinks(steps, p) + if st == Link(p) then 1 else 0
    ensures FreeLinks(s, steps + [st], p) ==
      FreeLinks(s, steps, p) + if st == Link(p) && After(s, steps).lock.None? then 1 else 0
  {
    assert (steps + [st])[..|steps|] == steps;
  }

  /** From `s` to `e` only the other processes moved. */
  ghost predicate SameForUs(s: State, e: State, p: Pid) {
    p in s.procs && p in e.procs && e.procs[p] == s.procs[p] && (p in e.temps <==> p in s.temps)
  }

  /** The lock, the file it names, the time and the running processes are the same. */
  ghost predicate SameLock(s: State, e: State) {
    && e.lock == s.lock && e.now == s.now && e.procs.Keys == s.procs.Keys
    && (s.lock.Some? ==> s.lock.value in s.files && s.lock.value in e.files && e.files[s.lock.value] == s.files[s.lock.value])
  }

  /**
   * Nobody need wait for this lock: it is not there, or its record is not whole, or names a process
   * that is not running, or is ten minutes old.
   */
  ghost predicate Takeable(s: State) {
    s.lock.Some? ==>
      && s.lock.value in s.files
      && (match s.files[s.lock.value]
          case Partial => true
          case Record(pid, _, at) => pid !in s.procs || s.now >= at + 600_000)
  }

  lemma SameLockSameAnswer(s: State, e: State)
    requires SameLock(s, e)
    ensures Takeable(s) <==> Takeable(e)
  {
  }

  lemma EnteringChangesNothing(s: State, p: Pid, nonce: Nonce)
    requires Inv(s) && Enabled(s, Enter(p, nonce))
    ensures Takeable(Do(s, Enter(p, nonce))) <==>
      || s.lock.None?
      || (s.lock.value in s.files
          && var record := s.files[s.lock.value];
             record.Partial? || record.pid !in s.procs || s.now >= record.at + 600_000)
  {
  }

  /** What a process writes into its own temp is never what the lock names. */
  lemma OwnTempIsNotTheLock(s: State, st: Step)
    requires Inv(s) && Enabled(s, st) && (st.Truncate? || st.Write?)
    ensures SameLock(s, Do(s, st))
  {
  }

  class LockSite {
    /** What the other processes attempt between our system calls, forever. */
    const schedule: nat -> seq<Step>
    ghost const initial: State
    var turn: nat
    var s: State
    ghost var trace: seq<Step>

    ghost predicate Valid()
      reads this
    {
      Init(initial) && Run(initial, trace) && After(initial, trace) == s
    }

    /** The others do nothing. */
    ghost predicate Quiet() {
      forall n :: schedule(n) == []
    }

    ghost function Links(p: Pid): nat
      reads this
    {
      CountLinks(trace, p)
    }

    /** How often `p` linked while the lock was not there. */
    ghost function Free(p: Pid): nat
      reads this
    {
      FreeLinks(initial, trace, p)
    }

    constructor (start: State, schedule: nat -> seq<Step>)
      requires Init(start)
      ensures Valid() && s == start && trace == []
    {
      this.schedule := schedule;
      initial, turn, s, trace := start, 0, start, [];
    }

    /** What every reachable state keeps. */
    lemma Kept()
      requires Valid()
      ensures Inv(s)
    {
      InitInv(initial);
      OrphansBounded(initial, trace);
    }

    /** One system call. */
    method Take(st: Step, ghost p: Pid)
      requires Valid() && Enabled(s, st)
      modifies this
      ensures Valid() && s == Do(old(s), st) && trace == old(trace) + [st] && turn == old(turn)
      ensures Links(p) == old(Links(p)) + if st == Link(p) then 1 else 0
      ensures Free(p) == old(Free(p)) + if st == Link(p) && old(s).lock.None? then 1 else 0
    {
      RunSnoc(initial, trace, st);
      LinkOneMore(initial, trace, st, p);
      s := Do(s, st);
      trace := trace + [st];
    }

    /** The others run: whatever the schedule names, as far as it is possible and not ours. */
    method Others(p: Pid)
      requires Valid() && p in s.procs
      modifies this
      ensures Valid() && SameForUs(old(s), s, p)
      ensures Links(p) == old(Links(p)) && Free(p) == old(Free(p))
      ensures Quiet() ==> s == old(s)
    {
      var todo := schedule(turn);
      for i := 0 to |todo|
        invariant Valid() && SameForUs(old(s), s, p)
        invariant Links(p) == old(Links(p)) && Free(p) == old(Free(p))
        invariant Quiet() ==> s == old(s)
      {
        if Enabled(s, todo[i]) && ByAnother(todo[i], p) {
          AnotherStepLeavesUsAlone(s, todo[i], p);
          Take(todo[i], p);
        }
      }
      turn := turn + 1;
    }

    /** One system call of ours, after the others have had their turn and left state `e`. */
    method Call(st: Step, p: Pid) returns (ghost e: State)
      requires Valid() && p in s.procs && !ByAnother(st, p)
      requires forall e: State :: SameForUs(s, e, p) ==> Enabled(e, st)
      modifies this
      ensures SameForUs(old(s), e, p) && Enabled(e, st) && s == Do(e, st) && Valid()
      ensures Quiet() ==> e == old(s)
      ensures Links(p) == old(Links(p)) + if st == Link(p) then 1 else 0
      ensures Free(p) == old(Free(p)) + if st == Link(p) && e.lock.None? then 1 else 0
    {
      Others(p);
      e := s;
      Take(st, p);
    }

    /** The `writeFileSync` of one attempt: create or truncate our temp, then fill it. */
    method WriteTemp(p: Pid)
      requires Valid() && p in s.procs && s.procs[p].Start?
      modifies this
      ensures Valid() && p in s.procs && s.procs[p] == Ready(old(s.procs[p].nonce)) && p in s.temps
      ensures Links(p) == old(Links(p)) && Free(p) == old(Free(p))
      ensures Quiet() && old(s.lock.Some?) ==> SameLock(old(s), s)
      ensures Quiet() && old(s.lock.None?) ==> s.lock.None?
    {
      Others(p);
      var ino := UnusedInode(s.files.Keys);
      Kept();
      OwnTempIsNotTheLock(s, Truncate(p, ino));
      Take(Truncate(p, ino), p);
      Kept();
      ghost var e := Call(Write(p), p);
      if Quiet() {
        OwnTempIsNotTheLock(e, Write(p));
      }
    }

    /** One trip round the loop: link, or reclaim what is in the way. */
    method Attempt(p: Pid) returns (linked: bool)
      requires Valid() && p in s.procs && s.procs[p].Start?
      modifies this
      ensures Valid() && p in s.procs
      ensures linked ==> s.procs[p] == Body(old(s.procs[p].nonce)) && p !in s.temps
      ensures !linked ==> s.procs[p] == old(s.procs[p])
      ensures Links(p) == old(Links(p)) + 1 && Free(p) == old(Free(p)) + if linked then 1 else 0
      ensures Quiet() ==> (linked <==> old(s).lock.None?) && (linked ==> CarriesNonce(s, old(s.procs[p].nonce)))
      ensures Quiet() && !linked ==> if Takeable(old(s)) then s.lock.None? else SameLock(old(s), s)
    {
      WriteTemp(p);
      Kept();
      var _ := Call(Link(p), p);
      linked := s.procs[p].Linked?;
      if linked {
        var _ := Call(DropTemp(p), p);
      } else {
        ghost var blocked := s;
        Reclaim(p);
        if Quiet() {
          SameLockSameAnswer(old(s), blocked);
        }
      }
    }

    /** `reclaimIfStale`, after a link that found the name taken. */
    method Reclaim(p: Pid)
      requires Valid() && p in s.procs && s.procs[p].Blocked?
      modifies this
      ensures Valid() && p in s.procs && s.procs[p] == Start(old(s.procs[p].nonce))
      ensures Links(p) == old(Links(p)) && Free(p) == old(Free(p))
      ensures Quiet() ==> if Takeable(old(s)) then s.lock.None? else SameLock(old(s), s)
    {
      Kept();
      var _ := Call(ReclaimRead(p), p);
      if s.procs[p].Judged? {
        var _ := Call(ReclaimRemove(p), p);
      }
    }

    /**
     * It fails only after a hundred links that each found the lock there, and then the process has
     * left; otherwise it is in the body. Its temp is gone either way. With nobody else running it
     * succeeds exactly if the lock is not there, or names a process that is not running, or is ten
     * minutes old.
     */
    method AcquireLock(p: Pid, nonce: Nonce) returns (ok: bool)
      requires Valid() && p in s.procs && s.procs[p].Idle? && p !in s.temps && nonce !in s.used
      modifies this
      ensures Valid() && p in s.procs && p !in s.temps
      ensures s.procs[p] == if ok then Body(nonce) else Idle
      ensures ok ==> Links(p) <= old(Links(p)) + 100 && Free(p) == old(Free(p)) + 1
      ensures !ok ==> Links(p) == old(Links(p)) + 100 && Free(p) == old(Free(p))
      ensures Quiet() && ok ==> CarriesNonce(s, nonce)
      ensures Quiet() ==>
        (ok <==>
          || old(s).lock.None?
          || (old(s).lock.value in old(s).files
              && var record := old(s).files[old(s).lock.value];
                 record.Partial? || record.pid !in old(s).procs || old(s).now >= record.at + 600_000))
    {
      Kept();
      EnteringChangesNothing(s, p, nonce);
      Take(Enter(p, nonce), p);
      ok := TryToLink(p);
      if !ok {
        GiveUp(p);
      }
    }

    /** The temp is removed on the way out. */
    method GiveUp(p: Pid)
      requires Valid() && p in s.procs && s.procs[p].Start?
      modifies this
      ensures Valid() && p in s.procs && p !in s.temps && s.procs[p].Idle?
      ensures Links(p) == old(Links(p)) && Free(p) == old(Free(p))
    {
      var _ := Call(Fail(p), p);
      var _ := Call(DropTemp(p), p);
    }

    /** The loop: a hundred turns, or until one of them links. */
    method TryToLink(p: Pid) returns (ok: bool)
      requires Valid() && p in s.procs && s.procs[p].Start?
      modifies this
      ensures Valid() && p in s.procs
      ensures ok ==> s.procs[p] == Body(old(s.procs[p].nonce)) && p !in s.temps
      ensures ok ==> Links(p) <= old(Links(p)) + 100 && Free(p) == old(Free(p)) + 1
      ensures !ok ==> s.procs[p] == old(s.procs[p]) && Links(p) == old(Links(p)) + 100 && Free(p) == old(Free(p))
      ensures Quiet() ==> (ok <==> Takeable(old(s))) && (ok ==> CarriesNonce(s, old(s.procs[p].nonce)))
    {
      Kept();
      ghost var entered, links, free := s, Links(p), Free(p);
      ok := false;
      for attempt := 0 to LOCK_ATTEMPTS
        invariant Valid() && p in s.procs && s.procs[p] == entered.procs[p]
        invariant Links(p) == links + attempt && Free(p) == free
        invariant Quiet() ==> Tried(entered, attempt)
      {
        if Quiet() && s.lock.Some? {
          SameLockSameAnswer(entered, s);
        }
        ok := Attempt(p);
        if ok {
          return;
        }
      }
    }

    /** With nobody else running: all as it was, or the lock is gone after the first reclaim. */
    ghost predicate Tried(entered: State, attempt: nat)
      reads this
    {
      if attempt == 0 || !Takeable(entered) then s.lock == entered.lock && (s.lock.Some? ==> SameLock(entered, s))
      else attempt == 1 && s.lock.None?
    }

    /**
     * The process is out whatever the lock holds. With nobody else running, the lock is gone if it
     * carried this hold's nonce, and otherwise just as it was.
     */
    method ReleaseLock(p: Pid)
      requires Valid() && p in s.procs && s.procs[p].Leaving?
      modifies this
      ensures Valid() && p in s.procs && s.procs[p].Idle? && (p in s.temps <==> old(p in s.temps))
      ensures Links(p) == old(Links(p)) && Free(p) == old(Free(p))
      ensures Quiet() ==>
        var ours := && old(s).lock.Some? && old(s).lock.value in old(s).files && old(s).files[old(s).lock.value].Record?
                    && old(s).files[old(s).lock.value].nonce == old(s).procs[p].nonce;
        s == old(s).(procs := s.procs, lock := if ours then None else old(s).lock)
    {
      var _ := Call(ReleaseRead(p), p);
      if s.procs[p].Owned? {
        var _ := Call(ReleaseRemove(p), p);
      }
    }

    /**
     * `withFileLock`, whatever the body does: the process ends outside and its temp is gone. With
     * nobody else running, the lock is free again once the body has run.
     */
    method WithFileLock(p: Pid, nonce: Nonce) returns (ran: bool)
      requires Valid() && p in s.procs && s.procs[p].Idle? && p !in s.temps && nonce !in s.used
      modifies this
      ensures Valid() && p in s.procs && s.procs[p].Idle? && p !in s.temps
      ensures ran <==> Free(p) > old(Free(p))
      ensures Quiet() && ran ==> s.lock.None?
      ensures Quiet() && old(s).lock.None? ==> ran
    {
      ran := AcquireLock(p, nonce);
      if ran {
        var _ := Call(Finish(p), p);
        ReleaseLock(p);
      }
    }
  }

  method UnusedInode(used: set<Inode>) returns (n: Inode)
    ensures n !in used
  {
    n := 0;
    var left := used;
    while left != {}
      invariant left <= used
      invariant forall x :: x in used - left ==> x < n
      decreases left
    {
      var x :| x in left;
      assert forall y :: y in used - (left - {x}) ==> y == x || y in used - left;
      left := left - {x};
      n := if x < n then n else x + 1;
    }
    assert used - left == used;
  }
}
