/**
 * `writeFileAtomic` and `renameSyncWithRetry` as the code the source runs, one system call at a
 * time, against an arbitrary schedule of other attempts, other programs and failures.
 */
module AtomicCalls {
  import opened Text
  import opened AtomicWrite
  import LockCalls

  /** How the world answers one of our system calls. */
  datatype Answer = Answer(ok: bool, locked: bool, unsupported: bool, chunk: nat)

  predicate TriesRename(st: Step, a: Id) {
    st == Rename(a) || st == RenameLocked(a) || st == RenameFails(a)
  }

  function CountRenames(steps: seq<Step>, a: Id): nat {
    if steps == [] then 0 else (if TriesRename(steps[|steps| - 1], a) then 1 else 0) + CountRenames(steps[..|steps| - 1], a)
  }

  lemma RunSnoc(s: State, steps: seq<Step>, st: Step)
    requires Run(s, steps) && Enabled(After(s, steps), st)
    ensures Run(s, steps + [st]) && After(s, steps + [st]) == Do(After(s, steps), st)
  {
    var longer := One(s, steps, st);
  }

  lemma NotOurRename(st: Step, a: Id)
    requires Actor(st) != Some(a)
    ensures !TriesRename(st, a)
  {
  }

  class WriteSite {
    const schedule: nat -> seq<Step>
    const answers: nat -> Answer
    ghost const initial: State
    var turn: nat
    var s: State
    ghost var trace: seq<Step>

    ghost predicate Valid()
      reads this
    {
      Init(initial) && Run(initial, trace) && After(initial, trace) == s && s.past != []
    }

    constructor (start: State, schedule: nat -> seq<Step>, answers: nat -> Answer)
      requires Init(start)
      ensures Valid() && s == start && trace == [] && initial == start
    {
      this.schedule, this.answers := schedule, answers;
      initial, turn, s, trace := start, 0, start, [];
    }

    /** Nobody else does anything. */
    ghost predicate Quiet() {
      forall n :: schedule(n) == []
    }

    /** Every call in this stretch of time is answered with success. */
    ghost predicate Granted(from: nat, to: nat) {
      forall n :: from < n <= to ==> answers(n).ok
    }

    /** The renames before the `k`-th are met by a lock and pass the check after it, and the `k`-th succeeds. */
    ghost predicate RenamesAt(from: nat, k: nat) {
      && k <= 7 && LockedUntil(from, k) && answers(from + 2 * k + 1).ok
    }

    ghost predicate LockedUntil(from: nat, k: nat) {
      forall j {:trigger LockedOnce(from, j)} :: 0 <= j < k ==> LockedOnce(from, j)
    }

    ghost predicate LockedOnce(from: nat, j: nat) {
      var rename, check := answers(from + 2 * j + 1), answers(from + 2 * j + 2);
      !rename.ok && rename.locked && check.ok
    }

    method Take(st: Step, ghost a: Id)
      requires Valid() && Enabled(s, st)
      modifies this
      ensures Valid() && s == Do(old(s), st) && trace == old(trace) + [st] && turn == old(turn)
      ensures CountRenames(trace, a) == old(CountRenames(trace, a)) + if TriesRename(st, a) then 1 else 0
    {
      RunSnoc(initial, trace, st);
      PastGrows(s, st);
      ghost var before := trace;
      s := Do(s, st);
      trace := trace + [st];
      assert trace[..|trace| - 1] == before;
    }

    /** What every reachable state keeps. */
    lemma Kept()
      requires Valid()
      ensures Inv(s)
    {
      Reached(initial, trace);
    }

    lemma TempHolds(a: Id)
      requires Valid() && a in s.attempts && Active(s.attempts[a])
      ensures s.attempts[a].ino in s.files
      ensures s.attempts[a].pc.Opened? ==> s.files[s.attempts[a].ino].text <= s.attempts[a].job.content
    {
      Kept();
      assert OwnsTemp(s, s.attempts[a]);
    }

    /** One step of another attempt or program, if it can be taken now. */
    method Another(st: Step, a: Id)
      requires Valid() && a in s.attempts && Active(s.attempts[a]) && s.attempts[a].ino in s.files
      modifies this
      ensures Valid() && a in s.attempts && s.attempts[a] == old(s.attempts[a]) && turn == old(turn)
      ensures s.attempts[a].ino in s.files && s.files[s.attempts[a].ino] == old(s.files[s.attempts[a].ino])
      ensures CountRenames(trace, a) == old(CountRenames(trace, a))
    {
      if Enabled(s, st) && Actor(st) != Some(a) {
        Kept();
        OthersLeaveTempAlone(s, st, a);
        NotOurRename(st, a);
        Take(st, a);
      }
    }

    /** Everyone but attempt `a` runs; its temp and what is written in it stay as they are. */
    method Others(a: Id)
      requires Valid() && a in s.attempts && Active(s.attempts[a])
      modifies this
      ensures Valid() && a in s.attempts && s.attempts[a] == old(s.attempts[a])
      ensures s.attempts[a].ino in s.files && old(s.attempts[a].ino in s.files)
      ensures s.files[s.attempts[a].ino] == old(s.files[s.attempts[a].ino])
      ensures s.attempts[a].pc.Opened? ==> s.files[s.attempts[a].ino].text <= s.attempts[a].job.content
      ensures CountRenames(trace, a) == old(CountRenames(trace, a))
      ensures turn == old(turn) + 1 && (Quiet() ==> s == old(s))
    {
      TempHolds(a);
      var todo := schedule(turn);
      for i := 0 to |todo|
        invariant turn == old(turn) && (Quiet() ==> s == old(s))
        invariant Valid() && a in s.attempts && s.attempts[a] == old(s.attempts[a])
        invariant s.attempts[a].ino in s.files && s.files[s.attempts[a].ino] == old(s.files[s.attempts[a].ino])
        invariant CountRenames(trace, a) == old(CountRenames(trace, a))
      {
        Another(todo[i], a);
      }
      turn := turn + 1;
    }

    /** `dropTempBestEffort` and `rmSync`: the removal itself may fail. */
    method DropTemp(a: Id)
      requires Valid() && a in s.attempts && (s.attempts[a].pc.Dropping? || s.attempts[a].pc.Published?)
      modifies this
      ensures Valid() && a in s.attempts
      ensures s.attempts[a] == old(s.attempts[a]).(pc := if old(s.attempts[a].pc.Published?) then Done else Failed)
      ensures turn == old(turn) + 1 && (answers(turn).ok ==> s.attempts[a].temp !in s.temps)
      ensures CountRenames(trace, a) == old(CountRenames(trace, a))
    {
      Others(a);
      Take(Drop(a, answers(turn).ok), a);
    }

    /** How much of the content the open temp holds. */
    ghost function Filled(a: Id): nat
      requires a in s.attempts && s.attempts[a].ino in s.files
      reads this
    {
      |s.files[s.attempts[a].ino].text|
    }

    /** As much more of the content as the system takes. */
    method WritePiece(a: Id)
      requires Valid() && At(s, a, Opened) && s.attempts[a].ino in s.files && Filled(a) < |s.attempts[a].job.content|
      modifies this
      ensures Valid() && a in s.attempts && s.attempts[a].(pc := Opened) == old(s.attempts[a]) && s.attempts[a].ino in s.files
      ensures turn == old(turn) + 1 && s.attempts[a].pc == if answers(turn).ok then Opened else Dropping
      ensures s.attempts[a].pc == Opened ==> old(Filled(a)) < Filled(a) <= |s.attempts[a].job.content|
      ensures Quiet() ==> s.past == old(s.past)
      ensures CountRenames(trace, a) == old(CountRenames(trace, a))
    {
      Others(a);
      if answers(turn).ok {
        var left := |s.attempts[a].job.content| - |s.files[s.attempts[a].ino].text|;
        Take(WriteSome(a, if 0 < answers(turn).chunk <= left then answers(turn).chunk else left), a);
      } else {
        Take(WriteFails(a), a);
      }
    }

    /** `fsyncSync`. */
    method Sync(a: Id)
      requires Valid() && At(s, a, Opened) && s.attempts[a].ino in s.files && Filled(a) >= |s.attempts[a].job.content|
      modifies this
      ensures Valid() && a in s.attempts && s.attempts[a].(pc := Opened) == old(s.attempts[a])
      ensures turn == old(turn) + 1 && s.attempts[a].pc == if answers(turn).ok then Synced else Dropping
      ensures Quiet() ==> s.past == old(s.past)
      ensures CountRenames(trace, a) == old(CountRenames(trace, a))
    {
      Others(a);
      if answers(turn).ok {
        Take(Fsync(a), a);
      } else {
        Take(WriteFails(a), a);
      }
    }

    /** `writeFileSync` and `fsyncSync` on the open temp, in as many pieces as the system takes. */
    method Fill(a: Id)
      requires Valid() && At(s, a, Opened)
      modifies this
      ensures Valid() && a in s.attempts && s.attempts[a].(pc := Opened) == old(s.attempts[a])
      ensures s.attempts[a].pc == if Granted(old(turn), turn) then Synced else Dropping
      ensures Quiet() ==> s.past == old(s.past)
      ensures turn > old(turn) && CountRenames(trace, a) == old(CountRenames(trace, a))
      decreases if a in s.attempts && s.attempts[a].ino in s.files then |s.attempts[a].job.content| - Filled(a) else 0
    {
      TempHolds(a);
      if |s.files[s.attempts[a].ino].text| < |s.attempts[a].job.content| {
        WritePiece(a);
        if s.attempts[a].pc.Opened? {
          Fill(a);
        }
      } else {
        Sync(a);
      }
    }

    /** The rename succeeds, fails for good, or meets a lock that may clear. */
    method RenameOnce(a: Id, attempt: nat)
      requires Valid() && At(s, a, Renaming(attempt)) && attempt <= RENAME_RETRIES
      modifies this
      ensures Valid() && a in s.attempts && s.attempts[a].(pc := Renaming(attempt)) == old(s.attempts[a])
      ensures s.attempts[a].pc == Done || s.attempts[a].pc == Dropping
           || (s.attempts[a].pc == Checking(attempt + 1) && attempt < RENAME_RETRIES)
      ensures turn == old(turn) + 1 && (s.attempts[a].pc == Done <==> answers(turn).ok)
      ensures s.attempts[a].pc.Checking? <==> !answers(turn).ok && answers(turn).locked && attempt < 7
      ensures s.attempts[a].pc == Done ==> s.attempts[a].temp !in s.temps
      ensures CountRenames(trace, a) == old(CountRenames(trace, a)) + 1
    {
      Others(a);
      if answers(turn).ok {
        Take(Rename(a), a);
      } else if !answers(turn).locked || attempt == RENAME_RETRIES {
        Take(RenameFails(a), a);
      } else {
        Take(RenameLocked(a), a);
      }
    }

    /** The precondition, before the first fallback rename and before every retry. */
    method Recheck(a: Id, k: nat)
      requires Valid() && At(s, a, Checking(k))
      modifies this
      ensures Valid() && a in s.attempts && s.attempts[a].(pc := Checking(k)) == old(s.attempts[a])
      ensures turn == old(turn) + 1 && s.attempts[a].pc == if answers(turn).ok then Renaming(k) else Dropping
      ensures CountRenames(trace, a) == old(CountRenames(trace, a))
    {
      Others(a);
      Take(Check(a, answers(turn).ok), a);
    }

    /** One rename, and after a lock error the backoff and the recheck before the next. */
    method TryRename(a: Id, attempt: nat)
      requires Valid() && At(s, a, Renaming(attempt)) && attempt <= RENAME_RETRIES
      modifies this
      ensures Valid() && a in s.attempts && s.attempts[a].(pc := Renaming(attempt)) == old(s.attempts[a])
      ensures s.attempts[a].pc == Done || s.attempts[a].pc == Dropping
           || (s.attempts[a].pc == Renaming(attempt + 1) && attempt < RENAME_RETRIES)
      ensures s.attempts[a].pc == Done <==> answers(old(turn) + 1).ok
      ensures s.attempts[a].pc.Renaming? <==>
        attempt < 7 && !answers(old(turn) + 1).ok && answers(old(turn) + 1).locked && answers(old(turn) + 2).ok
      ensures s.attempts[a].pc.Renaming? ==> turn == old(turn) + 2
      ensures s.attempts[a].pc == Done ==> s.attempts[a].temp !in s.temps
      ensures CountRenames(trace, a) == old(CountRenames(trace, a)) + 1
    {
      RenameOnce(a, attempt);
      if s.attempts[a].pc.Checking? {
        Recheck(a, attempt + 1);
      }
    }

    /** Which rename succeeds, and when none does, is settled by the answers. */
    lemma RenameFailsFor(from: nat, attempt: nat)
      requires GivesUpAt(from, attempt)
      ensures forall k: nat :: !RenamesAt(from, k)
    {
      forall k: nat
        ensures !RenamesAt(from, k)
      {
        if k < attempt {
          assert LockedOnce(from, k);
        } else if attempt < k <= 7 {
          assert LockedUntil(from, k) ==> LockedOnce(from, attempt);
        }
      }
    }

    /** This rename fails for good, or the check after it does, or it was the last. */
    ghost predicate GivesUpAt(from: nat, attempt: nat) {
      && attempt <= 7 && LockedUntil(from, attempt) && !answers(from + 2 * attempt + 1).ok
      && (attempt == 7 || !LockedOnce(from, attempt))
    }

    /** Where the retries stand after `attempt` renames. */
    ghost predicate Retried(a: Id, from: nat, attempt: nat)
      reads this
    {
      && attempt <= 8 && a in s.attempts
      && (match s.attempts[a].pc
          case Renaming(k) => k == attempt <= 7 && turn == from + 2 * attempt && LockedUntil(from, attempt)
          case Done => attempt > 0 && s.attempts[a].temp !in s.temps && RenamesAt(from, attempt - 1)
          case Dropping => attempt > 0 && GivesUpAt(from, attempt - 1)
          case _ => false)
    }

    /** One more trip round the loop. */
    method RetryOnce(a: Id, ghost from: nat, attempt: nat)
      requires Valid() && Retried(a, from, attempt) && s.attempts[a].pc.Renaming?
      modifies this
      ensures Valid() && Retried(a, from, attempt + 1)
      ensures s.attempts[a].(pc := Renaming(0)) == old(s.attempts[a].(pc := Renaming(0)))
      ensures CountRenames(trace, a) == old(CountRenames(trace, a)) + 1
    {
      TryRename(a, attempt);
      if s.attempts[a].pc.Renaming? {
        assert LockedOnce(from, attempt);
      }
    }

    /**
     * `renameSyncWithRetry`, entered with its first rename allowed: it succeeds exactly if one of
     * eight renames does, each one before it having met a lock and then passed the check.
     */
    method RenameWithRetry(a: Id)
      requires Valid() && At(s, a, Renaming(0))
      modifies this
      ensures Valid() && a in s.attempts && s.attempts[a].(pc := Renaming(0)) == old(s.attempts[a])
      ensures s.attempts[a].pc == Done || s.attempts[a].pc == Dropping
      ensures s.attempts[a].pc == Done <==> exists k: nat :: RenamesAt(old(turn), k)
      ensures s.attempts[a].pc == Done ==> s.attempts[a].temp !in s.temps
      ensures CountRenames(trace, a) <= old(CountRenames(trace, a)) + 8
    {
      var attempt := 0;
      ghost var from, was, renames := turn, s.attempts[a], CountRenames(trace, a);
      while s.attempts[a].pc.Renaming?
        invariant Valid() && Retried(a, from, attempt) && s.attempts[a].(pc := Renaming(0)) == was
        invariant CountRenames(trace, a) == renames + attempt
        decreases 8 - attempt
      {
        RetryOnce(a, from, attempt);
        attempt := attempt + 1;
      }
      if s.attempts[a].pc.Dropping? {
        RenameFailsFor(from, attempt - 1);
      } else {
        assert RenamesAt(from, attempt - 1);
      }
    }

    /** Where there are no hard links, the look that replaces the EEXIST of `linkSync`. */
    method LookOnce(a: Id)
      requires Valid() && At(s, a, Linking)
      modifies this
      ensures Valid() && a in s.attempts && s.attempts[a].(pc := Linking) == old(s.attempts[a])
      ensures s.attempts[a].pc == Dropping || s.attempts[a].pc == Checking(0)
      ensures Quiet() ==> s.attempts[a].pc == if old(Dest(s).Some?) then Dropping else Checking(0)
      ensures CountRenames(trace, a) == old(CountRenames(trace, a))
    {
      Take(LinkUnsupported(a), a);
      Others(a);
      Take(LookForDest(a), a);
    }

    /** `linkSync`. */
    method LinkOnce(a: Id)
      requires Valid() && At(s, a, Linking)
      modifies this
      ensures Valid() && a in s.attempts && s.attempts[a].(pc := Linking) == old(s.attempts[a])
      ensures s.attempts[a].pc == Published || s.attempts[a].pc == Dropping || s.attempts[a].pc == Checking(0)
      ensures Quiet() ==> (s.attempts[a].pc == Dropping <==> old(Dest(s).Some?))
      ensures CountRenames(trace, a) == old(CountRenames(trace, a))
    {
      Others(a);
      if answers(turn).unsupported {
        LookOnce(a);
      } else {
        Take(Link(a), a);
      }
    }

    /** The `exclusive` branch up to a published link, a refusal, or the first fallback rename. */
    method LinkOrFallBack(a: Id)
      requires Valid() && At(s, a, Linking)
      modifies this
      ensures Valid() && a in s.attempts && s.attempts[a].(pc := Linking) == old(s.attempts[a])
      ensures s.attempts[a].pc == Published || s.attempts[a].pc == Dropping || s.attempts[a].pc == Renaming(0)
      ensures Quiet() && (forall n :: answers(n).ok) ==> (s.attempts[a].pc == Dropping <==> old(Dest(s).Some?))
      ensures CountRenames(trace, a) == old(CountRenames(trace, a))
    {
      LinkOnce(a);
      if s.attempts[a].pc.Checking? {
        Recheck(a, 0);
      }
    }

    /** The precondition on the way to the first publish. */
    method FirstCheck(a: Id)
      requires Valid() && At(s, a, Synced)
      modifies this
      ensures Valid() && a in s.attempts && s.attempts[a].(pc := Synced) == old(s.attempts[a])
      ensures s.attempts[a].pc ==
        if !answers(old(turn) + 1).ok then Dropping else if s.attempts[a].job.exclusive then Linking else Renaming(0)
      ensures Quiet() ==> s.past == old(s.past)
      ensures CountRenames(trace, a) == old(CountRenames(trace, a))
    {
      Others(a);
      Take(Check(a, answers(turn).ok), a);
    }

    /**
     * One call: it reports success exactly if its content has landed at the destination, and it
     * renames at most eight times. If its temp name is free and every call is answered with success,
     * a plain one succeeds whatever the others do, and with nobody else about an exclusive one
     * succeeds exactly if nothing is there, hard links or not; and no temp is left.
     */
    method WriteFileAtomic(a: Id, job: Job, temp: TempName) returns (ok: bool)
      requires Valid() && a !in s.attempts
      modifies this
      ensures Valid() && a in s.attempts && s.attempts[a].job == job && s.attempts[a].temp == temp
      ensures s.attempts[a].pc == if ok then Done else Failed
      ensures ok <==> Landed(s, a)
      ensures CountRenames(trace, a) <= old(CountRenames(trace, a)) + 8
      ensures old(temp in s.temps) ==> !ok
      ensures old(temp !in s.temps) && (forall n :: answers(n).ok) ==>
        && temp !in s.temps
        && (!job.exclusive ==> ok)
        && (job.exclusive && Quiet() ==> (ok <==> old(Dest(s).None?)))
    {
      var ino := LockCalls.UnusedInode(s.files.Keys);
      Take(Open(a, job, temp, ino), a);
      if s.attempts[a].pc.Failed? {
        ReportIsTrue(initial, trace, a);
        return false;
      }
      Fill(a);
      if s.attempts[a].pc.Synced? {
        PublishSynced(a);
      }
      if !s.attempts[a].pc.Done? {
        DropTemp(a);
      }
      ok := s.attempts[a].pc.Done?;
      ReportIsTrue(initial, trace, a);
    }

    /** From the first check to the rename or the link, or to the first refusal. */
    method PublishSynced(a: Id)
      requires Valid() && At(s, a, Synced)
      modifies this
      ensures Valid() && a in s.attempts && s.attempts[a].(pc := Synced) == old(s.attempts[a])
      ensures s.attempts[a].pc == Done || s.attempts[a].pc == Published || s.attempts[a].pc == Dropping
      ensures s.attempts[a].pc == Done ==> s.attempts[a].temp !in s.temps
      ensures (forall n :: answers(n).ok) && !s.attempts[a].job.exclusive ==> s.attempts[a].pc != Dropping
      ensures (forall n :: answers(n).ok) && s.attempts[a].job.exclusive && Quiet() ==>
        (s.attempts[a].pc == Dropping <==> old(Dest(s).Some?))
      ensures CountRenames(trace, a) <= old(CountRenames(trace, a)) + 8
    {
      FirstCheck(a);
      if s.attempts[a].pc.Linking? {
        LinkOrFallBack(a);
      }
      if s.attempts[a].pc.Renaming? {
        ghost var from := turn;
        RenameWithRetry(a);
        if forall n :: answers(n).ok {
          assert RenamesAt(from, 0);
        }
      }
    }
  }
}
