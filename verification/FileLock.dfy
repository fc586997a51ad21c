/**
 * The cross-process file lock of `fileLock.ts`, as a step-level protocol.
 *
 * Every system call of `acquireLock`, `reclaimIfStale` and `releaseLock` is one step, and any
 * number of processes interleave their steps freely. Directory entries name inodes, because
 * `link()` makes the lock and the temp two names of one file. Deciding that a lock is stale and
 * removing it are two steps, as they are in the source.
 */
module FileLock {
  import opened Text

  type Pid = nat
  type Nonce = nat
  type Inode = nat

  /** A live holder's record younger than this is never removed. */
  const LOCK_LIVE_HOLDER_STALE_MS := 10 * 60_000
  const LOCK_ATTEMPTS := 100

  /** The contents of a lock or temp file. `Partial` is a file truncated but not yet written. */
  datatype Content = Partial | Record(pid: Pid, nonce: Nonce, at: int)

  /** Where a live process stands. `seen` is the inode a removal was decided on. */
  datatype Pc =
    | Idle
    | Start(nonce: Nonce)
    | Truncated(nonce: Nonce)
    | Ready(nonce: Nonce)
    | Blocked(nonce: Nonce)
    | Judged(nonce: Nonce, seen: Option<Inode>)
    | GivingUp
    | Linked(nonce: Nonce)
    | Body(nonce: Nonce)
    | Leaving(nonce: Nonce)
    | Owned(nonce: Nonce, seen: Option<Inode>)

  datatype State = State(
    lock: Option<Inode>,
    temps: map<Pid, Inode>,
    files: map<Inode, Content>,
    procs: map<Pid, Pc>,
    dead: set<Pid>,
    used: set<Nonce>,
    last: Option<Nonce>,
    now: int)

  datatype Step =
    | Spawn(p: Pid)
    | Enter(p: Pid, nonce: Nonce)
    | Truncate(p: Pid, newIno: Inode)
    | Write(p: Pid)
    | Link(p: Pid)
    | ReclaimRead(p: Pid)
    | ReclaimRemove(p: Pid)
    | ReclaimRemoveFails(p: Pid)
    | Fail(p: Pid)
    | DropTemp(p: Pid)
    | Finish(p: Pid)
    | ReleaseRead(p: Pid)
    | ReleaseRemove(p: Pid)
    | Die(p: Pid)
    | Tick(now: int)

  predicate Holding(pc: Pc) {
    pc.Linked? || pc.Body? || pc.Leaving? || pc.Owned?
  }

  /** What `reclaimIfStale` concludes from the record: true means "remove the lock". */
  predicate Reclaimable(s: State) {
    match s.lock
    case None => true
    case Some(i) =>
      if i !in s.files || s.files[i].Partial? then true
      else
        var r := s.files[i];
        r.pid !in s.procs || s.now - r.at >= LOCK_LIVE_HOLDER_STALE_MS
  }

  predicate Enabled(s: State, st: Step) {
    match st
    case Spawn(p) => p !in s.procs && p !in s.dead
    case Tick(_) => true
    case Enter(p, n) => p in s.procs && s.procs[p].Idle? && n !in s.used
    case Truncate(p, newIno) => p in s.procs && s.procs[p].Start? && newIno !in s.files
    case Write(p) => p in s.procs && s.procs[p].Truncated? && p in s.temps
    case Link(p) => p in s.procs && s.procs[p].Ready? && p in s.temps
    case ReclaimRead(p) => p in s.procs && s.procs[p].Blocked?
    case ReclaimRemove(p) => p in s.procs && s.procs[p].Judged?
    case ReclaimRemoveFails(p) => p in s.procs && s.procs[p].Judged?
    case Fail(p) => p in s.procs && (s.procs[p].Start? || s.procs[p].Truncated? || s.procs[p].Ready?)
    case DropTemp(p) => p in s.procs && (s.procs[p].GivingUp? || s.procs[p].Linked?)
    case Finish(p) => p in s.procs && s.procs[p].Body?
    case ReleaseRead(p) => p in s.procs && s.procs[p].Leaving?
    case ReleaseRemove(p) => p in s.procs && s.procs[p].Owned?
    case Die(p) => p in s.procs
  }

  function Goto(s: State, p: Pid, pc: Pc): State {
    s.(procs := s.procs[p := pc])
  }

  function Do(s: State, st: Step): State
    requires Enabled(s, st)
  {
    match st
    case Spawn(p) => Goto(s, p, Idle)
    case Tick(t) => s.(now := t)
    case Enter(p, n) => Goto(s, p, Start(n)).(used := s.used + {n})
    case Truncate(p, newIno) =>
      var ino := if p in s.temps then s.temps[p] else newIno;
      Goto(s, p, Truncated(s.procs[p].nonce)).(temps := s.temps[p := ino], files := s.files[ino := Partial])
    case Write(p) =>
      var n := s.procs[p].nonce;
      Goto(s, p, Ready(n)).(files := s.files[s.temps[p] := Record(p, n, s.now)])
    case Link(p) =>
      var n := s.procs[p].nonce;
      if s.lock.None? then Goto(s, p, Linked(n)).(lock := Some(s.temps[p]), last := Some(n))
      else Goto(s, p, Blocked(n))
    case ReclaimRead(p) =>
      var n := s.procs[p].nonce;
      if Reclaimable(s) then Goto(s, p, Judged(n, s.lock)) else Goto(s, p, Start(n))
    case ReclaimRemove(p) => Goto(s, p, Start(s.procs[p].nonce)).(lock := None)
    case ReclaimRemoveFails(p) => Goto(s, p, Start(s.procs[p].nonce))
    case Fail(p) => Goto(s, p, GivingUp)
    case DropTemp(p) =>
      var pc := s.procs[p];
      Goto(s, p, if pc.GivingUp? then Idle else Body(pc.nonce)).(temps := s.temps - {p})
    case Finish(p) => Goto(s, p, Leaving(s.procs[p].nonce))
    case ReleaseRead(p) =>
      var n := s.procs[p].nonce;
      if CarriesNonce(s, n) then Goto(s, p, Owned(n, s.lock)) else Goto(s, p, Idle)
    case ReleaseRemove(p) => Goto(s, p, Idle).(lock := None)
    case Die(p) => s.(procs := s.procs - {p}, dead := s.dead + {p})
  }

  /** The lock file is there and holds a complete record with nonce `n`. */
  predicate CarriesNonce(s: State, n: Nonce) {
    s.lock.Some? && s.lock.value in s.files && s.files[s.lock.value].Record? && s.files[s.lock.value].nonce == n
  }

  /** A process p that believes it holds the lock, and the lock file says so. */
  predicate Backed(s: State, p: Pid) {
    && p in s.procs && Holding(s.procs[p])
    && s.lock.Some? && s.lock.value in s.files
    && s.files[s.lock.value].Record?
    && s.files[s.lock.value].pid == p && s.files[s.lock.value].nonce == s.procs[p].nonce
  }

  /** A lock directory with no lock, no temps and no process in it yet. */
  predicate Init(s: State) {
    s.lock.None? && s.temps == map[] && s.files == map[] && s.procs == map[] && s.dead == {} && s.last.None?
  }

  // ---- Runs ---------------------------------------------------------------------------------

  predicate Run(s: State, steps: seq<Step>)
    decreases |steps|
  {
    steps == [] || (Enabled(s, steps[0]) && Run(Do(s, steps[0]), steps[1..]))
  }

  function After(s: State, steps: seq<Step>): State
    requires Run(s, steps)
    decreases |steps|
  {
    if steps == [] then s else After(Do(s, steps[0]), steps[1..])
  }

  /** The step unlinks the record of a live process that still counts on it. */
  predicate Steals(s: State, st: Step)
    requires Enabled(s, st)
  {
    match st
    case ReclaimRemove(p) => HolderNamed(s)
    case ReleaseRemove(p) => HolderNamed(s) && !Backed(s, p)
    case _ => false
  }

  /** The record in the lock file names a live process that still counts on it. */
  predicate HolderNamed(s: State) {
    && s.lock.Some? && s.lock.value in s.files && s.files[s.lock.value].Record?
    && Backed(s, s.files[s.lock.value].pid)
  }

  function Thefts(s: State, steps: seq<Step>): nat
    requires Run(s, steps)
    decreases |steps|
  {
    if steps == [] then 0
    else (if Steals(s, steps[0]) then 1 else 0) + Thefts(Do(s, steps[0]), steps[1..])
  }

  function Holders(s: State): set<Pid> {
    set p | p in s.procs && Holding(s.procs[p])
  }

  // ---- The invariant every run keeps ---------------------------------------------------------

  ghost predicate TempsOk(s: State) {
    && (forall p :: p in s.temps ==> s.temps[p] in s.files && (p in s.procs || p in s.dead))
    && (forall p, q :: p in s.temps && q in s.temps && s.temps[p] == s.temps[q] ==> p == q)
    && (forall p :: p in s.procs ==> p !in s.dead)
    && (forall p :: p in s.procs && (s.procs[p].Truncated? || s.procs[p].Ready?) ==> p in s.temps)
    && (forall p :: p in s.procs && s.procs[p].Ready? ==>
          s.files[s.temps[p]].Record? && s.files[s.temps[p]].pid == p && s.files[s.temps[p]].nonce == s.procs[p].nonce)
    && (forall p :: p in s.procs && (s.procs[p].Idle? || s.procs[p].Body? || s.procs[p].Leaving? || s.procs[p].Owned?) ==>
          p !in s.temps)
  }

  /** The lock is always a whole record, and no live process is about to rewrite its inode. */
  ghost predicate LockOk(s: State) {
    match s.lock
    case None => true
    case Some(i) =>
      && i in s.files && s.files[i].Record?
      && s.last == Some(s.files[i].nonce)
      && forall p :: p in s.procs && p in s.temps && s.temps[p] == i ==> s.procs[p].Linked?
  }

  /** An inode that was once linked as the lock is not being rewritten by a live process either. */
  ghost predicate Inv(s: State) {
    TempsOk(s) && LockOk(s)
  }

  lemma InitInv(s: State)
    requires Init(s)
    ensures Inv(s) && Holders(s) == {}
  {
  }

  lemma TruncateInv(s: State, p: Pid, ino: Inode)
    requires Inv(s) && Enabled(s, Truncate(p, ino))
    ensures Inv(Do(s, Truncate(p, ino)))
  {
  }

  lemma WriteInv(s: State, p: Pid)
    requires Inv(s) && Enabled(s, Write(p))
    ensures Inv(Do(s, Write(p)))
  {
  }

  lemma LinkInv(s: State, p: Pid)
    requires Inv(s) && Enabled(s, Link(p))
    ensures Inv(Do(s, Link(p)))
  {
  }

  lemma OtherInv(s: State, st: Step)
    requires Inv(s) && Enabled(s, st)
    requires !st.Truncate? && !st.Write? && !st.Link? && !st.DropTemp? && !st.Spawn? && !st.Die? && !st.Tick? && !st.Enter?
    ensures Inv(Do(s, st))
  {
    var p := st.p;
    var s' := Do(s, st);
    assert s'.temps == s.temps && s'.files == s.files && s'.procs == s.procs[p := s'.procs[p]];
  }

  lemma ComeAndGoInv(s: State, st: Step)
    requires Inv(s) && Enabled(s, st) && (st.Spawn? || st.Tick? || st.Enter?)
    ensures Inv(Do(s, st))
  {
  }

  lemma LeaveInv(s: State, st: Step)
    requires Inv(s) && Enabled(s, st) && (st.DropTemp? || st.Die?)
    ensures Inv(Do(s, st))
  {
  }

  lemma StepInv(s: State, st: Step)
    requires Inv(s) && Enabled(s, st)
    ensures Inv(Do(s, st))
  {
    if st.Truncate? {
      TruncateInv(s, st.p, st.newIno);
    } else if st.Write? {
      WriteInv(s, st.p);
    } else if st.Link? {
      LinkInv(s, st.p);
    } else if st.Spawn? || st.Tick? || st.Enter? {
      ComeAndGoInv(s, st);
    } else if st.DropTemp? || st.Die? {
      LeaveInv(s, st);
    } else {
      OtherInv(s, st);
    }
  }

  // ---- No cascade: every extra holder is paid for by one theft ----------------------------------

  /** Live processes that count on the lock although the lock file no longer says so. */
  function Orphans(s: State): set<Pid> {
    set p | p in s.procs && Holding(s.procs[p]) && !Backed(s, p)
  }

  lemma FileStepKeepsBacking(s: State, st: Step, q: Pid)
    requires Inv(s) && Enabled(s, st) && (st.Truncate? || st.Write?)
    requires q in Holders(s)
    ensures q in Holders(Do(s, st)) && (Backed(s, q) ==> Backed(Do(s, st), q))
  {
  }

  lemma OrphansStep(s: State, st: Step)
    requires Inv(s) && Enabled(s, st)
    ensures !Steals(s, st) ==> Orphans(Do(s, st)) <= Orphans(s)
    ensures Steals(s, st) ==> Orphans(Do(s, st)) <= Orphans(s) + {s.files[s.lock.value].pid}
  {
    var s' := Do(s, st);
    forall q | q in Orphans(s')
      ensures q in Orphans(s) || (Steals(s, st) && q == s.files[s.lock.value].pid)
    {
      if st.Truncate? || st.Write? {
        FileStepKeepsBackingBack(s, st, q);
      }
    }
  }

  lemma FileStepKeepsBackingBack(s: State, st: Step, q: Pid)
    requires Inv(s) && Enabled(s, st) && (st.Truncate? || st.Write?)
    requires q in Orphans(Do(s, st))
    ensures q in Orphans(s)
  {
    assert q in Holders(s);
    FileStepKeepsBacking(s, st, q);
  }

  lemma BackedIsUnique(s: State)
    ensures |Holders(s)| <= |Orphans(s)| + 1
  {
    var backed := Holders(s) - Orphans(s);
    assert Holders(s) == backed + Orphans(s);
    if p :| p in backed {
      assert forall q :: q in backed ==> Backed(s, q) && q == p;
      assert backed == {p};
    } else {
      assert backed == {};
    }
  }

  lemma {:induction false} OrphansBounded(s: State, steps: seq<Step>)
    requires Inv(s) && Run(s, steps)
    ensures Inv(After(s, steps))
    ensures |Orphans(After(s, steps))| <= |Orphans(s)| + Thefts(s, steps)
    decreases |steps|
  {
    if steps != [] {
      StepInv(s, steps[0]);
      OrphansStep(s, steps[0]);
      var s' := Do(s, steps[0]);
      if Steals(s, steps[0]) {
        Subset(Orphans(s'), Orphans(s) + {s.files[s.lock.value].pid});
      } else {
        Subset(Orphans(s'), Orphans(s));
      }
      OrphansBounded(s', steps[1..]);
    }
  }

  lemma {:induction false} Subset<T>(a: set<T>, b: set<T>)
    requires a <= b
    ensures |a| <= |b|
  {
    if x :| x in a {
      Subset(a - {x}, b - {x});
    }
  }

  /** However the lock is abused, the number of processes inside is one plus the number of thefts. */
  lemma HoldersBounded(s: State, steps: seq<Step>)
    requires Init(s) && Run(s, steps)
    ensures |Holders(After(s, steps))| <= 1 + Thefts(s, steps)
  {
    InitInv(s);
    assert Orphans(s) <= Holders(s);
    OrphansBounded(s, steps);
    BackedIsUnique(After(s, steps));
  }

  /** Mutual exclusion over every interleaving of every number of processes, deaths included. */
  lemma MutualExclusion(s: State, steps: seq<Step>, p: Pid, q: Pid)
    requires Init(s) && Run(s, steps) && Thefts(s, steps) == 0
    requires p in Holders(After(s, steps)) && q in Holders(After(s, steps))
    ensures p == q
  {
    HoldersBounded(s, steps);
    if p != q {
      Subset({p, q}, Holders(After(s, steps)));
    }
  }

  /** A present lock is always a whole record, and it is the most recent acquirer's. */
  lemma LockNamesLastAcquirer(s: State, steps: seq<Step>)
    requires Init(s) && Run(s, steps)
    ensures var e := After(s, steps);
      e.lock.Some? ==> e.last.Some? && CarriesNonce(e, e.last.value)
  {
    InitInv(s);
    OrphansBounded(s, steps);
  }

  // ---- When no theft can happen --------------------------------------------------------------------

  /** What a step removes, if anything, is the very file its decision read. */
  predicate RemovesWhatItRead(s: State, st: Step)
    requires Enabled(s, st)
  {
    match st
    case ReclaimRemove(p) => s.lock.None? || s.lock == s.procs[p].seen
    case ReleaseRemove(p) => s.lock.None? || s.lock == s.procs[p].seen
    case _ => true
  }

  /** A reclaim that reads the record of a running process finds it younger than the threshold. */
  predicate JudgesNoLiveHold(s: State, st: Step)
    requires Enabled(s, st)
  {
    st.ReclaimRead? && NamesTheLiving(s) ==> s.now - s.files[s.lock.value].at < LOCK_LIVE_HOLDER_STALE_MS
  }

  predicate NamesTheLiving(s: State) {
    s.lock.Some? && s.lock.value in s.files && s.files[s.lock.value].Record? && s.files[s.lock.value].pid in s.procs
  }

  /** Throughout the run, each removal takes the file its decision read. */
  predicate SameFile(s: State, steps: seq<Step>)
    requires Run(s, steps)
    decreases |steps|
  {
    steps == [] || (RemovesWhatItRead(s, steps[0]) && SameFile(Do(s, steps[0]), steps[1..]))
  }

  /** Throughout the run, no live hold ages past the threshold under a reclaimer's eyes. */
  predicate Fresh(s: State, steps: seq<Step>)
    requires Run(s, steps)
    decreases |steps|
  {
    steps == [] || (JudgesNoLiveHold(s, steps[0]) && Fresh(Do(s, steps[0]), steps[1..]))
  }

  /** A process that has drawn a nonce and is not yet done with it. */
  predicate Engaged(pc: Pc) {
    !pc.Idle? && !pc.GivingUp?
  }

  /** The inode `i` holds the record of process `p`, with nonce `n`. */
  predicate RecordOf(s: State, i: Inode, p: Pid, n: Nonce) {
    i in s.files && s.files[i].Record? && s.files[i].pid == p && s.files[i].nonce == n
  }

  ghost predicate RecordsKnown(s: State) {
    forall i :: i in s.files && s.files[i].Record? ==>
      s.files[i].nonce in s.used && (s.files[i].pid in s.procs || s.files[i].pid in s.dead)
  }

  ghost predicate TempsOwn(s: State) {
    forall p :: p in s.temps && s.temps[p] in s.files && s.files[s.temps[p]].Record? ==> s.files[s.temps[p]].pid == p
  }

  ghost predicate NoncesOwn(s: State) {
    && (forall p :: p in s.procs && Engaged(s.procs[p]) ==> s.procs[p].nonce in s.used)
    && (forall p, q | p in s.procs && q in s.procs && Engaged(s.procs[p]) && Engaged(s.procs[q]) ::
          s.procs[p].nonce == s.procs[q].nonce ==> p == q)
  }

  ghost predicate RecordsOwn(s: State) {
    forall i, p | i in s.files && s.files[i].Record? && p in s.procs && Engaged(s.procs[p]) ::
      s.files[i].nonce == s.procs[p].nonce ==> s.files[i].pid == p
  }

  ghost predicate OwnersSee(s: State) {
    forall p :: p in s.procs && s.procs[p].Owned? ==>
      s.procs[p].seen.Some? && RecordOf(s, s.procs[p].seen.value, p, s.procs[p].nonce)
  }

  /** Records, nonces and temps each belong to one process; every run keeps this. */
  ghost predicate Identity(s: State) {
    RecordsKnown(s) && TempsOwn(s) && NoncesOwn(s) && RecordsOwn(s) && OwnersSee(s)
  }

  ghost predicate NamesTheDead(s: State, i: Inode) {
    i in s.files && s.files[i].Record? && s.files[i].pid in s.dead
  }

  /** Every inode a reclaimer has judged removable is still a dead process' record. */
  ghost predicate JudgmentsStand(s: State) {
    forall p :: p in s.procs && s.procs[p].Judged? && s.procs[p].seen.Some? ==> NamesTheDead(s, s.procs[p].seen.value)
  }

  lemma StepRecordsKnown(s: State, st: Step)
    requires Inv(s) && NoncesOwn(s) && RecordsKnown(s) && Enabled(s, st)
    ensures RecordsKnown(Do(s, st))
  {
  }

  lemma StepTempsOwn(s: State, st: Step)
    requires Inv(s) && TempsOwn(s) && Enabled(s, st)
    ensures TempsOwn(Do(s, st))
  {
  }

  /** A process gets a nonce by drawing it, and otherwise keeps the one it has. */
  lemma NonceStays(s: State, st: Step, q: Pid)
    requires Enabled(s, st) && q in Do(s, st).procs && Engaged(Do(s, st).procs[q])
    ensures st.Enter? && st.p == q ==> Do(s, st).procs[q].nonce == st.nonce
    ensures !(st.Enter? && st.p == q) ==>
      q in s.procs && Engaged(s.procs[q]) && Do(s, st).procs[q].nonce == s.procs[q].nonce
    ensures Do(s, st).used == if st.Enter? then s.used + {st.nonce} else s.used
  {
  }

  lemma StepNoncesOwn(s: State, st: Step)
    requires NoncesOwn(s) && Enabled(s, st)
    ensures NoncesOwn(Do(s, st))
  {
    var s' := Do(s, st);
    forall p | p in s'.procs && Engaged(s'.procs[p])
      ensures s'.procs[p].nonce in s'.used
      ensures forall q | q in s'.procs && Engaged(s'.procs[q]) :: s'.procs[p].nonce == s'.procs[q].nonce ==> p == q
    {
      NonceStays(s, st, p);
      forall q | q in s'.procs && Engaged(s'.procs[q])
        ensures s'.procs[p].nonce == s'.procs[q].nonce ==> p == q
      {
        NonceStays(s, st, q);
      }
    }
  }

  lemma StepRecordsOwn(s: State, st: Step)
    requires Inv(s) && NoncesOwn(s) && RecordsKnown(s) && RecordsOwn(s) && Enabled(s, st)
    ensures RecordsOwn(Do(s, st))
  {
  }

  lemma StepOwnersSee(s: State, st: Step)
    requires Inv(s) && Identity(s) && Enabled(s, st)
    ensures OwnersSee(Do(s, st))
  {
    var s' := Do(s, st);
    forall q | q in s'.procs && s'.procs[q].Owned?
      ensures s'.procs[q].seen.Some? && RecordOf(s', s'.procs[q].seen.value, q, s'.procs[q].nonce)
    {
      if !st.ReleaseRead? || st.p != q {
        assert s.procs[q] == s'.procs[q];
        assert RecordOf(s, s.procs[q].seen.value, q, s.procs[q].nonce);
      }
    }
  }

  lemma StepIdentity(s: State, st: Step)
    requires Inv(s) && Identity(s) && Enabled(s, st)
    ensures Identity(Do(s, st))
  {
    StepRecordsKnown(s, st);
    StepTempsOwn(s, st);
    StepNoncesOwn(s, st);
    StepRecordsOwn(s, st);
    StepOwnersSee(s, st);
  }

  lemma StepJudgments(s: State, st: Step)
    requires Inv(s) && Identity(s) && JudgmentsStand(s) && Enabled(s, st)
    requires JudgesNoLiveHold(s, st)
    ensures JudgmentsStand(Do(s, st))
  {
    var s' := Do(s, st);
    forall q | q in s'.procs && s'.procs[q].Judged? && s'.procs[q].seen.Some?
      ensures NamesTheDead(s', s'.procs[q].seen.value)
    {
      if !(st.ReclaimRead? && st.p == q) {
        assert q in s.procs && s.procs[q] == s'.procs[q];
        DeadStayNamed(s, st, s.procs[q].seen.value);
      }
    }
  }

  lemma DeadStayNamed(s: State, st: Step, i: Inode)
    requires Inv(s) && TempsOwn(s) && Enabled(s, st) && NamesTheDead(s, i)
    ensures NamesTheDead(Do(s, st), i)
  {
  }

  lemma CarefulStepIsNoTheft(s: State, st: Step)
    requires Inv(s) && Identity(s) && JudgmentsStand(s) && Enabled(s, st) && RemovesWhatItRead(s, st)
    ensures !Steals(s, st)
  {
  }

  /** If each removal takes the file its decision read and no live hold ages out, nothing is stolen. */
  lemma {:induction false} CarefulRunsStealNothing(s: State, steps: seq<Step>)
    requires Inv(s) && Identity(s) && JudgmentsStand(s) && Run(s, steps) && SameFile(s, steps) && Fresh(s, steps)
    ensures Thefts(s, steps) == 0
    decreases |steps|
  {
    if steps != [] {
      StepInv(s, steps[0]);
      StepIdentity(s, steps[0]);
      StepJudgments(s, steps[0]);
      CarefulStepIsNoTheft(s, steps[0]);
      CarefulRunsStealNothing(Do(s, steps[0]), steps[1..]);
    }
  }

  lemma {:induction false} RunIdentity(s: State, steps: seq<Step>)
    requires Inv(s) && Identity(s) && Run(s, steps)
    ensures Inv(After(s, steps)) && Identity(After(s, steps))
    decreases |steps|
  {
    if steps != [] {
      StepInv(s, steps[0]);
      StepIdentity(s, steps[0]);
      RunIdentity(Do(s, steps[0]), steps[1..]);
    }
  }

  /** The lock does what it is for: at most one process is inside, deaths and reclaims included. */
  lemma CarefulRunsExclude(s: State, steps: seq<Step>, p: Pid, q: Pid)
    requires Init(s) && Run(s, steps) && SameFile(s, steps) && Fresh(s, steps)
    requires p in Holders(After(s, steps)) && q in Holders(After(s, steps))
    ensures p == q
  {
    InitInv(s);
    CarefulRunsStealNothing(s, steps);
    MutualExclusion(s, steps, p, q);
  }

  /**
   * No cascade from a misjudged hold, in any run at all: a late release leaves a newer holder's
   * record alone, and one whose unlink takes the file it read never removes anybody else's.
   */
  lemma ReleaseNeverCascades(s: State, steps: seq<Step>, p: Pid)
    requires Init(s) && Run(s, steps)
    ensures var e := After(s, steps);
      && (Enabled(e, ReleaseRead(p)) && !Backed(e, p) ==>
            Do(e, ReleaseRead(p)).procs[p].Idle? && Do(e, ReleaseRead(p)).lock == e.lock)
      && (Enabled(e, ReleaseRemove(p)) && RemovesWhatItRead(e, ReleaseRemove(p)) ==> !Steals(e, ReleaseRemove(p)))
  {
    InitInv(s);
    RunIdentity(s, steps);
    LateReleaseIsHarmless(After(s, steps), p);
  }

  lemma LateReleaseIsHarmless(s: State, p: Pid)
    requires Inv(s) && Identity(s)
    ensures Enabled(s, ReleaseRead(p)) && !Backed(s, p) ==>
      Do(s, ReleaseRead(p)).procs[p].Idle? && Do(s, ReleaseRead(p)).lock == s.lock
    ensures Enabled(s, ReleaseRemove(p)) && RemovesWhatItRead(s, ReleaseRemove(p)) ==> !Steals(s, ReleaseRemove(p))
  {
  }

  // ---- A theft is fatal, and the two-step reclaim can commit one ------------------------------------

  /** Some number outside a finite set. */
  ghost function FreeNat(used: set<nat>): (n: nat)
    ensures n !in used
    ensures forall x :: x in used ==> x < n
    decreases used
  {
    if used == {} then 0
    else
      var x :| x in used;
      var m := FreeNat(used - {x});
      assert forall y :: y in used ==> y == x || y in used - {x};
      if m > x then m else x + 1
  }

  lemma Prepend(s: State, st: Step, rest: seq<Step>)
    requires Enabled(s, st) && Run(Do(s, st), rest)
    ensures Run(s, [st] + rest) && After(s, [st] + rest) == After(Do(s, st), rest)
    ensures JudgesNoLiveHold(s, st) && Fresh(Do(s, st), rest) ==> Fresh(s, [st] + rest)
  {
    assert ([st] + rest)[1..] == rest;
  }

  /** The run leads from `s` to `s'`, and no live hold ages out on the way. */
  ghost predicate Leads(s: State, steps: seq<Step>, s': State) {
    Run(s, steps) && After(s, steps) == s' && Fresh(s, steps)
  }

  /** A new process writes its record into a temp of its own. */
  lemma Prepare(s: State, p: Pid, n: Nonce, i: Inode) returns (steps: seq<Step>, s': State)
    requires p !in s.procs && p !in s.dead && p !in s.temps && n !in s.used && i !in s.files
    ensures Leads(s, steps, s')
    ensures s' == s.(procs := s.procs[p := Ready(n)], used := s.used + {n}, temps := s.temps[p := i],
      files := s.files[i := Record(p, n, s.now)])
  {
    var s1 := Do(s, Spawn(p));
    var s2 := Do(s1, Enter(p, n));
    var s3 := Do(s2, Truncate(p, i));
    s' := Do(s3, Write(p));
    Prepend(s3, Write(p), []);
    Prepend(s2, Truncate(p, i), [Write(p)] + []);
    Prepend(s1, Enter(p, n), [Truncate(p, i)] + ([Write(p)] + []));
    Prepend(s, Spawn(p), [Enter(p, n)] + ([Truncate(p, i)] + ([Write(p)] + [])));
    steps := [Spawn(p)] + ([Enter(p, n)] + ([Truncate(p, i)] + ([Write(p)] + [])));
  }

  /** A new process runs straight through an absent lock. */
  lemma WalkIn(s: State, p: Pid, n: Nonce, i: Inode) returns (steps: seq<Step>, s': State)
    requires s.lock.None? && p !in s.procs && p !in s.dead && p !in s.temps && n !in s.used && i !in s.files
    ensures Leads(s, steps, s')
    ensures s' == s.(procs := s.procs[p := Linked(n)], used := s.used + {n}, temps := s.temps[p := i],
      files := s.files[i := Record(p, n, s.now)], lock := Some(i), last := Some(n))
  {
    var s1;
    steps, s1 := Prepare(s, p, n, i);
    s' := Do(s1, Link(p));
    Prepend(s1, Link(p), []);
    Append(s, steps, [Link(p)] + []);
    steps := steps + ([Link(p)] + []);
  }

  /** After a theft, one more process walking straight in makes two: no theft is harmless. */
  lemma TheftOpensTheDoor(s: State, st: Step) returns (more: seq<Step>)
    requires Inv(s) && Enabled(s, st) && Steals(s, st)
    ensures Run(Do(s, st), more) && |Holders(After(Do(s, st), more))| >= 2
  {
    var s0 := Do(s, st);
    var victim := s.files[s.lock.value].pid;
    var p := FreeNat(s0.procs.Keys + s0.dead + s0.temps.Keys);
    var n := FreeNat(s0.used);
    var i := FreeNat(s0.files.Keys);
    assert p !in s0.procs.Keys + s0.dead + s0.temps.Keys && n !in s0.used && i !in s0.files.Keys;
    assert victim in s0.procs && Holding(s0.procs[victim]);
    var s';
    more, s' := WalkIn(s0, p, n, i);
    Subset({victim, p}, Holders(s'));
  }

  lemma {:induction false} Append(s: State, a: seq<Step>, b: seq<Step>)
    requires Run(s, a) && Run(After(s, a), b)
    ensures Run(s, a + b) && After(s, a + b) == After(After(s, a), b)
    ensures Fresh(s, a) && Fresh(After(s, a), b) ==> Fresh(s, a + b)
    decreases |a|
  {
    if a == [] {
      assert a + b == b;
    } else {
      Append(Do(s, a[0]), a[1..], b);
      assert (a + b)[1..] == a[1..] + b;
    }
  }

  /** A new process meets a dead holder's record and decides to remove it. */
  lemma Arrive(s: State, p: Pid, n: Nonce, i: Inode) returns (steps: seq<Step>, s': State)
    requires s.lock.Some? && NamesTheDead(s, s.lock.value) && s.files[s.lock.value].pid !in s.procs + map[p := Idle]
    requires p !in s.procs && p !in s.dead && p !in s.temps && n !in s.used && i !in s.files
    ensures Leads(s, steps, s')
    ensures s' == s.(procs := s.procs[p := Judged(n, s.lock)], used := s.used + {n}, temps := s.temps[p := i],
      files := s.files[i := Record(p, n, s.now)])
  {
    var s1;
    steps, s1 := Prepare(s, p, n, i);
    var s2 := Do(s1, Link(p));
    s' := Do(s2, ReclaimRead(p));
    Prepend(s2, ReclaimRead(p), []);
    Prepend(s1, Link(p), [ReclaimRead(p)] + []);
    Append(s, steps, [Link(p)] + ([ReclaimRead(p)] + []));
    steps := steps + ([Link(p)] + ([ReclaimRead(p)] + []));
  }

  /** It carries the decision out, whatever the lock names by then, and links its own record. */
  lemma TakeOver(s: State, p: Pid, n: Nonce) returns (steps: seq<Step>, s': State)
    requires p in s.procs && s.procs[p].Judged? && s.procs[p].nonce == n && p in s.temps && s.temps[p] in s.files
    ensures Leads(s, steps, s')
    ensures s' == s.(procs := s.procs[p := Linked(n)], files := s.files[s.temps[p] := Record(p, n, s.now)],
      lock := Some(s.temps[p]), last := Some(n))
  {
    var i := FreeNat(s.files.Keys);
    var s1 := Do(s, ReclaimRemove(p));
    var s2 := Do(s1, Truncate(p, i));
    var s3 := Do(s2, Write(p));
    s' := Do(s3, Link(p));
    Prepend(s3, Link(p), []);
    Prepend(s2, Write(p), [Link(p)] + []);
    Prepend(s1, Truncate(p, i), [Write(p)] + ([Link(p)] + []));
    Prepend(s, ReclaimRemove(p), [Truncate(p, i)] + ([Write(p)] + ([Link(p)] + [])));
    steps := [ReclaimRemove(p)] + ([Truncate(p, i)] + ([Write(p)] + ([Link(p)] + [])));
  }

  /**
   * Read-then-remove is not one operation: one dead holder and two reclaimers, no hold ever
   * aging, and both reclaimers end up inside. The hypothesis SameFile cannot be dropped.
   */
  lemma TwoReclaimersRace() returns (s: State, steps: seq<Step>)
    ensures Init(s) && Run(s, steps) && Fresh(s, steps)
    ensures Holders(After(s, steps)) == {1, 2}
  {
    s := State(None, map[], map[], map[], {}, {}, None, 0);
    var s1, s2, s3, s4, more;
    steps, s1 := WalkIn(s, 0, 0, 0);
    Prepend(s1, Die(0), []);
    Append(s, steps, [Die(0)] + []);
    steps := steps + ([Die(0)] + []);
    s1 := Do(s1, Die(0));
    more, s2 := Arrive(s1, 1, 1, 1);
    Append(s, steps, more);
    steps := steps + more;
    more, s3 := Arrive(s2, 2, 2, 2);
    Append(s, steps, more);
    steps := steps + more;
    more, s4 := TakeOver(s3, 1, 1);
    Append(s, steps, more);
    steps := steps + more;
    more, s4 := TakeOver(s4, 2, 2);
    Append(s, steps, more);
    steps := steps + more;
  }
}
