/**
 * Many processes running `mergeConfigFileIf` against one configuration directory: the lock
 * protocol of FileLock with the reads and writes of ConfigSave as the body, one system call a
 * step, in any interleaving, with processes dying or throwing anywhere.
 */
module ConfigRuns {
  import opened Text
  import opened ConfigRecord
  import opened ConfigSave
  import L = FileLock

  /** How far a process is in the body: how many of its writes landed, and whether one carried the pair. */
  datatype Progress = Waiting | HasConfig | Deciding(k: nat, pairLanded: bool) | Finished | Threw

  datatype Job = Job(m: Merge, at: Progress, inl: Config, before: Config, base: Disk)

  /**
   * `order` lists the merges as they took the lock; `pairs` and `rests` those whose pair-carrying
   * write and whose config.json write landed.
   */
  datatype Sys = Sys(lock: L.State, disk: Disk, jobs: map<L.Pid, Job>,
                     order: seq<Merge>, pairs: seq<Merge>, rests: seq<Merge>)

  datatype Step =
    | Begin(p: L.Pid, nonce: L.Nonce, m: Merge)
    | Lock(st: L.Step)
    | ReadConfig(p: L.Pid)
    | ReadAdmin(p: L.Pid)
    | Write(p: L.Pid)

  ghost predicate InBody(s: Sys, p: L.Pid) {
    p in s.lock.procs && s.lock.procs[p].Body? && p in s.jobs
  }

  ghost predicate Enabled(s: Sys, st: Step) {
    match st
    case Begin(p, n, _) => L.Enabled(s.lock, L.Enter(p, n))
    case Lock(l) => L.Enabled(s.lock, l) && !l.Enter? && (l.Link? ==> l.p in s.jobs)
    case ReadConfig(p) => InBody(s, p) && s.jobs[p].at.Waiting?
    case ReadAdmin(p) => InBody(s, p) && s.jobs[p].at.HasConfig?
    case Write(p) => InBody(s, p) && s.jobs[p].at.Deciding?
  }

  ghost function Do(pol: Policy, s: Sys, st: Step): Sys
    requires Enabled(s, st)
  {
    match st
    case Begin(p, n, m) =>
      s.(lock := L.Do(s.lock, L.Enter(p, n)), jobs := s.jobs[p := Job(m, Waiting, map[], map[], s.disk)])
    case Lock(l) =>
      var s' := s.(lock := L.Do(s.lock, l));
      if l.Link? && s'.lock.procs[l.p].Linked? then s'.(order := s.order + [s.jobs[l.p].m]) else s'
    case ReadConfig(p) =>
      var j := s.jobs[p];
      s.(jobs := s.jobs[p := if ReadObject(s.disk.config).Ok? then j.(at := HasConfig, inl := Inline(pol, s.disk)) else j.(at := Threw)])
    case ReadAdmin(p) => DoReadAdmin(pol, s, p)
    case Write(p) => DoWrite(s, p)
  }

  ghost function DoReadAdmin(pol: Policy, s: Sys, p: L.Pid): Sys
    requires Enabled(s, ReadAdmin(p))
  {
    var j := s.jobs[p];
    match ReadObject(s.disk.admin)
    case Err => s.(jobs := s.jobs[p := j.(at := Threw)])
    case Ok(a) =>
      var before := Applied(j.inl, ParseAdmin(pol, a));
      s.(jobs := s.jobs[p :=
        if j.m.decide(before) then j.(at := Deciding(0, false), before := before, base := s.disk) else j.(at := Finished)])
  }

  ghost function DoWrite(s: Sys, p: L.Pid): Sys
    requires Enabled(s, Write(p))
  {
    var j := s.jobs[p];
    var data := Merged(j.m, j.before);
    if j.at.k == 0 then
      var landed := FirstWriteHappens(s.disk, data);
      s.(disk := WriteAdmin(s.disk, data, j.inl), jobs := s.jobs[p := j.(at := Deciding(1, landed))],
         pairs := if landed then s.pairs + [j.m] else s.pairs)
    else if j.at.k == 1 then
      s.(disk := WriteConfig(s.disk, data), jobs := s.jobs[p := j.(at := Deciding(2, true))],
         pairs := if j.at.pairLanded then s.pairs else s.pairs + [j.m], rests := s.rests + [j.m])
    else
      s.(disk := DropMarker(s.disk, data, j.inl), jobs := s.jobs[p := j.(at := Finished)])
  }

  ghost predicate Init(s: Sys) {
    L.Init(s.lock) && s.jobs == map[] && s.order == [] && s.pairs == [] && s.rests == []
  }

  ghost predicate Run(pol: Policy, s: Sys, steps: seq<Step>)
    decreases |steps|
  {
    steps == [] || (Enabled(s, steps[0]) && Run(pol, Do(pol, s, steps[0]), steps[1..]))
  }

  ghost function After(pol: Policy, s: Sys, steps: seq<Step>): Sys
    requires Run(pol, s, steps)
    decreases |steps|
  {
    if steps == [] then s else After(pol, Do(pol, s, steps[0]), steps[1..])
  }

  /** No step takes the lock away from a process that counts on it; FileLock says when that is so. */
  ghost predicate NoTheft(pol: Policy, s: Sys, steps: seq<Step>)
    requires Run(pol, s, steps)
    decreases |steps|
  {
    steps == [] || (
      && (steps[0].Lock? ==> !L.Steals(s.lock, steps[0].st))
      && NoTheft(pol, Do(pol, s, steps[0]), steps[1..]))
  }

  // ---- What the run leaves for readers ------------------------------------------------------------

  ghost function Fold(pol: Policy, c: Config, log: seq<Merge>): Config {
    if log == [] then c else Outcome(pol, log[|log| - 1], Fold(pol, c, log[..|log| - 1]))
  }

  /** The pair of the merges in `pairs` over the pair of `c`, beside the rest of those in `rests`. */
  ghost function View(pol: Policy, c: Config, pairs: seq<Merge>, rests: seq<Merge>): Config {
    RestOf(Fold(pol, c, rests)) + PairOf(Fold(pol, c, pairs))
  }

  lemma FoldSnoc(pol: Policy, c: Config, log: seq<Merge>, m: Merge)
    ensures Fold(pol, c, log + [m]) == Outcome(pol, m, Fold(pol, c, log))
  {
    assert (log + [m])[..|log|] == log;
  }

  // ---- Invariants ----------------------------------------------------------------------------------

  ghost predicate LockOk(s: Sys) {
    L.Inv(s.lock) && L.Orphans(s.lock) == {}
  }

  /** Before the body a job has done nothing. */
  ghost predicate JobsOk(s: Sys) {
    forall p :: p in s.lock.procs && L.Engaged(s.lock.procs[p]) ==>
      p in s.jobs && (!s.lock.procs[p].Body? && !s.lock.procs[p].Leaving? && !s.lock.procs[p].Owned? ==> s.jobs[p].at.Waiting?)
  }

  /** The disk is the job's base after its first k writes. */
  ghost predicate JobOk(pol: Policy, d: Disk, j: Job) {
    match j.at
    case HasConfig => ReadObject(d.config).Ok? && j.inl == Inline(pol, d)
    case Deciding(k, landed) =>
      && k <= 2 && Resolve(pol, j.base) == Ok(j.before) && j.inl == Inline(pol, j.base) && j.m.decide(j.before)
      && d == Saved(j.base, Merged(j.m, j.before), j.inl, k)
      && landed == (k == 2 || (k == 1 && FirstWriteHappens(j.base, Merged(j.m, j.before))))
    case _ => true
  }

  ghost predicate BodyOk(pol: Policy, s: Sys) {
    forall p :: InBody(s, p) ==> JobOk(pol, s.disk, s.jobs[p])
  }

  ghost predicate DiskOk(pol: Policy, s: Sys, c: Config) {
    Resolve(pol, s.disk) == Ok(View(pol, c, s.pairs, s.rests))
  }

  ghost predicate Inv(pol: Policy, s: Sys, c: Config) {
    LockOk(s) && JobsOk(s) && BodyOk(pol, s) && DiskOk(pol, s, c)
  }

  lemma OneHolder(s: L.State, p: L.Pid, q: L.Pid)
    requires L.Orphans(s) == {}
    requires p in s.procs && q in s.procs && L.Holding(s.procs[p]) && L.Holding(s.procs[q])
    ensures p == q
  {
    assert p !in L.Orphans(s) && q !in L.Orphans(s);
    assert L.Backed(s, p) && L.Backed(s, q);
  }

  lemma LockStepKeepsLock(s: L.State, st: L.Step)
    requires L.Inv(s) && L.Orphans(s) == {} && L.Enabled(s, st) && !L.Steals(s, st)
    ensures L.Inv(L.Do(s, st)) && L.Orphans(L.Do(s, st)) == {}
  {
    L.StepInv(s, st);
    L.OrphansStep(s, st);
  }

  /** A lock step moves no process into the middle of a body. */
  lemma LockStepKeepsBodies(s: L.State, st: L.Step, p: L.Pid)
    requires L.Enabled(s, st) && p in L.Do(s, st).procs && L.Engaged(L.Do(s, st).procs[p]) && !st.Enter?
    ensures p in s.procs && L.Engaged(s.procs[p])
    ensures L.Do(s, st).procs[p].Body? ==> s.procs[p].Body? || s.procs[p].Linked?
    ensures !L.Do(s, st).procs[p].Body? && !L.Do(s, st).procs[p].Leaving? && !L.Do(s, st).procs[p].Owned? ==>
      !s.procs[p].Body? && !s.procs[p].Leaving? && !s.procs[p].Owned?
  {
  }

  lemma LockStepJobs(pol: Policy, s: Sys, s': Sys, st: L.Step)
    requires JobsOk(s) && BodyOk(pol, s) && L.Enabled(s.lock, st) && !st.Enter?
    requires s'.lock == L.Do(s.lock, st) && s'.jobs == s.jobs && s'.disk == s.disk
    ensures JobsOk(s') && BodyOk(pol, s')
  {
    forall p | p in s'.lock.procs && L.Engaged(s'.lock.procs[p])
      ensures p in s.lock.procs && L.Engaged(s.lock.procs[p])
      ensures s'.lock.procs[p].Body? ==> s.lock.procs[p].Body? || s.lock.procs[p].Linked?
      ensures !s'.lock.procs[p].Body? && !s'.lock.procs[p].Leaving? && !s'.lock.procs[p].Owned? ==>
        !s.lock.procs[p].Body? && !s.lock.procs[p].Leaving? && !s.lock.procs[p].Owned?
    {
      LockStepKeepsBodies(s.lock, st, p);
    }
  }

  lemma LockStepInv(pol: Policy, s: Sys, st: Step, c: Config)
    requires Inv(pol, s, c) && Enabled(s, st) && st.Lock? && !L.Steals(s.lock, st.st)
    ensures Inv(pol, Do(pol, s, st), c)
  {
    LockStepKeepsLock(s.lock, st.st);
    LockStepJobs(pol, s, Do(pol, s, st), st.st);
  }

  lemma BeginInv(pol: Policy, s: Sys, st: Step, c: Config)
    requires Inv(pol, s, c) && Enabled(s, st) && st.Begin?
    ensures Inv(pol, Do(pol, s, st), c)
  {
    LockStepKeepsLock(s.lock, L.Enter(st.p, st.nonce));
  }

  /** Only the process in the body touches the disk, so only its own job needs looking at. */
  lemma BodyAlone(pol: Policy, s: Sys, s': Sys, p: L.Pid)
    requires LockOk(s) && JobsOk(s) && InBody(s, p)
    requires s'.lock == s.lock && p in s'.jobs && s'.jobs == s.jobs[p := s'.jobs[p]] && JobOk(pol, s'.disk, s'.jobs[p])
    ensures LockOk(s') && JobsOk(s') && BodyOk(pol, s')
  {
    forall q | InBody(s', q)
      ensures JobOk(pol, s'.disk, s'.jobs[q])
    {
      OneHolder(s.lock, p, q);
    }
  }

  lemma ReadInv(pol: Policy, s: Sys, st: Step, c: Config)
    requires Inv(pol, s, c) && Enabled(s, st) && (st.ReadConfig? || st.ReadAdmin?)
    ensures Inv(pol, Do(pol, s, st), c)
  {
    BodyAlone(pol, s, Do(pol, s, st), st.p);
  }

  lemma ViewHalves(pol: Policy, c: Config, pairs: seq<Merge>, rests: seq<Merge>)
    ensures PairOf(View(pol, c, pairs, rests)) == PairOf(Fold(pol, c, pairs))
    ensures RestOf(View(pol, c, pairs, rests)) == RestOf(Fold(pol, c, rests))
  {
  }

  lemma RestIsRestrict(c: Config, others: set<Field>)
    requires others == {ApiKey, ServicePrivateKey, BaseUrl, WebAccountAddress, KeyAdminAddress, AllowedDirs}
    ensures RestOf(c) == Restrict(c, others)
  {
    forall f: Field
      ensures f in others <==> f !in ADMIN_FIELDS
    {
      match f {
        case AdminKey =>
        case _ =>
      }
    }
  }

  lemma OutcomeHalves(pol: Policy, m: Merge, c: Config, d: Config)
    ensures PairOf(c) == PairOf(d) ==> PairOf(Outcome(pol, m, c)) == PairOf(Outcome(pol, m, d))
    ensures RestOf(c) == RestOf(d) ==> RestOf(Outcome(pol, m, c)) == RestOf(Outcome(pol, m, d))
  {
    if PairOf(c) == PairOf(d) {
      OutcomeIsFieldwise(pol, m, c, d, ADMIN_FIELDS);
    }
    if RestOf(c) == RestOf(d) {
      var others := {ApiKey, ServicePrivateKey, BaseUrl, WebAccountAddress, KeyAdminAddress, AllowedDirs};
      RestIsRestrict(c, others);
      RestIsRestrict(d, others);
      RestIsRestrict(Outcome(pol, m, c), others);
      RestIsRestrict(Outcome(pol, m, d), others);
      OutcomeIsFieldwise(pol, m, c, d, others);
    }
  }

  /** The landed write appends its merge to the log that accounts for it. */
  lemma WriteKeepsView(pol: Policy, s: Sys, p: L.Pid, c: Config)
    requires Inv(pol, s, c) && Enabled(s, Write(p))
    ensures DiskOk(pol, Do(pol, s, Write(p)), c)
  {
    var j := s.jobs[p];
    var k := j.at.k;
    var data := Merged(j.m, j.before);
    var s' := Do(pol, s, Write(p));
    var o := Outcome(pol, j.m, j.before);
    assert s'.disk == Saved(j.base, data, j.inl, k + 1);
    KilledMerge(pol, j.base, j.m, k);
    KilledMerge(pol, j.base, j.m, k + 1);
    ViewHalves(pol, c, s.pairs, s.rests);
    Recombine(if k >= 2 then o else j.before, if j.at.pairLanded then o else j.before);
    FoldSnoc(pol, c, s.pairs, j.m);
    FoldSnoc(pol, c, s.rests, j.m);
    OutcomeHalves(pol, j.m, Fold(pol, c, s.pairs), j.before);
    OutcomeHalves(pol, j.m, Fold(pol, c, s.rests), j.before);
  }

  lemma Recombine(a: Config, b: Config)
    ensures RestOf(RestOf(a) + PairOf(b)) == RestOf(a) && PairOf(RestOf(a) + PairOf(b)) == PairOf(b)
  {
  }

  lemma WriteIsLocal(pol: Policy, s: Sys, s': Sys, p: L.Pid)
    requires BodyOk(pol, s) && Enabled(s, Write(p)) && s' == Do(pol, s, Write(p))
    ensures s'.lock == s.lock && p in s'.jobs && s'.jobs == s.jobs[p := s'.jobs[p]] && JobOk(pol, s'.disk, s'.jobs[p])
  {
    assert JobOk(pol, s.disk, s.jobs[p]);
  }

  lemma WriteInv(pol: Policy, s: Sys, p: L.Pid, c: Config)
    requires Inv(pol, s, c) && Enabled(s, Write(p))
    ensures Inv(pol, Do(pol, s, Write(p)), c)
  {
    var s' := Do(pol, s, Write(p));
    WriteKeepsView(pol, s, p, c);
    WriteIsLocal(pol, s, s', p);
    BodyAlone(pol, s, s', p);
  }

  lemma StepInv(pol: Policy, s: Sys, st: Step, c: Config)
    requires Inv(pol, s, c) && Enabled(s, st) && (st.Lock? ==> !L.Steals(s.lock, st.st))
    ensures Inv(pol, Do(pol, s, st), c)
  {
    match st
    case Begin(_, _, _) => BeginInv(pol, s, st, c);
    case Lock(_) => LockStepInv(pol, s, st, c);
    case Write(p) => WriteInv(pol, s, p, c);
    case _ => ReadInv(pol, s, st, c);
  }

  lemma {:induction false} RunInv(pol: Policy, s: Sys, steps: seq<Step>, c: Config)
    requires Inv(pol, s, c) && Run(pol, s, steps) && NoTheft(pol, s, steps)
    ensures Inv(pol, After(pol, s, steps), c)
    decreases |steps|
  {
    if steps != [] {
      StepInv(pol, s, steps[0], c);
      RunInv(pol, Do(pol, s, steps[0]), steps[1..], c);
    }
  }

  lemma InitInv(pol: Policy, s: Sys)
    requires Init(s) && Resolve(pol, s.disk).Ok?
    ensures Inv(pol, s, Resolve(pol, s.disk).value)
  {
    L.InitInv(s.lock);
    HalvesMakeWhole(Resolve(pol, s.disk).value);
  }

  /**
   * Crash and retry safety over whole runs: however many merges are started, killed between any
   * two system calls or abandoned by a throw, the resolved pair is whole and is the one of the
   * merges whose pair-carrying write landed, in order, and everything else is that of the merges
   * whose config.json write landed.
   */
  lemma EveryRunResolvesToWhatLanded(pol: Policy, s: Sys, steps: seq<Step>)
    requires Init(s) && Resolve(pol, s.disk).Ok? && Run(pol, s, steps) && NoTheft(pol, s, steps)
    ensures var e := After(pol, s, steps);
      Resolve(pol, e.disk) == Ok(View(pol, Resolve(pol, s.disk).value, e.pairs, e.rests))
  {
    InitInv(pol, s);
    RunInv(pol, s, steps, Resolve(pol, s.disk).value);
  }

  // ---- No lost update ---------------------------------------------------------------------------------

  /** What one whole merge does to the record, refusals by `decide` included. */
  ghost function Applies(pol: Policy, m: Merge, c: Config): Config {
    if m.decide(c) then Outcome(pol, m, c) else c
  }

  ghost function FoldAll(pol: Policy, c: Config, order: seq<Merge>): Config {
    if order == [] then c else Applies(pol, order[|order| - 1], FoldAll(pol, c, order[..|order| - 1]))
  }

  /**
   * A merge that took the lock is not cut short: its process neither dies nor leaves the body
   * before it is through. Waiting processes and those whose merge is through may die anywhere.
   */
  ghost predicate Completes(s: Sys, st: Step) {
    st.Lock? ==> (st.st.Die? ==> !Pending(s, st.st.p)) && (st.st.Finish? ==> InBody(s, st.st.p) && s.jobs[st.st.p].at.Finished?)
  }

  ghost predicate AllComplete(pol: Policy, s: Sys, steps: seq<Step>)
    requires Run(pol, s, steps)
    decreases |steps|
  {
    steps == [] || (Completes(s, steps[0]) && AllComplete(pol, Do(pol, s, steps[0]), steps[1..]))
  }

  /** The process whose merge is last in `order` and not yet through. */
  ghost predicate Pending(s: Sys, p: L.Pid) {
    && p in s.lock.procs && p in s.jobs && (s.lock.procs[p].Linked? || s.lock.procs[p].Body?) && !s.jobs[p].at.Finished?
  }

  ghost predicate PendingOk(pol: Policy, s: Sys, c: Config, p: L.Pid)
    requires p in s.jobs
  {
    && s.order != [] && s.order[|s.order| - 1] == s.jobs[p].m
    && !s.jobs[p].at.Threw?
    && var o := FoldAll(pol, c, s.order[..|s.order| - 1]);
    && if s.jobs[p].at.Deciding? then s.jobs[p].before == o && s.jobs[p].m.decide(o) else Resolve(pol, s.disk) == Ok(o)
  }

  /** Up to the merge in progress, the disk holds the fold of all merges in lock order. */
  ghost predicate OrderOk(pol: Policy, s: Sys, c: Config) {
    && (forall p :: Pending(s, p) ==> PendingOk(pol, s, c, p))
    && ((forall p :: !Pending(s, p)) ==> Resolve(pol, s.disk) == Ok(FoldAll(pol, c, s.order)))
  }

  lemma OnePending(s: Sys, p: L.Pid, q: L.Pid)
    requires LockOk(s) && Pending(s, p) && Pending(s, q)
    ensures p == q
  {
    OneHolder(s.lock, p, q);
  }

  lemma FoldAllSnoc(pol: Policy, c: Config, order: seq<Merge>, m: Merge)
    ensures FoldAll(pol, c, order + [m]) == Applies(pol, m, FoldAll(pol, c, order))
    ensures (order + [m])[..|order + [m]| - 1] == order
  {
    assert (order + [m])[..|order|] == order;
  }

  lemma NoLockNoHolder(s: L.State)
    requires s.lock.None? && L.Orphans(s) == {}
    ensures L.Holders(s) == {}
  {
    forall q
      ensures q !in L.Holders(s)
    {
      assert q !in L.Orphans(s);
    }
  }

  /** One pending process in good order is all that matters, because there is only one. */
  lemma PendingAlone(pol: Policy, s: Sys, c: Config, p: L.Pid)
    requires LockOk(s) && Pending(s, p) && PendingOk(pol, s, c, p)
    ensures OrderOk(pol, s, c)
  {
    forall q | Pending(s, q)
      ensures PendingOk(pol, s, c, q)
    {
      OnePending(s, p, q);
    }
  }

  /** Nothing that order depends on has changed. */
  lemma SameOrder(pol: Policy, s: Sys, s': Sys, c: Config)
    requires OrderOk(pol, s, c) && s'.disk == s.disk && s'.order == s.order
    requires forall q :: Pending(s', q) <==> Pending(s, q)
    requires forall q :: Pending(s, q) ==> q in s'.jobs && s'.jobs[q] == s.jobs[q]
    ensures OrderOk(pol, s', c)
  {
    forall q | Pending(s', q)
      ensures PendingOk(pol, s', c, q)
    {
      assert PendingOk(pol, s, c, q);
    }
  }

  lemma TakenIsPending(pol: Policy, s: Sys, st: L.Step, c: Config)
    requires Inv(pol, s, c) && OrderOk(pol, s, c) && Enabled(s, Lock(st)) && st.Link? && s.lock.lock.None?
    ensures var s' := Do(pol, s, Lock(st)); Pending(s', st.p) && PendingOk(pol, s', c, st.p)
  {
    NoLockNoHolder(s.lock);
    assert forall q :: Pending(s, q) ==> q in L.Holders(s.lock);
    FoldAllSnoc(pol, c, s.order, s.jobs[st.p].m);
    assert L.Engaged(s.lock.procs[st.p]);
  }

  /** A process that just took the lock is the only one pending. */
  lemma LinkKeepsOrder(pol: Policy, s: Sys, st: Step, c: Config)
    requires Inv(pol, s, c) && OrderOk(pol, s, c) && Enabled(s, st) && st.Lock? && st.st.Link?
    requires LockOk(Do(pol, s, st))
    ensures OrderOk(pol, Do(pol, s, st), c)
  {
    var s' := Do(pol, s, st);
    if s.lock.lock.None? {
      TakenIsPending(pol, s, st.st, c);
      PendingAlone(pol, s', c, st.st.p);
    } else {
      assert forall q :: Pending(s', q) <==> Pending(s, q);
      SameOrder(pol, s, s', c);
    }
  }

  lemma LockStepKeepsPending(s: Sys, s': Sys, st: L.Step)
    requires Enabled(s, Lock(st)) && Completes(s, Lock(st)) && !st.Link?
    requires s'.lock == L.Do(s.lock, st) && s'.jobs == s.jobs
    ensures forall q :: Pending(s', q) <==> Pending(s, q)
  {
  }

  lemma BeginKeepsPending(pol: Policy, s: Sys, st: Step)
    requires Enabled(s, st) && st.Begin?
    ensures var s' := Do(pol, s, st);
      && s'.disk == s.disk && s'.order == s.order
      && (forall q :: Pending(s', q) <==> Pending(s, q)) && (forall q :: Pending(s, q) ==> q in s'.jobs && s'.jobs[q] == s.jobs[q])
  {
    var s' := Do(pol, s, st);
    assert !Pending(s', st.p) && !Pending(s, st.p);
    forall q | q != st.p
      ensures Pending(s', q) <==> Pending(s, q)
    {
    }
  }

  lemma QuietKeepsOrder(pol: Policy, s: Sys, st: Step, c: Config)
    requires OrderOk(pol, s, c) && Enabled(s, st) && Completes(s, st)
    requires st.Begin? || (st.Lock? && !st.st.Link?)
    ensures OrderOk(pol, Do(pol, s, st), c)
  {
    var s' := Do(pol, s, st);
    if st.Lock? {
      LockStepKeepsPending(s, s', st.st);
    } else {
      BeginKeepsPending(pol, s, st);
    }
    SameOrder(pol, s, s', c);
  }

  lemma LastOfOrder(pol: Policy, c: Config, order: seq<Merge>)
    requires order != []
    ensures FoldAll(pol, c, order) == Applies(pol, order[|order| - 1], FoldAll(pol, c, order[..|order| - 1]))
  {
  }

  /** Reading both files and agreeing to write fixes the record the merge starts from. */
  lemma ReadAdminFindsBefore(pol: Policy, s: Sys, p: L.Pid, c: Config)
    requires Inv(pol, s, c) && Enabled(s, ReadAdmin(p))
    ensures var j := Do(pol, s, ReadAdmin(p)).jobs[p];
      !j.at.Threw? && (j.at.Deciding? ==> Resolve(pol, s.disk) == Ok(j.before) && j.m.decide(j.before))
  {
    assert JobOk(pol, s.disk, s.jobs[p]);
  }

  /** What every step of a body leaves as it was. */
  ghost predicate SameButJob(s: Sys, s': Sys, p: L.Pid) {
    s'.lock == s.lock && s'.order == s.order && p in s.jobs && p in s'.jobs && s'.jobs == s.jobs[p := s'.jobs[p]]
  }

  lemma BodyStepIsLocal(pol: Policy, s: Sys, st: Step)
    requires Enabled(s, st) && (st.ReadConfig? || st.ReadAdmin? || st.Write?)
    ensures SameButJob(s, Do(pol, s, st), st.p) && Pending(s, st.p)
  {
  }

  lemma ReadConfigKeepsPending(pol: Policy, s: Sys, s': Sys, p: L.Pid, c: Config)
    requires DiskOk(pol, s, c) && Enabled(s, ReadConfig(p)) && s' == Do(pol, s, ReadConfig(p)) && PendingOk(pol, s, c, p)
    ensures p in s'.jobs && PendingOk(pol, s', c, p) && !s'.jobs[p].at.Finished?
  {
  }

  lemma ReadAdminKeepsPending(pol: Policy, s: Sys, s': Sys, p: L.Pid, c: Config)
    requires Inv(pol, s, c) && Enabled(s, ReadAdmin(p)) && s' == Do(pol, s, ReadAdmin(p)) && PendingOk(pol, s, c, p)
    ensures p in s'.jobs && (!s'.jobs[p].at.Finished? ==> PendingOk(pol, s', c, p))
  {
    ReadAdminFindsBefore(pol, s, p, c);
  }

  lemma WriteKeepsPending(pol: Policy, s: Sys, s': Sys, p: L.Pid, c: Config)
    requires Enabled(s, Write(p)) && s' == Do(pol, s, Write(p)) && PendingOk(pol, s, c, p)
    ensures p in s'.jobs && (!s'.jobs[p].at.Finished? ==> PendingOk(pol, s', c, p))
  {
  }

  lemma ReadAdminEnds(pol: Policy, s: Sys, s': Sys, p: L.Pid, c: Config)
    requires Inv(pol, s, c) && Enabled(s, ReadAdmin(p)) && s' == Do(pol, s, ReadAdmin(p)) && PendingOk(pol, s, c, p)
    ensures p in s'.jobs && (s'.jobs[p].at.Finished? ==> Resolve(pol, s'.disk) == Ok(FoldAll(pol, c, s.order)))
  {
    LastOfOrder(pol, c, s.order);
    assert JobOk(pol, s.disk, s.jobs[p]);
  }

  lemma WriteEnds(pol: Policy, s: Sys, s': Sys, p: L.Pid, c: Config)
    requires Inv(pol, s, c) && Enabled(s, Write(p)) && s' == Do(pol, s, Write(p)) && PendingOk(pol, s, c, p)
    ensures p in s'.jobs && (s'.jobs[p].at.Finished? ==> Resolve(pol, s'.disk) == Ok(FoldAll(pol, c, s.order)))
  {
    if s.jobs[p].at.k == 2 {
      LastOfOrder(pol, c, s.order);
      WriteThrough(pol, s, p, c);
    } else {
      assert JobOk(pol, s.disk, s.jobs[p]);
    }
  }

  /** After a step of its body the process is still pending and in order, or its merge is on disk. */
  lemma BodyStepOrder(pol: Policy, s: Sys, st: Step, s': Sys, c: Config)
    requires Inv(pol, s, c) && Enabled(s, st) && s' == Do(pol, s, st) && (st.ReadConfig? || st.ReadAdmin? || st.Write?)
    requires PendingOk(pol, s, c, st.p)
    ensures st.p in s'.jobs
    ensures if s'.jobs[st.p].at.Finished? then Resolve(pol, s'.disk) == Ok(FoldAll(pol, c, s.order)) else PendingOk(pol, s', c, st.p)
  {
    match st
    case ReadConfig(p) => ReadConfigKeepsPending(pol, s, s', p, c);
    case ReadAdmin(p) =>
      ReadAdminKeepsPending(pol, s, s', p, c);
      ReadAdminEnds(pol, s, s', p, c);
    case Write(p) =>
      WriteKeepsPending(pol, s, s', p, c);
      WriteEnds(pol, s, s', p, c);
  }

  lemma NonePending(pol: Policy, s: Sys, s': Sys, p: L.Pid, c: Config)
    requires LockOk(s) && Pending(s, p) && SameButJob(s, s', p) && s'.jobs[p].at.Finished?
    requires Resolve(pol, s'.disk) == Ok(FoldAll(pol, c, s.order))
    ensures OrderOk(pol, s', c)
  {
    forall q
      ensures !Pending(s', q)
    {
      if q != p && Pending(s', q) {
        OnePending(s, p, q);
      }
    }
  }

  lemma StillPending(s: Sys, s': Sys, p: L.Pid)
    requires Pending(s, p) && SameButJob(s, s', p) && !s'.jobs[p].at.Finished?
    ensures Pending(s', p)
  {
  }

  lemma BodyKeepsOrder(pol: Policy, s: Sys, st: Step, c: Config)
    requires Inv(pol, s, c) && OrderOk(pol, s, c) && Enabled(s, st) && (st.ReadConfig? || st.ReadAdmin? || st.Write?)
    ensures OrderOk(pol, Do(pol, s, st), c)
  {
    var s', p := Do(pol, s, st), st.p;
    BodyStepIsLocal(pol, s, st);
    BodyStepOrder(pol, s, st, s', c);
    if s'.jobs[p].at.Finished? {
      NonePending(pol, s, s', p, c);
    } else {
      StillPending(s, s', p);
      PendingAlone(pol, s', c, p);
    }
  }

  /** The last write leaves the outcome of the whole merge. */
  lemma WriteThrough(pol: Policy, s: Sys, p: L.Pid, c: Config)
    requires Inv(pol, s, c) && Enabled(s, Write(p)) && s.jobs[p].at.k == 2
    ensures Resolve(pol, Do(pol, s, Write(p)).disk) == Ok(Outcome(pol, s.jobs[p].m, s.jobs[p].before))
  {
    var j := s.jobs[p];
    KilledMerge(pol, j.base, j.m, 3);
    HalvesMakeWhole(Outcome(pol, j.m, j.before));
  }

  lemma {:induction false} RunKeepsOrder(pol: Policy, s: Sys, steps: seq<Step>, c: Config)
    requires Inv(pol, s, c) && OrderOk(pol, s, c)
    requires Run(pol, s, steps) && NoTheft(pol, s, steps) && AllComplete(pol, s, steps)
    ensures Inv(pol, After(pol, s, steps), c) && OrderOk(pol, After(pol, s, steps), c)
    decreases |steps|
  {
    if steps != [] {
      var st := steps[0];
      StepInv(pol, s, st, c);
      if st.Begin? || (st.Lock? && !st.st.Link?) {
        QuietKeepsOrder(pol, s, st, c);
      } else if st.Lock? {
        LinkKeepsOrder(pol, s, st, c);
      } else {
        BodyKeepsOrder(pol, s, st, c);
      }
      RunKeepsOrder(pol, Do(pol, s, st), steps[1..], c);
    }
  }

  /**
   * No lost update: once every merge that took the lock is through, readers resolve the fold of
   * all of them over the initial record, in the order they took the lock.
   */
  lemma NoLostUpdate(pol: Policy, s: Sys, steps: seq<Step>)
    requires Init(s) && Resolve(pol, s.disk).Ok?
    requires Run(pol, s, steps) && NoTheft(pol, s, steps) && AllComplete(pol, s, steps)
    ensures var e := After(pol, s, steps);
      L.Holders(e.lock) == {} ==> Resolve(pol, e.disk) == Ok(FoldAll(pol, Resolve(pol, s.disk).value, e.order))
  {
    var c := Resolve(pol, s.disk).value;
    InitInv(pol, s);
    RunKeepsOrder(pol, s, steps, c);
    var e := After(pol, s, steps);
    if L.Holders(e.lock) == {} {
      forall p
        ensures !Pending(e, p)
      {
        assert p !in L.Holders(e.lock);
      }
    }
  }

  // ---- What landed, landed in lock order --------------------------------------------------------------

  /** `a` is `b` with some entries left out. */
  ghost predicate Sub(a: seq<Merge>, b: seq<Merge>)
    decreases |b|
  {
    a == [] || (b != [] && ((a[|a| - 1] == b[|b| - 1] && Sub(a[..|a| - 1], b[..|b| - 1])) || Sub(a, b[..|b| - 1])))
  }

  lemma SubSkips(a: seq<Merge>, b: seq<Merge>, m: Merge)
    requires Sub(a, b)
    ensures Sub(a, b + [m]) && Sub(a + [m], b + [m])
  {
    assert (b + [m])[..|b|] == b && (a + [m])[..|a|] == a;
  }

  lemma SubTakes(a: seq<Merge>, b: seq<Merge>, m: Merge)
    requires b != [] && b[|b| - 1] == m && Sub(a, b[..|b| - 1])
    ensures Sub(a, b) && Sub(a + [m], b)
  {
    SubSkips(a, b[..|b| - 1], m);
    assert b == b[..|b| - 1] + [m];
  }

  /** A process between taking the lock and the end of its body. */
  ghost predicate Inside(s: Sys, p: L.Pid) {
    p in s.lock.procs && p in s.jobs && (s.lock.procs[p].Linked? || s.lock.procs[p].Body?)
  }

  /** Whether the job has still to land its pair, and its config.json. */
  predicate OwesPair(j: Job) {
    j.at.Waiting? || j.at.HasConfig? || (j.at.Deciding? && !j.at.pairLanded)
  }

  predicate OwesRest(j: Job) {
    j.at.Waiting? || j.at.HasConfig? || (j.at.Deciding? && j.at.k < 2)
  }

  /** The job inside is the last of `order`, and what it owes is missing from the logs so far. */
  ghost predicate JobLogged(order: seq<Merge>, pairs: seq<Merge>, rests: seq<Merge>, j: Job) {
    && order != [] && order[|order| - 1] == j.m
    && (OwesPair(j) ==> Sub(pairs, order[..|order| - 1]))
    && (OwesRest(j) ==> Sub(rests, order[..|order| - 1]))
  }

  ghost predicate Logged(s: Sys) {
    && Sub(s.pairs, s.order) && Sub(s.rests, s.order)
    && forall p :: Inside(s, p) ==> JobLogged(s.order, s.pairs, s.rests, s.jobs[p])
  }

  lemma OneInside(s: Sys, p: L.Pid, q: L.Pid)
    requires LockOk(s) && Inside(s, p) && Inside(s, q)
    ensures p == q
  {
    OneHolder(s.lock, p, q);
  }

  /** A step that logs nothing and lets nobody in. */
  lemma QuietLogged(s: Sys, s': Sys)
    requires Logged(s) && s'.order == s.order && s'.pairs == s.pairs && s'.rests == s.rests
    requires forall p :: Inside(s', p) ==> Inside(s, p) && s'.jobs[p] == s.jobs[p]
    ensures Logged(s')
  {
    forall p | Inside(s', p)
      ensures JobLogged(s'.order, s'.pairs, s'.rests, s'.jobs[p])
    {
      assert JobLogged(s.order, s.pairs, s.rests, s.jobs[p]);
    }
  }

  lemma LockStepInside(s: Sys, s': Sys, st: L.Step)
    requires L.Enabled(s.lock, st) && !st.Link? && !st.Enter? && s'.lock == L.Do(s.lock, st) && s'.jobs == s.jobs
    ensures forall p :: Inside(s', p) ==> Inside(s, p)
  {
  }

  lemma BeginInside(pol: Policy, s: Sys, st: Step)
    requires Enabled(s, st) && st.Begin?
    ensures var s' := Do(pol, s, st); forall p :: Inside(s', p) ==> Inside(s, p) && s'.jobs[p] == s.jobs[p]
  {
    assert !Inside(Do(pol, s, st), st.p);
  }

  lemma TakenIsLogged(pol: Policy, s: Sys, st: L.Step, s': Sys)
    requires LockOk(s) && JobsOk(s) && Logged(s) && Enabled(s, Lock(st)) && st.Link? && s.lock.lock.None?
    requires s' == Do(pol, s, Lock(st))
    ensures Logged(s')
  {
    NoLockNoHolder(s.lock);
    var m := s.jobs[st.p].m;
    SubSkips(s.pairs, s.order, m);
    SubSkips(s.rests, s.order, m);
    assert s'.order == s.order + [m] && (s.order + [m])[..|s.order|] == s.order;
    NobodyInside(s);
    forall p | Inside(s', p)
      ensures p == st.p
    {
      LockKeepsOthersOut(s, st, s', p);
    }
    assert OwesPair(s.jobs[st.p]) && OwesRest(s.jobs[st.p]);
  }

  lemma NobodyInside(s: Sys)
    requires L.Holders(s.lock) == {}
    ensures forall p :: !Inside(s, p)
  {
    forall p
      ensures !Inside(s, p)
    {
      assert p !in L.Holders(s.lock);
    }
  }

  lemma LockKeepsOthersOut(s: Sys, st: L.Step, s': Sys, p: L.Pid)
    requires L.Enabled(s.lock, st) && st.Link? && s'.lock == L.Do(s.lock, st) && s'.jobs == s.jobs
    requires Inside(s', p) && !Inside(s, p)
    ensures p == st.p
  {
  }

  lemma LockStepLogged(pol: Policy, s: Sys, st: L.Step, s': Sys)
    requires LockOk(s) && JobsOk(s) && Logged(s) && Enabled(s, Lock(st)) && s' == Do(pol, s, Lock(st))
    ensures Logged(s')
  {
    if st.Link? && s.lock.lock.None? {
      TakenIsLogged(pol, s, st, s');
    } else {
      if !st.Link? {
        LockStepInside(s, s', st);
      }
      QuietLogged(s, s');
    }
  }

  /** What a step of the body does to the logs, and to what its job owes. */
  ghost predicate LogsOne(s: Sys, s': Sys, p: L.Pid)
    requires p in s.jobs && p in s'.jobs
  {
    var j, j' := s.jobs[p], s'.jobs[p];
    && j'.m == j.m
    && ((s'.pairs == s.pairs && (OwesPair(j') ==> OwesPair(j))) || (s'.pairs == s.pairs + [j.m] && OwesPair(j) && !OwesPair(j')))
    && ((s'.rests == s.rests && (OwesRest(j') ==> OwesRest(j))) || (s'.rests == s.rests + [j.m] && OwesRest(j) && !OwesRest(j')))
  }

  lemma BodyStepLogsOne(pol: Policy, s: Sys, st: Step, s': Sys)
    requires BodyOk(pol, s) && Enabled(s, st) && (st.ReadConfig? || st.ReadAdmin? || st.Write?) && s' == Do(pol, s, st)
    ensures SameButJob(s, s', st.p) && LogsOne(s, s', st.p)
  {
    assert JobOk(pol, s.disk, s.jobs[st.p]);
  }

  lemma OneLogged(s: Sys, s': Sys, p: L.Pid)
    requires LockOk(s) && Logged(s) && Inside(s, p) && SameButJob(s, s', p) && LogsOne(s, s', p)
    ensures Logged(s')
  {
    var j := s.jobs[p];
    assert JobLogged(s.order, s.pairs, s.rests, j);
    if s'.pairs != s.pairs {
      SubTakes(s.pairs, s.order, j.m);
    }
    if s'.rests != s.rests {
      SubTakes(s.rests, s.order, j.m);
    }
    forall q | Inside(s', q)
      ensures JobLogged(s'.order, s'.pairs, s'.rests, s'.jobs[q])
    {
      OneInside(s, p, q);
    }
  }

  lemma StepLogged(pol: Policy, s: Sys, st: Step, c: Config)
    requires Inv(pol, s, c) && Logged(s) && Enabled(s, st)
    ensures Logged(Do(pol, s, st))
  {
    var s' := Do(pol, s, st);
    if st.Lock? {
      LockStepLogged(pol, s, st.st, s');
    } else if st.Begin? {
      BeginInside(pol, s, st);
      QuietLogged(s, s');
    } else {
      BodyStepLogsOne(pol, s, st, s');
      OneLogged(s, s', st.p);
    }
  }

  lemma {:induction false} RunLogged(pol: Policy, s: Sys, steps: seq<Step>, c: Config)
    requires Inv(pol, s, c) && Logged(s) && Run(pol, s, steps) && NoTheft(pol, s, steps)
    ensures Logged(After(pol, s, steps))
    decreases |steps|
  {
    if steps != [] {
      StepInv(pol, s, steps[0], c);
      StepLogged(pol, s, steps[0], c);
      RunLogged(pol, Do(pol, s, steps[0]), steps[1..], c);
    }
  }

  /**
   * The merges whose pair landed, and those whose config.json landed, are each the merges that took
   * the lock, in that order, with some left out: the last of a log is the latest whose write landed.
   */
  lemma WhatLandedIsInLockOrder(pol: Policy, s: Sys, steps: seq<Step>)
    requires Init(s) && Resolve(pol, s.disk).Ok? && Run(pol, s, steps) && NoTheft(pol, s, steps)
    ensures Sub(After(pol, s, steps).pairs, After(pol, s, steps).order)
    ensures Sub(After(pol, s, steps).rests, After(pol, s, steps).order)
  {
    InitInv(pol, s);
    RunLogged(pol, s, steps, Resolve(pol, s.disk).value);
  }

  // ---- A merge left alone runs through ---------------------------------------------------------------

  lemma OneStep(pol: Policy, s: Sys, st: Step, s': Sys, rest: seq<Step>)
    requires Enabled(s, st) && s' == Do(pol, s, st) && Run(pol, s', rest)
    ensures Run(pol, s, [st] + rest) && After(pol, s, [st] + rest) == After(pol, s', rest)
  {
    assert ([st] + rest)[1..] == rest;
  }

  /** The two reads of a body on readable files, in one. */
  lemma ReadBoth(pol: Policy, s: Sys, p: L.Pid) returns (s1: Sys, s2: Sys)
    requires InBody(s, p) && s.jobs[p].at.Waiting? && Resolve(pol, s.disk).Ok?
    ensures Enabled(s, ReadConfig(p)) && s1 == Do(pol, s, ReadConfig(p))
    ensures Enabled(s1, ReadAdmin(p)) && s2 == Do(pol, s1, ReadAdmin(p)) && s2 == s.(jobs := s2.jobs)
    ensures InBody(s2, p) && s2.jobs[p].m == s.jobs[p].m
    ensures var before := Resolve(pol, s.disk).value;
      if s.jobs[p].m.decide(before)
      then s2.jobs[p].at == Deciding(0, false) && s2.jobs[p].before == before && s2.jobs[p].inl == Inline(pol, s.disk)
      else s2.jobs[p].at == Finished
  {
    s1 := Do(pol, s, ReadConfig(p));
    s2 := Do(pol, s1, ReadAdmin(p));
  }

  /** The three writes, in one. */
  lemma WriteAll(pol: Policy, s: Sys, p: L.Pid, d: Disk) returns (s1: Sys, s2: Sys, s3: Sys)
    requires InBody(s, p) && s.jobs[p].at == Deciding(0, false) && d == s.disk
    ensures Enabled(s, Write(p)) && s1 == Do(pol, s, Write(p))
    ensures Enabled(s1, Write(p)) && s2 == Do(pol, s1, Write(p))
    ensures Enabled(s2, Write(p)) && s3 == Do(pol, s2, Write(p))
    ensures InBody(s3, p) && s3.jobs[p].at == Finished
    ensures s3.disk == Saved(d, Merged(s.jobs[p].m, s.jobs[p].before), s.jobs[p].inl, 3)
  {
    s1 := Do(pol, s, Write(p));
    s2 := Do(pol, s1, Write(p));
    s3 := Do(pol, s2, Write(p));
  }

  /**
   * Left alone in its body on readable files, a merge is through after two reads, and three writes if
   * it decides to write; readers then resolve what it asked for, or still what was there.
   */
  lemma MergeRunsThrough(pol: Policy, s: Sys, p: L.Pid) returns (steps: seq<Step>)
    requires InBody(s, p) && s.jobs[p].at.Waiting? && Resolve(pol, s.disk).Ok?
    ensures var before, m := Resolve(pol, s.disk).value, s.jobs[p].m;
      && steps == [ReadConfig(p), ReadAdmin(p)] + (if m.decide(before) then [Write(p), Write(p), Write(p)] else [])
      && Run(pol, s, steps) && InBody(After(pol, s, steps), p) && After(pol, s, steps).jobs[p].at.Finished?
      && Resolve(pol, After(pol, s, steps).disk) == Ok(if m.decide(before) then Outcome(pol, m, before) else before)
  {
    var before, m := Resolve(pol, s.disk).value, s.jobs[p].m;
    var s1, s2 := ReadBoth(pol, s, p);
    var writes: seq<Step> := [];
    if m.decide(before) {
      var s3, s4, s5 := WriteAll(pol, s2, p, s.disk);
      AfterBothWrites(pol, s.disk, Merged(m, before), 3);
      OneStep(pol, s4, Write(p), s5, []);
      OneStep(pol, s3, Write(p), s4, [Write(p)] + []);
      OneStep(pol, s2, Write(p), s3, [Write(p)] + ([Write(p)] + []));
      writes := [Write(p)] + ([Write(p)] + ([Write(p)] + []));
    }
    OneStep(pol, s1, ReadAdmin(p), s2, writes);
    OneStep(pol, s, ReadConfig(p), s1, [ReadAdmin(p)] + writes);
    steps := [ReadConfig(p)] + ([ReadAdmin(p)] + writes);
  }

  /** On a file that cannot be read it throws, and has written nothing. */
  lemma UnreadableThrows(pol: Policy, s: Sys, p: L.Pid)
    requires InBody(s, p) && s.jobs[p].at.Waiting? && (s.disk.config.Corrupt? || s.disk.admin.Corrupt?)
    ensures Enabled(s, ReadConfig(p))
    ensures var s1 := Do(pol, s, ReadConfig(p));
      && s1.disk == s.disk
      && (s1.jobs[p].at.Threw? || (Enabled(s1, ReadAdmin(p)) && Do(pol, s1, ReadAdmin(p)).jobs[p].at.Threw?
                                   && Do(pol, s1, ReadAdmin(p)).disk == s.disk))
  {
  }

  // ---- When no theft can happen ---------------------------------------------------------------------

  /** Every lock step removes only what its decision read, and no live hold ages out. */
  ghost predicate Careful(pol: Policy, s: Sys, steps: seq<Step>)
    requires Run(pol, s, steps)
    decreases |steps|
  {
    steps == [] || (
      && (steps[0].Lock? ==> L.RemovesWhatItRead(s.lock, steps[0].st) && L.JudgesNoLiveHold(s.lock, steps[0].st))
      && Careful(pol, Do(pol, s, steps[0]), steps[1..]))
  }

  lemma {:induction false} CarefulRunsHaveNoTheft(pol: Policy, s: Sys, steps: seq<Step>)
    requires L.Inv(s.lock) && L.Identity(s.lock) && L.JudgmentsStand(s.lock)
    requires Run(pol, s, steps) && Careful(pol, s, steps)
    ensures NoTheft(pol, s, steps)
    decreases |steps|
  {
    if steps != [] {
      var st := steps[0];
      if st.Lock? || st.Begin? {
        var l := if st.Lock? then st.st else L.Enter(st.p, st.nonce);
        L.StepInv(s.lock, l);
        L.StepIdentity(s.lock, l);
        L.StepJudgments(s.lock, l);
        L.CarefulStepIsNoTheft(s.lock, l);
      }
      CarefulRunsHaveNoTheft(pol, Do(pol, s, st), steps[1..]);
    }
  }
}
