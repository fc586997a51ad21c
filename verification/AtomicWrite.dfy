/**
 * `writeFileAtomic` as a step-level protocol: any number of attempts on one destination, every
 * system call a step, other programs and crashes in between.
 */
module AtomicWrite {
  import opened Text

  type Id = nat
  type Inode = nat
  type TempName = nat

  /** Renames are retried this often after the first, one backoff delay each. */
  const RENAME_RETRIES := 7

  /** `synced` is false while the data may still be lost in a crash. */
  datatype File = File(text: string, synced: bool)

  datatype Job = Job(content: string, exclusive: bool)

  datatype Pc =
    | Opened
    | Synced
    | Linking
    | NoLinks
    | Checking(k: nat)
    | Renaming(k: nat)
    | Published
    | Dropping
    | Done
    | Failed
    | Dead

  datatype Attempt = Attempt(job: Job, temp: TempName, ino: Inode, pc: Pc)

  datatype Author = Initially | Ours(a: Id) | Foreign

  /** One thing the destination has named, and the whole text its author put there. */
  datatype Binding = Binding(author: Author, ino: Option<Inode>, text: Option<string>)

  /** The destination is the last binding; a crash may bring any earlier one back. */
  datatype State = State(
    past: seq<Binding>,
    temps: map<TempName, Inode>,
    files: map<Inode, File>,
    attempts: map<Id, Attempt>)

  datatype Step =
    | Open(a: Id, job: Job, temp: TempName, ino: Inode)
    | WriteSome(a: Id, n: nat)
    | Fsync(a: Id)
    | WriteFails(a: Id)
    | Check(a: Id, pass: bool)
    | Link(a: Id)
    | LinkUnsupported(a: Id)
    | LookForDest(a: Id)
    | Rename(a: Id)
    | RenameLocked(a: Id)
    | RenameFails(a: Id)
    | Drop(a: Id, removed: bool)
    | Die(a: Id)
    | ForeignWrite(ino: Inode, text: string)
    | ForeignRemove

  function Dest(s: State): Option<Inode>
    requires s.past != []
  {
    s.past[|s.past| - 1].ino
  }

  predicate At(s: State, a: Id, pc: Pc) {
    a in s.attempts && s.attempts[a].pc == pc
  }

  predicate Enabled(s: State, st: Step) {
    s.past != [] &&
    match st
    case Open(a, _, _, ino) => a !in s.attempts && ino !in s.files
    case WriteSome(a, n) =>
      && At(s, a, Opened) && s.attempts[a].ino in s.files
      && |s.files[s.attempts[a].ino].text| + n <= |s.attempts[a].job.content|
    case Fsync(a) => At(s, a, Opened) && s.attempts[a].ino in s.files && s.files[s.attempts[a].ino].text == s.attempts[a].job.content
    case WriteFails(a) => At(s, a, Opened)
    case Check(a, _) => a in s.attempts && (s.attempts[a].pc.Synced? || s.attempts[a].pc.Checking?)
    case Link(a) => At(s, a, Linking)
    case LinkUnsupported(a) => At(s, a, Linking)
    case LookForDest(a) => At(s, a, NoLinks)
    case Rename(a) => a in s.attempts && s.attempts[a].pc.Renaming?
    case RenameLocked(a) => a in s.attempts && s.attempts[a].pc.Renaming? && s.attempts[a].pc.k < RENAME_RETRIES
    case RenameFails(a) => a in s.attempts && s.attempts[a].pc.Renaming?
    case Drop(a, _) => At(s, a, Dropping) || At(s, a, Published)
    case Die(a) => a in s.attempts && Active(s.attempts[a])
    case ForeignWrite(ino, _) => ino !in s.files
    case ForeignRemove => true
  }

  function Goto(s: State, a: Id, pc: Pc): State
    requires a in s.attempts
  {
    s.(attempts := s.attempts[a := s.attempts[a].(pc := pc)])
  }

  /** The destination now names the attempt's file. */
  function Publish(s: State, a: Id, pc: Pc): State
    requires a in s.attempts
  {
    var t := s.attempts[a];
    Goto(s, a, pc).(past := s.past + [Binding(Ours(a), Some(t.ino), Some(t.job.content))])
  }

  function Do(s: State, st: Step): State
    requires Enabled(s, st)
  {
    match st
    case Open(a, job, temp, ino) =>
      if temp in s.temps then s.(attempts := s.attempts[a := Attempt(job, temp, ino, Failed)])
      else s.(attempts := s.attempts[a := Attempt(job, temp, ino, Opened)],
              temps := s.temps[temp := ino], files := s.files[ino := File("", false)])
    case WriteSome(a, n) =>
      var t := s.attempts[a];
      s.(files := s.files[t.ino := File(t.job.content[..|s.files[t.ino].text| + n], false)])
    case Fsync(a) => Goto(s, a, Synced).(files := s.files[s.attempts[a].ino := s.files[s.attempts[a].ino].(synced := true)])
    case WriteFails(a) => Goto(s, a, Dropping)
    case Check(a, pass) =>
      var t := s.attempts[a];
      if !pass then Goto(s, a, Dropping)
      else if t.pc.Checking? then Goto(s, a, Renaming(t.pc.k))
      else Goto(s, a, if t.job.exclusive then Linking else Renaming(0))
    case Link(a) => if Dest(s).None? then Publish(s, a, Published) else Goto(s, a, Dropping)
    case LinkUnsupported(a) => Goto(s, a, NoLinks)
    case LookForDest(a) => Goto(s, a, if Dest(s).Some? then Dropping else Checking(0))
    case Rename(a) => Publish(s, a, Done).(temps := s.temps - {s.attempts[a].temp})
    case RenameLocked(a) => Goto(s, a, Checking(s.attempts[a].pc.k + 1))
    case RenameFails(a) => Goto(s, a, Dropping)
    case Drop(a, removed) =>
      Goto(s, a, if s.attempts[a].pc.Published? then Done else Failed)
        .(temps := if removed then s.temps - {s.attempts[a].temp} else s.temps)
    case Die(a) => Goto(s, a, Dead)
    case ForeignWrite(ino, text) =>
      s.(files := s.files[ino := File(text, true)], past := s.past + [Binding(Foreign, Some(ino), Some(text))])
    case ForeignRemove => s.(past := s.past + [Binding(Foreign, None, None)])
  }

  predicate Run(s: State, steps: seq<Step>)
    decreases |steps|
  {
    steps == [] || (Enabled(s, steps[0]) && Run(Do(s, steps[0]), steps[1..]))
  }

  function After(s: State, steps: seq<Step>): State
    requires Run(s, steps)
    decreases |steps|
  {
    if steps == [] then s else After(Do(s, steps[0]), steps[1..])
  }

  /** No attempt yet; the destination is absent, or a file safely on disk. */
  ghost predicate Init(s: State) {
    && |s.past| == 1 && s.past[0].author.Initially? && s.attempts == map[]
    && (s.past[0].ino.None? ==> s.past[0].text.None?)
    && (s.past[0].ino.Some? ==> s.past[0].ino.value in s.files && s.past[0].text == Some(s.files[s.past[0].ino.value].text)
                                && s.files[s.past[0].ino.value].synced)
    && (forall t :: t in s.temps ==> s.temps[t] in s.files)
  }

  // ---- The invariant ---------------------------------------------------------------------------------

  predicate Active(t: Attempt) {
    !t.pc.Done? && !t.pc.Failed? && !t.pc.Dead?
  }

  /** Past `fsync`, and not given up. */
  predicate Whole(t: Attempt) {
    Active(t) && !t.pc.Opened? && !t.pc.Dropping?
  }

  predicate OwnsTemp(s: State, t: Attempt) {
    t.temp in s.temps && s.temps[t.temp] == t.ino && t.ino in s.files
  }

  ghost predicate Owned(s: State) {
    && (forall a :: a in s.attempts && Active(s.attempts[a]) ==> OwnsTemp(s, s.attempts[a]))
    && (forall a, b :: a in s.attempts && b in s.attempts && a != b && Active(s.attempts[a]) && Active(s.attempts[b]) ==>
          s.attempts[a].ino != s.attempts[b].ino)
    && (forall t :: t in s.temps ==> s.temps[t] in s.files)
  }

  ghost predicate Contents(s: State) {
    && (forall a :: a in s.attempts && s.attempts[a].pc.Opened? ==>
          s.attempts[a].ino in s.files && s.files[s.attempts[a].ino].text <= s.attempts[a].job.content)
    && (forall a :: a in s.attempts && Whole(s.attempts[a]) ==>
          s.attempts[a].ino in s.files && s.files[s.attempts[a].ino] == File(s.attempts[a].job.content, true))
  }

  /** What the binding names is, on disk and safely, what its author wrote. */
  predicate Kept(s: State, b: Binding) {
    match b.ino
    case None => b.text.None?
    case Some(i) => i in s.files && b.text == Some(s.files[i].text) && s.files[i].synced
  }

  ghost predicate AllKept(s: State) {
    forall k :: 0 <= k < |s.past| ==> Kept(s, s.past[k])
  }

  /** Nobody is still writing to a file the destination has named. */
  ghost predicate AllClosed(s: State) {
    forall k, a :: 0 <= k < |s.past| && a in s.attempts && s.attempts[a].pc.Opened? ==>
      s.past[k].ino != Some(s.attempts[a].ino)
  }

  ghost predicate PastKept(s: State) {
    s.past != [] && AllKept(s) && AllClosed(s)
  }

  predicate Landed(s: State, a: Id) {
    exists k :: 0 <= k < |s.past| && s.past[k].author == Ours(a)
  }

  /** Only attempts that say so have landed, with their own text; and they say so truly. */
  ghost predicate Honest(s: State) {
    && (forall k :: 0 <= k < |s.past| && s.past[k].author.Ours? ==> s.past[k].author.a in s.attempts && s.past[k].text == Some(s.attempts[s.past[k].author.a].job.content))
    && (forall a :: a in s.attempts && (s.attempts[a].pc.Published? || s.attempts[a].pc.Done?) ==> Landed(s, a))
    && (forall a :: a in s.attempts && !s.attempts[a].pc.Published? && !s.attempts[a].pc.Done? && !s.attempts[a].pc.Dead? ==> !Landed(s, a))
  }

  ghost predicate Inv(s: State) {
    Owned(s) && Contents(s) && PastKept(s) && Honest(s)
  }

  lemma InitInv(s: State)
    requires Init(s)
    ensures Inv(s)
  {
  }

  function Actor(st: Step): Option<Id> {
    match st
    case Open(a, _, _, _) => Some(a)
    case ForeignWrite(_, _) => None
    case ForeignRemove => None
    case _ => Some(st.a)
  }

  /** A step moves its actor's attempt and nobody else's, and never gives it another file. */
  lemma OnlyActorMoves(s: State, st: Step, b: Id)
    requires Enabled(s, st)
    ensures var s' := Do(s, st);
      && (Actor(st) != Some(b) ==> (b in s'.attempts <==> b in s.attempts) && (b in s.attempts ==> s'.attempts[b] == s.attempts[b]))
      && (b in s.attempts ==> b in s'.attempts && s'.attempts[b].(pc := s.attempts[b].pc) == s.attempts[b])
      && (b in s.attempts && Active(s'.attempts[b]) ==> Active(s.attempts[b]))
  {
  }

  lemma OwnerKeepsTemp(s: State, st: Step, b: Id)
    requires Owned(s) && Enabled(s, st) && b in Do(s, st).attempts && Active(Do(s, st).attempts[b])
    ensures OwnsTemp(Do(s, st), Do(s, st).attempts[b])
  {
    OnlyActorMoves(s, st, b);
    if Actor(st) == Some(b) {
    } else if Actor(st).Some? && Actor(st).value in s.attempts {
      var a := Actor(st).value;
      assert Active(s.attempts[a]) && Active(s.attempts[b]);
      assert s.attempts[a].ino != s.attempts[b].ino;
      assert s.attempts[a].temp != s.attempts[b].temp;
    }
  }

  lemma InodesStayApart(s: State, st: Step, a: Id, b: Id)
    requires Owned(s) && Enabled(s, st) && a != b
    requires a in Do(s, st).attempts && Active(Do(s, st).attempts[a])
    requires b in Do(s, st).attempts && Active(Do(s, st).attempts[b])
    ensures Do(s, st).attempts[a].ino != Do(s, st).attempts[b].ino
  {
    OnlyActorMoves(s, st, a);
    OnlyActorMoves(s, st, b);
    if st.Open? {
      assert a in s.attempts ==> s.attempts[a].ino in s.files;
      assert b in s.attempts ==> s.attempts[b].ino in s.files;
    }
  }

  lemma FilesRemain(s: State, st: Step)
    requires Owned(s) && Enabled(s, st)
    ensures s.files.Keys <= Do(s, st).files.Keys
    ensures forall t :: t in Do(s, st).temps ==> Do(s, st).temps[t] in Do(s, st).files
  {
  }

  lemma OwnedStep(s: State, st: Step)
    requires Owned(s) && Enabled(s, st)
    ensures Owned(Do(s, st))
  {
    var s' := Do(s, st);
    FilesRemain(s, st);
    forall a | a in s'.attempts && Active(s'.attempts[a])
      ensures OwnsTemp(s', s'.attempts[a])
    {
      OwnerKeepsTemp(s, st, a);
    }
    forall a, b | a in s'.attempts && b in s'.attempts && a != b && Active(s'.attempts[a]) && Active(s'.attempts[b])
      ensures s'.attempts[a].ino != s'.attempts[b].ino
    {
      InodesStayApart(s, st, a, b);
    }
  }

  /** A step writes to a file only if its actor still has it open, or has just made it. */
  lemma FileChanges(s: State, st: Step, i: Inode)
    requires Enabled(s, st) && i in s.files
    ensures i in Do(s, st).files
    ensures Do(s, st).files[i] != s.files[i] ==> Actor(st).Some? && At(s, Actor(st).value, Opened) && s.attempts[Actor(st).value].ino == i
  {
  }

  predicate ContentOk(s: State, t: Attempt) {
    && (t.pc.Opened? ==> t.ino in s.files && s.files[t.ino].text <= t.job.content)
    && (Whole(t) ==> t.ino in s.files && s.files[t.ino] == File(t.job.content, true))
  }

  lemma ContentOkOthers(s: State, st: Step, b: Id)
    requires Owned(s) && Contents(s) && Enabled(s, st) && b in s.attempts && Actor(st) != Some(b)
    ensures ContentOk(Do(s, st), s.attempts[b])
  {
    if Active(s.attempts[b]) {
      assert OwnsTemp(s, s.attempts[b]);
      FileChanges(s, st, s.attempts[b].ino);
    }
  }

  /** The four steps that touch file contents; every other step only moves its attempt on. */
  predicate TouchesFiles(st: Step) {
    st.Open? || st.WriteSome? || st.Fsync? || st.ForeignWrite?
  }

  lemma ContentOkMoved(s: State, st: Step, b: Id)
    requires Enabled(s, st) && Actor(st) == Some(b) && !TouchesFiles(st)
    requires b in s.attempts && ContentOk(s, s.attempts[b])
    ensures b in Do(s, st).attempts && ContentOk(Do(s, st), Do(s, st).attempts[b])
  {
    var t := s.attempts[b];
    var t' := Do(s, st).attempts[b];
    assert Do(s, st).files == s.files;
    assert Whole(t') ==> Whole(t);
    assert !t'.pc.Opened?;
  }

  lemma ContentOkActor(s: State, st: Step, b: Id)
    requires Enabled(s, st) && Actor(st) == Some(b)
    requires b in s.attempts ==> ContentOk(s, s.attempts[b])
    ensures b in Do(s, st).attempts && ContentOk(Do(s, st), Do(s, st).attempts[b])
  {
    if !TouchesFiles(st) {
      ContentOkMoved(s, st, b);
    }
  }

  lemma ContentOkStep(s: State, st: Step, b: Id)
    requires Owned(s) && Contents(s) && Enabled(s, st) && b in Do(s, st).attempts
    ensures ContentOk(Do(s, st), Do(s, st).attempts[b])
  {
    if Actor(st) == Some(b) {
      assert b in s.attempts ==> ContentOk(s, s.attempts[b]);
      ContentOkActor(s, st, b);
    } else {
      OnlyActorMoves(s, st, b);
      ContentOkOthers(s, st, b);
    }
  }

  lemma ContentsStep(s: State, st: Step)
    requires Owned(s) && Contents(s) && Enabled(s, st)
    ensures Contents(Do(s, st))
  {
    var s' := Do(s, st);
    forall b | b in s'.attempts
      ensures ContentOk(s', s'.attempts[b])
    {
      ContentOkStep(s, st, b);
    }
  }

  lemma PastGrows(s: State, st: Step)
    requires Enabled(s, st)
    ensures s.past <= Do(s, st).past && |Do(s, st).past| <= |s.past| + 1
  {
  }

  lemma NewBindingKept(s: State, st: Step)
    requires Enabled(s, st) && |Do(s, st).past| > |s.past|
    requires Actor(st).Some? && Actor(st).value in s.attempts ==> ContentOk(s, s.attempts[Actor(st).value])
    ensures Kept(Do(s, st), Do(s, st).past[|s.past|])
  {
  }

  lemma OldBindingKept(s: State, st: Step, b: Binding)
    requires Enabled(s, st) && Kept(s, b)
    requires forall a :: a in s.attempts && s.attempts[a].pc.Opened? ==> b.ino != Some(s.attempts[a].ino)
    ensures Kept(Do(s, st), b)
  {
    if b.ino.Some? {
      FileChanges(s, st, b.ino.value);
    }
  }

  lemma BindingKeptStep(s: State, st: Step, k: nat)
    requires Contents(s) && PastKept(s) && Enabled(s, st) && k < |Do(s, st).past|
    ensures Kept(Do(s, st), Do(s, st).past[k])
  {
    PastGrows(s, st);
    if k < |s.past| {
      OldBindingKept(s, st, s.past[k]);
    } else {
      NewBindingKept(s, st);
    }
  }

  lemma NewBindingClosed(s: State, st: Step, a: Id)
    requires Owned(s) && Enabled(s, st) && |Do(s, st).past| > |s.past|
    requires a in s.attempts && s.attempts[a].pc.Opened? && Actor(st) != Some(a)
    ensures Do(s, st).past[|s.past|].ino != Some(s.attempts[a].ino)
  {
    assert OwnsTemp(s, s.attempts[a]);
    if Actor(st).Some? {
      var c := Actor(st).value;
      assert Active(s.attempts[c]);
    }
  }

  lemma BindingClosedStep(s: State, st: Step, k: nat, a: Id)
    requires Owned(s) && PastKept(s) && Enabled(s, st)
    requires k < |Do(s, st).past| && a in Do(s, st).attempts && Do(s, st).attempts[a].pc.Opened?
    ensures Do(s, st).past[k].ino != Some(Do(s, st).attempts[a].ino)
  {
    PastGrows(s, st);
    OnlyActorMoves(s, st, a);
    if Actor(st) == Some(a) {
      assert |Do(s, st).past| == |s.past|;
      assert Kept(s, s.past[k]);
    } else if k == |s.past| {
      NewBindingClosed(s, st, a);
    }
  }

  lemma AllKeptStep(s: State, st: Step, s': State)
    requires Contents(s) && PastKept(s) && Enabled(s, st) && s' == Do(s, st)
    ensures AllKept(s')
  {
    forall k | 0 <= k < |s'.past|
      ensures Kept(s', s'.past[k])
    {
      BindingKeptStep(s, st, k);
    }
  }

  lemma AllClosedStep(s: State, st: Step, s': State)
    requires Owned(s) && PastKept(s) && Enabled(s, st) && s' == Do(s, st)
    ensures AllClosed(s')
  {
    forall k, a | 0 <= k < |s'.past| && a in s'.attempts && s'.attempts[a].pc.Opened?
      ensures s'.past[k].ino != Some(s'.attempts[a].ino)
    {
      BindingClosedStep(s, st, k, a);
    }
  }

  lemma PastKeptStep(s: State, st: Step)
    requires Owned(s) && Contents(s) && PastKept(s) && Enabled(s, st)
    ensures PastKept(Do(s, st))
  {
    PastGrows(s, st);
    AllKeptStep(s, st, Do(s, st));
    AllClosedStep(s, st, Do(s, st));
  }

  predicate Says(t: Attempt, landed: bool) {
    && (t.pc.Published? || t.pc.Done? ==> landed)
    && (!t.pc.Published? && !t.pc.Done? && !t.pc.Dead? ==> !landed)
  }

  lemma LandedStep(s: State, st: Step, b: Id)
    requires Enabled(s, st)
    ensures Landed(Do(s, st), b) <==> (Landed(s, b) || (|Do(s, st).past| > |s.past| && Actor(st) == Some(b)))
  {
    PastGrows(s, st);
    var s' := Do(s, st);
    if |s'.past| > |s.past| {
      assert s'.past[|s.past|].author == (if Actor(st).Some? then Ours(Actor(st).value) else Foreign);
    }
    if Landed(s, b) {
      var k :| 0 <= k < |s.past| && s.past[k].author == Ours(b);
      assert s'.past[k].author == Ours(b);
    }
  }

  lemma SaysStep(s: State, st: Step, b: Id)
    requires Honest(s) && Enabled(s, st) && b in Do(s, st).attempts
    ensures Says(Do(s, st).attempts[b], Landed(Do(s, st), b))
  {
    OnlyActorMoves(s, st, b);
    LandedStep(s, st, b);
    if b !in s.attempts {
      assert !Landed(s, b);
    }
  }

  lemma HonestStep(s: State, st: Step)
    requires Honest(s) && Enabled(s, st)
    ensures Honest(Do(s, st))
  {
    var s' := Do(s, st);
    PastGrows(s, st);
    forall k | 0 <= k < |s'.past| && s'.past[k].author.Ours?
      ensures s'.past[k].author.a in s'.attempts && s'.past[k].text == Some(s'.attempts[s'.past[k].author.a].job.content)
    {
      OnlyActorMoves(s, st, s'.past[k].author.a);
    }
    forall b | b in s'.attempts
      ensures Says(s'.attempts[b], Landed(s', b))
    {
      SaysStep(s, st, b);
    }
  }

  lemma {:induction false} RunInv(s: State, steps: seq<Step>)
    requires Inv(s) && Run(s, steps)
    ensures Inv(After(s, steps))
    decreases |steps|
  {
    if steps != [] {
      OwnedStep(s, steps[0]);
      ContentsStep(s, steps[0]);
      PastKeptStep(s, steps[0]);
      HonestStep(s, steps[0]);
      RunInv(Do(s, steps[0]), steps[1..]);
    }
  }

  // ---- Main results --------------------------------------------------------------------------------------

  /**
   * What a reader may find after the machine stops in `s`: any binding the destination ever had may
   * come back, and a file whose data was not synced may hold anything.
   */
  predicate MayRead(s: State, found: Option<string>) {
    exists k :: 0 <= k < |s.past| && FoundAt(s, s.past[k].ino, found)
  }

  predicate FoundAt(s: State, ino: Option<Inode>, found: Option<string>) {
    match ino
    case None => found.None?
    case Some(i) => found.Some? && i in s.files && (s.files[i].synced ==> found.value == s.files[i].text)
  }

  lemma KeptIsFound(s: State, b: Binding, found: Option<string>)
    requires Kept(s, b) && FoundAt(s, b.ino, found)
    ensures found == b.text
  {
  }

  /** The texts that were ever put at the destination, each by the one named. */
  predicate WasPut(s: State, author: Author, text: Option<string>) {
    exists k :: 0 <= k < |s.past| && s.past[k].author == author && s.past[k].text == text
  }

  predicate WasPublished(s: State, text: Option<string>) {
    exists a :: a in s.attempts && Landed(s, a) && text == Some(s.attempts[a].job.content)
  }

  lemma BindingHasAuthor(s: State, k: nat)
    requires Honest(s) && k < |s.past|
    ensures s.past[k].author.Initially? || WasPut(s, Foreign, s.past[k].text) || WasPublished(s, s.past[k].text)
  {
    if s.past[k].author.Ours? {
      assert Landed(s, s.past[k].author.a);
    }
  }

  /**
   * Whatever was running when the machine stopped, the destination is then exactly one of: what was
   * there at first, the whole content of an attempt that got as far as publishing, or what another
   * program put there whole.
   */
  lemma CrashLeavesAWholeFile(s: State, steps: seq<Step>, found: Option<string>)
    requires Init(s) && Run(s, steps) && MayRead(After(s, steps), found)
    ensures var e := After(s, steps);
      found == s.past[0].text || WasPut(e, Foreign, found) || WasPublished(e, found)
  {
    var e := After(s, steps);
    RunRemembers(s, steps);
    var k := WhereFound(e, found);
    BindingHasAuthor(e, k);
  }

  /** Every binding of a run is kept and has an author, and the first one is still the first. */
  lemma RunRemembers(s: State, steps: seq<Step>)
    requires Init(s) && Run(s, steps)
    ensures var e := After(s, steps);
      && PastKept(e) && Honest(e) && e.past[0] == s.past[0]
      && forall k :: 0 <= k < |e.past| && e.past[k].author.Initially? ==> k == 0
  {
    Reached(s, steps);
    FirstBindingStays(s, steps);
    InitialIsFirst(s, steps, After(s, steps));
  }

  lemma InitialIsFirst(s: State, steps: seq<Step>, e: State)
    requires Run(s, steps) && e == After(s, steps) && |s.past| == 1
    ensures forall k :: 0 <= k < |e.past| && e.past[k].author.Initially? ==> k == 0
  {
    forall k | 0 <= k < |e.past|
      ensures e.past[k].author.Initially? ==> k == 0
    {
      OnlyFirstIsInitial(s, steps, k);
    }
  }

  /** Every reachable state keeps the invariant. */
  lemma Reached(s: State, steps: seq<Step>)
    requires Init(s) && Run(s, steps)
    ensures Inv(After(s, steps))
  {
    InitInv(s);
    RunInv(s, steps);
  }

  lemma WhereFound(s: State, found: Option<string>) returns (k: nat)
    requires PastKept(s) && MayRead(s, found)
    ensures k < |s.past| && s.past[k].text == found
  {
    k :| 0 <= k < |s.past| && FoundAt(s, s.past[k].ino, found);
    KeptIsFound(s, s.past[k], found);
  }

  lemma {:induction false} FirstBindingStays(s: State, steps: seq<Step>)
    requires Run(s, steps) && s.past != []
    ensures After(s, steps).past != [] && After(s, steps).past[0] == s.past[0]
    decreases |steps|
  {
    if steps != [] {
      PastGrows(s, steps[0]);
      FirstBindingStays(Do(s, steps[0]), steps[1..]);
    }
  }

  lemma {:induction false} OnlyFirstIsInitial(s: State, steps: seq<Step>, k: nat)
    requires Run(s, steps) && s.past != []
    requires forall j :: 0 < j < |s.past| ==> !s.past[j].author.Initially?
    requires k < |After(s, steps).past|
    ensures After(s, steps).past[k].author.Initially? ==> k == 0
    decreases |steps|
  {
    if steps != [] {
      PastGrows(s, steps[0]);
      OnlyFirstIsInitial(Do(s, steps[0]), steps[1..], k);
    }
  }

  /** An attempt that reports success has landed; one that reports failure has not touched the destination. */
  lemma ReportIsTrue(s: State, steps: seq<Step>, a: Id)
    requires Init(s) && Run(s, steps) && a in After(s, steps).attempts
    ensures var e := After(s, steps);
      && (e.attempts[a].pc.Done? ==> Landed(e, a))
      && (e.attempts[a].pc.Failed? ==> !Landed(e, a))
  {
    Reached(s, steps);
  }

  /** No step of another attempt touches the temp of one that is under way, whatever names were drawn. */
  lemma OthersLeaveTempAlone(s: State, st: Step, a: Id)
    requires Owned(s) && Enabled(s, st) && Actor(st) != Some(a)
    requires a in s.attempts && Active(s.attempts[a])
    ensures var s', t := Do(s, st), s.attempts[a];
      && a in s'.attempts && s'.attempts[a] == t && OwnsTemp(s', t)
      && s'.files[t.ino] == s.files[t.ino]
  {
    OnlyActorMoves(s, st, a);
    OwnerKeepsTemp(s, st, a);
    assert OwnsTemp(s, s.attempts[a]);
    FileChanges(s, st, s.attempts[a].ino);
  }

  // ---- Exclusive writes -------------------------------------------------------------------------------------

  /** The file system has hard links. */
  predicate HardLinkStep(st: Step) {
    !st.LinkUnsupported?
  }

  /** An exclusive attempt publishes by `link`; a plain one is free to rename. */
  predicate NeedsNoFallback(t: Attempt) {
    t.job.exclusive ==> !t.pc.NoLinks? && !t.pc.Checking? && !t.pc.Renaming?
  }

  predicate IsExclusive(s: State, a: Id) {
    a in s.attempts && s.attempts[a].job.exclusive
  }

  /** A binding made by an exclusive attempt found the destination absent. */
  predicate ReplacedNothing(s: State, k: int)
    requires 0 < k < |s.past|
  {
    s.past[k].author.Ours? ==>
      s.past[k].author.a in s.attempts && (IsExclusive(s, s.past[k].author.a) ==> s.past[k - 1].ino.None?)
  }

  ghost predicate NeverReplaced(s: State) {
    && s.past != []
    && (forall a :: a in s.attempts ==> NeedsNoFallback(s.attempts[a]))
    && (forall k :: 0 < k < |s.past| ==> ReplacedNothing(s, k))
  }

  lemma NeedsNoFallbackStep(s: State, st: Step, b: Id)
    requires Enabled(s, st) && HardLinkStep(st) && b in Do(s, st).attempts
    requires b in s.attempts ==> NeedsNoFallback(s.attempts[b])
    ensures NeedsNoFallback(Do(s, st).attempts[b])
  {
    OnlyActorMoves(s, st, b);
  }

  lemma NewBindingHasActor(s: State, st: Step)
    requires Enabled(s, st) && |Do(s, st).past| > |s.past| && Do(s, st).past[|s.past|].author.Ours?
    ensures Actor(st) == Some(Do(s, st).past[|s.past|].author.a) && Actor(st).value in s.attempts
    ensures NeedsNoFallback(s.attempts[Actor(st).value]) && IsExclusive(s, Actor(st).value) ==> Dest(s).None?
  {
  }

  lemma ReplacedNothingStep(s: State, st: Step, k: int)
    requires NeverReplaced(s) && Enabled(s, st) && 0 < k < |Do(s, st).past|
    ensures ReplacedNothing(Do(s, st), k)
  {
    var s' := Do(s, st);
    PastGrows(s, st);
    if s'.past[k].author.Ours? {
      if k < |s.past| {
        assert ReplacedNothing(s, k);
      } else {
        NewBindingHasActor(s, st);
      }
      OnlyActorMoves(s, st, s'.past[k].author.a);
    }
  }

  lemma NeverReplacedStep(s: State, st: Step)
    requires NeverReplaced(s) && Enabled(s, st) && HardLinkStep(st)
    ensures NeverReplaced(Do(s, st))
  {
    var s' := Do(s, st);
    PastGrows(s, st);
    forall b | b in s'.attempts
      ensures NeedsNoFallback(s'.attempts[b])
    {
      NeedsNoFallbackStep(s, st, b);
    }
    forall k | 0 < k < |s'.past|
      ensures ReplacedNothing(s', k)
    {
      ReplacedNothingStep(s, st, k);
    }
  }

  /**
   * With hard links, an exclusive attempt never replaces an existing destination, whoever made it
   * and however its steps interleave with those of plain attempts and of other programs.
   */
  lemma {:induction false} ExclusiveNeverReplaces(s: State, steps: seq<Step>)
    requires NeverReplaced(s) && Run(s, steps) && forall i :: 0 <= i < |steps| ==> HardLinkStep(steps[i])
    ensures NeverReplaced(After(s, steps))
    decreases |steps|
  {
    if steps != [] {
      NeverReplacedStep(s, steps[0]);
      ExclusiveNeverReplaces(Do(s, steps[0]), steps[1..]);
    }
  }

  /** Nothing but the first binding is an absence. */
  predicate OnlyAppears(s: State) {
    forall k :: 0 < k < |s.past| ==> s.past[k].ino.Some?
  }

  lemma {:induction false} OnlyAppearsRun(s: State, steps: seq<Step>)
    requires OnlyAppears(s) && Run(s, steps) && s.past != []
    requires forall i :: 0 <= i < |steps| ==> !steps[i].ForeignRemove?
    ensures OnlyAppears(After(s, steps))
    decreases |steps|
  {
    if steps != [] {
      PastGrows(s, steps[0]);
      OnlyAppearsRun(Do(s, steps[0]), steps[1..]);
    }
  }

  lemma OnlySecondIsExclusive(s: State, a: Id)
    requires NeverReplaced(s) && OnlyAppears(s) && !s.past[0].author.Ours? && IsExclusive(s, a)
    ensures Landed(s, a) ==> s.past[0].ino.None? && |s.past| > 1 && s.past[1].author == Ours(a)
  {
    if Landed(s, a) {
      var k :| 0 <= k < |s.past| && s.past[k].author == Ours(a);
      assert ReplacedNothing(s, k);
      assert k - 1 == 0;
    }
  }

  /**
   * Of any number of racing exclusive attempts at most one wins, plain attempts and other programs
   * around them or not; it is then the first to put anything there, and there was nothing before.
   */
  lemma ExclusiveHasOneWinner(s: State, steps: seq<Step>, a: Id, b: Id)
    requires Init(s) && Run(s, steps)
    requires forall i :: 0 <= i < |steps| ==> HardLinkStep(steps[i]) && !steps[i].ForeignRemove?
    requires IsExclusive(After(s, steps), a) && IsExclusive(After(s, steps), b) && Landed(After(s, steps), a)
    ensures s.past[0].ino.None? && |After(s, steps).past| > 1 && After(s, steps).past[1].author == Ours(a)
    ensures Landed(After(s, steps), b) ==> a == b
  {
    ExclusiveNeverReplaces(s, steps);
    OnlyAppearsRun(s, steps);
    FirstBindingStays(s, steps);
    OnlySecondIsExclusive(After(s, steps), a);
    OnlySecondIsExclusive(After(s, steps), b);
  }

  // ---- The fallback without hard links ------------------------------------------------------------------------

  lemma {:induction false} Append(s: State, steps: seq<Step>, more: seq<Step>)
    requires Run(s, steps) && Run(After(s, steps), more)
    ensures Run(s, steps + more) && After(s, steps + more) == After(After(s, steps), more)
    decreases |steps|
  {
    if steps == [] {
      assert steps + more == more;
    } else {
      Append(Do(s, steps[0]), steps[1..], more);
      assert (steps + more)[1..] == steps[1..] + more;
    }
  }

  lemma One(s: State, steps: seq<Step>, st: Step) returns (longer: seq<Step>)
    requires Run(s, steps) && Enabled(After(s, steps), st)
    ensures longer == steps + [st] && Run(s, longer) && After(s, longer) == Do(After(s, steps), st)
  {
    longer := steps + [st];
    assert [st][1..] == [];
    assert Run(After(s, steps), [st]);
    Append(s, steps, [st]);
  }

  /** The whole content is in the temp and on disk. */
  lemma ReachSynced(s: State, a: Id, job: Job, temp: TempName, ino: Inode) returns (steps: seq<Step>)
    requires s.past != [] && a !in s.attempts && ino !in s.files && temp !in s.temps
    ensures Run(s, steps)
    ensures After(s, steps) == s.(attempts := s.attempts[a := Attempt(job, temp, ino, Synced)],
                                  temps := s.temps[temp := ino], files := s.files[ino := File(job.content, true)])
  {
    steps := One(s, [], Open(a, job, temp, ino));
    steps := One(s, steps, WriteSome(a, |job.content|));
    assert job.content[..|job.content|] == job.content;
    steps := One(s, steps, Fsync(a));
  }

  /** The content is on disk, and `link` has just failed for want of hard links. */
  lemma ReachFallback(s: State, a: Id, job: Job, temp: TempName, ino: Inode) returns (steps: seq<Step>)
    requires s.past != [] && a !in s.attempts && ino !in s.files && temp !in s.temps && job.exclusive
    ensures Run(s, steps)
    ensures var e := After(s, steps);
      && e.past == s.past && e.attempts == s.attempts[a := Attempt(job, temp, ino, NoLinks)]
      && e.temps.Keys == s.temps.Keys + {temp} && e.files.Keys == s.files.Keys + {ino}
  {
    steps := ReachSynced(s, a, job, temp, ino);
    steps := One(s, steps, Check(a, true));
    steps := One(s, steps, LinkUnsupported(a));
  }

  /** Both have looked and found nothing. */
  lemma BothLook(s: State, a: Id, b: Id) returns (steps: seq<Step>)
    requires s.past != [] && Dest(s).None? && a != b && At(s, a, NoLinks) && At(s, b, NoLinks)
    ensures Run(s, steps) && After(s, steps) == Goto(Goto(s, a, Renaming(0)), b, Renaming(0))
  {
    steps := One(s, [], LookForDest(a));
    steps := One(s, steps, LookForDest(b));
    steps := One(s, steps, Check(a, true));
    steps := One(s, steps, Check(b, true));
  }

  lemma BothRename(s: State, a: Id, b: Id) returns (steps: seq<Step>)
    requires s.past != [] && a != b && At(s, a, Renaming(0)) && At(s, b, Renaming(0))
    ensures Run(s, steps)
    ensures var e, x, y := After(s, steps), s.attempts[a], s.attempts[b];
      && At(e, a, Done) && At(e, b, Done)
      && e.past == s.past + [Binding(Ours(a), Some(x.ino), Some(x.job.content)), Binding(Ours(b), Some(y.ino), Some(y.job.content))]
  {
    steps := One(s, [], Rename(a));
    steps := One(s, steps, Rename(b));
  }

  /**
   * Without hard links two exclusive attempts can both look, both find nothing and both publish:
   * the second replaces the first.
   */
  lemma FallbackCanReplace(s: State, a: Id, b: Id, job: Job, other: Job, t: TempName, u: TempName, i: Inode, j: Inode)
    returns (steps: seq<Step>)
    requires Init(s) && s.past[0].ino.None? && job.exclusive && other.exclusive
    requires a != b && t != u && i != j && t !in s.temps && u !in s.temps && i !in s.files && j !in s.files
    ensures Run(s, steps)
    ensures var e := After(s, steps);
      && At(e, a, Done) && At(e, b, Done)
      && e.past == s.past + [Binding(Ours(a), Some(i), Some(job.content)), Binding(Ours(b), Some(j), Some(other.content))]
  {
    var first := ReachFallback(s, a, job, t, i);
    var second := ReachFallback(After(s, first), b, other, u, j);
    Append(s, first, second);
    steps := first + second;
    var third := BothLook(After(s, steps), a, b);
    Append(s, steps, third);
    steps := steps + third;
    var fourth := BothRename(After(s, steps), a, b);
    Append(s, steps, fourth);
    steps := steps + fourth;
  }
}
