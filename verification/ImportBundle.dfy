/**
 * `importBundle.ts`: what an install link may do to a configuration that already exists, decided
 * inside the config lock, and what crashes between the writes do to repeated imports.
 */
module ImportBundle {
  import opened Text
  import opened ConfigRecord
  import opened ConfigSave

  /** A parsed credential bundle: one key with its signer. */
  datatype Bundle = ApiBundle(apiKey: string, signer: string) | AdminBundle(adminKey: string, adminSigner: string)

  datatype Verdict = Write | AlreadyImported | KeptExisting

  predicate HasSavedKey(saved: Config) {
    ApiKey in saved || AdminKey in saved
  }

  predicate Holds(saved: Config, f: Field, s: string) {
    f in saved && saved[f] == Str(s)
  }

  predicate HoldsPair(saved: Config, b: Bundle) {
    match b
    case ApiBundle(k, s) => Holds(saved, ApiKey, k) && Holds(saved, ServicePrivateKey, s)
    case AdminBundle(k, s) => Holds(saved, AdminKey, k) && Holds(saved, AdminServicePrivateKey, s)
  }

  /** A saved field that the write would change, or drop. */
  predicate Conflicts(saved: Config, updates: Config, clear: seq<Field>) {
    || (exists f :: f in updates && f in saved && saved[f] != updates[f])
    || (exists f :: f in clear && f in saved)
  }

  function Classify(saved: Config, b: Bundle, updates: Config, clear: seq<Field>): Verdict {
    if !HasSavedKey(saved) then Write
    else if !HoldsPair(saved, b) || Conflicts(saved, updates, clear) then KeptExisting
    else if updates.Keys <= saved.Keys then AlreadyImported
    else Write
  }

  /** The record has this bundle's own key with its own signer. */
  predicate HasThisPair(saved: Config, b: Bundle) {
    match b
    case ApiBundle(k, s) =>
      ApiKey in saved && saved[ApiKey] == Str(k) && ServicePrivateKey in saved && saved[ServicePrivateKey] == Str(s)
    case AdminBundle(k, s) =>
      AdminKey in saved && saved[AdminKey] == Str(k) && AdminServicePrivateKey in saved && saved[AdminServicePrivateKey] == Str(s)
  }

  /** Something saved would read differently after the write, or be gone. */
  predicate WouldLose(saved: Config, updates: Config, clear: seq<Field>) {
    exists f :: f in saved && (f in clear || (saved + updates)[f] != saved[f])
  }

  /**
   * With no key saved a link writes. With one, a bundle whose own pair is not there, or whose write
   * would lose something, leaves what is there; it counts as imported exactly if its pair is there and
   * the write would change nothing; and otherwise it only adds.
   */
  lemma VerdictIs(saved: Config, b: Bundle, updates: Config, clear: seq<Field>)
    ensures ApiKey !in saved && AdminKey !in saved ==> Classify(saved, b, updates, clear) == Write
    ensures ApiKey in saved || AdminKey in saved ==>
      && (Classify(saved, b, updates, clear) == KeptExisting <==> !HasThisPair(saved, b) || WouldLose(saved, updates, clear))
      && (Classify(saved, b, updates, clear) == AlreadyImported <==>
            HasThisPair(saved, b) && saved + updates == saved && saved - FieldSet(clear) == saved)
  {
    if saved + updates == saved {
      assert forall f :: f in updates ==> f in saved + updates && saved[f] == updates[f];
    }
    if saved - FieldSet(clear) == saved {
      assert forall f :: f in clear && f in saved ==> f in saved - FieldSet(clear);
    }
    if Conflicts(saved, updates, clear) {
      if f :| f in updates && f in saved && saved[f] != updates[f] {
        assert (saved + updates)[f] != saved[f];
      }
    }
  }

  /** Another bundle over a saved key, of either kind, is never taken for the one that is there. */
  lemma AnotherBundleIsKept(saved: Config, b: Bundle, other: Bundle, updates: Config, clear: seq<Field>)
    requires HasThisPair(saved, b) && other != b && (b.ApiBundle? <==> other.ApiBundle?)
    ensures Classify(saved, other, updates, clear) == KeptExisting
  {
    VerdictIs(saved, other, updates, clear);
  }

  /** The entries of an object, in some order, each once. */
  predicate Lists(entries: seq<Field>, updates: Config) {
    forall f :: f in entries <==> f in updates
  }

  /** `classifyAgainstSaved`, looping over the entries of the write. */
  method ClassifyAgainstSaved(saved: Config, b: Bundle, updates: Config, entries: seq<Field>, clear: seq<Field>)
    returns (v: Verdict)
    requires Lists(entries, updates)
    ensures v == Classify(saved, b, updates, clear)
  {
    if !HasSavedKey(saved) {
      return Write;
    }
    if !HoldsPair(saved, b) {
      return KeptExisting;
    }
    var missing := false;
    for i := 0 to |entries|
      invariant forall k :: 0 <= k < i && entries[k] in saved ==> saved[entries[k]] == updates[entries[k]]
      invariant missing <==> exists k :: 0 <= k < i && entries[k] !in saved
    {
      var field := entries[i];
      if field !in saved {
        missing := true;
      } else if saved[field] != updates[field] {
        return KeptExisting;
      }
    }
    for i := 0 to |clear|
      invariant forall k :: 0 <= k < i ==> clear[k] !in saved
    {
      if clear[i] in saved {
        return KeptExisting;
      }
    }
    assert forall f :: f in updates ==> f in entries;
    v := if missing then Write else AlreadyImported;
  }

  /**
   * What the credential checks hand to the import: the bundle's pair and any pins and host, all of
   * them values the loader accepts, nothing both set and cleared, the other kind's pair untouched.
   */
  ghost predicate WellFormed(pol: Policy, b: Bundle, updates: Config, clear: seq<Field>) {
    && HoldsPair(updates, b)
    && (forall f :: f in updates ==> f !in clear && StorableField(pol, f, updates[f]))
    && (forall f :: f in clear ==> f !in ADMIN_FIELDS && f != ApiKey)
    && (b.ApiBundle? ==> updates.Keys !! ADMIN_FIELDS)
  }

  function Import(b: Bundle, updates: Config, clear: seq<Field>): Merge {
    Merge(updates, clear, (before: Config) => Classify(before, b, updates, clear) == Write)
  }

  // ---- Never overwrites, and says when it is done ---------------------------------------------------

  /** With any key saved, a link that writes leaves every field that is there as it was. */
  lemma NeverOverwrites(saved: Config, b: Bundle, updates: Config, clear: seq<Field>)
    requires HasSavedKey(saved)
    ensures Classify(saved, b, updates, clear) == Write ==>
      var merged := Merged(Import(b, updates, clear), saved);
      HoldsPair(saved, b) && forall f :: f in saved ==> f in merged && merged[f] == saved[f]
  {
  }

  /** `{...before, ...updates}` without the cleared fields: what a completed import aims at. */
  function Goal(before: Config, updates: Config, clear: seq<Field>): Config {
    (before + updates) - FieldSet(clear)
  }

  ghost predicate AllStorable(pol: Policy, c: Config) {
    forall f :: f in c ==> StorableField(pol, f, c[f])
  }

  lemma StorableIsFixed(pol: Policy, c: Config)
    ensures AllStorable(pol, c) <==> Storable(pol, c) == c
  {
    if Storable(pol, c) == c {
      assert forall f :: f in c ==> f in Storable(pol, c) && Storable(pol, c)[f] == c[f];
    }
  }

  lemma OutcomeIsGoal(pol: Policy, b: Bundle, updates: Config, clear: seq<Field>, before: Config)
    requires WellFormed(pol, b, updates, clear) && AllStorable(pol, before)
    ensures Outcome(pol, Import(b, updates, clear), before) == Goal(before, updates, clear)
    ensures AllStorable(pol, Goal(before, updates, clear))
  {
    StorableIsFixed(pol, Goal(before, updates, clear));
  }

  /** Importing the same bundle again after a completed write finds it all there. */
  lemma ReimportIsAlreadyImported(pol: Policy, b: Bundle, updates: Config, clear: seq<Field>, before: Config)
    requires WellFormed(pol, b, updates, clear) && AllStorable(pol, before)
    ensures Classify(Outcome(pol, Import(b, updates, clear), before), b, updates, clear) == AlreadyImported
  {
    OutcomeIsGoal(pol, b, updates, clear, before);
  }

  // ---- Crashed imports converge ------------------------------------------------------------------------

  /** One import attempt, killed once `k` of its writes are on disk (3: it completes). */
  function Attempt(pol: Policy, d: Disk, m: Merge, k: nat): Disk {
    match Resolve(pol, d)
    case Err => d
    case Ok(before) => if m.decide(before) then Saved(d, Merged(m, before), Inline(pol, d), k) else d
  }

  function Attempts(pol: Policy, d: Disk, m: Merge, ks: seq<nat>): Disk
    decreases |ks|
  {
    if ks == [] then d else Attempts(pol, Attempt(pol, d, m, ks[0]), m, ks[1..])
  }

  /** Everything the write names outside the pair is either absent already or just as the write wants it. */
  predicate NothingToReplace(before: Config, updates: Config, clear: seq<Field>) {
    && (forall f :: f in updates && f !in ADMIN_FIELDS && f in before ==> before[f] == updates[f])
    && (forall f :: f in clear ==> f !in before)
  }

  /** The records an interrupted import can leave: the old one, the new pair alone, the new one. */
  predicate OnTheWay(before: Config, goal: Config, c: Config) {
    c == before || c == RestOf(before) + PairOf(goal) || c == goal
  }

  predicate CanConverge(b: Bundle, before: Config, updates: Config, clear: seq<Field>) {
    HasSavedKey(before) || b.ApiBundle? || NothingToReplace(before, updates, clear)
  }

  lemma HalfwayHasSameGoal(before: Config, updates: Config, clear: seq<Field>)
    requires forall f :: f in updates ==> f !in clear
    ensures var goal := Goal(before, updates, clear);
      Goal(RestOf(before) + PairOf(goal), updates, clear) == goal && Goal(goal, updates, clear) == goal
  {
    var goal := Goal(before, updates, clear);
    var half := RestOf(before) + PairOf(goal);
    forall f: Field
      ensures f in Goal(half, updates, clear) <==> f in goal
      ensures f in goal ==> Goal(half, updates, clear)[f] == goal[f]
    {
      assert f in PairOf(goal) <==> f in goal && f in ADMIN_FIELDS;
      assert f in half <==> f in PairOf(goal) || (f in before && f !in ADMIN_FIELDS);
    }
  }

  lemma SameGoal(before: Config, updates: Config, clear: seq<Field>, c: Config)
    requires forall f :: f in updates ==> f !in clear
    requires OnTheWay(before, Goal(before, updates, clear), c)
    ensures Goal(c, updates, clear) == Goal(before, updates, clear)
  {
    HalfwayHasSameGoal(before, updates, clear);
  }

  /** An attempt that declines to write has nothing left to do. */
  lemma DecliningMeansDone(b: Bundle, before: Config, updates: Config, clear: seq<Field>, c: Config)
    requires HoldsPair(updates, b) && (forall f :: f in updates ==> f !in clear) && (forall f :: f in clear ==> f !in ADMIN_FIELDS)
    requires b.ApiBundle? ==> updates.Keys !! ADMIN_FIELDS
    requires Classify(before, b, updates, clear) == Write && CanConverge(b, before, updates, clear)
    requires OnTheWay(before, Goal(before, updates, clear), c)
    ensures Classify(c, b, updates, clear) != Write ==> c == Goal(before, updates, clear)
  {
    var goal := Goal(before, updates, clear);
    if c == RestOf(before) + PairOf(goal) && c != goal {
      if b.ApiBundle? {
        assert PairOf(goal) == PairOf(before);
        HalvesMakeWhole(before);
      } else {
        HalfwayIsRepaired(b, before, updates, clear);
      }
    }
  }

  /** The management pair landed alone: the next attempt sees its own half-written work. */
  lemma HalfwayIsRepaired(b: Bundle, before: Config, updates: Config, clear: seq<Field>)
    requires HoldsPair(updates, b) && (forall f :: f in updates ==> f !in clear) && (forall f :: f in clear ==> f !in ADMIN_FIELDS)
    requires b.AdminBundle? && Classify(before, b, updates, clear) == Write && CanConverge(b, before, updates, clear)
    ensures var goal := Goal(before, updates, clear);
      var half := RestOf(before) + PairOf(goal);
      Classify(half, b, updates, clear) != Write ==> half == goal
  {
    var goal := Goal(before, updates, clear);
    var half := RestOf(before) + PairOf(goal);
    assert forall f :: f in ADMIN_FIELDS ==> (f in half <==> f in goal) && (f in goal ==> half[f] == goal[f]);
    assert HoldsPair(half, b);
    assert NothingToReplace(before, updates, clear);
    assert !Conflicts(half, updates, clear);
    if updates.Keys <= half.Keys {
      assert forall f :: f in goal <==> f in half;
      assert half == goal;
    }
  }

  /** An attempt that decides to write, killed or not. */
  lemma WritingAttempt(pol: Policy, b: Bundle, updates: Config, clear: seq<Field>, d: Disk, c: Config, k: nat)
    requires WellFormed(pol, b, updates, clear) && k <= 3 && Resolve(pol, d) == Ok(c)
    requires Classify(c, b, updates, clear) == Write
    ensures var e, goal := Attempt(pol, d, Import(b, updates, clear), k), Goal(c, updates, clear);
      && Resolve(pol, e).Ok?
      && (Resolve(pol, e).value == c || Resolve(pol, e).value == RestOf(c) + PairOf(goal) || Resolve(pol, e).value == goal)
      && (k == 3 ==> Resolve(pol, e).value == goal)
  {
    var m, goal := Import(b, updates, clear), Goal(c, updates, clear);
    ResolvedIsStorable(pol, d);
    StorableIsFixed(pol, c);
    OutcomeIsGoal(pol, b, updates, clear, c);
    KilledMerge(pol, d, m, k);
    HalvesMakeWhole(c);
    HalvesMakeWhole(goal);
  }

  /** What one attempt, killed or not, makes of a record that is on the way. */
  lemma AttemptStaysOnTheWay(pol: Policy, b: Bundle, updates: Config, clear: seq<Field>, d: Disk, before: Config, k: nat)
    requires WellFormed(pol, b, updates, clear) && AllStorable(pol, before) && k <= 3
    requires Resolve(pol, d).Ok? && OnTheWay(before, Goal(before, updates, clear), Resolve(pol, d).value)
    ensures var e := Attempt(pol, d, Import(b, updates, clear), k);
      && Resolve(pol, e).Ok? && OnTheWay(before, Goal(before, updates, clear), Resolve(pol, e).value)
      && (k == 3 && Classify(Resolve(pol, d).value, b, updates, clear) == Write ==>
            Resolve(pol, e).value == Goal(before, updates, clear))
  {
    var c := Resolve(pol, d).value;
    SameGoal(before, updates, clear, c);
    if Classify(c, b, updates, clear) == Write {
      WritingAttempt(pol, b, updates, clear, d, c, k);
      Halves(before, Goal(before, updates, clear), c);
    } else {
      assert Attempt(pol, d, Import(b, updates, clear), k) == d;
    }
  }

  lemma Halves(before: Config, goal: Config, c: Config)
    requires OnTheWay(before, goal, c)
    ensures RestOf(goal) + PairOf(goal) == goal && RestOf(c) + PairOf(c) == c
    ensures OnTheWay(before, goal, RestOf(c) + PairOf(goal))
  {
    HalvesMakeWhole(goal);
    HalvesMakeWhole(c);
    var half := RestOf(before) + PairOf(goal);
    assert RestOf(half) == RestOf(before);
  }

  /**
   * Any number of imports killed anywhere, then one that runs through: the same record as one
   * uninterrupted import, provided a key was saved already, or the link carries an everyday key,
   * or it has nothing to replace.
   */
  lemma {:induction false} CrashedImportsConverge(pol: Policy, b: Bundle, updates: Config, clear: seq<Field>,
                                                  d: Disk, before: Config, ks: seq<nat>)
    requires WellFormed(pol, b, updates, clear) && AllStorable(pol, before)
    requires Classify(before, b, updates, clear) == Write && CanConverge(b, before, updates, clear)
    requires forall i :: 0 <= i < |ks| ==> ks[i] <= 3
    requires Resolve(pol, d).Ok? && OnTheWay(before, Goal(before, updates, clear), Resolve(pol, d).value)
    ensures Resolve(pol, Attempts(pol, d, Import(b, updates, clear), ks + [3])) == Ok(Goal(before, updates, clear))
    decreases |ks|
  {
    var m := Import(b, updates, clear);
    var k := (ks + [3])[0];
    AttemptStaysOnTheWay(pol, b, updates, clear, d, before, k);
    var e := Attempt(pol, d, m, k);
    if ks == [] {
      DecliningMeansDone(b, before, updates, clear, Resolve(pol, d).value);
      assert (ks + [3])[1..] == [];
    } else {
      CrashedImportsConverge(pol, b, updates, clear, e, before, ks[1..]);
      assert (ks + [3])[1..] == ks[1..] + [3];
    }
  }

  /** The proviso is exact: otherwise one crash after the first write already changes the result. */
  lemma OneCrashDiverges(pol: Policy, b: Bundle, updates: Config, clear: seq<Field>, d: Disk)
    requires Resolve(pol, d).Ok? && WellFormed(pol, b, updates, clear)
    requires Classify(Resolve(pol, d).value, b, updates, clear) == Write
    requires !CanConverge(b, Resolve(pol, d).value, updates, clear)
    ensures Resolve(pol, Attempts(pol, d, Import(b, updates, clear), [1, 3])) !=
            Ok(Goal(Resolve(pol, d).value, updates, clear))
  {
    var m := Import(b, updates, clear);
    var before := Resolve(pol, d).value;
    var e := Attempt(pol, d, m, 1);
    CrashAfterFirstWrite(pol, b, updates, clear, d);
    StuckHalfway(b, before, updates, clear);
    assert Attempt(pol, e, m, 3) == e;
    assert [1, 3][1..] == [3] && [3][1..] == [];
    assert Attempts(pol, e, m, [3]) == e;
  }

  lemma CrashAfterFirstWrite(pol: Policy, b: Bundle, updates: Config, clear: seq<Field>, d: Disk)
    requires Resolve(pol, d).Ok? && WellFormed(pol, b, updates, clear) && b.AdminBundle?
    requires Classify(Resolve(pol, d).value, b, updates, clear) == Write
    ensures var before := Resolve(pol, d).value;
      Resolve(pol, Attempt(pol, d, Import(b, updates, clear), 1)) == Ok(RestOf(before) + PairOf(Goal(before, updates, clear)))
  {
    var m := Import(b, updates, clear);
    var before := Resolve(pol, d).value;
    ResolvedIsStorable(pol, d);
    StorableIsFixed(pol, before);
    OutcomeIsGoal(pol, b, updates, clear, before);
    KilledMerge(pol, d, m, 1);
    assert AdminKey in PairOf(Merged(m, before));
  }

  lemma StuckHalfway(b: Bundle, before: Config, updates: Config, clear: seq<Field>)
    requires HoldsPair(updates, b) && (forall f :: f in updates ==> f !in clear) && (forall f :: f in clear ==> f !in ADMIN_FIELDS)
    requires !CanConverge(b, before, updates, clear)
    ensures var half := RestOf(before) + PairOf(Goal(before, updates, clear));
      Classify(half, b, updates, clear) == KeptExisting && half != Goal(before, updates, clear)
  {
    var goal := Goal(before, updates, clear);
    var half := RestOf(before) + PairOf(goal);
    assert forall f :: f in ADMIN_FIELDS ==> (f in half <==> f in goal) && (f in goal ==> half[f] == goal[f]);
    assert HoldsPair(half, b);
    if f :| f in updates && f !in ADMIN_FIELDS && f in before && before[f] != updates[f] {
      assert f in half && half[f] == before[f] && goal[f] == updates[f];
    } else {
      var f :| f in clear && f in before;
      assert f in half && f !in goal;
    }
  }

  /** From `d`, every pattern of killed imports before a complete one ends in `goal`. */
  ghost predicate AlwaysEndsIn(pol: Policy, d: Disk, m: Merge, goal: Config) {
    forall ks: seq<nat> :: (forall i :: 0 <= i < |ks| ==> ks[i] <= 3) ==> Resolve(pol, Attempts(pol, d, m, ks + [3])) == Ok(goal)
  }

  lemma ConvergingEnds(pol: Policy, b: Bundle, updates: Config, clear: seq<Field>, d: Disk)
    requires Resolve(pol, d).Ok? && WellFormed(pol, b, updates, clear)
    requires Classify(Resolve(pol, d).value, b, updates, clear) == Write && CanConverge(b, Resolve(pol, d).value, updates, clear)
    ensures AlwaysEndsIn(pol, d, Import(b, updates, clear), Goal(Resolve(pol, d).value, updates, clear))
  {
    var before, m := Resolve(pol, d).value, Import(b, updates, clear);
    ResolvedIsStorable(pol, d);
    StorableIsFixed(pol, before);
    forall ks: seq<nat> | forall i :: 0 <= i < |ks| ==> ks[i] <= 3
      ensures Resolve(pol, Attempts(pol, d, m, ks + [3])) == Ok(Goal(before, updates, clear))
    {
      CrashedImportsConverge(pol, b, updates, clear, d, before, ks);
    }
  }

  lemma DivergingDoesNot(pol: Policy, d: Disk, m: Merge, goal: Config)
    requires Resolve(pol, Attempts(pol, d, m, [1, 3])) != Ok(goal)
    ensures !AlwaysEndsIn(pol, d, m, goal)
  {
    var one: seq<nat> := [1];
    assert one + [3] == [1, 3];
    assert Resolve(pol, Attempts(pol, d, m, one + [3])) != Ok(goal);
  }

  /** Repeated imports reach the uninterrupted result through every pattern of crashes exactly when: */
  lemma ImportsConvergeExactlyWhen(pol: Policy, b: Bundle, updates: Config, clear: seq<Field>, d: Disk)
    requires Resolve(pol, d).Ok? && WellFormed(pol, b, updates, clear)
    requires Classify(Resolve(pol, d).value, b, updates, clear) == Write
    ensures CanConverge(b, Resolve(pol, d).value, updates, clear) <==>
      AlwaysEndsIn(pol, d, Import(b, updates, clear), Goal(Resolve(pol, d).value, updates, clear))
  {
    var before := Resolve(pol, d).value;
    if CanConverge(b, before, updates, clear) {
      ConvergingEnds(pol, b, updates, clear, d);
    } else {
      OneCrashDiverges(pol, b, updates, clear, d);
      DivergingDoesNot(pol, d, Import(b, updates, clear), Goal(before, updates, clear));
    }
  }
}
