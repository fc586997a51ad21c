/**
 * What one merge does to the resolved record, write by write, when it is killed between writes,
 * and when a binary that knows only `config.json` writes in between.
 */
module ConfigSave {
  import opened Text
  import opened ConfigRecord

  /** The arguments of `mergeConfigFileIf`. */
  datatype Merge = Merge(updates: Config, clear: seq<Field>, decide: Config -> bool)

  function FieldSet(fs: seq<Field>): set<Field> {
    set f | f in fs
  }

  function Merged(m: Merge, before: Config): Config {
    (before + m.updates) - FieldSet(m.clear)
  }

  /** The record a completed merge leaves for readers. */
  function Outcome(pol: Policy, m: Merge, before: Config): Config {
    Storable(pol, Merged(m, before))
  }

  /** The two halves of the record: each is carried by its own file. */
  function PairOf(c: Config): Config { Restrict(c, ADMIN_FIELDS) }
  function RestOf(c: Config): Config { c - ADMIN_FIELDS }

  /** The first write of the save happens at all, so it is the one that carries the pair. */
  predicate FirstWriteHappens(d: Disk, data: Config) {
    PairOf(data) != map[] || d.admin != Missing
  }

  function Marker(pol: Policy, d: Disk): Option<string> {
    match ReadObject(d.admin) case Ok(a) => ParseAdmin(pol, a).supersedes case Err => None
  }

  // ---- One save, write by write -------------------------------------------------------------------

  /** What the two files parse to; `Resolve` looks at nothing else. */
  ghost predicate Reads(pol: Policy, d: Disk, inl: Config, a: AdminOnDisk) {
    && ReadObject(d.config).Ok? && ParseFields(pol, ReadObject(d.config).value.fields) == inl
    && ReadObject(d.admin).Ok? && ParseAdmin(pol, ReadObject(d.admin).value) == a
  }

  lemma ReadsResolve(pol: Policy, d: Disk, inl: Config, a: AdminOnDisk)
    requires Reads(pol, d, inl, a)
    ensures Resolve(pol, d) == Ok(Applied(inl, a)) && Inline(pol, d) == inl && Marker(pol, d) == a.supersedes
  {
  }

  lemma ResolvedReads(pol: Policy, d: Disk) returns (inl: Config, a: AdminOnDisk)
    requires Resolve(pol, d).Ok?
    ensures Reads(pol, d, inl, a) && inl == Inline(pol, d) && a.pair.Keys <= ADMIN_FIELDS
    ensures Resolve(pol, d).value == Applied(inl, a)
  {
    inl := Inline(pol, d);
    a := ParseAdmin(pol, ReadObject(d.admin).value);
  }

  lemma AppliedKeepsRest(inl: Config, a: AdminOnDisk)
    requires a.pair.Keys <= ADMIN_FIELDS
    ensures RestOf(Applied(inl, a)) == RestOf(inl)
  {
  }

  /** A marker naming the inline pair, or no inline pair: admin.json's pair counts. */
  lemma AppliedMarked(inl: Config, a: AdminOnDisk)
    requires a.pair.Keys <= ADMIN_FIELDS
    requires a.supersedes == DigestAdminPair(inl) || DigestAdminPair(inl).None?
    ensures Applied(inl, a) == RestOf(inl) + a.pair
  {
  }

  lemma HalvesMakeWhole(c: Config)
    ensures RestOf(c) + PairOf(c) == c
  {
  }

  lemma StorableHalves(pol: Policy, c: Config)
    ensures Storable(pol, RestOf(c)) == RestOf(Storable(pol, c))
    ensures DigestAdminPair(RestOf(Storable(pol, c))) == None
  {
  }

  lemma EmptyAdminReads(pol: Policy)
    ensures ParseAdmin(pol, EMPTY) == AdminOnDisk(map[], None)
  {
    assert ParseFields(pol, map[]) == map[];
  }

  lemma EmptyPairStorable(pol: Policy, c: Config)
    requires PairOf(c) == map[]
    ensures PairOf(Storable(pol, c)) == map[]
  {
    assert forall f :: f in c && f in ADMIN_FIELDS ==> f in PairOf(c);
  }

  /** admin.json written, config.json not yet: the new pair with everything else as before. */
  lemma AfterFirstWrite(pol: Policy, d: Disk, data: Config)
    requires Resolve(pol, d).Ok?
    ensures var before := Resolve(pol, d).value;
      Resolve(pol, WriteAdmin(d, data, Inline(pol, d))) ==
        Ok(if FirstWriteHappens(d, data) then RestOf(before) + PairOf(Storable(pol, data)) else before)
    ensures FirstWriteHappens(d, data) ==> Marker(pol, WriteAdmin(d, data, Inline(pol, d))) == DigestAdminPair(Inline(pol, d))
    ensures FirstWriteHappens(d, data) ==>
      Reads(pol, WriteAdmin(d, data, Inline(pol, d)), Inline(pol, d),
            AdminOnDisk(PairOf(Storable(pol, data)), DigestAdminPair(Inline(pol, d))))
  {
    var inl, a := ResolvedReads(pol, d);
    if FirstWriteHappens(d, data) {
      var a1 := AdminOnDisk(PairOf(Storable(pol, data)), DigestAdminPair(inl));
      PrintThenParseAdmin(pol, data, DigestAdminPair(inl));
      var d1 := WriteAdmin(d, data, inl);
      assert Reads(pol, d1, inl, a1);
      ReadsResolve(pol, d1, inl, a1);
      AppliedMarked(inl, a1);
      AppliedKeepsRest(inl, a);
    }
  }

  /** Both files written, with or without the marker: the merged record, whole. */
  lemma AfterBothWrites(pol: Policy, d: Disk, data: Config, k: nat)
    requires Resolve(pol, d).Ok? && 2 <= k <= 3
    ensures var e := Saved(d, data, Inline(pol, d), k);
      && Resolve(pol, e) == Ok(Storable(pol, data))
      && Inline(pol, e) == RestOf(Storable(pol, data))
      && (k == 3 ==> Reads(pol, e, RestOf(Storable(pol, data)), AdminOnDisk(PairOf(Storable(pol, data)), None)))
  {
    var e, kept := Saved(d, data, Inline(pol, d), k), Storable(pol, data);
    var a := BothRead(pol, d, data, k);
    ReadsResolve(pol, e, RestOf(kept), a);
    RestAndPair(kept, a);
  }

  lemma RestAndPair(c: Config, a: AdminOnDisk)
    requires a.pair == PairOf(c) && (a.supersedes == DigestAdminPair(RestOf(c)) || DigestAdminPair(RestOf(c)).None?)
    ensures Applied(RestOf(c), a) == c
  {
    AppliedMarked(RestOf(c), a);
    HalvesMakeWhole(c);
    assert RestOf(RestOf(c)) == RestOf(c);
  }

  /** What the two files read as after both writes. */
  lemma BothRead(pol: Policy, d: Disk, data: Config, k: nat) returns (a: AdminOnDisk)
    requires Resolve(pol, d).Ok? && 2 <= k <= 3
    ensures Reads(pol, Saved(d, data, Inline(pol, d), k), RestOf(Storable(pol, data)), a)
    ensures a.pair == PairOf(Storable(pol, data)) && DigestAdminPair(RestOf(Storable(pol, data))).None?
    ensures k == 3 ==> a.supersedes.None?
  {
    PrintThenParse(pol, RestOf(data));
    StorableHalves(pol, data);
    a := AdminAfter(pol, d, data, k);
  }

  /** What admin.json says once config.json is written. */
  lemma AdminAfter(pol: Policy, d: Disk, data: Config, k: nat) returns (a: AdminOnDisk)
    requires Resolve(pol, d).Ok? && 2 <= k <= 3
    ensures var e := Saved(d, data, Inline(pol, d), k);
      ReadObject(e.admin).Ok? && ParseAdmin(pol, ReadObject(e.admin).value) == a
    ensures a.pair == PairOf(Storable(pol, data)) && (k == 3 ==> a.supersedes.None?)
  {
    var inl := Inline(pol, d);
    PrintThenParseAdmin(pol, data, DigestAdminPair(inl));
    PrintThenParseAdmin(pol, data, None);
    if FirstWriteHappens(d, data) {
      a := AdminOnDisk(PairOf(Storable(pol, data)), if k == 3 then None else DigestAdminPair(inl));
    } else {
      EmptyAdminReads(pol);
      EmptyPairStorable(pol, data);
      a := AdminOnDisk(map[], None);
    }
  }

  // ---- A merge killed anywhere --------------------------------------------------------------------

  /** Merging is fieldwise: the new pair depends on the old pair only, the rest on the old rest only. */
  lemma OutcomeIsFieldwise(pol: Policy, m: Merge, c: Config, c': Config, fs: set<Field>)
    requires Restrict(c, fs) == Restrict(c', fs)
    ensures Restrict(Outcome(pol, m, c), fs) == Restrict(Outcome(pol, m, c'), fs)
  {
    var a, b := Merged(m, c), Merged(m, c');
    forall f | f in fs
      ensures (f in a <==> f in b) && (f in a ==> a[f] == b[f])
    {
      assert f in c <==> f in Restrict(c, fs);
      assert f in c' <==> f in Restrict(c', fs);
    }
  }

  /**
   * A merge killed after `k` of its three writes leaves the pair of the old record or of the new
   * one, never a mixture, and likewise everything else; which one it is depends on which of the
   * two carrying writes had landed.
   */
  lemma KilledMerge(pol: Policy, d: Disk, m: Merge, k: nat)
    requires Resolve(pol, d).Ok? && k <= 3
    ensures var before := Resolve(pol, d).value;
      var data := Merged(m, before);
      var pairLanded := k >= 2 || (k == 1 && FirstWriteHappens(d, data));
      Resolve(pol, Saved(d, data, Inline(pol, d), k)) ==
        Ok(RestOf(if k >= 2 then Outcome(pol, m, before) else before)
           + PairOf(if pairLanded then Outcome(pol, m, before) else before))
  {
    var before := Resolve(pol, d).value;
    var data := Merged(m, before);
    HalvesMakeWhole(before);
    if k == 1 {
      AfterFirstWrite(pol, d, data);
    } else if k >= 2 {
      AfterBothWrites(pol, d, data, k);
      HalvesMakeWhole(Outcome(pol, m, before));
    }
  }

  // ---- The merged record is what was asked for ------------------------------------------------------

  predicate StorableField(pol: Policy, f: Field, v: Value) {
    ParseField(pol, f, ToJson(v)) == Some(v)
  }

  /**
   * A completed merge leaves exactly `{...before, ...updates}` without the cleared fields, if and
   * only if every update that is not cleared is a value the loader accepts back.
   */
  lemma MergeKeepsWhatItWasGiven(pol: Policy, d: Disk, m: Merge)
    requires Resolve(pol, d).Ok?
    ensures var before := Resolve(pol, d).value;
      Outcome(pol, m, before) == Merged(m, before) <==>
        forall f :: f in m.updates && f !in m.clear ==> StorableField(pol, f, m.updates[f])
  {
    var before := Resolve(pol, d).value;
    var data := Merged(m, before);
    ResolvedIsStorable(pol, d);
    assert forall f :: f in before ==> f in Storable(pol, before) && Storable(pol, before)[f] == before[f];
    if Outcome(pol, m, before) == data {
      forall f | f in m.updates && f !in m.clear
        ensures StorableField(pol, f, m.updates[f])
      {
        assert f in data && data[f] == m.updates[f];
        assert f in Storable(pol, data);
      }
    }
  }

  /** A value that comes back as it was written: text of the right sort, or a clean list of folders. */
  predicate ComesBack(pol: Policy, f: Field, v: Value) {
    if f == AllowedDirs then v.Dirs? && v.dirs != [] && forall i :: 0 <= i < |v.dirs| ==> v.dirs[i] != "" && Trim(v.dirs[i]) == v.dirs[i]
    else
      && v.Str?
      && (f == BaseUrl ==> pol.allowedUrl(v.s))
      && (f == WebAccountAddress || f == KeyAdminAddress ==> pol.validAddress(v.s))
  }

  lemma StorableMeansComesBack(pol: Policy, f: Field, v: Value)
    ensures StorableField(pol, f, v) <==> ComesBack(pol, f, v)
  {
    if f == AllowedDirs && v.Dirs? {
      CleanDirsIsClean(JStrings(v.dirs));
      if Clean(v.dirs) {
        CleanDirsKeepsClean(v.dirs);
      }
    }
  }

  /**
   * After a completed merge a cleared field is gone, one that was not named is as it was, and an
   * updated one has its new value exactly if that is one the loader takes.
   */
  lemma CompletedMergeAt(pol: Policy, d: Disk, m: Merge, f: Field)
    requires Resolve(pol, d).Ok?
    ensures var before := Resolve(pol, d).value;
      var after := Resolve(pol, Saved(d, Merged(m, before), Inline(pol, d), 3));
      && after.Ok?
      && (f in m.clear ==> f !in after.value)
      && (f !in m.clear && f !in m.updates ==>
            (f in after.value <==> f in before) && (f in before ==> after.value[f] == before[f]))
      && (f !in m.clear && f in m.updates ==>
            (f in after.value && after.value[f] == m.updates[f] <==> ComesBack(pol, f, m.updates[f])))
  {
    var before := Resolve(pol, d).value;
    AfterBothWrites(pol, d, Merged(m, before), 3);
    ResolvedIsStorable(pol, d);
    OutcomeAt(pol, m, before, f);
  }

  lemma OutcomeAt(pol: Policy, m: Merge, before: Config, f: Field)
    requires Storable(pol, before) == before
    ensures var after := Outcome(pol, m, before);
      && (f in m.clear ==> f !in after)
      && (f !in m.clear && f !in m.updates ==> (f in after <==> f in before) && (f in before ==> after[f] == before[f]))
      && (f !in m.clear && f in m.updates ==> (f in after && after[f] == m.updates[f] <==> ComesBack(pol, f, m.updates[f])))
  {
    assert f in before ==> f in Storable(pol, before) && Storable(pol, before)[f] == before[f];
    if f in m.updates {
      StorableMeansComesBack(pol, f, m.updates[f]);
    }
  }

  // ---- Binaries that know only config.json ------------------------------------------------------------

  /** What an older binary does: write its whole record, Key-Admin pair included, into config.json. */
  function OldWrite(d: Disk, c: Config): Disk {
    d.(config := Object(Obj(Print(c), None)))
  }

  /** A full inline pair, as an older binary's key rotation writes it. */
  predicate FullPair(c: Config) {
    AdminKey in c && c[AdminKey].Str? && AdminServicePrivateKey in c && c[AdminServicePrivateKey].Str?
  }

  lemma FullPairIsStorable(pol: Policy, c: Config)
    requires FullPair(c)
    ensures PairOf(Storable(pol, c)) == PairOf(c) && FullPair(Storable(pol, c))
    ensures DigestAdminPair(Storable(pol, c)) == DigestAdminPair(c)
  {
    assert forall f :: f in c && f in ADMIN_FIELDS ==> f in Storable(pol, c) && Storable(pol, c)[f] == c[f];
  }

  lemma AppliedFullPair(inl: Config, a: AdminOnDisk)
    requires FullPair(inl) && a.pair.Keys <= ADMIN_FIELDS
    ensures PairOf(Applied(inl, a)) == if DigestAdminPair(inl) == a.supersedes then a.pair else PairOf(inl)
  {
  }

  lemma OldWriteReads(pol: Policy, d: Disk, inl: Config, a: AdminOnDisk, c: Config)
    requires Reads(pol, d, inl, a)
    ensures Reads(pol, OldWrite(d, c), Storable(pol, c), a)
  {
    PrintThenParse(pol, c);
  }

  /** The inline pair wins exactly when no marker names it, or when the two files agree anyway. */
  lemma InlinePairWins(pol: Policy, d: Disk, c: Config)
    requires Resolve(pol, d).Ok? && FullPair(c)
    ensures Resolve(pol, OldWrite(d, c)).Ok?
    ensures PairOf(Resolve(pol, OldWrite(d, c)).value) == PairOf(c) <==>
      DigestAdminPair(c) != Marker(pol, d) || ParseAdmin(pol, ReadObject(d.admin).value).pair == PairOf(c)
  {
    var inl, a := ResolvedReads(pol, d);
    ReadsResolve(pol, d, inl, a);
    OldWriteReads(pol, d, inl, a, c);
    ReadsResolve(pol, OldWrite(d, c), Storable(pol, c), a);
    FullPairIsStorable(pol, c);
    AppliedFullPair(Storable(pol, c), a);
  }

  lemma UntouchedPair(m: Merge, before: Config)
    requires m.updates.Keys !! ADMIN_FIELDS && FieldSet(m.clear) !! ADMIN_FIELDS
    ensures PairOf(Merged(m, before)) == PairOf(before)
  {
  }

  lemma SamePairSameStorablePair(pol: Policy, a: Config, b: Config)
    requires PairOf(a) == PairOf(b)
    ensures PairOf(Storable(pol, a)) == PairOf(Storable(pol, b))
  {
    forall f | f in ADMIN_FIELDS
      ensures (f in a <==> f in b) && (f in a ==> a[f] == b[f])
    {
      assert f in a <==> f in PairOf(a);
      assert f in b <==> f in PairOf(b);
    }
  }

  /**
   * After any completed save an older binary's rotation is what counts, even a rollback to the
   * very pair that save replaced; and the next save that leaves the pair alone moves exactly that
   * pair into admin.json, with no inline copy and no marker left behind.
   */
  lemma OldRotationSurvives(pol: Policy, d: Disk, data: Config, c: Config, m: Merge)
    requires Resolve(pol, d).Ok? && FullPair(c)
    requires m.updates.Keys !! ADMIN_FIELDS && FieldSet(m.clear) !! ADMIN_FIELDS
    ensures var e := OldWrite(Saved(d, data, Inline(pol, d), 3), c);
      && Resolve(pol, e).Ok? && PairOf(Resolve(pol, e).value) == PairOf(c)
      && var g := Saved(e, Merged(m, Resolve(pol, e).value), Inline(pol, e), 3);
      && Resolve(pol, g).Ok? && PairOf(Resolve(pol, g).value) == PairOf(c)
      && Reads(pol, g, Inline(pol, g), AdminOnDisk(PairOf(c), None))
      && PairOf(Inline(pol, g)) == map[]
  {
    var s := Saved(d, data, Inline(pol, d), 3);
    AfterBothWrites(pol, d, data, 3);
    ReadsResolve(pol, s, RestOf(Storable(pol, data)), AdminOnDisk(PairOf(Storable(pol, data)), None));
    InlinePairWins(pol, s, c);
    var e := OldWrite(s, c);
    var before := Resolve(pol, e).value;
    var next := Merged(m, before);
    UntouchedPair(m, before);
    SamePairSameStorablePair(pol, next, c);
    FullPairIsStorable(pol, c);
    AfterBothWrites(pol, e, next, 3);
  }

  /**
   * After an interrupted save (admin.json written, the marker not yet dropped), the rotation counts
   * unless it writes back the pair that was inline when the save began, which is then taken for a
   * leftover.
   */
  lemma OldRotationAfterInterruption(pol: Policy, d: Disk, data: Config, c: Config, k: nat)
    requires Resolve(pol, d).Ok? && FullPair(c) && FirstWriteHappens(d, data) && 1 <= k <= 2
    ensures var e := OldWrite(Saved(d, data, Inline(pol, d), k), c);
      && Resolve(pol, e).Ok?
      && (PairOf(Resolve(pol, e).value) == PairOf(c) <==>
            DigestAdminPair(c) != DigestAdminPair(Inline(pol, d)) || PairOf(Storable(pol, data)) == PairOf(c))
  {
    AfterFirstWrite(pol, d, data);
    AfterBothWrites(pol, d, data, 2);
    PrintThenParseAdmin(pol, data, DigestAdminPair(Inline(pol, d)));
    assert Saved(d, data, Inline(pol, d), k).admin == Saved(d, data, Inline(pol, d), 1).admin;
    InlinePairWins(pol, Saved(d, data, Inline(pol, d), k), c);
  }

  // ---- Readers that take no lock -------------------------------------------------------------------

  /** `loadConfigFile` reads config.json, then admin.json, and holds no lock over the two. */
  function TornRead(pol: Policy, first: Disk, second: Disk): Result<Config> {
    Resolve(pol, Disk(first.config, second.admin))
  }

  lemma TornReadIs(pol: Policy, d: Disk, data: Config)
    requires Resolve(pol, d).Ok?
    ensures TornRead(pol, d, Saved(d, data, Inline(pol, d), 3)) ==
      Ok(Applied(Inline(pol, d), AdminOnDisk(PairOf(Storable(pol, data)), None)))
  {
    var inl, a := ResolvedReads(pol, d);
    var e := Saved(d, data, inl, 3);
    AfterBothWrites(pol, d, data, 3);
    var a' := AdminOnDisk(PairOf(Storable(pol, data)), None);
    assert Reads(pol, Disk(d.config, e.admin), inl, a');
    ReadsResolve(pol, Disk(d.config, e.admin), inl, a');
  }

  /** With no marker the inline halves count and admin.json fills in the others. */
  lemma AppliedUnmarked(inl: Config, a: AdminOnDisk)
    requires a.pair.Keys <= ADMIN_FIELDS && (PairOf(inl) == map[] || a.supersedes != DigestAdminPair(inl))
    ensures PairOf(Applied(inl, a)) == a.pair + PairOf(inl)
  {
    assert forall f :: f in ADMIN_FIELDS ==> (f in inl <==> f in PairOf(inl));
  }

  /** When a pair laid over another changes nothing, and when it gives a third one. */
  lemma OverlayIs(base: Config, top: Config, other: Config)
    requires base.Keys <= ADMIN_FIELDS && top.Keys <= ADMIN_FIELDS && other.Keys <= ADMIN_FIELDS
    ensures base + top == base <==> Restrict(base, top.Keys) == top
    ensures base + top == other <==>
      Restrict(other, top.Keys) == top && Restrict(other, ADMIN_FIELDS - top.Keys) == Restrict(base, ADMIN_FIELDS - top.Keys)
  {
    var rest := ADMIN_FIELDS - top.Keys;
    if Restrict(base, top.Keys) == top {
      assert forall f :: f in top ==> f in Restrict(base, top.Keys) && base[f] == top[f];
    }
    if base + top == base {
      assert forall f :: f in top ==> f in base && base[f] == (base + top)[f];
    }
    if Restrict(other, top.Keys) == top && Restrict(other, rest) == Restrict(base, rest) {
      assert forall f :: f in top ==> f in Restrict(other, top.Keys) && other[f] == top[f];
      assert forall f :: f in rest ==> (f in other <==> f in Restrict(other, rest)) && (f in base <==> f in Restrict(base, rest));
      assert forall f :: f in rest && f in base ==> Restrict(other, rest)[f] == Restrict(base, rest)[f];
    }
  }

  /**
   * A whole save landing between the two reads: every half that config.json carried is read as it
   * stood there, every other half as the save left it. The reader gets the old pair or the new one
   * exactly if the inline halves are the new ones, or they are the old ones and the save left the
   * other half as it was. The inline halves are the old ones unless the marker names them as a
   * leftover; by the second read that marker is gone, and the leftover comes back.
   */
  lemma ReadAcrossASave(pol: Policy, d: Disk, data: Config)
    requires Resolve(pol, d).Ok?
    ensures var r := TornRead(pol, d, Saved(d, data, Inline(pol, d), 3));
      var oldPair, newPair, inline := PairOf(Resolve(pol, d).value), PairOf(Storable(pol, data)), PairOf(Inline(pol, d));
      && r.Ok? && PairOf(r.value) == newPair + inline
      && (PairOf(r.value) == oldPair || PairOf(r.value) == newPair <==>
            || Restrict(newPair, inline.Keys) == inline
            || (Restrict(oldPair, inline.Keys) == inline
                && Restrict(oldPair, ADMIN_FIELDS - inline.Keys) == Restrict(newPair, ADMIN_FIELDS - inline.Keys)))
      && (inline == map[] || DigestAdminPair(Inline(pol, d)) != Marker(pol, d) ==> Restrict(oldPair, inline.Keys) == inline)
  {
    var inl, a := ResolvedReads(pol, d);
    ReadsResolve(pol, d, inl, a);
    TornReadIs(pol, d, data);
    var newPair := PairOf(Storable(pol, data));
    AppliedUnmarked(inl, AdminOnDisk(newPair, None));
    OverlayIs(newPair, PairOf(inl), PairOf(Resolve(pol, d).value));
    if PairOf(inl) == map[] || DigestAdminPair(inl) != Marker(pol, d) {
      AppliedUnmarked(inl, a);
      OverlayIs(a.pair, PairOf(inl), a.pair + PairOf(inl));
    }
  }

  // ---- When equal digests mean equal pairs -----------------------------------------------------------

  lemma {:induction false} FirstLineIsUnique(a: string, b: string, c: string, d: string)
    requires '\n' !in a && '\n' !in c && a + "\n" + b == c + "\n" + d
    ensures a == c && b == d
  {
    var left, right := a + "\n" + b, c + "\n" + d;
    assert left[|a|] == '\n' && right[|c|] == '\n';
    assert forall i :: 0 <= i < |a| ==> left[i] == a[i];
    assert forall i :: 0 <= i < |c| ==> right[i] == c[i];
    assert left[..|a|] == a && right[..|c|] == c;
    assert left[|a| + 1..] == b && right[|c| + 1..] == d;
  }

  /** The halves that are there are strings, as the loader leaves them. */
  predicate StringPair(c: Config) {
    (AdminKey in c ==> c[AdminKey].Str?) && (AdminServicePrivateKey in c ==> c[AdminServicePrivateKey].Str?)
  }

  /** No half that is there is empty; either may be absent. */
  predicate Filled(c: Config) {
    && StringPair(c)
    && (AdminKey in c ==> TextOf(c, AdminKey) != "")
    && (AdminServicePrivateKey in c ==> TextOf(c, AdminServicePrivateKey) != "")
  }

  predicate OneLine(s: string) {
    '\n' !in s
  }

  predicate NoLineBreak(c: Config) {
    OneLine(TextOf(c, AdminKey)) && OneLine(TextOf(c, AdminServicePrivateKey))
  }

  /** Filled pairs whose keys have no line break are told apart by their digests. */
  lemma DigestIsInjective(a: Config, b: Config)
    requires Filled(a) && Filled(b) && OneLine(TextOf(a, AdminKey)) && OneLine(TextOf(b, AdminKey))
    requires DigestAdminPair(a) == DigestAdminPair(b)
    ensures PairOf(a) == PairOf(b)
  {
    if DigestAdminPair(a).Some? {
      FirstLineIsUnique(TextOf(a, AdminKey), TextOf(a, AdminServicePrivateKey), TextOf(b, AdminKey), TextOf(b, AdminServicePrivateKey));
    }
  }

  /** No other pair at all has this one's digest. */
  ghost predicate NamedAmongAll(c: Config) {
    forall b :: StringPair(b) && DigestAdminPair(b) == DigestAdminPair(c) ==> PairOf(b) == PairOf(c)
  }

  /** No other filled pair has this one's digest. */
  ghost predicate NamedAmongFilled(c: Config) {
    forall b :: Filled(b) && DigestAdminPair(b) == DigestAdminPair(c) ==> PairOf(b) == PairOf(c)
  }

  /** The filled pair with these texts; an empty text is an absent half. */
  function Halves(key: string, signer: string): (c: Config)
    ensures Filled(c) && TextOf(c, AdminKey) == key && TextOf(c, AdminServicePrivateKey) == signer
    ensures DigestAdminPair(c) == if key == "" && signer == "" then None else Some(key + "\n" + signer)
  {
    (if key == "" then map[] else map[AdminKey := Str(key)])
    + (if signer == "" then map[] else map[AdminServicePrivateKey := Str(signer)])
  }

  lemma SplitAtBreak(s: string) returns (before: string, after: string)
    requires !OneLine(s)
    ensures s == before + "\n" + after
  {
    var i :| 0 <= i < |s| && s[i] == '\n';
    before, after := s[..i], s[i + 1..];
  }

  /** A text with a second line break can be cut there instead. */
  lemma CutElsewhere(key: string, signer: string) returns (otherKey: string, otherSigner: string)
    requires !OneLine(key) || !OneLine(signer)
    ensures otherKey + "\n" + otherSigner == key + "\n" + signer && otherKey != key && (otherKey != "" || otherSigner != "")
  {
    if !OneLine(key) {
      var after;
      otherKey, after := SplitAtBreak(key);
      otherSigner := after + "\n" + signer;
      assert otherKey + "\n" + otherSigner == (otherKey + "\n" + after) + "\n" + signer;
    } else {
      var before;
      before, otherSigner := SplitAtBreak(signer);
      otherKey := key + "\n" + before;
      assert otherKey + "\n" + otherSigner == key + "\n" + (before + "\n" + otherSigner);
    }
  }

  /** The pair that shares the digest of one with a line break in either half. */
  lemma DigestCollides(c: Config) returns (b: Config)
    requires StringPair(c) && !NoLineBreak(c)
    ensures Filled(b) && DigestAdminPair(b) == DigestAdminPair(c) && PairOf(b) != PairOf(c)
  {
    var otherKey, otherSigner := CutElsewhere(TextOf(c, AdminKey), TextOf(c, AdminServicePrivateKey));
    b := Halves(otherKey, otherSigner);
    DifferentKeys(b, c);
  }

  lemma DifferentKeys(b: Config, c: Config)
    requires TextOf(b, AdminKey) != TextOf(c, AdminKey)
    ensures PairOf(b) != PairOf(c)
  {
    KeyOfPair(b);
    KeyOfPair(c);
  }

  lemma KeyOfPair(c: Config)
    ensures TextOf(PairOf(c), AdminKey) == TextOf(c, AdminKey)
  {
    assert AdminKey in c <==> AdminKey in PairOf(c);
  }

  /** The pair that shares the digest of one with an empty or an absent half: empty and absent read alike. */
  lemma EmptyReadsAsAbsent(c: Config) returns (b: Config)
    requires StringPair(c) && DigestAdminPair(c).Some?
    requires TextOf(c, AdminKey) == "" || TextOf(c, AdminServicePrivateKey) == ""
    ensures StringPair(b) && DigestAdminPair(b) == DigestAdminPair(c) && PairOf(b) != PairOf(c)
  {
    var both: Config := map[AdminKey := Str(TextOf(c, AdminKey)), AdminServicePrivateKey := Str(TextOf(c, AdminServicePrivateKey))];
    if AdminKey in c && AdminServicePrivateKey in c {
      var emptyHalf := if TextOf(c, AdminKey) == "" then AdminKey else AdminServicePrivateKey;
      b := both - {emptyHalf};
      assert emptyHalf in PairOf(c) && emptyHalf !in PairOf(b);
    } else {
      var absentHalf := if AdminKey in c then AdminServicePrivateKey else AdminKey;
      b := both;
      assert absentHalf !in PairOf(c) && absentHalf in PairOf(b);
    }
  }

  /** Of filled pairs, the digest names exactly those without a line break in either half. */
  lemma DigestNamesFilledExactlyWhen(c: Config)
    requires Filled(c)
    ensures NamedAmongFilled(c) <==> NoLineBreak(c)
  {
    if NoLineBreak(c) {
      forall b | Filled(b) && DigestAdminPair(b) == DigestAdminPair(c)
        ensures PairOf(b) == PairOf(c)
      {
        OneBreakOneCut(b, c);
      }
    } else {
      var b := DigestCollides(c);
      assert Filled(b) && DigestAdminPair(b) == DigestAdminPair(c) && PairOf(b) != PairOf(c);
    }
  }

  lemma BreakInside(x: string, y: string, z: string, s: string)
    requires s == x + "\n" + y && |x| > |z| && z + "\n" <= s
    ensures !OneLine(x)
  {
    assert x[|z|] == s[|z|] == (z + "\n")[|z|] == '\n';
  }

  lemma BreakBehind(x: string, y: string, z: string, s: string)
    requires s == x + "\n" + y && |z| > |x| && z + "\n" <= s
    ensures !OneLine(y)
  {
    assert y[|z| - |x| - 1] == s[|z|] == (z + "\n")[|z|] == '\n';
  }

  /** A text with one line break can be cut into halves in one way only. */
  lemma SameCut(key: string, signer: string, otherKey: string, otherSigner: string)
    requires OneLine(key) && OneLine(signer) && otherKey + "\n" + otherSigner == key + "\n" + signer
    ensures otherKey == key && otherSigner == signer
  {
    var s := key + "\n" + signer;
    if |otherKey| < |key| {
      BreakInside(key, signer, otherKey, s);
    } else if |otherKey| > |key| {
      BreakBehind(key, signer, otherKey, s);
    } else {
      assert otherKey == s[..|key|] == key && otherSigner == s[|key| + 1..] == signer;
    }
  }

  lemma OneBreakOneCut(b: Config, c: Config)
    requires Filled(b) && Filled(c) && NoLineBreak(c) && DigestAdminPair(b) == DigestAdminPair(c)
    ensures PairOf(b) == PairOf(c)
  {
    if DigestAdminPair(c).Some? {
      SameCut(TextOf(c, AdminKey), TextOf(c, AdminServicePrivateKey), TextOf(b, AdminKey), TextOf(b, AdminServicePrivateKey));
    }
  }

  /** Of all pairs, it names the absent one and those with both halves there, not empty, and without a line break. */
  lemma DigestNamesExactlyWhen(c: Config)
    requires StringPair(c)
    ensures NamedAmongAll(c) <==>
      PairOf(c) == map[] || (TextOf(c, AdminKey) != "" && TextOf(c, AdminServicePrivateKey) != "" && NoLineBreak(c))
  {
    assert DigestAdminPair(c).None? <==> PairOf(c) == map[] by {
      assert forall f :: f in ADMIN_FIELDS ==> (f in c <==> f in PairOf(c));
    }
    if PairOf(c) == map[] {
    } else if TextOf(c, AdminKey) == "" || TextOf(c, AdminServicePrivateKey) == "" {
      var b := EmptyReadsAsAbsent(c);
      assert StringPair(b) && PairOf(b) != PairOf(c);
    } else if !NoLineBreak(c) {
      var b := DigestCollides(c);
      assert StringPair(b) && PairOf(b) != PairOf(c);
    } else {
      forall b | StringPair(b) && DigestAdminPair(b) == DigestAdminPair(c)
        ensures PairOf(b) == PairOf(c)
      {
        SameCut(TextOf(c, AdminKey), TextOf(c, AdminServicePrivateKey), TextOf(b, AdminKey), TextOf(b, AdminServicePrivateKey));
      }
    }
  }
}
