/**
 * `stripBundleFromConfig` of `cursorEntry.ts`: the credential bundle taken out of every entry that
 * carries it, and those entries given the safe npx prefix.
 */
module StripBundle {
  import opened Text
  import opened CursorEntry

  /** A server of the configuration: one with an `args` list, or anything else, which is never touched. */
  datatype Server = Entry(isNpx: bool, args: seq<Arg>) | Untouchable(id: nat)

  datatype Named = Named(name: string, server: Server)

  datatype Stripped = Stripped(servers: seq<Named>, entries: seq<string>, hardened: seq<string>)

  predicate IsBundle(bundle: string, a: Arg) {
    a == Str(bundle) || a == Str(IMPORT_BUNDLE_FLAG + "=" + bundle)
  }

  predicate Carries(bundle: string, args: seq<Arg>) {
    exists i :: 0 <= i < |args| && IsBundle(bundle, args[i])
  }

  function Replaced(bundle: string, a: Arg): Arg {
    if a == Str(bundle) then Str(IMPORTED_BUNDLE_PLACEHOLDER)
    else if a == Str(IMPORT_BUNDLE_FLAG + "=" + bundle) then Str(IMPORT_BUNDLE_FLAG + "=" + IMPORTED_BUNDLE_PLACEHOLDER)
    else a
  }

  function ReplaceAll(bundle: string, args: seq<Arg>): (r: seq<Arg>)
    ensures |r| == |args| && forall i :: 0 <= i < |r| ==> r[i] == Replaced(bundle, args[i])
  {
    if args == [] then [] else [Replaced(bundle, args[0])] + ReplaceAll(bundle, args[1..])
  }

  predicate CarriesIn(bundle: string, v: Server) {
    v.Entry? && Carries(bundle, v.args)
  }

  /** The arguments, cleaned and as words. */
  function CleanedWords(isAbsolute: string -> bool, bundle: string, v: Server): seq<Word>
    requires v.Entry?
  {
    Words(isAbsolute, ReplaceAll(bundle, v.args))
  }

  function SafeWord(isAbsolute: string -> bool): Word {
    Read(isAbsolute, Str(SAFE_NPX_PREFIX_ARG))
  }

  function StripServer(isAbsolute: string -> bool, bundle: string, v: Server): Server {
    if !CarriesIn(bundle, v) then v
    else if v.isNpx then v.(args := Args(Harden(CleanedWords(isAbsolute, bundle, v), SafeWord(isAbsolute)).words))
    else v.(args := ReplaceAll(bundle, v.args))
  }

  predicate Hardens(isAbsolute: string -> bool, bundle: string, v: Server) {
    CarriesIn(bundle, v) && v.isNpx && Harden(CleanedWords(isAbsolute, bundle, v), SafeWord(isAbsolute)).changed
  }

  function StripAll(isAbsolute: string -> bool, bundle: string, servers: seq<Named>): Stripped {
    if servers == [] then Stripped([], [], [])
    else
      var last, s := servers[|servers| - 1], StripAll(isAbsolute, bundle, servers[..|servers| - 1]);
      Stripped(s.servers + [last.(server := StripServer(isAbsolute, bundle, last.server))],
               s.entries + (if CarriesIn(bundle, last.server) then [last.name] else []),
               s.hardened + (if Hardens(isAbsolute, bundle, last.server) then [last.name] else []))
  }

  method StripOne(isAbsolute: string -> bool, bundle: string, v: Server) returns (stripped: Server, hardens: bool)
    requires CarriesIn(bundle, v)
    ensures stripped == StripServer(isAbsolute, bundle, v) && hardens == Hardens(isAbsolute, bundle, v)
  {
    if v.isNpx {
      var h := HardenNpxArgs(CleanedWords(isAbsolute, bundle, v), SafeWord(isAbsolute));
      stripped, hardens := v.(args := Args(h.words)), h.changed;
    } else {
      stripped, hardens := v.(args := ReplaceAll(bundle, v.args)), false;
    }
  }

  /** `StripAll` of one more server, given what becomes of it. */
  lemma StripSnoc(isAbsolute: string -> bool, bundle: string, servers: seq<Named>, i: nat, stripped: Server, carries: bool, hardens: bool)
    requires i < |servers| && carries == CarriesIn(bundle, servers[i].server)
    requires stripped == StripServer(isAbsolute, bundle, servers[i].server)
    requires hardens == Hardens(isAbsolute, bundle, servers[i].server)
    ensures var s, name := StripAll(isAbsolute, bundle, servers[..i]), servers[i].name;
      StripAll(isAbsolute, bundle, servers[..i + 1]) ==
        Stripped(s.servers + [servers[i].(server := stripped)],
                 s.entries + (if carries then [name] else []), s.hardened + (if hardens then [name] else []))
  {
    assert servers[..i + 1][..i] == servers[..i] && servers[..i + 1][i] == servers[i];
  }

  /** What the loop has built after the first `i` servers. */
  ghost predicate StrippedSoFar(isAbsolute: string -> bool, bundle: string, servers: seq<Named>, i: nat, s: Stripped)
    requires i <= |servers|
  {
    && s == StripAll(isAbsolute, bundle, servers[..i])
    && (s.entries == [] <==> forall j :: 0 <= j < i ==> !CarriesIn(bundle, servers[j].server))
  }

  method StripNext(isAbsolute: string -> bool, bundle: string, servers: seq<Named>, i: nat, s: Stripped) returns (r: Stripped)
    requires i < |servers| && StrippedSoFar(isAbsolute, bundle, servers, i, s)
    ensures StrippedSoFar(isAbsolute, bundle, servers, i + 1, r)
  {
    var v := servers[i].server;
    var stripped, carries, hardens := v, CarriesIn(bundle, v), false;
    if carries {
      stripped, hardens := StripOne(isAbsolute, bundle, v);
    }
    StripSnoc(isAbsolute, bundle, servers, i, stripped, carries, hardens);
    r := Stripped(s.servers + [servers[i].(server := stripped)],
                  s.entries + (if carries then [servers[i].name] else []),
                  s.hardened + (if hardens then [servers[i].name] else []));
  }

  /** `stripBundleFromConfig`; None where the source returns null. */
  method StripBundleFromConfig(isAbsolute: string -> bool, bundle: string, servers: seq<Named>) returns (r: Option<Stripped>)
    ensures r.None? <==> forall i :: 0 <= i < |servers| ==> !CarriesIn(bundle, servers[i].server)
    ensures r.Some? ==> r.value == StripAll(isAbsolute, bundle, servers)
  {
    var s := Stripped([], [], []);
    for i := 0 to |servers|
      invariant StrippedSoFar(isAbsolute, bundle, servers, i, s)
    {
      s := StripNext(isAbsolute, bundle, servers, i, s);
    }
    assert servers[..|servers|] == servers;
    r := if s.entries == [] then None else Some(s);
  }

  lemma {:induction false} OthersComeFrom(r: seq<Word>, w: Word)
    requires w in Others(Scan(r)) || w in Rest(r)
    ensures w in r
    decreases |r|
  {
    if Width(r) > 0 {
      OthersCons(Head(r), Scan(r[Width(r)..]));
      if w in Others(Scan(r[Width(r)..])) || w in Rest(r) {
        OthersComeFrom(r[Width(r)..], w);
      }
    }
  }

  /** Hardening adds the safe prefix and nothing else. */
  lemma HardenAddsOnlyThePrefix(ws: seq<Word>, safe: Word, w: Word)
    requires w in Harden(ws, safe).words
    ensures w == safe || w in ws
  {
    var r := ws[..StopAt(ws)];
    if w in Others(Scan(r)) || w in Rest(r) {
      OthersComeFrom(r, w);
    }
  }

  /** No text this program itself writes into an entry; true of every real bundle. */
  predicate NotOurs(bundle: string) {
    && bundle != IMPORTED_BUNDLE_PLACEHOLDER && bundle != IMPORT_BUNDLE_FLAG + "=" + IMPORTED_BUNDLE_PLACEHOLDER
    && bundle != SAFE_NPX_PREFIX_ARG
  }

  lemma ReplacedIsClean(bundle: string, a: Arg)
    requires NotOurs(bundle)
    ensures !IsBundle(bundle, Replaced(bundle, a))
  {
    var flag := IMPORT_BUNDLE_FLAG + "=";
    assert |flag| > 1;
    assert (flag + bundle)[|flag|..] == bundle;
    assert (flag + IMPORTED_BUNDLE_PLACEHOLDER)[|flag|..] == IMPORTED_BUNDLE_PLACEHOLDER;
  }

  lemma SafeArgIsClean(bundle: string)
    requires NotOurs(bundle)
    ensures !IsBundle(bundle, Str(SAFE_NPX_PREFIX_ARG))
  {
    assert SAFE_NPX_PREFIX_ARG[2] == 'p' && (IMPORT_BUNDLE_FLAG + "=" + bundle)[2] == 'i';
  }

  /** After stripping no argument of the entry holds the secret, so a second pass finds nothing. */
  lemma NoBundleIsLeft(isAbsolute: string -> bool, bundle: string, v: Server)
    requires NotOurs(bundle)
    ensures !CarriesIn(bundle, StripServer(isAbsolute, bundle, v))
  {
    var out := StripServer(isAbsolute, bundle, v);
    if CarriesIn(bundle, v) {
      forall i | 0 <= i < |out.args|
        ensures !IsBundle(bundle, out.args[i])
      {
        ArgIsClean(isAbsolute, bundle, v, i);
      }
    }
  }

  lemma WordIsClean(isAbsolute: string -> bool, bundle: string, args: seq<Arg>, w: Word)
    requires NotOurs(bundle) && w in Words(isAbsolute, ReplaceAll(bundle, args))
    ensures !IsBundle(bundle, w.arg)
  {
    var ws := Words(isAbsolute, ReplaceAll(bundle, args));
    var k :| 0 <= k < |ws| && ws[k] == w;
    ReplacedIsClean(bundle, args[k]);
  }

  lemma HardenedWordIsClean(isAbsolute: string -> bool, bundle: string, args: seq<Arg>, safe: Word, w: Word)
    requires NotOurs(bundle) && safe == SafeWord(isAbsolute)
    requires w in Harden(Words(isAbsolute, ReplaceAll(bundle, args)), safe).words
    ensures !IsBundle(bundle, w.arg)
  {
    HardenAddsOnlyThePrefix(Words(isAbsolute, ReplaceAll(bundle, args)), safe, w);
    if w == safe {
      SafeArgIsClean(bundle);
    } else {
      WordIsClean(isAbsolute, bundle, args, w);
    }
  }

  lemma ArgIsClean(isAbsolute: string -> bool, bundle: string, v: Server, i: nat)
    requires NotOurs(bundle) && CarriesIn(bundle, v) && i < |StripServer(isAbsolute, bundle, v).args|
    ensures !IsBundle(bundle, StripServer(isAbsolute, bundle, v).args[i])
  {
    if v.isNpx {
      var words := Harden(CleanedWords(isAbsolute, bundle, v), SafeWord(isAbsolute)).words;
      HardenedWordIsClean(isAbsolute, bundle, v.args, SafeWord(isAbsolute), words[i]);
    } else {
      ReplacedIsClean(bundle, v.args[i]);
    }
  }

  predicate StrippedRight(bundle: string, before: Named, after: Named) {
    && after.name == before.name && !CarriesIn(bundle, after.server)
    && (!CarriesIn(bundle, before.server) ==> after == before)
  }

  /**
   * Every server keeps its name and place, none carries the bundle any more, and one that never
   * did comes out exactly as it went in.
   */
  lemma {:induction false} StripTouchesOnlyCarriers(isAbsolute: string -> bool, bundle: string, servers: seq<Named>, i: nat)
    requires NotOurs(bundle) && i < |servers|
    ensures |StripAll(isAbsolute, bundle, servers).servers| == |servers|
    ensures StrippedRight(bundle, servers[i], StripAll(isAbsolute, bundle, servers).servers[i])
  {
    var before, v := servers[..|servers| - 1], servers[|servers| - 1].server;
    if before != [] {
      StripTouchesOnlyCarriers(isAbsolute, bundle, before, if i < |before| then i else 0);
    }
    NoBundleIsLeft(isAbsolute, bundle, v);
    assert servers[..|servers|] == servers;
    StripSnoc(isAbsolute, bundle, servers, |servers| - 1, StripServer(isAbsolute, bundle, v),
              CarriesIn(bundle, v), Hardens(isAbsolute, bundle, v));
  }

  /** The secret is taken out of an argument that is it, alone or behind the flag, and no other argument changes. */
  predicate TakenOut(bundle: string, before: Arg, after: Arg) {
    if before == Str(bundle) then after == Str("-")
    else if before == Str("--import-bundle=" + bundle) then after == Str("--import-bundle=-")
    else after == before
  }

  lemma ReplacedTakesOut(bundle: string, a: Arg)
    ensures TakenOut(bundle, a, Replaced(bundle, a))
  {
    assert IMPORT_BUNDLE_FLAG + "=" == "--import-bundle=";
    assert IMPORT_BUNDLE_FLAG + "=" + IMPORTED_BUNDLE_PLACEHOLDER == "--import-bundle=-";
    assert IMPORTED_BUNDLE_PLACEHOLDER == "-";
  }

  lemma {:induction false} ArgsOfWords(isAbsolute: string -> bool, args: seq<Arg>)
    ensures Args(Words(isAbsolute, args)) == args
  {
  }

  /**
   * What becomes of an entry that carries the bundle: argument by argument the secret is taken out,
   * and where it is hardened the safe prefix comes first and then only arguments of these.
   */
  lemma StrippedArgs(isAbsolute: string -> bool, bundle: string, v: Server, cleaned: seq<Arg>)
    requires CarriesIn(bundle, v) && |cleaned| == |v.args|
    requires forall i :: 0 <= i < |cleaned| ==> TakenOut(bundle, v.args[i], cleaned[i])
    ensures var out := StripServer(isAbsolute, bundle, v);
      && out.Entry? && out.isNpx == v.isNpx
      && (!Hardens(isAbsolute, bundle, v) ==> out.args == cleaned)
      && (Hardens(isAbsolute, bundle, v) ==>
            v.isNpx && out.args != [] && out.args[0] == Str("--prefix=${userHome}") && forall a :: a in out.args[1..] ==> a in cleaned)
  {
    forall i | 0 <= i < |cleaned|
      ensures ReplaceAll(bundle, v.args)[i] == cleaned[i]
    {
      ReplacedTakesOut(bundle, v.args[i]);
    }
    assert ReplaceAll(bundle, v.args) == cleaned;
    ArgsOfWords(isAbsolute, cleaned);
    if Hardens(isAbsolute, bundle, v) {
      HardenedArgs(isAbsolute, cleaned, Harden(Words(isAbsolute, cleaned), SafeWord(isAbsolute)).words);
    }
  }

  lemma HardenedArgs(isAbsolute: string -> bool, args: seq<Arg>, h: seq<Word>)
    requires h == Harden(Words(isAbsolute, args), SafeWord(isAbsolute)).words && Harden(Words(isAbsolute, args), SafeWord(isAbsolute)).changed
    ensures h != [] && h[0].arg == Str(SAFE_NPX_PREFIX_ARG) && forall i :: 0 < i < |h| ==> h[i].arg in args
  {
    var kept := HardenedBehind(Words(isAbsolute, args), SafeWord(isAbsolute), h);
    ReadOfArg(isAbsolute, Str(SAFE_NPX_PREFIX_ARG), SafeWord(isAbsolute));
    KeptArgs(isAbsolute, args, SafeWord(isAbsolute), kept, h);
  }

  lemma KeptArgs(isAbsolute: string -> bool, args: seq<Arg>, safe: Word, kept: seq<Word>, h: seq<Word>)
    requires h == [safe] + kept && forall w :: w in kept ==> w in Words(isAbsolute, args)
    ensures forall i :: 0 < i < |h| ==> h[i].arg in args
  {
    forall i | 0 < i < |h|
      ensures h[i].arg in args
    {
      assert h[i] == kept[i - 1];
      ArgOfWord(isAbsolute, args, h[i]);
    }
  }

  lemma ArgOfWord(isAbsolute: string -> bool, args: seq<Arg>, w: Word)
    requires w in Words(isAbsolute, args)
    ensures w.arg in args
  {
    var ws := Words(isAbsolute, args);
    var k :| 0 <= k < |ws| && ws[k] == w;
    assert ws[k].arg == args[k];
  }

  lemma HardenedBehind(ws: seq<Word>, safe: Word, h: seq<Word>) returns (kept: seq<Word>)
    requires h == Harden(ws, safe).words && Harden(ws, safe).changed
    ensures h == [safe] + kept && forall w :: w in kept ==> w in ws
  {
    var r := ws[..StopAt(ws)];
    kept := Others(Scan(r)) + (Rest(r) + ws[StopAt(ws)..]);
    forall w | w in kept
      ensures w in ws
    {
      KeptComesFrom(ws, r, w);
    }
  }

  lemma KeptComesFrom(ws: seq<Word>, r: seq<Word>, w: Word)
    requires r == ws[..StopAt(ws)] && w in Others(Scan(r)) + (Rest(r) + ws[StopAt(ws)..])
    ensures w in ws
  {
    if w in Others(Scan(r)) || w in Rest(r) {
      OthersComeFrom(r, w);
    }
  }

  /** The names of the servers that are marked, in order. */
  function NamesWhere(servers: seq<Named>, marks: seq<bool>): seq<string>
    requires |marks| == |servers|
  {
    if servers == [] then [] else (if marks[0] then [servers[0].name] else []) + NamesWhere(servers[1..], marks[1..])
  }

  lemma {:induction false} NamesSnoc(servers: seq<Named>, marks: seq<bool>, last: Named, mark: bool)
    requires |marks| == |servers|
    ensures NamesWhere(servers + [last], marks + [mark]) == NamesWhere(servers, marks) + if mark then [last.name] else []
  {
    if servers == [] {
      assert [last][1..] == [] && [mark][1..] == [];
      assert servers + [last] == [last] && marks + [mark] == [mark];
    } else {
      NamesSnoc(servers[1..], marks[1..], last, mark);
      assert (servers + [last])[1..] == servers[1..] + [last] && (marks + [mark])[1..] == marks[1..] + [mark];
    }
  }

  /** Carries the bundle, is an npx entry, and once the bundle is out of it is not safely prefixed. */
  lemma HardensExactlyWhen(isAbsolute: string -> bool, bundle: string, v: Server)
    ensures Hardens(isAbsolute, bundle, v) <==>
      CarriesIn(bundle, v) && v.isNpx && !SafelyPrefixed(Words(isAbsolute, ReplaceAll(bundle, v.args)))
  {
  }

  /** What is reported: the names of the servers that carried the bundle, and of those that were hardened, in order. */
  lemma {:induction false} NamesAreReported(isAbsolute: string -> bool, bundle: string, servers: seq<Named>, carry: seq<bool>, harden: seq<bool>)
    requires |carry| == |servers| && |harden| == |servers|
    requires forall i :: 0 <= i < |servers| ==>
      (carry[i] <==> CarriesIn(bundle, servers[i].server)) && (harden[i] <==> Hardens(isAbsolute, bundle, servers[i].server))
    ensures StripAll(isAbsolute, bundle, servers).entries == NamesWhere(servers, carry)
    ensures StripAll(isAbsolute, bundle, servers).hardened == NamesWhere(servers, harden)
  {
    if servers != [] {
      var n := |servers| - 1;
      NamesAreReported(isAbsolute, bundle, servers[..n], carry[..n], harden[..n]);
      NamesSnoc(servers[..n], carry[..n], servers[n], carry[n]);
      NamesSnoc(servers[..n], harden[..n], servers[n], harden[n]);
      assert servers == servers[..n] + [servers[n]] && carry == carry[..n] + [carry[n]] && harden == harden[..n] + [harden[n]];
    }
  }

  // ---- An entry that stays unsafe ------------------------------------------------------------------------------

  lemma WordsAreOk(isAbsolute: string -> bool, args: seq<Arg>)
    ensures WordsOk(Words(isAbsolute, args))
  {
    forall i | 0 <= i < |args|
      ensures WordOk(Words(isAbsolute, args)[i])
    {
      ReadIsOk(isAbsolute, args[i]);
    }
  }

  lemma SixWords(ws: seq<Word>, safe: Word)
    requires |ws| == 6 && ws[3] == ws[1] && ws[4].bundle && Pattern(ws[0], ws[1], ws[2])
    requires WordsOk(ws) && SafeOption(safe)
    ensures !SafelyPrefixed(Harden(ws, safe).words)
  {
    PatternStaysUnsafe(ws[0], ws[1], ws[2], safe, ws, ws[4..]);
  }

  lemma BundleWord(isAbsolute: string -> bool, f: Arg)
    requires IsBundleFlag(f)
    ensures Read(isAbsolute, f).bundle
  {
  }

  lemma ExampleWords(isAbsolute: string -> bool, args: seq<Arg>)
    requires |args| == 6 && args[3] == args[1] && IsBundleFlag(args[4])
    requires Pattern(Read(isAbsolute, args[0]), Read(isAbsolute, args[1]), Read(isAbsolute, args[2]))
    ensures !SafelyPrefixed(Harden(Words(isAbsolute, args), SafeWord(isAbsolute)).words)
  {
    WordsAreOk(isAbsolute, args);
    SafeArgIsSafe(isAbsolute);
    BundleWord(isAbsolute, args[4]);
    SixWords(Words(isAbsolute, args), SafeWord(isAbsolute));
  }

  lemma ReplacedIs(bundle: string, a: Arg)
    ensures !IsBundle(bundle, a) ==> Replaced(bundle, a) == a
    ensures a == Str(bundle) ==> Replaced(bundle, a) == Str(IMPORTED_BUNDLE_PLACEHOLDER)
  {
  }

  /** Six arguments of which the last is the bundle, once it has been taken out. */
  lemma CleanedExample(bundle: string, x: Arg, p: Arg, g: Arg, f: Arg, v: Server)
    requires !IsBundle(bundle, x) && !IsBundle(bundle, p) && !IsBundle(bundle, g) && !IsBundle(bundle, f)
    requires v == Entry(true, [x, p, g, p, f, Str(bundle)])
    ensures CarriesIn(bundle, v) && ReplaceAll(bundle, v.args) == [x, p, g, p, f, Str(IMPORTED_BUNDLE_PLACEHOLDER)]
  {
    assert IsBundle(bundle, v.args[5]);
    ReplacedIs(bundle, x);
    ReplacedIs(bundle, p);
    ReplacedIs(bundle, g);
    ReplacedIs(bundle, f);
    ReplacedIs(bundle, Str(bundle));
  }

  lemma NotABundle(bundle: string, s: string)
    requires |bundle| > |s| && (|s| <= |IMPORT_BUNDLE_FLAG| || s == IMPORT_BUNDLE_FLAG)
    ensures !IsBundle(bundle, Str(s))
  {
    assert |IMPORT_BUNDLE_FLAG + "=" + bundle| > |s|;
  }

  lemma ExamplePattern(isAbsolute: string -> bool, x: Arg, p: Arg, g: Arg)
    requires x == Str("--xy") && p == Str("--prefix=.") && g == Str("pkg") && !isAbsolute(".")
    ensures Pattern(Read(isAbsolute, x), Read(isAbsolute, p), Read(isAbsolute, g))
  {
    UnknownFlag(isAbsolute, "xy", x.s);
    UnsafePrefix(isAbsolute, p.s);
    Positional(isAbsolute, g.s);
  }

  lemma ExampleIsStripped(isAbsolute: string -> bool, bundle: string, x: Arg, p: Arg, g: Arg, f: Arg, v: Server)
    requires Pattern(Read(isAbsolute, x), Read(isAbsolute, p), Read(isAbsolute, g)) && IsBundleFlag(f)
    requires !IsBundle(bundle, x) && !IsBundle(bundle, p) && !IsBundle(bundle, g) && !IsBundle(bundle, f)
    requires v == Entry(true, [x, p, g, p, f, Str(bundle)])
    ensures Hardens(isAbsolute, bundle, v)
    ensures !SafelyPrefixed(Words(isAbsolute, StripServer(isAbsolute, bundle, v).args))
  {
    CleanedExample(bundle, x, p, g, f, v);
    var args := ReplaceAll(bundle, v.args);
    ExampleWords(isAbsolute, args);
    var h := Harden(Words(isAbsolute, args), SafeWord(isAbsolute));
    HardenedWordsAgain(isAbsolute, args, h.words);
    if !h.changed {
      UnchangedIsSafe(Words(isAbsolute, args), SafeWord(isAbsolute));
    }
  }

  lemma UnchangedIsSafe(ws: seq<Word>, safe: Word)
    requires !Harden(ws, safe).changed
    ensures SafelyPrefixed(Harden(ws, safe).words)
  {
  }

  lemma HardenedWordIsRead(isAbsolute: string -> bool, args: seq<Arg>, safe: Word, w: Word)
    requires safe == SafeWord(isAbsolute) && w in Harden(Words(isAbsolute, args), safe).words
    ensures Read(isAbsolute, w.arg) == w
  {
    var ws := Words(isAbsolute, args);
    HardenAddsOnlyThePrefix(ws, safe, w);
    if w in ws {
      var k :| 0 <= k < |ws| && ws[k] == w;
      ReadOfArg(isAbsolute, args[k], w);
    } else {
      ReadOfArg(isAbsolute, Str(SAFE_NPX_PREFIX_ARG), w);
    }
  }

  lemma ReadOfArg(isAbsolute: string -> bool, a: Arg, w: Word)
    requires w == Read(isAbsolute, a)
    ensures w.arg == a
  {
  }

  lemma {:induction false} WordsOfArgs(isAbsolute: string -> bool, ws: seq<Word>)
    requires forall i :: 0 <= i < |ws| ==> Read(isAbsolute, ws[i].arg) == ws[i]
    ensures Words(isAbsolute, Args(ws)) == ws
  {
    if ws != [] {
      WordsOfArgs(isAbsolute, ws[1..]);
      assert Args(ws)[0] == ws[0].arg && Args(ws)[1..] == Args(ws[1..]);
    }
  }

  /** Reading the hardened arguments again gives the same words. */
  lemma HardenedWordsAgain(isAbsolute: string -> bool, args: seq<Arg>, h: seq<Word>)
    requires h == Harden(Words(isAbsolute, args), SafeWord(isAbsolute)).words
    ensures Words(isAbsolute, Args(h)) == h
  {
    forall i | 0 <= i < |h|
      ensures Read(isAbsolute, h[i].arg) == h[i]
    {
      HardenedWordIsRead(isAbsolute, args, SafeWord(isAbsolute), h[i]);
    }
    WordsOfArgs(isAbsolute, h);
  }

  /**
   * `npx --xy --prefix=. pkg --prefix=. --import-bundle <bundle>`: the entry is hardened, and npx
   * still reads the unsafe prefix, because `--xy` now takes the package name as its value.
   */
  lemma HardenedEntryCanStayUnsafe(isAbsolute: string -> bool, bundle: string)
    requires !isAbsolute(".") && |bundle| > |IMPORT_BUNDLE_FLAG|
    ensures var v := Entry(true, [Str("--xy"), Str("--prefix=."), Str("pkg"), Str("--prefix=."), Str(IMPORT_BUNDLE_FLAG), Str(bundle)]);
      && Hardens(isAbsolute, bundle, v)
      && !SafelyPrefixed(Words(isAbsolute, StripServer(isAbsolute, bundle, v).args))
  {
    var x, p, g, f := Str("--xy"), Str("--prefix=."), Str("pkg"), Str(IMPORT_BUNDLE_FLAG);
    ExamplePattern(isAbsolute, x, p, g);
    NotABundle(bundle, x.s);
    NotABundle(bundle, p.s);
    NotABundle(bundle, g.s);
    NotABundle(bundle, f.s);
    ExampleIsStripped(isAbsolute, bundle, x, p, g, f, Entry(true, [x, p, g, p, f, Str(bundle)]));
  }
}
