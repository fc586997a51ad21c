/**
 * `cursorEntry.ts`: the launch arguments of a Cursor entry, scanned the way npx scans them, given a
 * safe prefix, and rid of the credential bundle.
 */
module CursorEntry {
  import opened Text

  /** One element of `args`: a string, or something else that JavaScript shows as a string. */
  datatype Arg = Str(s: string) | Value(shown: string)

  const IMPORT_BUNDLE_FLAG := "--import-bundle"
  const IMPORTED_BUNDLE_PLACEHOLDER := "-"
  const SAFE_NPX_PREFIX_ARG := "--prefix=${userHome}"
  const NPX_SWITCHES := {"yes", "y", "no-install", "quiet", "q", "offline", "prefer-offline"}
  const NPX_OPTS := {"package", "p", "call", "c", "cache", "userconfig", "shell"}

  // ---- One argument ----------------------------------------------------------------------------------

  function StripDashes(s: string): string {
    if s != "" && s[0] == '-' then StripDashes(s[1..]) else s
  }

  /** The part of an option before `=`, without its dashes. */
  function Key(s: string): string {
    StripDashes(s[..IndexOf(s, '=')])
  }

  function InlineValue(s: string): Option<string> {
    var eq := IndexOf(s, '=');
    if eq < |s| then Some(s[eq + 1..]) else None
  }

  predicate IsPrefixKey(key: string) {
    key == "C" || (|key| >= |"prefi"| && StartsWith("prefix", key))
  }

  predicate IsNegatedPrefixKey(key: string) {
    StartsWith(key, "no-") && IsPrefixKey(key[3..])
  }

  predicate IsDashed(a: Arg) {
    match a case Str(s) => StartsWith(s, "-") case Value(shown) => StartsWith(shown, "-")
  }

  /** `path.isAbsolute` is the platform's. */
  predicate IsSafePrefix(isAbsolute: string -> bool, value: Arg) {
    value.Str? && (value.s == "${userHome}" || isAbsolute(value.s))
  }

  predicate IsBundleFlag(a: Arg) {
    a.Str? && (a.s == IMPORT_BUNDLE_FLAG || StartsWith(a.s, IMPORT_BUNDLE_FLAG + "="))
  }

  /**
   * An argument with the answers to everything the scan asks about it: does it end npm's options;
   * does it name npm's prefix, and negate it; can it take a value; is it safe as an inline value or
   * as a value of its own.
   */
  datatype Word = Word(arg: Arg, bundle: bool, ends: bool, dashed: bool, negated: bool, prefix: bool, inline: bool,
                       neverTakes: bool, alwaysTakes: bool, safeInline: bool, safeValue: bool)

  function Read(isAbsolute: string -> bool, a: Arg): Word {
    var s := if a.Str? then a.s else a.shown;
    var key, value := Key(s), InlineValue(s);
    Word(a, IsBundleFlag(a), a.Value? || a.s == "--" || !IsDashed(a), IsDashed(a),
         IsNegatedPrefixKey(key), IsPrefixKey(key) || IsNegatedPrefixKey(key), value.Some?,
         IsNegatedPrefixKey(key) || value.Some? || key in NPX_SWITCHES, key in NPX_OPTS,
         value.Some? && IsSafePrefix(isAbsolute, Str(value.value)), IsSafePrefix(isAbsolute, a))
  }

  function Words(isAbsolute: string -> bool, args: seq<Arg>): (ws: seq<Word>)
    ensures |ws| == |args| && forall i :: 0 <= i < |ws| ==> ws[i] == Read(isAbsolute, args[i])
  {
    if args == [] then [] else [Read(isAbsolute, args[0])] + Words(isAbsolute, args[1..])
  }

  function Args(ws: seq<Word>): (args: seq<Arg>)
    ensures |args| == |ws| && forall i :: 0 <= i < |ws| ==> args[i] == ws[i].arg
  {
    if ws == [] then [] else [ws[0].arg] + Args(ws[1..])
  }

  // ---- The scan as npx does it -------------------------------------------------------------------------

  /** Whether the option at the head reads the word after it as its value. */
  predicate TakesNext(r: seq<Word>)
    requires r != []
  {
    !r[0].neverTakes && |r| > 1 && (r[0].alwaysTakes || !r[1].dashed)
  }

  /** How many words the option at the head takes; 0 where the options end. */
  function Width(r: seq<Word>): (n: nat)
    ensures n <= |r| && n <= 2 && (n == 0 <==> r == [] || r[0].ends)
  {
    if r == [] || r[0].ends then 0 else if TakesNext(r) then 2 else 1
  }

  /** One option with the value it takes, if any; whether it sets npm's prefix, and to something safe. */
  datatype Token = Token(words: seq<Word>, prefix: bool, safe: bool)

  function Head(r: seq<Word>): Token
    requires Width(r) > 0
  {
    Token(r[..Width(r)], r[0].prefix,
          !r[0].negated && if r[0].inline then r[0].safeInline else TakesNext(r) && r[1].safeValue)
  }

  function Scan(r: seq<Word>): seq<Token>
    decreases |r|
  {
    if Width(r) == 0 then [] else [Head(r)] + Scan(r[Width(r)..])
  }

  /** Everything from the first positional on. */
  function Rest(r: seq<Word>): seq<Word>
    decreases |r|
  {
    if Width(r) == 0 then r else Rest(r[Width(r)..])
  }

  predicate HasPrefix(tokens: seq<Token>) {
    exists k :: 0 <= k < |tokens| && tokens[k].prefix
  }

  predicate AllSafe(tokens: seq<Token>) {
    forall k :: 0 <= k < |tokens| && tokens[k].prefix ==> tokens[k].safe
  }

  /** The options that do not set a prefix, in order. */
  function Others(tokens: seq<Token>): seq<Word> {
    if tokens == [] then []
    else
      var last := tokens[|tokens| - 1];
      Others(tokens[..|tokens| - 1]) + if last.prefix then [] else last.words
  }

  /** Where the scan stops at the latest. */
  function StopAt(ws: seq<Word>): (n: nat)
    ensures n <= |ws| && (forall j :: 0 <= j < n ==> !ws[j].bundle) && (n < |ws| ==> ws[n].bundle)
  {
    if ws == [] || ws[0].bundle then 0 else 1 + StopAt(ws[1..])
  }

  datatype Hardened = Hardened(words: seq<Word>, changed: bool)

  /** `safe` is the argument that goes first. */
  function Harden(ws: seq<Word>, safe: Word): Hardened {
    var stop := StopAt(ws);
    var tokens := Scan(ws[..stop]);
    if HasPrefix(tokens) && AllSafe(tokens) then Hardened(ws, false)
    else Hardened([safe] + (Others(tokens) + (Rest(ws[..stop]) + ws[stop..])), true)
  }

  // ---- The loop ----------------------------------------------------------------------------------------

  /** The first `n` words without those whose index was marked. */
  function Unmarked(ws: seq<Word>, marked: set<nat>, n: nat): seq<Word>
    requires n <= |ws|
  {
    if n == 0 then [] else Unmarked(ws, marked, n - 1) + if n - 1 in marked then [] else [ws[n - 1]]
  }

  lemma {:induction false} UnmarkedLocal(ws: seq<Word>, marked: set<nat>, more: set<nat>, n: nat)
    requires n <= |ws| && forall j :: j in more ==> j >= n
    ensures Unmarked(ws, marked + more, n) == Unmarked(ws, marked, n)
  {
    if n > 0 {
      UnmarkedLocal(ws, marked, more, n - 1);
    }
  }

  lemma {:induction false} UnmarkedTail(ws: seq<Word>, marked: set<nat>, i: nat, n: nat)
    requires i <= n <= |ws| && forall j :: j in marked ==> j < i
    ensures Unmarked(ws, marked, n) == Unmarked(ws, marked, i) + ws[i..n]
  {
    if i < n {
      UnmarkedTail(ws, marked, i, n - 1);
      assert ws[i..n] == ws[i..n - 1] + [ws[n - 1]];
    } else {
      assert ws[i..n] == [];
    }
  }

  /** Marking all of a token drops it, marking none keeps it. */
  lemma UnmarkedToken(ws: seq<Word>, marked: set<nat>, i: nat, w: nat, drop: bool)
    requires i + w <= |ws| && 1 <= w <= 2 && forall j :: j in marked ==> j < i
    ensures var now := if drop then marked + (if w == 2 then {i, i + 1} else {i}) else marked;
      Unmarked(ws, now, i + w) == Unmarked(ws, marked, i) + if drop then [] else ws[i..i + w]
  {
    var more: set<nat> := if w == 2 then {i, i + 1} else {i};
    if drop {
      UnmarkedLocal(ws, marked, more, i);
      assert w == 2 ==> Unmarked(ws, marked + more, i + 1) == Unmarked(ws, marked + more, i) + [];
      assert Unmarked(ws, marked + more, i + w) == Unmarked(ws, marked, i);
    } else {
      UnmarkedTail(ws, marked, i, i + w);
    }
  }

  lemma ScanSnoc(tokens: seq<Token>, t: Token)
    ensures Others(tokens + [t]) == Others(tokens) + if t.prefix then [] else t.words
    ensures HasPrefix(tokens + [t]) <==> HasPrefix(tokens) || t.prefix
    ensures AllSafe(tokens + [t]) <==> AllSafe(tokens) && (t.prefix ==> t.safe)
  {
    var more := tokens + [t];
    assert more[..|more| - 1] == tokens && more[|tokens|] == t;
    assert forall k :: 0 <= k < |tokens| ==> more[k] == tokens[k];
  }

  lemma ScanAt(r: seq<Word>, i: nat)
    requires i <= |r| && Width(r[i..]) > 0
    ensures var w := Width(r[i..]);
      && 1 <= w <= 2 && i + w <= |r| && Head(r[i..]).words == r[i..i + w]
      && Scan(r[i..]) == [Head(r[i..])] + Scan(r[i + w..])
      && Rest(r[i..]) == Rest(r[i + w..])
  {
    assert r[i..][Width(r[i..])..] == r[i + Width(r[i..])..];
  }

  /** The region's tokens are those behind the loop and those still ahead. */
  ghost predicate TokensDone(r: seq<Word>, done: seq<Token>, i: nat) {
    i <= |r| && Scan(r) == done + Scan(r[i..]) && Rest(r[i..]) == Rest(r)
  }

  /** The marks and the flag say about the tokens behind the loop what the scan says. */
  ghost predicate MarksDone(ws: seq<Word>, done: seq<Token>, marked: set<nat>, allSafe: bool, i: nat) {
    && i <= |ws| && (forall j :: j in marked ==> j < i)
    && Unmarked(ws, marked, i) == Others(done)
    && (marked != {} <==> HasPrefix(done)) && (allSafe <==> AllSafe(done))
  }

  lemma TokensDoneOne(r: seq<Word>, done: seq<Token>, i: nat)
    requires TokensDone(r, done, i) && Width(r[i..]) > 0
    ensures TokensDone(r, done + [Head(r[i..])], i + Width(r[i..]))
  {
    ScanAt(r, i);
    var t, more := Head(r[i..]), Scan(r[i + Width(r[i..])..]);
    assert done + ([t] + more) == (done + [t]) + more;
  }

  lemma MarksDoneOne(ws: seq<Word>, done: seq<Token>, marked: set<nat>, allSafe: bool, i: nat, t: Token, w: nat)
    requires MarksDone(ws, done, marked, allSafe, i)
    requires 1 <= w <= 2 && i + w <= |ws| && t.words == ws[i..i + w]
    ensures MarksDone(ws, done + [t],
                      if t.prefix then marked + (if w == 2 then {i, i + 1} else {i}) else marked,
                      if t.prefix then allSafe && t.safe else allSafe, i + w)
  {
    ScanSnoc(done, t);
    UnmarkedToken(ws, marked, i, w, t.prefix);
  }

  lemma TailOfAll(ws: seq<Word>, r: seq<Word>, i: nat)
    requires |r| <= |ws| && r == ws[..|r|] && i <= |r|
    ensures ws[i..|ws|] == r[i..] + ws[|r|..]
  {
  }

  lemma AllDone(ws: seq<Word>, r: seq<Word>, done: seq<Token>, marked: set<nat>, allSafe: bool, i: nat)
    requires |r| <= |ws| && r == ws[..|r|] && i <= |r|
    requires TokensDone(r, done, i) && MarksDone(ws, done, marked, allSafe, i) && Width(r[i..]) == 0
    ensures Scan(r) == done
    ensures Unmarked(ws, marked, |ws|) == Others(done) + (Rest(r) + ws[|r|..])
  {
    assert done + [] == done;
    UnmarkedTail(ws, marked, i, |ws|);
    TailOfAll(ws, r, i);
  }

  /** One turn of the loop: the option at `i`, marked if it sets the prefix. */
  method MarkOne(ws: seq<Word>, r: seq<Word>, ghost done: seq<Token>, marked: set<nat>, allSafe: bool, i: nat)
    returns (ghost now: seq<Token>, marks: set<nat>, safe: bool, next: nat)
    requires |r| <= |ws| && r == ws[..|r|] && i <= |r| && Width(r[i..]) > 0
    requires TokensDone(r, done, i) && MarksDone(ws, done, marked, allSafe, i)
    ensures i < next <= |r| && TokensDone(r, now, next) && MarksDone(ws, now, marks, safe, next)
  {
    var t, w := Head(r[i..]), Width(r[i..]);
    TokensDoneOne(r, done, i);
    WordsOfHead(ws, r, i);
    MarksDoneOne(ws, done, marked, allSafe, i, t, w);
    marks, safe := marked, allSafe;
    if t.prefix {
      marks := marked + if w == 2 then {i, i + 1} else {i};
      safe := allSafe && t.safe;
    }
    next := i + w;
    now := done + [t];
  }

  /** The loop of `hardenNpxArgs`: the marks drop exactly the prefix tokens of the region `r`. */
  method MarkPrefixes(ws: seq<Word>, r: seq<Word>) returns (marked: set<nat>, allSafe: bool)
    requires |r| <= |ws| && r == ws[..|r|]
    ensures (marked != {} <==> HasPrefix(Scan(r))) && (allSafe <==> AllSafe(Scan(r)))
    ensures Unmarked(ws, marked, |ws|) == Others(Scan(r)) + (Rest(r) + ws[|r|..])
  {
    marked, allSafe := {}, true;
    var i := 0;
    ghost var done: seq<Token> := [];
    NothingDone(ws, r);
    while Width(r[i..]) > 0
      invariant i <= |r| && TokensDone(r, done, i) && MarksDone(ws, done, marked, allSafe, i)
      decreases |r| - i
    {
      done, marked, allSafe, i := MarkOne(ws, r, done, marked, allSafe, i);
    }
    AllDone(ws, r, done, marked, allSafe, i);
  }

  lemma NothingDone(ws: seq<Word>, r: seq<Word>)
    ensures TokensDone(r, [], 0) && MarksDone(ws, [], {}, true, 0)
  {
    assert r[0..] == r && [] + Scan(r) == Scan(r);
  }

  lemma WordsOfHead(ws: seq<Word>, r: seq<Word>, i: nat)
    requires |r| <= |ws| && r == ws[..|r|] && i <= |r| && Width(r[i..]) > 0
    ensures i + Width(r[i..]) <= |r| && Head(r[i..]).words == ws[i..i + Width(r[i..])]
  {
  }

  /** `hardenNpxArgs`. */
  method HardenNpxArgs(ws: seq<Word>, safe: Word) returns (h: Hardened)
    ensures h == Harden(ws, safe)
  {
    var stop := StopAt(ws);
    var marked, allSafe := MarkPrefixes(ws, ws[..stop]);
    if marked != {} && allSafe {
      return Hardened(ws, false);
    }
    h := Hardened([safe] + Unmarked(ws, marked, |ws|), true);
  }

  // ---- What survives -------------------------------------------------------------------------------------

  predicate EndsWith(s: seq<Word>, tail: seq<Word>) {
    |tail| <= |s| && s[|s| - |tail|..] == tail
  }

  lemma EndsWithItself(front: seq<Word>, tail: seq<Word>, s: seq<Word>)
    requires s == front + tail
    ensures EndsWith(s, tail)
  {
  }

  /** The region is its options, then its rest. */
  lemma {:induction false} RestIsSuffix(r: seq<Word>) returns (front: seq<Word>)
    ensures r == front + Rest(r) && Width(Rest(r)) == 0
    decreases |r|
  {
    if Width(r) == 0 {
      front := [];
    } else {
      var first, tail := r[..Width(r)], r[Width(r)..];
      var more := RestIsSuffix(tail);
      front := first + more;
      Regroup(first, more, Rest(tail), tail, r);
    }
  }

  lemma Regroup(a: seq<Word>, b: seq<Word>, c: seq<Word>, tail: seq<Word>, whole: seq<Word>)
    requires tail == b + c && whole == a + tail
    ensures whole == a + b + c
  {
  }

  /** From the first positional or the bundle flag on, every argument survives in its place. */
  lemma TailSurvives(ws: seq<Word>, safe: Word)
    ensures var tail := Rest(ws[..StopAt(ws)]) + ws[StopAt(ws)..];
      EndsWith(ws, tail) && EndsWith(Harden(ws, safe).words, tail)
  {
    var r, after := ws[..StopAt(ws)], ws[StopAt(ws)..];
    assert ws == r + after;
    var front := RestIsSuffix(r);
    EndsInRest(front, Rest(r), after, ws);
    SafeFirstEnds(safe, Others(Scan(r)), Rest(r), after);
  }

  lemma EndsInRest(front: seq<Word>, rest: seq<Word>, after: seq<Word>, s: seq<Word>)
    requires s == front + rest + after
    ensures EndsWith(s, rest + after)
  {
    EndsWithItself(front, rest + after, s);
  }

  lemma SafeFirstEnds(safe: Word, others: seq<Word>, rest: seq<Word>, after: seq<Word>)
    ensures EndsWith([safe] + (others + (rest + after)), rest + after)
  {
    EndsWithItself([safe] + others, rest + after, [safe] + (others + (rest + after)));
  }

  // ---- Hardening twice -----------------------------------------------------------------------------------

  /** What `Read` guarantees about the answers in a word. */
  predicate WordOk(w: Word) {
    && (!w.ends ==> w.dashed) && (w.negated ==> w.prefix && w.neverTakes) && (w.inline ==> w.neverTakes)
  }

  lemma ReadIsOk(isAbsolute: string -> bool, a: Arg)
    ensures WordOk(Read(isAbsolute, a))
  {
  }

  predicate WordsOk(ws: seq<Word>) {
    forall i :: 0 <= i < |ws| ==> WordOk(ws[i])
  }

  /** The inserted argument is one token, sets the prefix, and is safe. */
  predicate SafeOption(w: Word) {
    !w.bundle && !w.ends && w.prefix && !w.negated && w.inline && w.neverTakes && w.safeInline
  }

  lemma {:induction false} OptionParts(key: string, value: string, s: string)
    requires s == "--" + key + "=" + value && key != "" && key[0] != '-' && '=' !in key
    ensures Key(s) == key && InlineValue(s) == Some(value)
  {
    var eq := |key| + 2;
    assert s[eq] == '=';
    forall j | 0 <= j < eq
      ensures s[j] != '='
    {
      if j >= 2 {
        assert s[j] == key[j - 2];
      }
    }
    assert IndexOf(s, '=') == eq;
    assert s[..eq] == "--" + key && s[eq + 1..] == value;
    assert ("--" + key)[1..] == "-" + key && ("-" + key)[1..] == key;
    assert StripDashes(key) == key && StripDashes("-" + key) == key;
  }

  lemma NotTheBundleFlag(s: string)
    requires |s| > 2 && s[2] == 'p'
    ensures !IsBundleFlag(Str(s))
  {
    var flag := IMPORT_BUNDLE_FLAG;
    assert flag[2] == 'i' && (flag + "=")[2] == 'i';
  }

  lemma PrefixIsPrefixKey(key: string)
    requires key == "prefix"
    ensures IsPrefixKey(key) && !IsNegatedPrefixKey(key)
  {
    assert key[0] == 'p' && "no-"[0] == 'n';
  }

  lemma SafeRead(isAbsolute: string -> bool, s: string, value: string)
    requires !IsBundleFlag(Str(s)) && IsPrefixKey(Key(s)) && !IsNegatedPrefixKey(Key(s))
    requires InlineValue(s) == Some(value) && IsSafePrefix(isAbsolute, Str(value))
    requires |s| > 2 && s[0] == '-' && s[2] != '-'
    ensures SafeOption(Read(isAbsolute, Str(s)))
  {
  }

  lemma SafeArgParts() returns (s: string, key: string, value: string)
    ensures s == SAFE_NPX_PREFIX_ARG && key == "prefix" && value == "${userHome}"
    ensures s == "--" + key + "=" + value && key != "" && key[0] == 'p' && '=' !in key && |s| > 2 && s[2] == 'p' && s[0] == '-'
  {
    s, key, value := SAFE_NPX_PREFIX_ARG, "prefix", "${userHome}";
  }

  lemma SafeArgIsSafe(isAbsolute: string -> bool)
    ensures SafeOption(Read(isAbsolute, Str(SAFE_NPX_PREFIX_ARG)))
  {
    var s, key, value := SafeArgParts();
    OptionParts(key, value, s);
    NotTheBundleFlag(s);
    PrefixIsPrefixKey(key);
    SafeRead(isAbsolute, s, value);
  }

  /** The last option that is kept. */
  function LastKept(tokens: seq<Token>): Option<Token> {
    if tokens == [] then None
    else if LastKept(tokens[1..]).Some? then LastKept(tokens[1..])
    else if tokens[0].prefix then None else Some(tokens[0])
  }

  function Kept(tokens: seq<Token>): seq<Token> {
    if tokens == [] then [] else (if tokens[0].prefix then [] else [tokens[0]]) + Kept(tokens[1..])
  }

  /** A flag standing alone that would take a value if one came next. */
  predicate Open(t: Token) {
    |t.words| == 1 && !t.words[0].neverTakes
  }

  /** Dropping the prefix tokens brings the first positional right behind a flag that then takes it. */
  predicate Swallows(r: seq<Word>) {
    && Rest(r) != [] && !Rest(r)[0].dashed
    && LastKept(Scan(r)).Some? && Open(LastKept(Scan(r)).value)
  }

  function KeptWords(t: Token): seq<Word> {
    if t.prefix then [] else t.words
  }

  lemma OthersSnoc(tokens: seq<Token>, t: Token, all: seq<Token>)
    requires all == tokens + [t]
    ensures Others(all) == Others(tokens) + KeptWords(t)
  {
    assert all[..|all| - 1] == tokens && all[|tokens|] == t;
  }

  lemma ConsSnoc(t: Token, tokens: seq<Token>, before: seq<Token>, last: Token)
    requires tokens != [] && before == tokens[..|tokens| - 1] && last == tokens[|tokens| - 1]
    ensures tokens == before + [last] && [t] + tokens == ([t] + before) + [last]
  {
  }

  lemma {:induction false} OthersCons(t: Token, tokens: seq<Token>)
    ensures Others([t] + tokens) == (if t.prefix then [] else t.words) + Others(tokens)
  {
    if tokens == [] {
      OthersSnoc([], t, [t] + tokens);
    } else {
      var before, last := tokens[..|tokens| - 1], tokens[|tokens| - 1];
      ConsSnoc(t, tokens, before, last);
      OthersCons(t, before);
      OthersSnoc([t] + before, last, [t] + tokens);
      OthersSnoc(before, last, tokens);
      Regroup(KeptWords(t), Others(before), KeptWords(last), Others(tokens), KeptWords(t) + Others(tokens));
    }
  }

  /** What is kept starts with an option, and there is something kept exactly if there is a last. */
  lemma {:induction false} KeptStartsDashed(r: seq<Word>)
    requires WordsOk(r)
    ensures var o := Others(Scan(r)); (o != [] <==> LastKept(Scan(r)).Some?) && (o != [] ==> o[0].dashed)
    decreases |r|
  {
    if Width(r) > 0 {
      KeptStartsDashed(r[Width(r)..]);
      OthersCons(Head(r), Scan(r[Width(r)..]));
      assert Scan(r)[1..] == Scan(r[Width(r)..]);
    }
  }

  /** The outcome of scanning `o + rest`, where the kept options `o` come from `r`. */
  ghost predicate RescanOk(r: seq<Word>) {
    var again := Others(Scan(r)) + Rest(r);
    && (!Swallows(r) ==> Scan(again) == Kept(Scan(r)) && Rest(again) == Rest(r))
    && (Swallows(r) ==> (AllSafe(Scan(again)) <==> AllSafe(Scan(Rest(r)[1..]))))
  }

  /** A kept token read again before `more`: it takes what it took, unless it was open and now finds a value. */
  lemma HeadAgain(r: seq<Word>, more: seq<Word>)
    requires Width(r) > 0
    requires more != [] && Open(Head(r)) ==> |r| > 1 && more[0].dashed
    ensures var again := r[..Width(r)] + more;
      Width(again) == Width(r) && Head(again) == Head(r) && again[Width(r)..] == more
  {
    var again := r[..Width(r)] + more;
    assert again[0] == r[0];
    assert Width(r) == 2 ==> again[1] == r[1];
    assert again[..Width(r)] == r[..Width(r)];
  }

  lemma AllSafeCons(t: Token, tokens: seq<Token>)
    requires !t.prefix
    ensures AllSafe([t] + tokens) <==> AllSafe(tokens)
  {
    var all := [t] + tokens;
    assert forall k :: 0 <= k < |tokens| ==> all[k + 1] == tokens[k];
    assert forall k :: 0 < k < |all| ==> all[k] == tokens[k - 1];
  }

  lemma RescanDropped(r: seq<Word>)
    requires WordsOk(r) && Width(r) > 0 && r[0].prefix && RescanOk(r[Width(r)..])
    ensures RescanOk(r)
  {
    var tail := r[Width(r)..];
    OthersCons(Head(r), Scan(tail));
    assert Scan(r)[1..] == Scan(tail);
    assert Others(Scan(r)) == Others(Scan(tail));
  }

  lemma SwallowedScan(r: seq<Word>, rest: seq<Word>, again: seq<Word>)
    requires Width(r) > 0 && !r[0].prefix && Open(Head(r)) && rest != [] && !rest[0].dashed && again == [r[0]] + rest
    ensures AllSafe(Scan(again)) <==> AllSafe(Scan(rest[1..]))
  {
    assert Width(again) == 2 && again[2..] == rest[1..];
    AllSafeCons(Head(again), Scan(again[2..]));
  }

  lemma OnlyHeadKept(r: seq<Word>, tail: seq<Word>)
    requires WordsOk(tail) && Width(r) == 1 && !r[0].prefix && tail == r[1..] && Others(Scan(tail)) == []
    ensures Others(Scan(r)) == [r[0]] && LastKept(Scan(r)) == Some(Head(r)) && Rest(r) == Rest(tail)
  {
    OthersOfScan(r, tail);
    KeptStartsDashed(tail);
    assert Scan(r)[1..] == Scan(tail) && Scan(r)[0] == Head(r);
  }

  /** The flag whose value was dropped takes the first positional instead. */
  lemma RescanSwallows(r: seq<Word>)
    requires WordsOk(r) && Width(r) > 0 && !r[0].prefix && Open(Head(r))
    requires Others(Scan(r[Width(r)..])) == [] && Rest(r) != [] && !Rest(r)[0].dashed
    ensures RescanOk(r)
  {
    OnlyHeadKept(r, r[1..]);
    SwallowedScan(r, Rest(r), Others(Scan(r)) + Rest(r));
  }

  lemma OthersOfScan(r: seq<Word>, tail: seq<Word>)
    requires Width(r) > 0 && !r[0].prefix && tail == r[Width(r)..]
    ensures Others(Scan(r)) == r[..Width(r)] + Others(Scan(tail))
  {
    OthersCons(Head(r), Scan(tail));
  }

  lemma SwallowsSame(r: seq<Word>, tail: seq<Word>)
    requires WordsOk(tail) && Width(r) > 0 && !r[0].prefix && tail == r[Width(r)..]
    requires Open(Head(r)) && Others(Scan(tail)) == [] ==> Rest(r) == [] || Rest(r)[0].dashed
    ensures Swallows(r) <==> Swallows(tail)
    ensures Kept(Scan(r)) == [Head(r)] + Kept(Scan(tail))
  {
    KeptStartsDashed(tail);
    assert Scan(r)[1..] == Scan(tail) && Scan(r)[0] == Head(r);
  }

  lemma ScanAgain(r: seq<Word>, more: seq<Word>, again: seq<Word>)
    requires Width(r) > 0 && !r[0].prefix && again == r[..Width(r)] + more
    requires more != [] && Open(Head(r)) ==> |r| > 1 && more[0].dashed
    ensures Scan(again) == [Head(r)] + Scan(more) && Rest(again) == Rest(more)
    ensures AllSafe(Scan(again)) <==> AllSafe(Scan(more))
  {
    HeadAgain(r, more);
    AllSafeCons(Head(r), Scan(more));
  }

  lemma RescanJoin(r: seq<Word>, tail: seq<Word>, again: seq<Word>, more: seq<Word>, head: Token)
    requires RescanOk(tail) && Rest(r) == Rest(tail) && (Swallows(r) <==> Swallows(tail))
    requires Kept(Scan(r)) == [head] + Kept(Scan(tail))
    requires again == Others(Scan(r)) + Rest(r) && more == Others(Scan(tail)) + Rest(tail)
    requires Scan(again) == [head] + Scan(more) && Rest(again) == Rest(more)
    requires AllSafe(Scan(again)) <==> AllSafe(Scan(more))
    ensures RescanOk(r)
  {
  }

  /** What follows the head again: as before it does not offer an open flag a value. */
  lemma NothingToTake(r: seq<Word>, tail: seq<Word>, more: seq<Word>)
    requires WordsOk(tail) && Width(r) > 0 && tail == r[Width(r)..] && more == Others(Scan(tail)) + Rest(tail)
    requires Open(Head(r)) && Others(Scan(tail)) == [] ==> Rest(tail) == [] || Rest(tail)[0].dashed
    ensures more != [] && Open(Head(r)) ==> |r| > 1 && more[0].dashed
  {
    KeptStartsDashed(tail);
    if Others(Scan(tail)) == [] {
      assert more == Rest(tail);
    }
    if Open(Head(r)) && |r| == 1 {
      assert tail == [];
    }
  }

  lemma RescanSame(r: seq<Word>)
    requires WordsOk(r) && Width(r) > 0 && !r[0].prefix && RescanOk(r[Width(r)..])
    requires Open(Head(r)) && Others(Scan(r[Width(r)..])) == [] ==> Rest(r) == [] || Rest(r)[0].dashed
    ensures RescanOk(r)
  {
    var tail := r[Width(r)..];
    SwallowsSame(r, tail);
    var more := Others(Scan(tail)) + Rest(tail);
    NothingToTake(r, tail, more);
    var again := r[..Width(r)] + more;
    ScanAgain(r, more, again);
    OthersAgain(r, tail, more);
    RescanJoin(r, tail, again, more, Head(r));
  }

  lemma OthersAgain(r: seq<Word>, tail: seq<Word>, more: seq<Word>)
    requires Width(r) > 0 && !r[0].prefix && tail == r[Width(r)..] && more == Others(Scan(tail)) + Rest(tail)
    ensures Others(Scan(r)) + Rest(r) == r[..Width(r)] + more
  {
    OthersOfScan(r, tail);
    Regroup(r[..Width(r)], Others(Scan(tail)), Rest(tail), more, r[..Width(r)] + more);
  }

  lemma {:induction false} Rescan(r: seq<Word>)
    requires WordsOk(r)
    ensures RescanOk(r)
    decreases |r|
  {
    if Width(r) == 0 {
      assert [] + r == r;
    } else {
      Rescan(r[Width(r)..]);
      if r[0].prefix {
        RescanDropped(r);
      } else if Open(Head(r)) && Others(Scan(r[Width(r)..])) == [] && Rest(r) != [] && !Rest(r)[0].dashed {
        RescanSwallows(r);
      } else {
        RescanSame(r);
      }
    }
  }

  /** Where the scan of the hardened arguments stops, and what it finds first. */
  lemma HardenedRegion(ws: seq<Word>, safe: Word, o: seq<Word>, rest: seq<Word>, after: seq<Word>)
    requires SafeOption(safe) && ws == [safe] + (o + (rest + after))
    requires (forall i :: 0 <= i < |o| ==> !o[i].bundle) && (forall i :: 0 <= i < |rest| ==> !rest[i].bundle)
    requires after == [] || after[0].bundle
    ensures ws[..StopAt(ws)] == [safe] + (o + rest) && ws[StopAt(ws)..] == after
    ensures Scan([safe] + (o + rest)) == [Token([safe], true, true)] + Scan(o + rest)
    ensures Rest([safe] + (o + rest)) == Rest(o + rest)
  {
    var n := 1 + |o| + |rest|;
    forall i | 0 <= i < n
      ensures !ws[i].bundle
    {
      assert ws[i] == (if i == 0 then safe else if i <= |o| then o[i - 1] else rest[i - 1 - |o|]);
    }
    assert n < |ws| ==> ws[n] == after[0];
    assert StopAt(ws) == n;
    var r := [safe] + (o + rest);
    assert ws[..n] == r && ws[n..] == after;
    assert Width(r) == 1 && r[..1] == [safe] && r[1..] == o + rest;
  }

  lemma {:induction false} OthersAreFromTheRegion(r: seq<Word>)
    requires forall i :: 0 <= i < |r| ==> !r[i].bundle
    ensures forall i :: 0 <= i < |Others(Scan(r))| ==> !Others(Scan(r))[i].bundle
    decreases |r|
  {
    if Width(r) > 0 {
      OthersAreFromTheRegion(r[Width(r)..]);
      OthersCons(Head(r), Scan(r[Width(r)..]));
    }
  }

  lemma SafeFirst(tokens: seq<Token>, safe: Word)
    ensures var all := [Token([safe], true, true)] + tokens;
      HasPrefix(all) && (AllSafe(all) <==> AllSafe(tokens))
  {
    var all := [Token([safe], true, true)] + tokens;
    assert all[0].prefix;
    assert forall k :: 0 <= k < |tokens| ==> all[k + 1] == tokens[k];
    assert forall k :: 0 < k < |all| ==> all[k] == tokens[k - 1];
  }

  lemma {:induction false} KeptSetNoPrefix(tokens: seq<Token>)
    ensures !HasPrefix(Kept(tokens)) && AllSafe(Kept(tokens))
  {
    if tokens != [] {
      KeptSetNoPrefix(tokens[1..]);
    }
  }

  lemma RestIsFromTheRegion(r: seq<Word>)
    requires forall i :: 0 <= i < |r| ==> !r[i].bundle
    ensures forall i :: 0 <= i < |Rest(r)| ==> !Rest(r)[i].bundle
  {
    var front := RestIsSuffix(r);
    BehindFront(front, Rest(r), r);
  }

  lemma BehindFront(front: seq<Word>, rest: seq<Word>, r: seq<Word>)
    requires r == front + rest && forall i :: 0 <= i < |r| ==> !r[i].bundle
    ensures forall i :: 0 <= i < |rest| ==> !rest[i].bundle
  {
    assert forall i :: 0 <= i < |rest| ==> rest[i] == r[|front| + i];
  }

  lemma RegionHasNoBundle(ws: seq<Word>, r: seq<Word>, after: seq<Word>)
    requires r == ws[..StopAt(ws)] && after == ws[StopAt(ws)..]
    ensures (forall i :: 0 <= i < |r| ==> !r[i].bundle) && (after == [] || after[0].bundle)
  {
  }

  /** The options npx reads from the hardened arguments. */
  lemma HardenedScan(ws: seq<Word>, safe: Word)
    requires WordsOk(ws) && SafeOption(safe) && Harden(ws, safe).changed
    ensures var r, h := ws[..StopAt(ws)], Harden(ws, safe).words;
      var again := Others(Scan(r)) + Rest(r);
      && Scan(h[..StopAt(h)]) == [Token([safe], true, true)] + Scan(again) && Rest(h[..StopAt(h)]) == Rest(again)
      && RescanOk(r)
  {
    var r, after := ws[..StopAt(ws)], ws[StopAt(ws)..];
    RegionHasNoBundle(ws, r, after);
    OthersAreFromTheRegion(r);
    RestIsFromTheRegion(r);
    HardenedRegion(Harden(ws, safe).words, safe, Others(Scan(r)), Rest(r), after);
    Rescan(r);
  }

  /** A prefix is there and every one is safe: the guard of the branch that changes nothing. */
  predicate SafelyPrefixed(ws: seq<Word>) {
    var tokens := Scan(ws[..StopAt(ws)]);
    HasPrefix(tokens) && AllSafe(tokens)
  }

  /**
   * Rescanning hardened arguments finds the inserted prefix and then exactly the options that were
   * kept, unless a dropped prefix leaves an unknown flag standing before the first positional.
   */
  lemma RescanFindsOnlyTheInsertedPrefix(ws: seq<Word>, safe: Word)
    requires WordsOk(ws) && SafeOption(safe) && !SafelyPrefixed(ws) && !Swallows(ws[..StopAt(ws)])
    ensures var r, h := ws[..StopAt(ws)], Harden(ws, safe).words;
      && Scan(h[..StopAt(h)]) == [Token([safe], true, true)] + Kept(Scan(r))
      && Rest(h[..StopAt(h)]) == Rest(r) && !HasPrefix(Kept(Scan(r)))
  {
    HardenedScan(ws, safe);
    KeptSetNoPrefix(Scan(ws[..StopAt(ws)]));
  }

  /**
   * After hardening npx reads a prefix and only safe ones, which is what keeps it out of the
   * workspace, exactly when that was so before, or no flag swallows the first positional, or what
   * comes after that positional sets no unsafe prefix.
   */
  lemma HardenedIsSafeExactlyWhen(ws: seq<Word>, safe: Word)
    requires WordsOk(ws) && SafeOption(safe)
    ensures var r := ws[..StopAt(ws)];
      SafelyPrefixed(Harden(ws, safe).words) <==> SafelyPrefixed(ws) || !Swallows(r) || AllSafe(Scan(Rest(r)[1..]))
  {
    var r := ws[..StopAt(ws)];
    if !SafelyPrefixed(ws) {
      HardenedScan(ws, safe);
      SafeFirst(Scan(Others(Scan(r)) + Rest(r)), safe);
      KeptSetNoPrefix(Scan(r));
    }
  }

  /** Hardening is idempotent in exactly the same cases. */
  lemma HardenedStaysHardened(ws: seq<Word>, safe: Word)
    requires WordsOk(ws) && SafeOption(safe)
    ensures var r, once := ws[..StopAt(ws)], Harden(ws, safe).words;
      Harden(once, safe) == Hardened(once, false) <==>
        SafelyPrefixed(ws) || !Swallows(r) || AllSafe(Scan(Rest(r)[1..]))
  {
    HardenedIsSafeExactlyWhen(ws, safe);
  }

  lemma FlagParts(key: string, s: string)
    requires s == "--" + key && |key| == 2 && key[0] == 'x' && '=' !in key
    ensures Key(s) == key && InlineValue(s).None?
  {
    forall j | 0 <= j < |s|
      ensures s[j] != '='
    {
      if j >= 2 {
        assert s[j] == key[j - 2];
      }
    }
    assert IndexOf(s, '=') == |s| && s[..|s|] == s;
    assert s[1..] == "-" + key && ("-" + key)[1..] == key;
    assert StripDashes(key) == key && StripDashes("-" + key) == key;
  }

  lemma UnknownFlag(isAbsolute: string -> bool, key: string, s: string)
    requires s == "--" + key && |key| == 2 && key[0] == 'x' && '=' !in key
    ensures var w := Read(isAbsolute, Str(s));
      !w.bundle && !w.ends && w.dashed && !w.prefix && !w.negated && !w.inline && !w.neverTakes && !w.alwaysTakes
  {
    FlagParts(key, s);
    assert |key| == 2 && s[2] == 'x';
    assert IMPORT_BUNDLE_FLAG[2] == 'i' && (IMPORT_BUNDLE_FLAG + "=")[2] == 'i';
    assert forall k :: k in NPX_SWITCHES ==> |k| != 2;
    assert forall k :: k in NPX_OPTS ==> |k| != 2;
  }

  lemma UnsafePrefix(isAbsolute: string -> bool, s: string)
    requires s == "--prefix=." && !isAbsolute(".")
    ensures var w := Read(isAbsolute, Str(s));
      !w.bundle && !w.ends && w.dashed && w.prefix && w.inline && w.neverTakes && !w.safeInline
  {
    var key, value := "prefix", ".";
    OptionParts(key, value, s);
    NotTheBundleFlag(s);
    PrefixIsPrefixKey(key);
    assert |"${userHome}"| > 1;
  }

  lemma Positional(isAbsolute: string -> bool, s: string)
    requires s == "pkg"
    ensures var w := Read(isAbsolute, Str(s)); !w.bundle && w.ends && !w.dashed
  {
    assert s[0] == 'p';
    assert IMPORT_BUNDLE_FLAG[0] == '-' && (IMPORT_BUNDLE_FLAG + "=")[0] == '-';
  }

  /** The shape of the counterexample: an unknown flag, an unsafe prefix, a positional, an unsafe prefix. */
  predicate Pattern(flag: Word, pref: Word, pos: Word) {
    && !flag.bundle && !flag.ends && !flag.prefix && !flag.neverTakes && !flag.alwaysTakes
    && !pref.bundle && !pref.ends && pref.dashed && pref.prefix && pref.inline && pref.neverTakes && !pref.safeInline
    && !pos.bundle && pos.ends && !pos.dashed
  }

  lemma ScanFrom(w: Word, more: seq<Word>, r: seq<Word>)
    requires r == [w] + more && !w.ends && (w.neverTakes || (more != [] && more[0].dashed && !w.alwaysTakes))
    ensures Width(r) == 1 && Head(r).words == [w] && Head(r).prefix == w.prefix
    ensures Scan(r) == [Head(r)] + Scan(more) && Rest(r) == Rest(more)
  {
    assert r[1..] == more && r[..1] == [w];
  }

  lemma PatternScan(flag: Word, pref: Word, pos: Word, r: seq<Word>)
    requires Pattern(flag, pref, pos) && r == [flag, pref, pos, pref]
    ensures var t := Token([pref], true, false);
      && Scan([pref]) == [t] && Rest(r) == [pos, pref]
      && |Scan(r)| == 2 && Scan(r)[1] == t && Scan(r)[0].words == [flag] && !Scan(r)[0].prefix
  {
    ScanFrom(pref, [], [pref]);
    ScanFrom(pref, [pos, pref], [pref, pos, pref]);
    ScanFrom(flag, [pref, pos, pref], r);
    assert Width([pos, pref]) == 0;
  }

  lemma PatternStops(flag: Word, pref: Word, pos: Word, ws: seq<Word>, after: seq<Word>)
    requires Pattern(flag, pref, pos) && ws == [flag, pref, pos, pref] + after && (after == [] || after[0].bundle)
    ensures StopAt(ws) == 4 && ws[..4] == [flag, pref, pos, pref]
  {
    assert forall j :: 0 <= j < 4 ==> !ws[j].bundle;
    assert |ws| > 4 ==> ws[4] == after[0];
  }

  /** The unknown flag takes the positional, and the unsafe prefix behind it is read by npx after all. */
  lemma PatternStaysUnsafe(flag: Word, pref: Word, pos: Word, safe: Word, ws: seq<Word>, after: seq<Word>)
    requires Pattern(flag, pref, pos) && ws == [flag, pref, pos, pref] + after && (after == [] || after[0].bundle)
    requires WordsOk(ws) && SafeOption(safe)
    ensures !SafelyPrefixed(Harden(ws, safe).words)
  {
    var r := [flag, pref, pos, pref];
    PatternScan(flag, pref, pos, r);
    PatternStops(flag, pref, pos, ws, after);
    var tokens := Scan(r);
    assert tokens[1..] == [tokens[1]] && tokens[1..][1..] == [];
    assert LastKept(tokens[1..]).None?;
    assert Rest(r)[1..] == [pref];
    assert Scan([pref])[0].prefix && !Scan([pref])[0].safe;
    HardenedIsSafeExactlyWhen(ws, safe);
  }

  // ---- Options as they are spelled ------------------------------------------------------------------------------

  predicate SetsPrefix(key: string) {
    key == "prefix" || key == "prefi" || key == "C"
  }

  predicate Negates(key: string) {
    key == "no-prefix" || key == "no-prefi" || key == "no-C"
  }

  /** The keys that take no value. */
  predicate IsSwitch(key: string) {
    || key == "yes" || key == "y" || key == "no-install" || key == "quiet" || key == "q" || key == "offline"
    || key == "prefer-offline"
  }

  /** The keys whose value may begin with a dash. */
  predicate TakesAny(key: string) {
    || key == "package" || key == "p" || key == "call" || key == "c" || key == "cache" || key == "userconfig"
    || key == "shell"
  }

  predicate BeginsWithDash(a: Arg) {
    var s := if a.Str? then a.s else a.shown;
    s != "" && s[0] == '-'
  }

  predicate KeepsOut(isAbsolute: string -> bool, value: string) {
    value == "${userHome}" || isAbsolute(value)
  }

  /** An option as it stands in `args`: one or two dashes, a key, and the value behind `=` if there is one. */
  datatype Spelling = Spelling(double: bool, key: string, inline: Option<string>)

  function Spell(o: Spelling): string {
    (if o.double then "--" else "-") + o.key + (if o.inline.Some? then "=" + o.inline.value else "")
  }

  predicate IsSpelling(o: Spelling) {
    o.key != "" && o.key[0] != '-' && '=' !in o.key && o.key != "import-bundle"
  }

  predicate TakesValue(o: Spelling, next: Option<Arg>) {
    && o.inline.None? && next.Some? && !IsSwitch(o.key) && !Negates(o.key)
    && (TakesAny(o.key) || !BeginsWithDash(next.value))
  }

  /** The option sets npm's prefix, and to something that keeps npx out of the workspace. */
  predicate SetsItSafely(isAbsolute: string -> bool, o: Spelling, next: Option<Arg>) {
    && SetsPrefix(o.key)
    && if o.inline.Some? then KeepsOut(isAbsolute, o.inline.value)
       else TakesValue(o, next) && next.value.Str? && KeepsOut(isAbsolute, next.value.s)
  }

  lemma PrefixKeys(key: string)
    ensures IsPrefixKey(key) <==> SetsPrefix(key)
  {
    var whole := "prefix";
    if StartsWith(whole, key) && |key| >= |"prefi"| {
      assert key == whole[..|key|];
      assert whole[..5] == "prefi" && whole[..6] == "prefix";
    }
    assert "prefi" == whole[..5];
  }

  lemma NegatedKeys(key: string)
    ensures IsNegatedPrefixKey(key) <==> Negates(key)
    ensures IsSwitch(key) || SetsPrefix(key) ==> !Negates(key)
  {
    if StartsWith(key, "no-") {
      PrefixKeys(key[3..]);
      assert key == "no-" + key[3..];
    }
    if Negates(key) {
      assert key[3..] == if key == "no-prefix" then "prefix" else if key == "no-prefi" then "prefi" else "C";
      PrefixKeys(key[3..]);
    }
  }

  lemma KnownKeys(key: string)
    ensures key in NPX_SWITCHES <==> IsSwitch(key)
    ensures key in NPX_OPTS <==> TakesAny(key)
  {
  }

  /** What is between the dashes and the first `=`, and what is behind it. */
  lemma KeyOf(o: Spelling, s: string)
    requires o.key != "" && o.key[0] != '-' && '=' !in o.key && s == Spell(o)
    ensures Key(s) == o.key && InlineValue(s) == o.inline && s != "" && s[0] == '-' && s != "--"
  {
    var dashes := if o.double then "--" else "-";
    var front := dashes + o.key;
    assert forall j :: 0 <= j < |front| ==> s[j] == front[j];
    NoEquals(dashes, o.key, front);
    if o.inline.Some? {
      assert s[|front|] == '=';
      assert s[|front| + 1..] == o.inline.value;
    } else {
      assert s == front;
    }
    assert IndexOf(s, '=') == |front| && s[..|front|] == front;
    DashesGo(o.double, o.key, front);
    assert s[0] == dashes[0];
    assert |o.key| > 0 && s[|dashes|] == o.key[0];
  }

  lemma NoEquals(dashes: string, key: string, front: string)
    requires (dashes == "-" || dashes == "--") && '=' !in key && front == dashes + key
    ensures '=' !in front
  {
  }

  lemma DashesGo(double: bool, key: string, front: string)
    requires key != "" && key[0] != '-' && front == (if double then "--" else "-") + key
    ensures StripDashes(front) == key
  {
    assert StripDashes(key) == key;
    if double {
      assert front[1..] == "-" + key && ("-" + key)[1..] == key;
    } else {
      assert front[1..] == key;
    }
  }

  lemma FrontAndRest(s: string, front: string)
    requires StartsWith(s, front)
    ensures s == front + s[|front|..]
  {
  }

  /** Another key never makes this flag, with or without a value. */
  lemma OtherKeyOtherFlag(o: Spelling, s: string, key: string, flag: string)
    requires o.key != "" && o.key[0] != '-' && '=' !in o.key && s == Spell(o)
    requires key != "" && key[0] != '-' && '=' !in key && flag == "--" + key && o.key != key
    ensures s != flag && !StartsWith(s, flag + "=")
  {
    KeyOf(o, s);
    KeyOf(Spelling(true, key, None), flag);
    if StartsWith(s, flag + "=") {
      var more := s[|flag| + 1..];
      FrontAndRest(s, flag + "=");
      KeyOf(Spelling(true, key, Some(more)), s);
    }
  }

  lemma FlagKey() returns (key: string)
    ensures key == "import-bundle" && key[0] != '-' && '=' !in key && IMPORT_BUNDLE_FLAG == "--" + key
  {
    key := "import-bundle";
  }

  /** Only the key `import-bundle` makes the flag that ends the region. */
  lemma NotTheFlag(o: Spelling, s: string)
    requires IsSpelling(o) && s == Spell(o)
    ensures !IsBundleFlag(Str(s))
  {
    var key := FlagKey();
    OtherKeyOtherFlag(o, s, key, IMPORT_BUNDLE_FLAG);
  }

  /**
   * How an option is read, from its spelling and the argument after it: how many arguments it is,
   * whether it has to do with npm's prefix, and whether it sets it to something safe.
   */
  lemma OptionReadsAs(isAbsolute: string -> bool, o: Spelling, next: Option<Arg>, r: seq<Word>)
    requires IsSpelling(o)
    requires r == Words(isAbsolute, [Str(Spell(o))] + if next.Some? then [next.value] else [])
    ensures !r[0].bundle && Width(r) == if TakesValue(o, next) then 2 else 1
    ensures Head(r).prefix <==> SetsPrefix(o.key) || Negates(o.key)
    ensures Head(r).prefix ==> (Head(r).safe <==> SetsItSafely(isAbsolute, o, next))
  {
    var s := Spell(o);
    KeyOf(o, s);
    NotTheFlag(o, s);
    PrefixKeys(o.key);
    NegatedKeys(o.key);
    KnownKeys(o.key);
    assert r[0] == Read(isAbsolute, Str(s));
    if next.Some? {
      assert r[1] == Read(isAbsolute, next.value);
      assert IsDashed(next.value) <==> BeginsWithDash(next.value);
    }
    SafeOnlyIfSet(o.key);
  }

  lemma SafeOnlyIfSet(key: string)
    ensures Negates(key) ==> !SetsPrefix(key) && !IsSwitch(key)
  {
    if Negates(key) {
      assert key[0] == 'n' && key[1] == 'o' && key[2] == '-';
      assert |"no-install"| == 10 && |key| < 10;
    }
  }

  /** The options end at `--`, at anything that is no string, and at anything without a dash. */
  lemma OptionsEndAt(isAbsolute: string -> bool, a: Arg, more: seq<Word>)
    ensures Width([Read(isAbsolute, a)] + more) == 0 <==> a.Value? || a.s == "--" || !BeginsWithDash(a)
  {
    assert IsDashed(a) <==> BeginsWithDash(a);
  }
}
