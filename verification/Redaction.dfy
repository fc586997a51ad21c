/**
 * The secret scrubber of `redaction.ts`: a growing set of registered secrets, and text with every
 * one of them replaced.
 */
module Redaction {
  import opened Text

  const MIN_SECRET_LENGTH := 8
  const OPEN := '\U{00AB}'
  const CLOSE := '\U{00BB}'
  const WORD := "redacted"

  function Placeholder(): (p: string)
    ensures p == [OPEN] + WORD + [CLOSE]
  {
    [OPEN] + WORD + [CLOSE]
  }

  predicate At(s: string, t: string, i: int) {
    0 <= i && i + |t| <= |s| && s[i..i + |t|] == t
  }

  ghost predicate Contains(s: string, t: string) {
    exists i :: At(s, t, i)
  }

  /** `indexOf(t)`. */
  function Find(s: string, t: string): (i: Option<nat>)
    ensures i.Some? ==> At(s, t, i.value)
  {
    if t <= s then Some(0)
    else if s == "" then None
    else match Find(s[1..], t) case None => None case Some(i) => Some(i + 1)
  }

  /** `s.split(t)`. */
  function Split(s: string, t: string): (pieces: seq<string>)
    requires t != ""
    ensures pieces != []
    decreases |s|
  {
    match Find(s, t)
    case None => [s]
    case Some(i) => [s[..i]] + Split(s[i + |t|..], t)
  }

  function Replace(s: string, t: string): string
    requires t != ""
  {
    Join(Split(s, t), Placeholder())
  }

  /** What scrubbing with the secrets in this order leaves. */
  function Scrub(text: string, secrets: seq<string>): string
    requires AllSecrets(secrets)
  {
    if secrets == [] then text
    else Replace(Scrub(text, secrets[..|secrets| - 1]), secrets[|secrets| - 1])
  }

  /** What `registerSecret` lets in. */
  predicate IsSecret(t: string) {
    |t| >= MIN_SECRET_LENGTH && Trim(t) == t
  }

  predicate AllSecrets(secrets: seq<string>) {
    forall i :: 0 <= i < |secrets| ==> IsSecret(secrets[i])
  }

  class Redactor {
    /** The set, in the order it is iterated. */
    var secrets: seq<string>

    ghost predicate Valid()
      reads this
    {
      AllSecrets(secrets) && forall i, j :: 0 <= i < j < |secrets| ==> secrets[i] != secrets[j]
    }

    constructor ()
      ensures Valid() && secrets == []
    {
      secrets := [];
    }

    /** None stands for a value that is no string. */
    method RegisterSecret(value: Option<string>)
      requires Valid()
      modifies this
      ensures Valid()
      ensures var t := if value.Some? then Trim(value.value) else "";
        secrets == if |t| >= 8 && t !in old(secrets) then old(secrets) + [t] else old(secrets)
    {
      if value.Some? {
        var trimmed := Trim(value.value);
        TrimIdempotent(value.value);
        if |trimmed| >= MIN_SECRET_LENGTH && trimmed !in secrets {
          secrets := secrets + [trimmed];
        }
      }
    }

    method ClearSecrets()
      modifies this
      ensures Valid() && secrets == []
    {
      secrets := [];
    }

    method RedactString(text: string) returns (out: string)
      requires Valid()
      ensures out == Scrub(text, secrets)
    {
      out := text;
      for i := 0 to |secrets|
        invariant out == Scrub(text, secrets[..i])
      {
        assert secrets[..i + 1][..i] == secrets[..i];
        if Find(out, secrets[i]).Some? {
          out := Join(Split(out, secrets[i]), Placeholder());
        }
      }
      assert secrets[..|secrets|] == secrets;
    }
  }

  // ---- Splitting ---------------------------------------------------------------------------------------

  lemma AtShift(s: string, t: string, k: nat, i: int)
    requires k <= |s| && i >= k
    ensures At(s, t, i) <==> At(s[k..], t, i - k)
  {
    if i + |t| <= |s| {
      assert s[i..i + |t|] == s[k..][i - k..i - k + |t|];
    }
  }

  /** The match found is the first: nothing matches at an earlier place. */
  lemma {:induction false} FindIsFirst(s: string, t: string, i: int)
    requires At(s, t, i)
    ensures Find(s, t).Some? && Find(s, t).value <= i
  {
    if !(t <= s) {
      assert i > 0;
      AtShift(s, t, 1, i);
      FindIsFirst(s[1..], t, i - 1);
    }
  }

  lemma NotFound(s: string, t: string)
    ensures Find(s, t).Some? <==> Contains(s, t)
  {
    if i :| At(s, t, i) {
      FindIsFirst(s, t, i);
    }
  }

  lemma BeforeMatchIsClean(s: string, t: string)
    requires t != "" && Find(s, t).Some?
    ensures !Contains(s[..Find(s, t).value], t)
  {
    var k := Find(s, t).value;
    if i :| At(s[..k], t, i) {
      assert s[..k][i..i + |t|] == s[i..i + |t|];
      FindIsFirst(s, t, i);
    }
  }

  ghost predicate AllWithout(pieces: seq<string>, t: string) {
    forall k :: 0 <= k < |pieces| ==> !Contains(pieces[k], t)
  }

  /** The pieces hold no separator, and joined by it they are the text again. */
  lemma {:induction false} SplitRebuilds(s: string, t: string)
    requires t != ""
    ensures Join(Split(s, t), t) == s && AllWithout(Split(s, t), t)
    decreases |s|
  {
    NotFound(s, t);
    if Find(s, t).Some? {
      var i := Find(s, t).value;
      SplitRebuilds(s[i + |t|..], t);
      BeforeMatchIsClean(s, t);
      assert s == s[..i] + s[i..i + |t|] + s[i + |t|..];
      var rest := Split(s[i + |t|..], t);
      var all := [s[..i]] + rest;
      assert all[1..] == rest && forall k :: 0 < k < |all| ==> all[k] == rest[k - 1];
    }
  }

  // ---- A secret cannot straddle a guillemet ------------------------------------------------------------------

  lemma MatchAt(s: string, t: string, i: int, k: int)
    requires At(s, t, i) && i <= k < i + |t|
    ensures s[k] == t[k - i]
  {
    assert s[i..i + |t|][k - i] == s[k];
  }

  lemma MatchMisses(s: string, t: string, i: int, k: int)
    requires At(s, t, i) && 0 <= k < |s| && s[k] !in t
    ensures !(i <= k < i + |t|)
  {
    if i <= k < i + |t| {
      assert t[k - i] in t;
      MatchAt(s, t, i, k);
    }
  }

  lemma NotAcross(a: string, c: char, b: string, t: string, s: string)
    requires s == a + [c] + b && c !in t && t != ""
    ensures Contains(s, t) ==> Contains(a, t) || Contains(b, t)
  {
    if i :| At(s, t, i) {
      MatchMisses(s, t, i, |a|);
      if i + |t| <= |a| {
        assert a[i..i + |t|] == s[i..i + |t|];
        assert At(a, t, i);
      } else {
        AtShift(s, t, |a| + 1, i);
        assert s[|a| + 1..] == b;
        assert At(b, t, i - |a| - 1);
      }
    }
  }

  /** A secret without guillemets. */
  predicate IsPlain(t: string) {
    t != "" && OPEN !in t && CLOSE !in t
  }

  lemma NotAcrossPlaceholder(a: string, b: string, t: string)
    requires IsPlain(t)
    ensures Contains(a + Placeholder() + b, t) ==> Contains(a, t) || Contains(WORD, t) || Contains(b, t)
  {
    var s := a + Placeholder() + b;
    var inner := WORD + [CLOSE] + b;
    assert s == a + [OPEN] + inner;
    NotAcross(a, OPEN, inner, t, s);
    NotAcross(WORD, CLOSE, b, t, inner);
  }

  /** Pieces that hold no `t`, joined by placeholders, hold no `t`. */
  lemma {:induction false} JoinedIsClean(pieces: seq<string>, t: string)
    requires IsPlain(t) && AllWithout(pieces, t) && !Contains(WORD, t)
    ensures !Contains(Join(pieces, Placeholder()), t)
    decreases |pieces|
  {
    if pieces == [] {
    } else if |pieces| > 1 {
      assert forall k :: 0 <= k < |pieces[1..]| ==> pieces[1..][k] == pieces[k + 1];
      JoinedIsClean(pieces[1..], t);
      NotAcrossPlaceholder(pieces[0], Join(pieces[1..], Placeholder()), t);
    }
  }

  lemma PartOf(s: string, i: nat, j: nat, t: string)
    requires i <= j <= |s| && Contains(s[i..j], t)
    ensures Contains(s, t)
  {
    var part := s[i..j];
    var k :| At(part, t, k);
    assert forall x :: 0 <= x < |t| ==> t[x] == part[k..k + |t|][x] == part[k + x] == s[i + k + x];
    assert s[i + k..i + k + |t|] == t;
    assert At(s, t, i + k);
  }

  lemma {:induction false} PiecesArePartsOf(s: string, u: string, t: string)
    requires u != "" && !Contains(s, t)
    ensures AllWithout(Split(s, u), t)
    decreases |s|
  {
    if Find(s, u).Some? {
      var i := Find(s, u).value;
      var rest := s[i + |u|..];
      if Contains(rest, t) {
        assert rest == s[i + |u|..|s|];
        PartOf(s, i + |u|, |s|, t);
      }
      if Contains(s[..i], t) {
        assert s[..i] == s[0..i];
        PartOf(s, 0, i, t);
      }
      PiecesArePartsOf(rest, u, t);
      var all := [s[..i]] + Split(rest, u);
      assert forall k :: 0 < k < |all| ==> all[k] == Split(rest, u)[k - 1];
    }
  }

  /** Replacing `t` removes it; replacing another secret never brings it back. */
  lemma ReplaceCleans(s: string, t: string)
    requires IsPlain(t) && !Contains(WORD, t)
    ensures !Contains(Replace(s, t), t)
  {
    SplitRebuilds(s, t);
    JoinedIsClean(Split(s, t), t);
  }

  lemma ReplaceKeepsClean(s: string, u: string, t: string)
    requires u != "" && IsPlain(t) && !Contains(WORD, t) && !Contains(s, t)
    ensures !Contains(Replace(s, u), t)
  {
    PiecesArePartsOf(s, u, t);
    JoinedIsClean(Split(s, u), t);
  }

  // ---- Scrubbing ---------------------------------------------------------------------------------------------

  ghost predicate Clean(text: string, secrets: seq<string>) {
    forall i :: 0 <= i < |secrets| ==> !Contains(text, secrets[i])
  }

  predicate AllPlain(secrets: seq<string>) {
    forall i :: 0 <= i < |secrets| ==> IsPlain(secrets[i])
  }

  /** The one registrable secret that the placeholder itself holds. */
  lemma OnlyTheWord(t: string)
    requires |t| >= 8
    ensures Contains(WORD, t) <==> t == WORD
  {
    if i :| At(WORD, t, i) {
      assert |WORD| == 8 && i == 0;
      assert WORD[0..8] == WORD;
    }
    assert At(WORD, WORD, 0);
  }

  lemma ReplaceNothing(s: string, t: string)
    requires t != "" && !Contains(s, t)
    ensures Replace(s, t) == s
  {
    NotFound(s, t);
  }

  /** A text without secrets is unchanged. */
  lemma {:induction false} CleanIsUnchanged(text: string, secrets: seq<string>)
    requires AllSecrets(secrets) && Clean(text, secrets)
    ensures Scrub(text, secrets) == text
  {
    if secrets != [] {
      CleanIsUnchanged(text, secrets[..|secrets| - 1]);
      ReplaceNothing(text, secrets[|secrets| - 1]);
    }
  }

  lemma {:induction false} ScrubCleans(text: string, secrets: seq<string>)
    requires AllSecrets(secrets) && AllPlain(secrets) && WORD !in secrets
    ensures Clean(Scrub(text, secrets), secrets)
  {
    if secrets != [] {
      var before, last := secrets[..|secrets| - 1], secrets[|secrets| - 1];
      ScrubCleans(text, before);
      forall i | 0 <= i < |secrets|
        ensures !Contains(Scrub(text, secrets), secrets[i])
      {
        OnlyTheWord(secrets[i]);
        if i < |before| {
          assert before[i] == secrets[i];
          ReplaceKeepsClean(Scrub(text, before), last, secrets[i]);
        } else {
          ReplaceCleans(Scrub(text, before), last);
        }
      }
    }
  }

  lemma JoinCons(first: string, rest: seq<string>, with: string)
    requires rest != []
    ensures Join([first] + rest, with) == first + with + Join(rest, with)
  {
    assert ([first] + rest)[1..] == rest;
  }

  lemma WordInPlaceholder(a: string, b: string)
    ensures Contains(a + Placeholder() + b, WORD)
  {
    var s := a + Placeholder() + b;
    var i := |a| + 1;
    assert s == (a + [OPEN]) + WORD + ([CLOSE] + b);
    assert s[i..i + |WORD|] == WORD;
    assert At(s, WORD, i);
  }

  lemma ReplaceLeavesPlaceholder(s: string, t: string)
    requires t != "" && Contains(s, t)
    ensures Contains(Replace(s, t), WORD)
  {
    NotFound(s, t);
    var before, after := ReplaceOne(s, t);
    WordInPlaceholder(before, after);
  }

  /** A replacement puts the placeholder where the first match was. */
  lemma ReplaceOne(s: string, t: string) returns (before: string, after: string)
    requires t != "" && Find(s, t).Some?
    ensures Replace(s, t) == before + Placeholder() + after
  {
    var i := Find(s, t).value;
    before := s[..i];
    var rest := Split(s[i + |t|..], t);
    after := Join(rest, Placeholder());
    JoinCons(before, rest, Placeholder());
  }

  /** Once something was replaced, the placeholder's own word stays in the output. */
  lemma {:induction false} ScrubLeavesWord(text: string, secrets: seq<string>)
    requires AllSecrets(secrets) && !Clean(text, secrets)
    ensures Contains(Scrub(text, secrets), WORD)
  {
    var before, last := secrets[..|secrets| - 1], secrets[|secrets| - 1];
    if Clean(text, before) {
      CleanIsUnchanged(text, before);
      assert Contains(text, last);
      ReplaceLeavesPlaceholder(text, last);
    } else {
      ScrubLeavesWord(text, before);
      if Contains(Scrub(text, before), last) {
        ReplaceLeavesPlaceholder(Scrub(text, before), last);
      } else {
        ReplaceNothing(Scrub(text, before), last);
      }
    }
  }

  /**
   * Of secrets without guillemets, in whatever order they are iterated, none is left in the output,
   * exactly when the word of the placeholder is not itself registered or there was nothing to scrub.
   */
  lemma ScrubIsCompleteExactlyWhen(text: string, secrets: seq<string>)
    requires AllSecrets(secrets) && AllPlain(secrets)
    ensures Clean(Scrub(text, secrets), secrets) <==> WORD !in secrets || Clean(text, secrets)
  {
    if WORD !in secrets {
      ScrubCleans(text, secrets);
    } else if Clean(text, secrets) {
      CleanIsUnchanged(text, secrets);
    } else {
      ScrubLeavesWord(text, secrets);
      var i :| 0 <= i < |secrets| && secrets[i] == WORD;
      assert Contains(Scrub(text, secrets), secrets[i]);
    }
  }

  /** Scrubbing what was scrubbed changes nothing more, in any other order either. */
  lemma ScrubTwice(text: string, secrets: seq<string>, others: seq<string>)
    requires AllSecrets(secrets) && AllPlain(secrets) && WORD !in secrets
    requires AllSecrets(others) && forall i :: 0 <= i < |others| ==> others[i] in secrets
    ensures Scrub(Scrub(text, secrets), others) == Scrub(text, secrets)
  {
    ScrubCleans(text, secrets);
    forall i | 0 <= i < |others|
      ensures !Contains(Scrub(text, secrets), others[i])
    {
      assert others[i] in secrets;
    }
    CleanIsUnchanged(Scrub(text, secrets), others);
  }

  // ---- What is still there ------------------------------------------------------------------------------------

  /** The text before the first match stays, the match becomes the placeholder, and so on behind it. */
  lemma ReplaceFirst(s: string, a: string, t: string, b: string)
    requires t != "" && s == a + t + b && forall i :: 0 <= i < |a| ==> !At(s, t, i)
    ensures Replace(s, t) == a + "\U{00AB}redacted\U{00BB}" + Replace(b, t)
  {
    assert s[|a|..|a| + |t|] == t;
    FindIsFirst(s, t, |a|);
    assert Find(s, t) == Some(|a|);
    assert s[..|a|] == a && s[|a| + |t|..] == b;
    JoinCons(a, Split(b, t), Placeholder());
  }

  /** The first match, and what is before and behind it. */
  lemma FirstMatch(r: string, t: string) returns (a: string, b: string)
    requires Find(r, t).Some?
    ensures r == a + t + b && forall i :: 0 <= i < |a| ==> !At(r, t, i)
  {
    var k := Find(r, t).value;
    a, b := r[..k], r[k + |t|..];
    forall i | 0 <= i < |a|
      ensures !At(r, t, i)
    {
      if At(r, t, i) {
        FindIsFirst(r, t, i);
      }
    }
  }

  lemma NoneBefore(s: string, x: string, r: string, t: string, k: nat)
    requires s == x + r && (forall i :: 0 <= i < |x| ==> !At(s, t, i)) && (forall i :: 0 <= i < k ==> !At(r, t, i))
    ensures forall i :: 0 <= i < |x| + k ==> !At(s, t, i)
  {
    assert s[|x|..] == r;
    forall i | |x| <= i < |x| + k
      ensures !At(s, t, i)
    {
      AtShift(s, t, |x|, i);
    }
  }

  lemma NoneAtAll(s: string, x: string, r: string, t: string)
    requires s == x + r && (forall i :: 0 <= i < |x| ==> !At(s, t, i)) && !Contains(r, t)
    ensures !Contains(s, t)
  {
    if i :| At(s, t, i) {
      assert s[|x|..] == r;
      AtShift(s, t, |x|, i);
    }
  }

  /** Text in which no match begins stays in front. */
  lemma ReplaceSkips(s: string, x: string, r: string, t: string)
    requires t != "" && s == x + r && forall i :: 0 <= i < |x| ==> !At(s, t, i)
    ensures Replace(s, t) == x + Replace(r, t)
  {
    NotFound(r, t);
    if Find(r, t).Some? {
      var a, b := FirstMatch(r, t);
      NoneBefore(s, x, r, t, |a|);
      Regrouped(x, a, t, b);
      ReplaceFirst(r, a, t, b);
      ReplaceFirst(s, x + a, t, b);
      Regrouped(x, a, "\U{00AB}redacted\U{00BB}", Replace(b, t));
    } else {
      NoneAtAll(s, x, r, t);
      ReplaceNothing(r, t);
      ReplaceNothing(s, t);
    }
  }

  lemma Regrouped(x: string, a: string, t: string, b: string)
    ensures x + (a + t + b) == (x + a) + t + b
  {
  }

  /** One more secret in the set's order: what the others left, with this one replaced where it stands. */
  lemma ScrubOneMore(text: string, secrets: seq<string>, t: string, a: string, b: string)
    requires AllSecrets(secrets) && IsSecret(t) && AllSecrets(secrets + [t])
    ensures !Contains(Scrub(text, secrets), t) ==> Scrub(text, secrets + [t]) == Scrub(text, secrets)
    ensures Scrub(text, secrets) == a + t + b && (forall i :: 0 <= i < |a| ==> !At(Scrub(text, secrets), t, i)) ==>
      Scrub(text, secrets + [t]) == a + "\U{00AB}redacted\U{00BB}" + Replace(b, t)
  {
    assert (secrets + [t])[..|secrets|] == secrets && (secrets + [t])[|secrets|] == t;
    assert IsSecret(t);
    var before := Scrub(text, secrets);
    if !Contains(before, t) {
      ReplaceNothing(before, t);
    }
    if before == a + t + b && forall i :: 0 <= i < |a| ==> !At(before, t, i) {
      ReplaceFirst(before, a, t, b);
    }
  }

  /** A part of a text: something to keep, or a secret, which may be gone already. */
  datatype Part = Keep(text: string) | Hit(secret: string, gone: bool)

  function Shown(p: Part, mark: string): string {
    match p
    case Keep(text) => text
    case Hit(secret, gone) => if gone then mark else secret
  }

  function Render(parts: seq<Part>, mark: string): string {
    if parts == [] then "" else Shown(parts[0], mark) + Render(parts[1..], mark)
  }

  lemma ConsAppend(a: seq<Part>, b: seq<Part>, head: Part, more: seq<Part>)
    requires a != [] && head == a[0] && more == a[1..]
    ensures a == [head] + more && a + b == [head] + (more + b)
  {
  }

  lemma Regroup(h: string, x: string, y: string, hx: string, xy: string, all: string)
    requires hx == h + x && xy == x + y && all == h + xy
    ensures all == hx + y
  {
  }

  lemma {:induction false} RenderAppend(a: seq<Part>, b: seq<Part>, mark: string)
    ensures Render(a + b, mark) == Render(a, mark) + Render(b, mark)
  {
    if a == [] {
      assert a + b == b && Render(a, mark) == "";
    } else {
      var head, more := a[0], a[1..];
      ConsAppend(a, b, head, more);
      RenderAppend(more, b, mark);
      RenderCons(head, more, a, mark);
      RenderCons(head, more + b, a + b, mark);
      Regroup(Shown(head, mark), Render(more, mark), Render(b, mark), Render(a, mark), Render(more + b, mark), Render(a + b, mark));
    }
  }

  lemma RenderCons(head: Part, more: seq<Part>, parts: seq<Part>, mark: string)
    requires parts == [head] + more
    ensures Render(parts, mark) == Shown(head, mark) + Render(more, mark)
  {
    assert parts[1..] == more;
  }

  lemma RenderAround(parts: seq<Part>, j: nat, mark: string)
    requires j < |parts|
    ensures Render(parts, mark) == Render(parts[..j], mark) + Shown(parts[j], mark) + Render(parts[j + 1..], mark)
  {
    var rest := [parts[j]] + parts[j + 1..];
    assert parts == parts[..j] + rest;
    RenderAppend(parts[..j], rest, mark);
    RenderCons(parts[j], parts[j + 1..], rest, mark);
  }

  /** Where part `m` begins. */
  function Offset(parts: seq<Part>, m: nat, mark: string): nat
    requires m <= |parts|
  {
    |Render(parts[..m], mark)|
  }

  lemma OffsetNext(parts: seq<Part>, m: nat, mark: string)
    requires m < |parts|
    ensures Offset(parts, m + 1, mark) == Offset(parts, m, mark) + |Shown(parts[m], mark)|
  {
    assert parts[..m + 1] == parts[..m] + [parts[m]];
    RenderAppend(parts[..m], [parts[m]], mark);
    assert Render([parts[m]], mark) == Shown(parts[m], mark) + Render([], mark);
  }

  lemma {:induction false} OffsetsGrow(parts: seq<Part>, m: nat, n: nat, mark: string)
    requires m <= n <= |parts|
    ensures Offset(parts, m, mark) <= Offset(parts, n, mark)
  {
    if m < n {
      OffsetsGrow(parts, m, n - 1, mark);
      OffsetNext(parts, n - 1, mark);
    }
  }

  predicate IsHit(parts: seq<Part>, m: int, t: string) {
    0 <= m < |parts| && parts[m] == Hit(t, false)
  }

  /** The secret occurs nowhere in the text but where it is marked. */
  ghost predicate OnlyMarked(parts: seq<Part>, t: string, mark: string) {
    forall i :: At(Render(parts, mark), t, i) ==> exists m :: IsHit(parts, m, t) && Offset(parts, m, mark) == i
  }

  lemma MarkOf(parts: seq<Part>, t: string, i: int, mark: string) returns (m: nat)
    requires OnlyMarked(parts, t, mark) && At(Render(parts, mark), t, i)
    ensures IsHit(parts, m, t) && Offset(parts, m, mark) == i
  {
    m :| IsHit(parts, m, t) && Offset(parts, m, mark) == i;
  }

  lemma OffsetBehind(head: Part, more: seq<Part>, m: nat, mark: string)
    requires m <= |more|
    ensures Offset([head] + more, m + 1, mark) == |Shown(head, mark)| + Offset(more, m, mark)
  {
    var parts := [head] + more;
    assert parts[..m + 1][1..] == more[..m] && parts[..m + 1][0] == head;
  }

  lemma MarkedBehind(parts: seq<Part>, t: string, mark: string)
    requires parts != [] && t != "" && OnlyMarked(parts, t, mark)
    ensures OnlyMarked(parts[1..], t, mark)
    ensures parts[0] != Hit(t, false) ==> forall i :: 0 <= i < |Shown(parts[0], mark)| ==> !At(Render(parts, mark), t, i)
  {
    var head, more := parts[0], parts[1..];
    assert parts == [head] + more;
    var w := |Shown(head, mark)|;
    forall i | At(Render(more, mark), t, i)
      ensures exists m :: IsHit(more, m, t) && Offset(more, m, mark) == i
    {
      AtShift(Render(parts, mark), t, w, i + w);
      assert Render(parts, mark)[w..] == Render(more, mark);
      var m := MarkOf(parts, t, i + w, mark);
      assert m > 0;
      OffsetBehind(head, more, m - 1, mark);
      assert IsHit(more, m - 1, t);
    }
    if parts[0] != Hit(t, false) {
      forall i | 0 <= i < w
        ensures !At(Render(parts, mark), t, i)
      {
        if At(Render(parts, mark), t, i) {
          var m := MarkOf(parts, t, i, mark);
          OffsetBehind(head, more, m - 1, mark);
        }
      }
    }
  }

  /** The parts once the first `n` hits of `t` are gone. */
  function GoneUpTo(parts: seq<Part>, t: string, n: nat): (r: seq<Part>)
    ensures |r| == |parts|
    ensures forall j :: 0 <= j < |r| ==> r[j] == if j < n && parts[j] == Hit(t, false) then Hit(t, true) else parts[j]
  {
    seq(|parts|, j requires 0 <= j < |parts| => if j < n && parts[j] == Hit(t, false) then Hit(t, true) else parts[j])
  }

  lemma GoneCons(head: Part, more: seq<Part>, t: string)
    ensures GoneUpTo([head] + more, t, |more| + 1) == GoneUpTo([head], t, 1) + GoneUpTo(more, t, |more|)
  {
  }

  /** Replacing a secret that occurs only where it is marked replaces just those marks. */
  lemma {:induction false} ReplaceMarked(parts: seq<Part>, t: string, mark: string)
    requires t != "" && mark == Placeholder() && OnlyMarked(parts, t, mark)
    ensures Replace(Render(parts, mark), t) == Render(GoneUpTo(parts, t, |parts|), mark)
    decreases |parts|
  {
    if parts == [] {
      ReplaceNothing("", t);
    } else {
      var head, more := parts[0], parts[1..];
      MarkedBehind(parts, t, mark);
      ReplaceMarked(more, t, mark);
      GoneRenders(head, more, t, parts, mark);
      RenderCons(head, more, parts, mark);
      ReplaceHead(head, Render(more, mark), t, Render(parts, mark), mark);
    }
  }

  lemma ReplaceHead(head: Part, more: string, t: string, s: string, mark: string)
    requires t != "" && mark == Placeholder() && s == Shown(head, mark) + more
    requires head != Hit(t, false) ==> forall i :: 0 <= i < |Shown(head, mark)| ==> !At(s, t, i)
    ensures Replace(s, t) == (if head == Hit(t, false) then mark else Shown(head, mark)) + Replace(more, t)
  {
    if head == Hit(t, false) {
      ReplaceAtHead(s, t, more);
    } else {
      ReplaceSkips(s, Shown(head, mark), more, t);
    }
  }

  lemma ReplaceAtHead(s: string, t: string, more: string)
    requires t != "" && s == t + more
    ensures Replace(s, t) == Placeholder() + Replace(more, t)
  {
    var none := "";
    NothingBefore(none, t, more, s);
    ReplaceFirst(s, none, t, more);
    NothingBefore(none, Placeholder(), Replace(more, t), Replace(s, t));
  }

  lemma NothingBefore(none: string, x: string, y: string, s: string)
    requires none == ""
    ensures s == x + y <==> s == none + x + y
  {
    assert none + x == x;
  }

  lemma GoneRenders(head: Part, more: seq<Part>, t: string, parts: seq<Part>, mark: string)
    requires parts == [head] + more
    ensures Render(GoneUpTo(parts, t, |parts|), mark) ==
      (if head == Hit(t, false) then mark else Shown(head, mark)) + Render(GoneUpTo(more, t, |more|), mark)
  {
    GoneCons(head, more, t);
    RenderAppend(GoneUpTo([head], t, 1), GoneUpTo(more, t, |more|), mark);
    ShownOne(head, t, mark);
  }

  lemma ShownOne(head: Part, t: string, mark: string)
    ensures Render(GoneUpTo([head], t, 1), mark) == if head == Hit(t, false) then mark else Shown(head, mark)
  {
    var one := GoneUpTo([head], t, 1);
    assert one[1..] == [];
    assert Render(one, mark) == Shown(one[0], mark) + "";
  }

  /** An occurrence in a text with a placeholder in it lies wholly before it or wholly behind it. */
  lemma BesidePlaceholder(a: string, b: string, t: string, i: int)
    requires IsPlain(t) && !Contains(WORD, t) && At(a + Placeholder() + b, t, i)
    ensures i + |t| <= |a| || i >= |a| + |Placeholder()|
  {
    var s, p := a + Placeholder() + b, |a|;
    assert s[p] == OPEN && s[p + |WORD| + 1] == CLOSE;
    MatchMisses(s, t, i, p);
    MatchMisses(s, t, i, p + |WORD| + 1);
    if p < i <= p + |WORD| {
      assert s[p + 1..p + 1 + |WORD|] == WORD;
      assert WORD[i - p - 1..i - p - 1 + |t|] == s[i..i + |t|];
      assert At(WORD, t, i - p - 1);
    }
  }

  /** An occurrence before or behind a part is there whatever that part shows. */
  lemma SameBeside(a: string, p: string, v: string, b: string, t: string, i: int)
    requires At(a + p + b, t, i)
    ensures i + |t| <= |a| ==> At(a + v + b, t, i)
    ensures i >= |a| + |p| ==> At(a + v + b, t, i - |p| + |v|)
  {
    var s, s' := a + p + b, a + v + b;
    if i + |t| <= |a| {
      assert s'[i..i + |t|] == a[i..i + |t|] == s[i..i + |t|];
    }
    if i >= |a| + |p| {
      var k := i - |a| - |p|;
      assert s'[|a| + |v| + k..|a| + |v| + k + |t|] == b[k..k + |t|] == s[i..i + |t|];
    }
  }

  /** The parts with one more gone. */
  function Strike(parts: seq<Part>, j: nat): seq<Part>
    requires j < |parts| && parts[j].Hit?
  {
    parts[j := parts[j].(gone := true)]
  }

  lemma Around(parts: seq<Part>, j: nat, before: seq<Part>, shown: string, behind: seq<Part>, mark: string)
    requires j < |parts| && before == parts[..j] && behind == parts[j + 1..] && shown == Shown(parts[j], mark)
    ensures Render(parts, mark) == Render(before, mark) + shown + Render(behind, mark)
  {
    RenderAround(parts, j, mark);
  }

  lemma StrikeAround(parts: seq<Part>, j: nat, mark: string)
    requires j < |parts| && parts[j].Hit? && !parts[j].gone
    ensures Render(parts, mark) == Render(parts[..j], mark) + parts[j].secret + Render(parts[j + 1..], mark)
    ensures Render(Strike(parts, j), mark) == Render(parts[..j], mark) + mark + Render(parts[j + 1..], mark)
  {
    Around(parts, j, parts[..j], parts[j].secret, parts[j + 1..], mark);
    Around(Strike(parts, j), j, parts[..j], mark, parts[j + 1..], mark);
  }

  lemma MarkBefore(parts: seq<Part>, j: nat, t: string, i: int, mark: string) returns (m: nat)
    requires j < |parts| && parts[j].Hit? && t != "" && OnlyMarked(parts, t, mark)
    requires At(Render(parts, mark), t, i) && i + |t| <= Offset(parts, j, mark)
    ensures IsHit(Strike(parts, j), m, t) && Offset(Strike(parts, j), m, mark) == i
  {
    m := MarkOf(parts, t, i, mark);
    if m >= j {
      OffsetsGrow(parts, j, m, mark);
    }
    assert Strike(parts, j)[..m] == parts[..m];
  }

  lemma MarkBehind(parts: seq<Part>, j: nat, t: string, i: int, mark: string) returns (m: nat)
    requires j < |parts| && parts[j].Hit? && !parts[j].gone && parts[j].secret != "" && t != "" && OnlyMarked(parts, t, mark)
    requires At(Render(parts, mark), t, i) && i >= Offset(parts, j, mark) + |parts[j].secret|
    ensures IsHit(Strike(parts, j), m, t) && Offset(Strike(parts, j), m, mark) == i - |parts[j].secret| + |mark|
  {
    m := MarkOf(parts, t, i, mark);
    if m <= j {
      OffsetsGrow(parts, m, j, mark);
    }
    OffsetFrom(parts, j, m, mark);
    OffsetFrom(Strike(parts, j), j, m, mark);
    assert Strike(parts, j)[..j] == parts[..j] && Strike(parts, j)[j + 1..] == parts[j + 1..];
  }

  /** An occurrence after a strike was there before it, and has its mark. */
  lemma MarkAfter(parts: seq<Part>, j: nat, t: string, i: int, a: string, v: string, b: string, mark: string) returns (m: nat)
    requires j < |parts| && parts[j].Hit? && !parts[j].gone && parts[j].secret == v != "" && t != ""
    requires OnlyMarked(parts, t, mark) && |a| == Offset(parts, j, mark)
    requires Render(parts, mark) == a + v + b && At(a + mark + b, t, i)
    requires i + |t| <= |a| || i >= |a| + |mark|
    ensures IsHit(Strike(parts, j), m, t) && Offset(Strike(parts, j), m, mark) == i
  {
    SameBeside(a, mark, v, b, t, i);
    if i + |t| <= |a| {
      m := MarkBefore(parts, j, t, i, mark);
    } else {
      m := MarkBehind(parts, j, t, i - |mark| + |v|, mark);
    }
  }

  /** Putting the placeholder where one secret was brings no other occurrence about. */
  lemma OneGone(parts: seq<Part>, j: nat, t: string, mark: string)
    requires j < |parts| && parts[j].Hit? && !parts[j].gone && parts[j].secret != ""
    requires IsPlain(t) && !Contains(WORD, t) && mark == Placeholder() && OnlyMarked(parts, t, mark)
    ensures OnlyMarked(Strike(parts, j), t, mark)
  {
    var a, b := Render(parts[..j], mark), Render(parts[j + 1..], mark);
    StrikeAround(parts, j, mark);
    forall i | At(Render(Strike(parts, j), mark), t, i)
      ensures exists m :: IsHit(Strike(parts, j), m, t) && Offset(Strike(parts, j), m, mark) == i
    {
      BesidePlaceholder(a, b, t, i);
      var m := MarkAfter(parts, j, t, i, a, parts[j].secret, b, mark);
    }
  }

  lemma OffsetFrom(parts: seq<Part>, j: nat, m: nat, mark: string)
    requires j < m <= |parts|
    ensures Offset(parts, m, mark) == Offset(parts, j, mark) + |Shown(parts[j], mark)| + |Render(parts[j + 1..][..m - j - 1], mark)|
  {
    OffsetNext(parts, j, mark);
    assert parts[..m] == parts[..j + 1] + parts[j + 1..][..m - j - 1];
    RenderAppend(parts[..j + 1], parts[j + 1..][..m - j - 1], mark);
  }

  lemma {:induction false} AllGone(parts: seq<Part>, v: string, t: string, n: nat, mark: string)
    requires n <= |parts| && v != "" && v != t
    requires IsPlain(t) && !Contains(WORD, t) && mark == Placeholder() && OnlyMarked(parts, t, mark)
    ensures OnlyMarked(GoneUpTo(parts, v, n), t, mark)
  {
    if n == 0 {
      assert GoneUpTo(parts, v, 0) == parts;
    } else {
      AllGone(parts, v, t, n - 1, mark);
      var before := GoneUpTo(parts, v, n - 1);
      if parts[n - 1] == Hit(v, false) {
        OneGone(before, n - 1, t, mark);
        assert GoneUpTo(parts, v, n) == Strike(before, n - 1);
      } else {
        assert GoneUpTo(parts, v, n) == before;
      }
    }
  }

  /** The parts once every hit of one of these secrets is gone. */
  function Without(parts: seq<Part>, secrets: seq<string>): seq<Part> {
    if secrets == [] then parts
    else
      var before := Without(parts, secrets[..|secrets| - 1]);
      GoneUpTo(before, secrets[|secrets| - 1], |before|)
  }

  lemma {:induction false} MarksOfOthersStay(parts: seq<Part>, secrets: seq<string>, t: string, mark: string)
    requires AllSecrets(secrets) && AllPlain(secrets) && IsSecret(t) && IsPlain(t) && t != WORD && t !in secrets
    requires mark == Placeholder() && OnlyMarked(parts, t, mark)
    ensures OnlyMarked(Without(parts, secrets), t, mark)
  {
    if secrets != [] {
      var before, last := secrets[..|secrets| - 1], secrets[|secrets| - 1];
      MarksOfOthersStay(parts, before, t, mark);
      OnlyTheWord(t);
      AllGone(Without(parts, before), last, t, |Without(parts, before)|, mark);
    }
  }

  lemma {:induction false} ScrubsMarks(parts: seq<Part>, secrets: seq<string>, mark: string)
    requires AllSecrets(secrets) && AllPlain(secrets) && WORD !in secrets
    requires forall i, j :: 0 <= i < j < |secrets| ==> secrets[i] != secrets[j]
    requires mark == Placeholder() && forall i :: 0 <= i < |secrets| ==> OnlyMarked(parts, secrets[i], mark)
    ensures Scrub(Render(parts, mark), secrets) == Render(Without(parts, secrets), mark)
  {
    if secrets != [] {
      var before, last := secrets[..|secrets| - 1], secrets[|secrets| - 1];
      ScrubsMarks(parts, before, mark);
      assert last !in before;
      MarksOfOthersStay(parts, before, last, mark);
      ReplaceMarked(Without(parts, before), last, mark);
    }
  }

  lemma {:induction false} WithoutIs(parts: seq<Part>, secrets: seq<string>, j: nat)
    requires j < |parts| && (parts[j].Hit? ==> !parts[j].gone)
    ensures |Without(parts, secrets)| == |parts|
    ensures Without(parts, secrets)[j] == if parts[j].Hit? && parts[j].secret in secrets then parts[j].(gone := true) else parts[j]
  {
    if secrets != [] {
      WithoutIs(parts, secrets[..|secrets| - 1], j);
      assert secrets == secrets[..|secrets| - 1] + [secrets[|secrets| - 1]];
    }
  }

  /**
   * Scrubbing replaces the registered secrets where they stand and touches nothing else: if they
   * occur in the text only where it is marked, each mark becomes the placeholder and every other
   * part of the text comes out as it went in, whatever the order of the set.
   */
  lemma RedactsExactly(parts: seq<Part>, secrets: seq<string>, after: seq<Part>, mark: string)
    requires AllSecrets(secrets) && AllPlain(secrets) && WORD !in secrets && mark == "\U{00AB}redacted\U{00BB}"
    requires forall i, j :: 0 <= i < j < |secrets| ==> secrets[i] != secrets[j]
    requires forall i :: 0 <= i < |secrets| ==> OnlyMarked(parts, secrets[i], mark)
    requires forall j :: 0 <= j < |parts| && parts[j].Hit? ==> !parts[j].gone && parts[j].secret in secrets
    requires |after| == |parts|
    requires forall j :: 0 <= j < |parts| ==> after[j] == if parts[j].Hit? then parts[j].(gone := true) else parts[j]
    ensures Scrub(Render(parts, mark), secrets) == Render(after, mark)
  {
    ScrubsMarks(parts, secrets, mark);
    forall j | 0 <= j < |parts|
      ensures |Without(parts, secrets)| == |parts| && Without(parts, secrets)[j] == after[j]
    {
      WithoutIs(parts, secrets, j);
    }
    if parts == [] {
      WithoutNothing(secrets);
    }
    assert Without(parts, secrets) == after;
  }

  lemma {:induction false} WithoutNothing(secrets: seq<string>)
    ensures Without([], secrets) == []
  {
    if secrets != [] {
      WithoutNothing(secrets[..|secrets| - 1]);
    }
  }

  /** One secret that stands in one place of the text: what is on either side of it is unchanged. */
  lemma OneSecretInPlace(a: string, t: string, b: string)
    requires IsSecret(t) && forall i :: At(a + t + b, t, i) ==> i == |a|
    ensures Scrub(a + t + b, [t]) == a + "\U{00AB}redacted\U{00BB}" + b
  {
    var s := a + t + b;
    assert [t][..0] == [] && [t][0] == t;
    assert AllSecrets([t]);
    ReplaceFirst(s, a, t, b);
    if i :| At(b, t, i) {
      assert s[|a| + |t|..] == b;
      AtShift(s, t, |a| + |t|, i + |a| + |t|);
    }
    ReplaceNothing(b, t);
  }
}
