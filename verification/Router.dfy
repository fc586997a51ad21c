/**
 * The hash router of the dashboard's `router.ts`: routes printed into a URL hash and read back.
 * Strings are sequences of UTF-16 code units, because that is what the encoders fail on.
 */
module Router {
  import opened Text

  type Units = seq<int>

  datatype Route = Route(name: Units, param: Option<Units>)

  const HASH := 35
  const PERCENT := 37
  const SLASH := 47

  predicate IsUnits(s: Units) {
    forall i :: 0 <= i < |s| ==> 0 <= s[i] < 0x10000
  }

  predicate IsAlnum(c: int) {
    48 <= c <= 57 || 65 <= c <= 90 || 97 <= c <= 122
  }

  /** What `encodeURIComponent` leaves alone: letters, digits and `- _ . ! ~ * ' ( )`. */
  predicate IsUnreserved(c: int) {
    IsAlnum(c) || c == 45 || c == 95 || c == 46 || c == 33 || c == 126 || c == 42 || c == 39 || c == 40 || c == 41
  }

  /** What a param keeps literal: letters, digits and `: / . - _ ~`. */
  predicate IsParamSafe(c: int) {
    IsAlnum(c) || c == 58 || c == SLASH || c == 46 || c == 45 || c == 95 || c == 126
  }

  predicate IsHigh(c: int) {
    0xD800 <= c < 0xDC00
  }

  predicate IsLow(c: int) {
    0xDC00 <= c < 0xE000
  }

  predicate IsScalar(cp: int) {
    0 <= cp < 0x110000 && !(0xD800 <= cp < 0xE000)
  }

  // ---- UTF-8 and percent-encoding ------------------------------------------------------------------

  function Utf8(cp: int): seq<int> {
    if cp < 0x80 then [cp]
    else if cp < 0x800 then [0xC0 + cp / 64, 0x80 + cp % 64]
    else if cp < 0x10000 then [0xE0 + cp / 4096, 0x80 + cp / 64 % 64, 0x80 + cp % 64]
    else [0xF0 + cp / 262144, 0x80 + cp / 4096 % 64, 0x80 + cp / 64 % 64, 0x80 + cp % 64]
  }

  function Utf16(cp: int): Units {
    if cp < 0x10000 then [cp] else [0xD800 + (cp - 0x10000) / 1024, 0xDC00 + (cp - 0x10000) % 1024]
  }

  function Hex(d: int): int {
    if d < 10 then 48 + d else 55 + d
  }

  function Unhex(c: int): Option<int> {
    if 48 <= c <= 57 then Some(c - 48)
    else if 65 <= c <= 70 then Some(c - 55)
    else if 97 <= c <= 102 then Some(c - 87)
    else None
  }

  function PercentBytes(bytes: seq<int>): Units {
    if bytes == [] then [] else [PERCENT, Hex(bytes[0] / 16), Hex(bytes[0] % 16)] + PercentBytes(bytes[1..])
  }

  function Percent(cp: int): Units {
    PercentBytes(Utf8(cp))
  }

  function Then(a: Units, b: Option<Units>): Option<Units> {
    if b.Some? then Some(a + b.value) else None
  }

  /** The code point of a surrogate pair. */
  function PairPoint(high: int, low: int): int {
    0x10000 + (high - 0xD800) * 1024 + (low - 0xDC00)
  }

  /** `encodeURIComponent`; None is the URIError of an unpaired surrogate. */
  function Encode(s: Units): Option<Units>
    decreases |s|
  {
    if s == [] then Some([])
    else if IsUnreserved(s[0]) then Then([s[0]], Encode(s[1..]))
    else if IsHigh(s[0]) then
      if |s| > 1 && IsLow(s[1]) then Then(Percent(PairPoint(s[0], s[1])), Encode(s[2..]))
      else None
    else if IsLow(s[0]) then None
    else Then(Percent(s[0]), Encode(s[1..]))
  }

  /** `encodeParam`: every unit outside the safe set goes through `encodeURIComponent` on its own. */
  function EncodeParam(s: Units): Option<Units> {
    if s == [] then Some([])
    else if IsParamSafe(s[0]) then Then([s[0]], EncodeParam(s[1..]))
    else
      match Encode([s[0]])
      case None => None
      case Some(e) => Then(e, EncodeParam(s[1..]))
  }

  /** The byte a `%XX` at the head stands for. */
  function ByteAt(s: Units): Option<int> {
    if |s| >= 3 && s[0] == PERCENT && Unhex(s[1]).Some? && Unhex(s[2]).Some?
    then Some(Unhex(s[1]).value * 16 + Unhex(s[2]).value) else None
  }

  /** A continuation byte's six bits. */
  function ContinuationAt(s: Units): Option<int> {
    var b := ByteAt(s);
    if b.Some? && 0x80 <= b.value < 0xC0 then Some(b.value - 0x80) else None
  }

  /** `n` continuation bytes from the head of `s`, six bits each, added to what came before. */
  function Continue(acc: int, s: Units, n: nat): (cp: Option<int>)
    ensures cp.Some? ==> 3 * n <= |s|
    decreases n
  {
    if n == 0 then Some(acc)
    else
      var c := ContinuationAt(s);
      if c.None? then None else Continue(acc * 64 + c.value, s[3..], n - 1)
  }

  /** How many continuation bytes a lead byte announces, and what it adds to its own bits. */
  datatype Lead = Lead(more: nat, mark: int)

  function LeadOf(b: int): Option<Lead> {
    if b < 0x80 then Some(Lead(0, 0))
    else if b < 0xC0 || b >= 0xF8 then None
    else if b < 0xE0 then Some(Lead(1, 0xC0))
    else if b < 0xF0 then Some(Lead(2, 0xE0))
    else Some(Lead(3, 0xF0))
  }

  /** One percent-encoded code point at the head: the code point and how many units it took. */
  datatype Point = Point(cp: int, width: nat)

  /** Overlong sequences, surrogates and values beyond 0x10FFFF are malformed (section 3 of RFC 3629). */
  function PointAt(s: Units): (p: Option<Point>)
    ensures p.Some? ==> 0 < p.value.width <= |s|
  {
    var b := ByteAt(s);
    if b.None? || LeadOf(b.value).None? then None
    else
      var lead := LeadOf(b.value).value;
      var cp := Continue(b.value - lead.mark, s[3..], lead.more);
      if cp.Some? && IsScalar(cp.value) && |Utf8(cp.value)| == lead.more + 1 then Some(Point(cp.value, 3 * (lead.more + 1)))
      else None
  }

  /** `decodeURIComponent`; None is the URIError of a malformed sequence. */
  function Decode(s: Units): Option<Units>
    decreases |s|
  {
    if s == [] then Some([])
    else if s[0] != PERCENT then Then([s[0]], Decode(s[1..]))
    else
      match PointAt(s)
      case None => None
      case Some(p) => Then(Utf16(p.cp), Decode(s[p.width..]))
  }

  // ---- Routes -----------------------------------------------------------------------------------------

  /** `indexOf('/')`; the length if there is none. */
  function SlashAt(s: Units): (i: nat)
    ensures i <= |s| && (forall j :: 0 <= j < i ==> s[j] != SLASH) && (i < |s| ==> s[i] == SLASH)
  {
    if s == [] || s[0] == SLASH then 0 else 1 + SlashAt(s[1..])
  }

  /** The name of the route an empty hash stands for. */
  const OVERVIEW: Units := [111, 118, 101, 114, 118, 105, 101, 119]

  function StripHash(hash: Units): Units {
    if hash != [] && hash[0] == HASH then if |hash| > 1 && hash[1] == SLASH then hash[2..] else hash[1..] else hash
  }

  /** `parseHash`; None where a decoder throws. */
  function ParseHash(hash: Units): Option<Route> {
    ParseRaw(StripHash(hash))
  }

  function ParseRaw(raw: Units): Option<Route> {
    if raw == [] then Some(Route(OVERVIEW, None))
    else
      var slash := SlashAt(raw);
      var name := Decode(raw[..slash]);
      if name.None? then None
      else if slash == |raw| then Some(Route(name.value, None))
      else
        var param := Decode(raw[slash + 1..]);
        if param.None? then None else Some(Route(name.value, if param.value == [] then None else param))
  }

  /** `routeHref`; None where an encoder throws. */
  function RouteHref(name: Units, param: Option<Units>): Option<Units> {
    var base := Then([HASH, SLASH], Encode(name));
    if base.None? || param.None? || param.value == [] then base
    else
      var tail := EncodeParam(param.value);
      if tail.None? then None else Some(base.value + [SLASH] + tail.value)
  }

  // ---- Decoding undoes encoding -------------------------------------------------------------------------

  lemma HexBack(d: int)
    requires 0 <= d < 16
    ensures Unhex(Hex(d)) == Some(d) && Hex(d) != SLASH && Hex(d) != PERCENT
  {
  }

  lemma ByteBack(b: int, rest: Units)
    requires 0 <= b < 256
    ensures ByteAt([PERCENT, Hex(b / 16), Hex(b % 16)] + rest) == Some(b)
  {
    HexBack(b / 16);
    HexBack(b % 16);
  }

  function Pct(b: int): Units {
    [PERCENT, Hex(b / 16), Hex(b % 16)]
  }

  lemma PercentCons(bytes: seq<int>, rest: Units)
    requires bytes != []
    ensures PercentBytes(bytes) + rest == Pct(bytes[0]) + (PercentBytes(bytes[1..]) + rest)
  {
  }

  lemma {:induction false} PercentLength(bytes: seq<int>)
    ensures |PercentBytes(bytes)| == 3 * |bytes|
  {
    if bytes != [] {
      PercentLength(bytes[1..]);
    }
  }

  function Fold(acc: int, bytes: seq<int>): int
    decreases |bytes|
  {
    if bytes == [] then acc else Fold(acc * 64 + (bytes[0] - 0x80), bytes[1..])
  }

  predicate AreContinuations(bytes: seq<int>) {
    forall i :: 0 <= i < |bytes| ==> 0x80 <= bytes[i] < 0xC0
  }

  lemma ContinuationBack(b: int, rest: Units, s: Units)
    requires 0x80 <= b < 0xC0 && s == Pct(b) + rest
    ensures ContinuationAt(s) == Some(b - 0x80) && s[3..] == rest
  {
    ByteBack(b, rest);
  }

  lemma {:induction false} ContinueBack(acc: int, bytes: seq<int>, rest: Units)
    requires AreContinuations(bytes)
    ensures Continue(acc, PercentBytes(bytes) + rest, |bytes|) == Some(Fold(acc, bytes))
    decreases |bytes|
  {
    if bytes != [] {
      PercentCons(bytes, rest);
      ContinuationBack(bytes[0], PercentBytes(bytes[1..]) + rest, PercentBytes(bytes) + rest);
      ContinueBack(acc * 64 + (bytes[0] - 0x80), bytes[1..], rest);
    }
  }

  lemma DivDiv(cp: int)
    requires 0 <= cp
    ensures cp / 4096 == cp / 64 / 64 && cp / 262144 == cp / 64 / 64 / 64
  {
  }

  /** The lead byte announces the others, and together they make the code point again. */
  lemma Utf8Back(cp: int)
    requires IsScalar(cp)
    ensures var u := Utf8(cp);
      && 0 <= u[0] < 256 && AreContinuations(u[1..])
      && LeadOf(u[0]).Some? && LeadOf(u[0]).value.more == |u| - 1
      && Fold(u[0] - LeadOf(u[0]).value.mark, u[1..]) == cp
  {
    var u := Utf8(cp);
    DivDiv(cp);
    if |u| == 2 {
      assert u[1..] == [u[1]];
      FoldOne(u[0] - 0xC0, u[1]);
    } else if |u| == 3 {
      assert u[1..] == [u[1], u[2]];
      FoldTwo(u[0] - 0xE0, u[1], u[2]);
    } else if |u| == 4 {
      assert u[1..] == [u[1], u[2], u[3]];
      FoldThree(u[0] - 0xF0, u[1], u[2], u[3]);
    }
  }

  lemma FoldOne(acc: int, a: int)
    ensures Fold(acc, [a]) == acc * 64 + (a - 0x80)
  {
    assert [a][1..] == [];
  }

  lemma FoldTwo(acc: int, a: int, b: int)
    ensures Fold(acc, [a, b]) == (acc * 64 + (a - 0x80)) * 64 + (b - 0x80)
  {
    assert [a, b][1..] == [b];
    FoldOne(acc * 64 + (a - 0x80), b);
  }

  lemma FoldThree(acc: int, a: int, b: int, c: int)
    ensures Fold(acc, [a, b, c]) == ((acc * 64 + (a - 0x80)) * 64 + (b - 0x80)) * 64 + (c - 0x80)
  {
    assert [a, b, c][1..] == [b, c];
    FoldTwo(acc * 64 + (a - 0x80), b, c);
  }

  /** A code point that was percent-encoded is read back, whatever follows. */
  lemma PointBack(cp: int, rest: Units)
    requires IsScalar(cp)
    ensures PointAt(Percent(cp) + rest) == Some(Point(cp, 3 * |Utf8(cp)|)) && |Percent(cp)| == 3 * |Utf8(cp)|
    ensures (Percent(cp) + rest)[0] == PERCENT
  {
    Utf8Back(cp);
    PointOfBytes(Utf8(cp), cp, rest);
  }

  lemma PointOfBytes(u: seq<int>, cp: int, rest: Units)
    requires u == Utf8(cp) && IsScalar(cp) && 0 <= u[0] < 256 && AreContinuations(u[1..])
    requires LeadOf(u[0]).Some? && LeadOf(u[0]).value.more == |u| - 1
    requires Fold(u[0] - LeadOf(u[0]).value.mark, u[1..]) == cp
    ensures PointAt(PercentBytes(u) + rest) == Some(Point(cp, 3 * |u|)) && |PercentBytes(u)| == 3 * |u|
    ensures (PercentBytes(u) + rest)[0] == PERCENT
  {
    var s, more := PercentBytes(u) + rest, PercentBytes(u[1..]) + rest;
    FirstByte(u, rest, s, more);
    ContinueBack(u[0] - LeadOf(u[0]).value.mark, u[1..], rest);
    PercentLength(u);
    PointFrom(s, u[0], LeadOf(u[0]).value, cp);
  }

  lemma FirstByte(u: seq<int>, rest: Units, s: Units, more: Units)
    requires u != [] && 0 <= u[0] < 256 && s == PercentBytes(u) + rest && more == PercentBytes(u[1..]) + rest
    ensures ByteAt(s) == Some(u[0]) && s[3..] == more && s[0] == PERCENT
  {
    PercentCons(u, rest);
    ByteBack(u[0], more);
  }

  lemma PointFrom(s: Units, b: int, lead: Lead, cp: int)
    requires ByteAt(s) == Some(b) && LeadOf(b) == Some(lead) && Continue(b - lead.mark, s[3..], lead.more) == Some(cp)
    requires IsScalar(cp) && |Utf8(cp)| == lead.more + 1
    ensures PointAt(s) == Some(Point(cp, 3 * (lead.more + 1)))
  {
  }

  lemma DecodePoint(cp: int, units: Units, e: Units, t: Units)
    requires IsScalar(cp) && Utf16(cp) == units && Decode(e) == Some(t)
    ensures Decode(Percent(cp) + e) == Some(units + t)
  {
    PointBack(cp, e);
    var s := Percent(cp) + e;
    assert s[|Percent(cp)|..] == e;
  }

  lemma DecodeLiteral(c: int, e: Units, t: Units)
    requires c != PERCENT && Decode(e) == Some(t)
    ensures Decode([c] + e) == Some([c] + t)
  {
    assert ([c] + e)[1..] == e;
  }

  lemma PairBack(high: int, low: int)
    requires IsHigh(high) && IsLow(low)
    ensures IsScalar(PairPoint(high, low)) && Utf16(PairPoint(high, low)) == [high, low]
  {
  }

  lemma {:induction false} DecodeEncode(s: Units)
    requires IsUnits(s) && Encode(s).Some?
    ensures Decode(Encode(s).value) == Some(s)
    decreases |s|
  {
    if s != [] {
      assert s == [s[0]] + s[1..];
      if IsUnreserved(s[0]) {
        DecodeEncode(s[1..]);
        DecodeLiteral(s[0], Encode(s[1..]).value, s[1..]);
      } else if IsHigh(s[0]) {
        DecodeEncode(s[2..]);
        PairBack(s[0], s[1]);
        DecodePoint(PairPoint(s[0], s[1]), [s[0], s[1]], Encode(s[2..]).value, s[2..]);
        assert s == [s[0], s[1]] + s[2..];
      } else {
        DecodeEncode(s[1..]);
        DecodePoint(s[0], [s[0]], Encode(s[1..]).value, s[1..]);
      }
    }
  }

  predicate IsSurrogate(c: int) {
    IsHigh(c) || IsLow(c)
  }

  lemma EncodeOne(c: int)
    ensures Encode([c]) ==
      if IsUnreserved(c) then Some([c]) else if IsSurrogate(c) then None else Some(Percent(c))
  {
    assert [c][1..] == [];
    assert [c] + [] == [c] && Percent(c) + [] == Percent(c);
  }

  lemma {:induction false} DecodeEncodeParam(s: Units)
    requires IsUnits(s)
    ensures EncodeParam(s).Some? <==> forall i :: 0 <= i < |s| ==> !IsSurrogate(s[i])
    ensures EncodeParam(s).Some? ==> Decode(EncodeParam(s).value) == Some(s)
  {
    if s != [] {
      DecodeEncodeParam(s[1..]);
      EncodeOne(s[0]);
      assert forall i :: 1 <= i < |s| ==> s[i] == s[1..][i - 1];
      if EncodeParam(s).Some? {
        var rest := EncodeParam(s[1..]).value;
        assert s == [s[0]] + s[1..];
        if IsParamSafe(s[0]) || IsUnreserved(s[0]) {
          DecodeLiteral(s[0], rest, s[1..]);
        } else {
          DecodePoint(s[0], [s[0]], rest, s[1..]);
        }
      }
    }
  }

  /** A surrogate without its other half. */
  predicate LoneAt(s: Units, i: int)
    requires 0 <= i < |s|
  {
    || (IsHigh(s[i]) && !(i + 1 < |s| && IsLow(s[i + 1])))
    || (IsLow(s[i]) && !(i > 0 && IsHigh(s[i - 1])))
  }

  predicate HasLone(s: Units) {
    exists i :: 0 <= i < |s| && LoneAt(s, i)
  }

  lemma LoneLater(s: Units, k: nat)
    requires 1 <= k <= 2 && k <= |s|
    requires if k == 2 then IsHigh(s[0]) && IsLow(s[1]) else !IsSurrogate(s[0])
    ensures HasLone(s) <==> HasLone(s[k..])
  {
    var t := s[k..];
    if HasLone(s) {
      var i :| 0 <= i < |s| && LoneAt(s, i);
      assert i >= k;
      assert LoneAt(t, i - k);
    }
    if HasLone(t) {
      var i :| 0 <= i < |t| && LoneAt(t, i);
      assert LoneAt(s, i + k);
    }
  }

  lemma {:induction false} EncodeFailsOnLone(s: Units)
    ensures Encode(s).None? <==> HasLone(s)
    decreases |s|
  {
    if s != [] {
      if IsHigh(s[0]) {
        if |s| > 1 && IsLow(s[1]) {
          LoneLater(s, 2);
          EncodeFailsOnLone(s[2..]);
        } else {
          assert LoneAt(s, 0);
        }
      } else if IsLow(s[0]) {
        assert LoneAt(s, 0);
      } else {
        LoneLater(s, 1);
        EncodeFailsOnLone(s[1..]);
      }
    }
  }

  lemma {:induction false} PercentHasNoSlash(bytes: seq<int>)
    requires forall i :: 0 <= i < |bytes| ==> 0 <= bytes[i] < 256
    ensures SLASH !in PercentBytes(bytes) && (bytes != [] ==> PercentBytes(bytes) != [])
  {
    if bytes != [] {
      PercentHasNoSlash(bytes[1..]);
      HexBack(bytes[0] / 16);
      HexBack(bytes[0] % 16);
    }
  }

  lemma PointHasNoSlash(cp: int)
    requires IsScalar(cp)
    ensures SLASH !in Percent(cp) && Percent(cp) != []
  {
    var u := Utf8(cp);
    Utf8Back(cp);
    assert forall i :: 1 <= i < |u| ==> u[i] == u[1..][i - 1];
    PercentHasNoSlash(u);
  }

  /** An encoded name has no slash of its own, and is empty only for the empty name. */
  lemma {:induction false} EncodedHasNoSlash(s: Units)
    requires IsUnits(s) && Encode(s).Some?
    ensures SLASH !in Encode(s).value && (Encode(s).value == [] <==> s == [])
    decreases |s|
  {
    if s != [] {
      if IsUnreserved(s[0]) {
        EncodedHasNoSlash(s[1..]);
      } else if IsHigh(s[0]) {
        EncodedHasNoSlash(s[2..]);
        PairBack(s[0], s[1]);
        PointHasNoSlash(PairPoint(s[0], s[1]));
      } else {
        EncodedHasNoSlash(s[1..]);
        PointHasNoSlash(s[0]);
      }
    }
  }

  // ---- Routes round-trip -----------------------------------------------------------------------------------

  lemma SlashAfterName(name: Units, tail: Units)
    requires SLASH !in name
    ensures SlashAt(name) == |name| && SlashAt(name + [SLASH] + tail) == |name|
  {
    var s := name + [SLASH] + tail;
    assert s[|name|] == SLASH;
    assert forall j :: 0 <= j < |name| ==> s[j] == name[j] && s[j] in name;
    assert forall j :: 0 <= j < |name| ==> name[j] in name;
  }

  /** Exactly which routes have no hash: those with an unpaired surrogate, or any surrogate in the param. */
  lemma HrefFailsExactlyWhen(name: Units, param: Option<Units>)
    requires IsUnits(name) && (param.Some? ==> IsUnits(param.value))
    ensures RouteHref(name, param).None? <==>
      HasLone(name) || (param.Some? && exists i :: 0 <= i < |param.value| && IsSurrogate(param.value[i]))
  {
    EncodeFailsOnLone(name);
    if param.Some? {
      DecodeEncodeParam(param.value);
    }
  }

  lemma StripBack(raw: Units, hash: Units)
    requires hash == [HASH, SLASH] + raw
    ensures StripHash(hash) == raw
  {
  }

  lemma ParseWithParam(e: Units, tail: Units, name: Units, param: Units, raw: Units)
    requires raw == e + [SLASH] + tail && SLASH !in e
    requires Decode(e) == Some(name) && Decode(tail) == Some(param)
    ensures ParseRaw(raw) == Some(Route(name, if param == [] then None else Some(param)))
  {
    SlashAfterName(e, tail);
    assert raw[..|e|] == e && raw[|e| + 1..] == tail;
  }

  lemma ParseBare(e: Units, name: Units)
    requires SLASH !in e && Decode(e) == Some(name)
    ensures ParseRaw(e) == Some(Route(if e == [] then OVERVIEW else name, None))
  {
    SlashAfterName(e, []);
    assert e[..|e|] == e;
  }

  /** What reading a printed route gives, in every case. */
  lemma ReadHref(name: Units, param: Option<Units>)
    requires IsUnits(name) && (param.Some? ==> IsUnits(param.value)) && RouteHref(name, param).Some?
    ensures ParseHash(RouteHref(name, param).value) ==
      if param.Some? && param.value != [] then Some(Route(name, param))
      else if name == [] then Some(Route(OVERVIEW, None))
      else Some(Route(name, None))
  {
    var e := Encode(name).value;
    DecodeEncode(name);
    EncodedHasNoSlash(name);
    if param.Some? && param.value != [] {
      DecodeEncodeParam(param.value);
      PrintedWithParam(e, EncodeParam(param.value).value, name, param.value);
      HrefWithParam(name, param.value);
    } else {
      ParseBare(e, name);
      StripBack(e, [HASH, SLASH] + e);
    }
  }

  lemma HrefWithParam(name: Units, param: Units)
    requires param != [] && RouteHref(name, Some(param)).Some?
    ensures Encode(name).Some? && EncodeParam(param).Some?
    ensures RouteHref(name, Some(param)).value == [HASH, SLASH] + Encode(name).value + [SLASH] + EncodeParam(param).value
  {
  }

  lemma PrintedWithParam(e: Units, tail: Units, name: Units, param: Units)
    requires SLASH !in e && Decode(e) == Some(name) && Decode(tail) == Some(param) && param != []
    ensures ParseHash([HASH, SLASH] + e + [SLASH] + tail) == Some(Route(name, Some(param)))
  {
    var raw := e + [SLASH] + tail;
    ParseWithParam(e, tail, name, param, raw);
    StripBack(raw, [HASH, SLASH] + e + [SLASH] + tail);
  }

  /** A printed route reads back as itself exactly when its param is not empty and it is not empty itself. */
  lemma RouteRoundTrip(name: Units, param: Option<Units>)
    requires IsUnits(name) && (param.Some? ==> IsUnits(param.value)) && RouteHref(name, param).Some?
    ensures ParseHash(RouteHref(name, param).value) == Some(Route(name, param)) <==>
      param != Some([]) && (name != [] || param.Some?)
  {
    ReadHref(name, param);
  }

  // ---- Explorer views ------------------------------------------------------------------------------------------

  datatype Kind = Home | Tx | Object | Package | Address

  datatype View = View(kind: Kind, id: Units)

  function KindName(k: Kind): Units {
    match k
    case Home => [104, 111, 109, 101]
    case Tx => [116, 120]
    case Object => [111, 98, 106, 101, 99, 116]
    case Package => [112, 97, 99, 107, 97, 103, 101]
    case Address => [97, 100, 100, 114, 101, 115, 115]
  }

  const EXPLORER: Units := [101, 120, 112, 108, 111, 114, 101, 114]

  function DetailKind(name: Units): Option<Kind> {
    if name == KindName(Tx) then Some(Tx)
    else if name == KindName(Object) then Some(Object)
    else if name == KindName(Package) then Some(Package)
    else if name == KindName(Address) then Some(Address)
    else None
  }

  function ParseExplorerView(param: Option<Units>): View {
    if param.None? || param.value == [] then View(Home, [])
    else
      var slash := SlashAt(param.value);
      if slash == |param.value| then View(Home, [])
      else
        var kind, id := DetailKind(param.value[..slash]), param.value[slash + 1..];
        if id == [] || kind.None? then View(Home, []) else View(kind.value, id)
  }

  /** The href that the `goto` helpers navigate to. */
  function ViewHref(v: View): Option<Units> {
    RouteHref(EXPLORER, Some(KindName(v.kind) + [SLASH] + v.id))
  }

  lemma KindReadsBack(k: Kind)
    requires k != Home
    ensures DetailKind(KindName(k)) == Some(k)
  {
    assert |KindName(Tx)| == 2 && |KindName(Object)| == 6;
    assert KindName(Package)[0] != KindName(Address)[0];
  }

  /**
   * A detail view with any id free of surrogates, slashes and colons and percent signs included,
   * is recovered from its hash; an id with a surrogate has no hash.
   */
  lemma ViewRoundTrip(v: View)
    requires v.kind != Home && v.id != [] && IsUnits(v.id)
    ensures ViewHref(v).None? <==> exists i :: 0 <= i < |v.id| && IsSurrogate(v.id[i])
    ensures ViewHref(v).Some? ==>
      var route := ParseHash(ViewHref(v).value);
      route.Some? && route.value.name == EXPLORER && ParseExplorerView(route.value.param) == v
  {
    var param := KindName(v.kind) + [SLASH] + v.id;
    KindIsPlain(v.kind);
    SurrogatesInId(KindName(v.kind), v.id, param);
    HrefFailsExactlyWhen(EXPLORER, Some(param));
    if ViewHref(v).Some? {
      ReadHref(EXPLORER, Some(param));
      ViewReadsBack(v, param);
    }
  }

  lemma ViewReadsBack(v: View, param: Units)
    requires v.kind != Home && v.id != [] && param == KindName(v.kind) + [SLASH] + v.id
    ensures ParseExplorerView(Some(param)) == v
  {
    var kind := KindName(v.kind);
    KindIsPlain(v.kind);
    SlashAfterName(kind, v.id);
    KindReadsBack(v.kind);
    assert param[..|kind|] == kind && param[|kind| + 1..] == v.id;
  }

  lemma SurrogatesInId(kind: Units, id: Units, param: Units)
    requires param == kind + [SLASH] + id && IsUnits(kind) && IsUnits(id)
    requires forall i :: 0 <= i < |kind| ==> !IsSurrogate(kind[i])
    ensures IsUnits(param)
    ensures (exists i :: 0 <= i < |param| && IsSurrogate(param[i])) <==> (exists i :: 0 <= i < |id| && IsSurrogate(id[i]))
  {
    forall i | 0 <= i < |id|
      ensures param[i + |kind| + 1] == id[i]
    {
    }
    forall i | |kind| < i < |param|
      ensures param[i] == id[i - |kind| - 1]
    {
    }
  }

  lemma KindIsPlain(k: Kind)
    ensures IsUnits(KindName(k)) && SLASH !in KindName(k) && !HasLone(EXPLORER)
    ensures forall i :: 0 <= i < |KindName(k)| ==> !IsSurrogate(KindName(k)[i])
  {
  }

  /** The code units of an ASCII text. */
  function UnitsOf(text: string): (u: Units)
    ensures |u| == |text| && forall i :: 0 <= i < |u| ==> u[i] == text[i] as int
  {
    seq(|text|, i requires 0 <= i < |text| => text[i] as int)
  }

  /** How each detail view is spelled in a route. */
  function Spelled(k: Kind): string {
    match k case Home => "home" case Tx => "tx" case Object => "object" case Package => "package" case Address => "address"
  }

  lemma KindIsSpelled(k: Kind)
    ensures KindName(k) == UnitsOf(Spelled(k)) && EXPLORER == UnitsOf("explorer")
  {
    var u, v := UnitsOf(Spelled(k)), UnitsOf("explorer");
    assert |u| == |KindName(k)| && |v| == |EXPLORER|;
  }

  lemma KindOf(name: Units, k: Kind)
    ensures k != Home ==> (DetailKind(name) == Some(k) <==> name == KindName(k))
    ensures DetailKind(name) != Some(Home)
  {
    if k != Home {
      KindReadsBack(k);
    }
  }

  /** A param is read as a detail view exactly if it is its kind, a slash and an id; every other is the home view. */
  lemma ViewIsReadExactlyWhen(param: Option<Units>, k: Kind, id: Units)
    ensures k != Home ==>
      (ParseExplorerView(param) == View(k, id) <==> id != [] && param == Some(UnitsOf(Spelled(k)) + [47] + id))
    ensures ParseExplorerView(param).kind == Home ==> ParseExplorerView(param) == View(Home, [])
  {
    KindIsSpelled(k);
    if param.Some? && SlashAt(param.value) < |param.value| {
      var slash := SlashAt(param.value);
      var kind, rest := param.value[..slash], param.value[slash + 1..];
      KindOf(kind, k);
      assert param.value == kind + [47] + rest;
    }
    if k != Home && id != [] && param == Some(KindName(k) + [47] + id) {
      ViewReadsBack(View(k, id), param.value);
    }
  }

  /** The hash mark and the slash behind it may be missing, and a slash with nothing behind it names no param. */
  lemma SpellingsOfAHash(raw: Units, name: Units)
    requires raw == [] || (raw[0] != 35 && raw[0] != 47)
    ensures ParseHash(raw) == ParseHash([35] + raw) == ParseHash([35, 47] + raw)
    ensures raw != [] && 47 !in raw && Decode(raw) == Some(name) ==>
      ParseHash([35, 47] + raw + [47]) == ParseHash([35, 47] + raw) == Some(Route(name, None))
  {
    assert ([35] + raw)[1..] == raw && ([35, 47] + raw)[2..] == raw;
    if raw != [] && 47 !in raw && Decode(raw) == Some(name) {
      var longer := raw + [SLASH] + [];
      StripBack(longer, [35, 47] + raw + [47]);
      ParseWithParam(raw, [], name, [], longer);
      ParseBare(raw, name);
    }
  }

  // ---- What a printed route looks like -----------------------------------------------------------------------

  /** `A-Z a-z 0-9 : / . - _ ~`. */
  predicate IsReadable(c: int) {
    || 65 <= c <= 90 || 97 <= c <= 122 || 48 <= c <= 57
    || c == 58 || c == 47 || c == 46 || c == 45 || c == 95 || c == 126
  }

  /** An object id, a coin type, a sub-route: printed as it is. */
  lemma {:induction false} ReadableStaysReadable(s: Units)
    requires forall i :: 0 <= i < |s| ==> IsReadable(s[i])
    ensures EncodeParam(s) == Some(s)
  {
    if s != [] {
      ReadableStaysReadable(s[1..]);
      assert s == [s[0]] + s[1..];
    }
  }

  /** Visible ASCII other than `#`, `?`, double quote, `<`, `>` and backslash. */
  predicate IsHashSafe(c: int) {
    33 <= c < 127 && c != 35 && c != 63 && c != 34 && c != 60 && c != 62 && c != 92
  }

  predicate AreHashSafe(s: Units) {
    forall i :: 0 <= i < |s| ==> IsHashSafe(s[i])
  }

  lemma {:induction false} PercentIsHashSafe(bytes: seq<int>)
    requires forall i :: 0 <= i < |bytes| ==> 0 <= bytes[i] < 256
    ensures AreHashSafe(PercentBytes(bytes))
  {
    if bytes != [] {
      PercentIsHashSafe(bytes[1..]);
    }
  }

  lemma PointIsHashSafe(cp: int)
    requires IsScalar(cp)
    ensures AreHashSafe(Percent(cp))
  {
    var u := Utf8(cp);
    Utf8Back(cp);
    assert forall i :: 1 <= i < |u| ==> u[i] == u[1..][i - 1];
    PercentIsHashSafe(u);
  }

  lemma {:induction false} EncodedIsHashSafe(s: Units)
    requires IsUnits(s) && Encode(s).Some?
    ensures AreHashSafe(Encode(s).value)
    decreases |s|
  {
    if s != [] {
      if IsUnreserved(s[0]) {
        EncodedIsHashSafe(s[1..]);
      } else if IsHigh(s[0]) {
        EncodedIsHashSafe(s[2..]);
        PairBack(s[0], s[1]);
        PointIsHashSafe(PairPoint(s[0], s[1]));
      } else {
        EncodedIsHashSafe(s[1..]);
        PointIsHashSafe(s[0]);
      }
    }
  }

  lemma {:induction false} ParamIsHashSafe(s: Units)
    requires IsUnits(s) && EncodeParam(s).Some?
    ensures AreHashSafe(EncodeParam(s).value)
  {
    if s != [] {
      ParamIsHashSafe(s[1..]);
      EncodeOne(s[0]);
      if !IsParamSafe(s[0]) && !IsUnreserved(s[0]) {
        PointIsHashSafe(s[0]);
      }
    }
  }

  /**
   * A printed route is `#/`, and behind it only characters that are safe in a hash; without a name
   * the default route is read, whichever of its three spellings stands for it.
   */
  lemma HrefIsHashSafe(name: Units, param: Option<Units>)
    requires IsUnits(name) && (param.Some? ==> IsUnits(param.value)) && RouteHref(name, param).Some?
    ensures var href := RouteHref(name, param).value;
      |href| >= 2 && href[0] == 35 && href[1] == 47 && AreHashSafe(href[2..])
    ensures ParseHash([]) == ParseHash([35]) == ParseHash([35, 47]) ==
      Some(Route([111, 118, 101, 114, 118, 105, 101, 119], None))
  {
    EncodedIsHashSafe(name);
    if param.Some? && param.value != [] {
      ParamIsHashSafe(param.value);
    }
    assert [35][1..] == [] && [35, 47][2..] == [];
  }
}
