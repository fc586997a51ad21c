/**
 * `streamState` of the dashboard's `api.ts`: server-sent events cut out of text that arrives in
 * chunks of any size.
 */
module StateStream {
  import opened Text

  /** What a frame's data is once parsed: unreadable, an error answer, a state, or neither. */
  datatype Payload = Unreadable | Errors | State(n: int) | Nothing

  type Parser = string -> Payload

  // ---- Frames ----------------------------------------------------------------------------------------

  /** `indexOf('\n\n')`; the length if there is none. */
  function BlankAt(s: string): (i: nat)
    ensures i <= |s| && (i < |s| ==> i + 2 <= |s| && s[i] == '\n' && s[i + 1] == '\n')
    ensures forall j :: 0 <= j < i && j + 1 < |s| ==> !(s[j] == '\n' && s[j + 1] == '\n')
  {
    if s == "" then 0
    else if |s| > 1 && s[0] == '\n' && s[1] == '\n' then 0
    else 1 + BlankAt(s[1..])
  }

  datatype Cut = Cut(frames: seq<string>, tail: string)

  /** The leftmost splitting at blank lines, and what is left over. */
  function Split(s: string): Cut
    decreases |s|
  {
    var i := BlankAt(s);
    if i == |s| then Cut([], s)
    else var more := Split(s[i + 2..]); Cut([s[..i]] + more.frames, more.tail)
  }

  function Concat(chunks: seq<string>): string {
    if chunks == [] then "" else Concat(chunks[..|chunks| - 1]) + chunks[|chunks| - 1]
  }

  // ---- One frame ---------------------------------------------------------------------------------------

  /** The trimmed values of the `data:` lines. */
  function DataLines(frame: string): seq<string>
    decreases |frame|
  {
    var i := IndexOf(frame, '\n');
    var line := frame[..i];
    (if StartsWith(line, "data:") then [Trim(line[5..])] else []) +
    if i < |frame| then DataLines(frame[i + 1..]) else []
  }

  function Data(frame: string): string {
    Join(DataLines(frame), "\n")
  }

  // ---- What is delivered -----------------------------------------------------------------------------------

  /** The states handed on, and whether a frame ended the stream early. */
  datatype Result = Result(states: seq<int>, stopped: bool)

  /** One frame's effect. */
  function Handle(parse: Parser, r: Result, frame: string): Result {
    if r.stopped || Data(frame) == "" then r
    else
      match parse(Data(frame))
      case Unreadable => r.(stopped := true)
      case Errors => r.(stopped := true)
      case State(n) => r.(states := r.states + [n])
      case Nothing => r
  }

  function HandleAll(parse: Parser, r: Result, frames: seq<string>): Result
    decreases |frames|
  {
    if frames == [] then r else HandleAll(parse, Handle(parse, r, frames[0]), frames[1..])
  }

  const NOTHING_YET := Result([], false)

  // ---- Which states those are ------------------------------------------------------------------------------

  /** A frame after which nothing is delivered: its data is there, and unreadable or an error answer. */
  predicate EndsStream(parse: Parser, frame: string) {
    Data(frame) != "" && (parse(Data(frame)).Unreadable? || parse(Data(frame)).Errors?)
  }

  /** The state a frame carries, if it carries one. */
  function StateIn(parse: Parser, frame: string): seq<int> {
    if Data(frame) == "" then []
    else match parse(Data(frame)) case State(n) => [n] case _ => []
  }

  /** The states that frames carry, in order. */
  function StatesIn(parse: Parser, frames: seq<string>): seq<int> {
    if frames == [] then [] else StateIn(parse, frames[0]) + StatesIn(parse, frames[1..])
  }

  /** `k` frames come before the first that ends the stream, or it is all of them and none does. */
  ghost predicate EndsAfter(parse: Parser, frames: seq<string>, k: nat) {
    && k <= |frames| && (forall i :: 0 <= i < k ==> !EndsStream(parse, frames[i]))
    && (k < |frames| ==> EndsStream(parse, frames[k]))
  }

  /** Every state before the first frame that ends the stream, in order and none left out; stopped if there is one. */
  ghost predicate Delivers(parse: Parser, frames: seq<string>, r: Result) {
    exists k: nat :: EndsAfter(parse, frames, k) && r.states == StatesIn(parse, frames[..k]) && (r.stopped <==> k < |frames|)
  }

  lemma {:induction false} WhereItEnds(parse: Parser, frames: seq<string>) returns (k: nat)
    ensures EndsAfter(parse, frames, k)
    decreases |frames|
  {
    k := 0;
    if frames != [] && !EndsStream(parse, frames[0]) {
      k := WhereItEnds(parse, frames[1..]);
      assert forall i :: 0 < i < k + 1 ==> frames[i] == frames[1..][i - 1];
      k := k + 1;
    }
  }

  lemma HandleOne(parse: Parser, r: Result, frame: string)
    requires !r.stopped
    ensures Handle(parse, r, frame).stopped <==> EndsStream(parse, frame)
    ensures Handle(parse, r, frame).states == r.states + StateIn(parse, frame)
    ensures EndsStream(parse, frame) ==> StateIn(parse, frame) == []
  {
  }

  lemma StatesInCons(parse: Parser, frame: string, more: seq<string>, frames: seq<string>)
    requires frames == [frame] + more
    ensures StatesIn(parse, frames) == StateIn(parse, frame) + StatesIn(parse, more)
  {
    assert frames[1..] == more;
  }

  lemma EndsAfterRest(parse: Parser, frames: seq<string>, k: nat)
    requires EndsAfter(parse, frames, k) && k > 0
    ensures EndsAfter(parse, frames[1..], k - 1) && frames[..k] == [frames[0]] + frames[1..][..k - 1]
  {
  }

  lemma Regroup(a: seq<int>, b: seq<int>, c: seq<int>, ab: seq<int>, bc: seq<int>)
    requires ab == a + b && bc == b + c
    ensures ab + c == a + bc
  {
  }

  lemma {:induction false} HandleAllDelivers(parse: Parser, r: Result, frames: seq<string>, k: nat)
    requires !r.stopped && EndsAfter(parse, frames, k)
    ensures HandleAll(parse, r, frames).states == r.states + StatesIn(parse, frames[..k])
    ensures HandleAll(parse, r, frames).stopped <==> k < |frames|
    decreases |frames|
  {
    if frames == [] {
    } else if k == 0 {
      HandleOne(parse, r, frames[0]);
      HandleOnlyAdds(parse, Handle(parse, r, frames[0]), frames[1..]);
    } else {
      HandleOne(parse, r, frames[0]);
      var next, more := Handle(parse, r, frames[0]), frames[1..];
      EndsAfterRest(parse, frames, k);
      HandleAllDelivers(parse, next, more, k - 1);
      StatesInCons(parse, frames[0], more[..k - 1], frames[..k]);
      Regroup(r.states, StateIn(parse, frames[0]), StatesIn(parse, more[..k - 1]), next.states, StatesIn(parse, frames[..k]));
    }
  }

  /** What is delivered, whatever the chunks: of the frames of the whole text, every state up to the first that ends the stream. */
  lemma DeliversWhatWasSent(parse: Parser, chunks: seq<string>, c: Cut)
    requires IsLeftmostCut(Concat(chunks), c)
    ensures Delivers(parse, c.frames, FeedAll(parse, chunks).result)
  {
    LeftmostIsUnique(Concat(chunks), c);
    FeedIsCuttingOnce(parse, chunks);
    var k := WhereItEnds(parse, c.frames);
    HandleAllDelivers(parse, NOTHING_YET, c.frames, k);
    Regroup([], [], StatesIn(parse, c.frames[..k]), [], StatesIn(parse, c.frames[..k]));
  }

  /** The text not yet cut, and what was delivered so far. */
  datatype Feed = Feed(buffer: string, result: Result)

  /** One chunk more; nothing happens after a frame that threw. */
  function FeedOne(parse: Parser, f: Feed, chunk: string): Feed {
    if f.result.stopped then f
    else
      var cut := Split(f.buffer + chunk);
      Feed(cut.tail, HandleAll(parse, f.result, cut.frames))
  }

  /** Chunk after chunk, each cut as it comes. */
  function FeedAll(parse: Parser, chunks: seq<string>): Feed {
    if chunks == [] then Feed("", NOTHING_YET)
    else FeedOne(parse, FeedAll(parse, chunks[..|chunks| - 1]), chunks[|chunks| - 1])
  }

  /** The whole text, cut once. */
  function AtOnce(parse: Parser, text: string): Result {
    HandleAll(parse, NOTHING_YET, Split(text).frames)
  }

  // ---- Cutting piecewise is cutting once --------------------------------------------------------------------

  lemma {:induction false} BlankStaysFirst(a: string, b: string)
    requires BlankAt(a) < |a|
    ensures BlankAt(a + b) == BlankAt(a)
  {
    if !(a[0] == '\n' && a[1] == '\n') {
      BlankStaysFirst(a[1..], b);
      assert (a + b)[1..] == a[1..] + b;
    }
  }

  lemma SplitFirst(s: string, first: string, rest: string)
    requires s == first + "\n\n" + rest && BlankAt(s) == |first|
    ensures Split(s) == Cut([first] + Split(rest).frames, Split(rest).tail)
  {
    assert s[..|first|] == first && s[|first| + 2..] == rest;
  }

  /** `a` cut and then `b` added to what was left over and cut again. */
  function CutOn(a: Cut, b: string): Cut {
    Cut(a.frames + Split(a.tail + b).frames, Split(a.tail + b).tail)
  }

  lemma CutOnCons(first: string, a: Cut, b: string)
    ensures CutOn(Cut([first] + a.frames, a.tail), b) == Cut([first] + CutOn(a, b).frames, CutOn(a, b).tail)
  {
    var y := Split(a.tail + b).frames;
    assert [first] + (a.frames + y) == ([first] + a.frames) + y;
  }

  lemma CutOnNothing(a: string, b: string)
    ensures CutOn(Cut([], a), b) == Split(a + b)
  {
    assert [] + Split(a + b).frames == Split(a + b).frames;
  }

  /** The first frame of a text that has one, and what is behind it. */
  lemma FirstFrame(s: string) returns (first: string, rest: string)
    requires BlankAt(s) < |s|
    ensures |first| == BlankAt(s) && |rest| < |s| && s == first + "\n\n" + rest
    ensures Split(s) == Cut([first] + Split(rest).frames, Split(rest).tail)
  {
    first, rest := s[..BlankAt(s)], s[BlankAt(s) + 2..];
  }

  lemma FirstFrameOn(first: string, rest: string, a: string, b: string)
    requires a == first + "\n\n" + rest && BlankAt(a) == |first|
    ensures Split(a + b) == Cut([first] + Split(rest + b).frames, Split(rest + b).tail)
  {
    BlankStaysFirst(a, b);
    assert a + b == first + "\n\n" + (rest + b);
    SplitFirst(a + b, first, rest + b);
  }

  /** Text cut as far as it has come, then cut on, is cut as if it had come at once. */
  lemma {:induction false} SplitOn(a: string, b: string)
    ensures Split(a + b) == CutOn(Split(a), b)
    decreases |a|
  {
    if BlankAt(a) < |a| {
      var first, rest := FirstFrame(a);
      SplitOn(rest, b);
      FirstFrameOn(first, rest, a, b);
      CutOnCons(first, Split(rest), b);
    } else {
      CutOnNothing(a, b);
    }
  }

  lemma HandleCons(parse: Parser, r: Result, frames: seq<string>, frame: string, more: seq<string>)
    requires frames == [frame] + more
    ensures HandleAll(parse, r, frames) == HandleAll(parse, Handle(parse, r, frame), more)
  {
    assert frames[1..] == more;
  }

  lemma ConsAppend(a: seq<string>, b: seq<string>, first: string, more: seq<string>)
    requires a != [] && first == a[0] && more == a[1..]
    ensures a == [first] + more && a + b == [first] + (more + b)
  {
  }

  lemma {:induction false} HandleAllAppend(parse: Parser, r: Result, a: seq<string>, b: seq<string>)
    ensures HandleAll(parse, r, a + b) == HandleAll(parse, HandleAll(parse, r, a), b)
    decreases |a|
  {
    if a == [] {
      assert a + b == b;
    } else {
      var first, more := a[0], a[1..];
      HandleAllAppend(parse, Handle(parse, r, first), more, b);
      ConsAppend(a, b, first, more);
      HandleCons(parse, r, a, first, more);
      HandleCons(parse, r, a + b, first, more + b);
    }
  }

  lemma {:induction false} HandleOnlyAdds(parse: Parser, r: Result, frames: seq<string>)
    ensures r.states <= HandleAll(parse, r, frames).states
    ensures r.stopped ==> HandleAll(parse, r, frames) == r
    decreases |frames|
  {
    if frames != [] {
      HandleOnlyAdds(parse, Handle(parse, r, frames[0]), frames[1..]);
    }
  }

  lemma FeedSnoc(parse: Parser, chunks: seq<string>, i: nat)
    requires i < |chunks|
    ensures FeedAll(parse, chunks[..i + 1]) == FeedOne(parse, FeedAll(parse, chunks[..i]), chunks[i])
  {
    assert chunks[..i + 1][..i] == chunks[..i];
  }

  lemma {:induction false} FeedStays(parse: Parser, chunks: seq<string>, i: nat)
    requires i <= |chunks| && FeedAll(parse, chunks[..i]).result.stopped
    ensures FeedAll(parse, chunks) == FeedAll(parse, chunks[..i])
    decreases |chunks|
  {
    if i == |chunks| {
      assert chunks[..i] == chunks;
    } else {
      var before := chunks[..|chunks| - 1];
      assert before[..i] == chunks[..i];
      FeedStays(parse, before, i);
    }
  }

  lemma CutOne(parse: Parser, buffer: string, r: Result, first: string, rest: string)
    requires BlankAt(buffer) < |buffer| && first == buffer[..BlankAt(buffer)] && rest == buffer[BlankAt(buffer) + 2..]
    ensures Split(buffer).tail == Split(rest).tail
    ensures HandleAll(parse, r, Split(buffer).frames) == HandleAll(parse, Handle(parse, r, first), Split(rest).frames)
  {
    HandleCons(parse, r, Split(buffer).frames, first, Split(rest).frames);
  }

  /** The inner loop on one chunk: `buffer` is cut until no blank line is left or a frame throws. */
  method CutFrames(parse: Parser, text: string, start: Result) returns (buffer: string, r: Result)
    requires !start.stopped
    ensures r == HandleAll(parse, start, Split(text).frames) && (!r.stopped ==> buffer == Split(text).tail)
  {
    buffer, r := text, start;
    while BlankAt(buffer) < |buffer|
      invariant !r.stopped && Split(text).tail == Split(buffer).tail
      invariant HandleAll(parse, start, Split(text).frames) == HandleAll(parse, r, Split(buffer).frames)
      decreases |buffer|
    {
      var sep := BlankAt(buffer);
      CutOne(parse, buffer, r, buffer[..sep], buffer[sep + 2..]);
      r := Handle(parse, r, buffer[..sep]);
      buffer := buffer[sep + 2..];
      if r.stopped {
        HandleOnlyAdds(parse, r, Split(buffer).frames);
        return;
      }
    }
  }

  /** `streamState` from the first chunk to the end of the stream or the frame that throws. */
  method StreamState(parse: Parser, chunks: seq<string>) returns (r: Result)
    ensures r == FeedAll(parse, chunks).result
    ensures forall c :: IsLeftmostCut(Concat(chunks), c) ==> Delivers(parse, c.frames, r)
  {
    forall c | IsLeftmostCut(Concat(chunks), c)
      ensures Delivers(parse, c.frames, FeedAll(parse, chunks).result)
    {
      DeliversWhatWasSent(parse, chunks, c);
    }
    var buffer := "";
    r := NOTHING_YET;
    for i := 0 to |chunks|
      invariant Feed(buffer, r) == FeedAll(parse, chunks[..i]) && !r.stopped
    {
      FeedSnoc(parse, chunks, i);
      buffer, r := CutFrames(parse, buffer + chunks[i], r);
      if r.stopped {
        FeedStays(parse, chunks, i + 1);
        return;
      }
    }
    assert chunks[..|chunks|] == chunks;
  }

  // ---- Main results --------------------------------------------------------------------------------------------

  lemma HandledOn(parse: Parser, text: string, chunk: string)
    ensures AtOnce(parse, text + chunk) == HandleAll(parse, AtOnce(parse, text), Split(Split(text).tail + chunk).frames)
    ensures Split(text + chunk).tail == Split(Split(text).tail + chunk).tail
  {
    SplitOn(text, chunk);
    HandleAllAppend(parse, NOTHING_YET, Split(text).frames, Split(Split(text).tail + chunk).frames);
  }

  /** Cutting chunk by chunk delivers what cutting the whole text once delivers. */
  lemma {:induction false} FeedIsCuttingOnce(parse: Parser, chunks: seq<string>)
    ensures var f := FeedAll(parse, chunks);
      f.result == AtOnce(parse, Concat(chunks)) && (!f.result.stopped ==> f.buffer == Split(Concat(chunks)).tail)
  {
    if chunks != [] {
      var before, last := chunks[..|chunks| - 1], chunks[|chunks| - 1];
      FeedIsCuttingOnce(parse, before);
      HandledOn(parse, Concat(before), last);
      HandleOnlyAdds(parse, AtOnce(parse, Concat(before)), Split(Split(Concat(before)).tail + last).frames);
    }
  }

  /** However the same text is cut into chunks, the same states are delivered in the same order. */
  lemma ChunksDoNotMatter(parse: Parser, chunks: seq<string>, others: seq<string>)
    requires Concat(chunks) == Concat(others)
    ensures FeedAll(parse, chunks).result == FeedAll(parse, others).result
  {
    FeedIsCuttingOnce(parse, chunks);
    FeedIsCuttingOnce(parse, others);
  }

  /** What has been delivered after some of the chunks is a prefix of what all of them deliver. */
  lemma {:induction false} DeliveredGrows(parse: Parser, chunks: seq<string>, i: nat)
    requires i <= |chunks|
    ensures FeedAll(parse, chunks[..i]).result.states <= FeedAll(parse, chunks).result.states
    decreases |chunks|
  {
    if i == |chunks| {
      assert chunks[..i] == chunks;
    } else {
      var before := chunks[..|chunks| - 1];
      assert before[..i] == chunks[..i];
      DeliveredGrows(parse, before, i);
      var f := FeedAll(parse, before);
      HandleOnlyAdds(parse, f.result, Split(f.buffer + chunks[|chunks| - 1]).frames);
    }
  }

  // ---- What the splitting is -------------------------------------------------------------------------------------

  function Rebuild(frames: seq<string>): string {
    if frames == [] then "" else frames[0] + "\n\n" + Rebuild(frames[1..])
  }

  /** Frames, each ended by the first blank line after it begins, and a tail with none. */
  ghost predicate IsLeftmostCut(s: string, c: Cut) {
    && s == Rebuild(c.frames) + c.tail && BlankAt(c.tail) == |c.tail|
    && forall i :: 0 <= i < |c.frames| ==> BlankAt(c.frames[i] + "\n\n") == |c.frames[i]|
  }

  lemma {:induction false} NoBlankBefore(frame: string, rest: string)
    requires BlankAt(frame + "\n\n") == |frame|
    ensures BlankAt(frame + "\n\n" + rest) == |frame|
  {
    BlankStaysFirst(frame + "\n\n", rest);
  }

  lemma {:induction false} FirstFrameEnds(s: string)
    requires BlankAt(s) < |s|
    ensures BlankAt(s[..BlankAt(s)] + "\n\n") == BlankAt(s)
  {
    var i := BlankAt(s);
    if i > 0 {
      FirstFrameEnds(s[1..]);
      assert s[1..][..i - 1] == s[1..i];
      assert (s[..i] + "\n\n")[1..] == s[1..i] + "\n\n";
    } else {
      assert s[..0] + "\n\n" == "\n\n";
    }
  }

  /** The splitting is the leftmost one, and there is only one. */
  lemma {:induction false} SplitIsLeftmost(s: string)
    ensures IsLeftmostCut(s, Split(s))
    decreases |s|
  {
    if BlankAt(s) < |s| {
      var first, rest := FirstFrame(s);
      SplitIsLeftmost(rest);
      FirstFrameEnds(s);
      assert first == s[..BlankAt(s)];
      RebuildCons(first, Split(rest), s);
    } else {
      assert Rebuild([]) + s == s;
    }
  }

  lemma RebuildOne(first: string, frames: seq<string>, tail: string)
    ensures Rebuild([first] + frames) + tail == first + "\n\n" + (Rebuild(frames) + tail)
  {
    assert ([first] + frames)[1..] == frames;
  }

  lemma RebuildCons(first: string, c: Cut, s: string)
    requires IsLeftmostCut(Rebuild(c.frames) + c.tail, c) && BlankAt(first + "\n\n") == |first|
    requires s == first + "\n\n" + (Rebuild(c.frames) + c.tail)
    ensures IsLeftmostCut(s, Cut([first] + c.frames, c.tail))
  {
    var frames := [first] + c.frames;
    RebuildOne(first, c.frames, c.tail);
    forall i | 0 <= i < |frames|
      ensures BlankAt(frames[i] + "\n\n") == |frames[i]|
    {
      assert i > 0 ==> frames[i] == c.frames[i - 1];
    }
  }

  lemma RebuildParts(c: Cut, more: Cut, rest: string)
    requires c.frames != [] && more == Cut(c.frames[1..], c.tail) && rest == Rebuild(more.frames) + more.tail
    ensures Rebuild(c.frames) + c.tail == c.frames[0] + "\n\n" + rest
  {
  }

  lemma LeftmostRest(s: string, c: Cut, more: Cut, rest: string)
    requires IsLeftmostCut(s, c) && c.frames != []
    requires more == Cut(c.frames[1..], c.tail) && rest == Rebuild(more.frames) + more.tail
    ensures IsLeftmostCut(rest, more)
  {
    forall i | 0 <= i < |more.frames|
      ensures BlankAt(more.frames[i] + "\n\n") == |more.frames[i]|
    {
      assert more.frames[i] == c.frames[i + 1];
    }
  }

  lemma {:induction false} LeftmostIsUnique(s: string, c: Cut)
    requires IsLeftmostCut(s, c)
    ensures Split(s) == c
    decreases |c.frames|
  {
    if c.frames == [] {
      assert s == c.tail;
    } else {
      var first, more := c.frames[0], Cut(c.frames[1..], c.tail);
      var rest := Rebuild(more.frames) + more.tail;
      RebuildParts(c, more, rest);
      LeftmostRest(s, c, more, rest);
      LeftmostIsUnique(rest, more);
      LeftmostFirst(s, first, rest, more);
      assert c.frames == [first] + more.frames;
    }
  }

  lemma LeftmostFirst(s: string, first: string, rest: string, more: Cut)
    requires s == first + "\n\n" + rest && BlankAt(first + "\n\n") == |first| && Split(rest) == more
    ensures Split(s) == Cut([first] + more.frames, more.tail)
  {
    NoBlankBefore(first, rest);
    SplitFirst(s, first, rest);
  }

  // ---- A server's events read back -----------------------------------------------------------------------------------

  /** A line of an event: one of its data lines, or another, such as its name or a comment. */
  datatype Line = DataLine(value: string) | OtherLine(text: string)

  function Written(l: Line): string {
    match l case DataLine(value) => "data: " + value case OtherLine(text) => text
  }

  /** A line break in neither, a value that trimming leaves alone, and another line that is there and no data line. */
  predicate IsLine(l: Line) {
    match l
    case DataLine(value) => '\n' !in value && Trim(value) == value
    case OtherLine(text) => '\n' !in text && text != "" && !StartsWith(text, "data:")
  }

  predicate AreLines(lines: seq<Line>) {
    forall i :: 0 <= i < |lines| ==> IsLine(lines[i])
  }

  function TextOf(lines: seq<Line>): string {
    if lines == [] then "" else if |lines| == 1 then Written(lines[0]) else Written(lines[0]) + "\n" + TextOf(lines[1..])
  }

  function Values(lines: seq<Line>): seq<string> {
    if lines == [] then [] else (if lines[0].DataLine? then [lines[0].value] else []) + Values(lines[1..])
  }

  function Texts(events: seq<seq<Line>>): (texts: seq<string>)
    ensures |texts| == |events| && forall i :: 0 <= i < |texts| ==> texts[i] == TextOf(events[i])
  {
    if events == [] then [] else [TextOf(events[0])] + Texts(events[1..])
  }

  predicate AreEvents(events: seq<seq<Line>>) {
    forall i :: 0 <= i < |events| ==> events[i] != [] && AreLines(events[i])
  }

  lemma TrimAfterSpace(p: string)
    requires Trim(p) == p
    ensures Trim(" " + p) == p
  {
    assert (" " + p)[1..] == p;
    assert IsSpace(' ');
    assert TrimStart(" " + p) == TrimStart(p);
  }

  /** A line as it is written has no break in it, is not empty, and is a data line exactly if it should be. */
  lemma WrittenLine(l: Line, s: string)
    requires IsLine(l) && s == Written(l)
    ensures '\n' !in s && s != ""
    ensures StartsWith(s, "data:") <==> l.DataLine?
    ensures l.DataLine? ==> Trim(s[5..]) == l.value
  {
    if l.DataLine? {
      assert s[5..] == " " + l.value;
      TrimAfterSpace(l.value);
      forall j | 0 <= j < |s|
        ensures s[j] != '\n'
      {
        if j >= 6 {
          assert s[j] == l.value[j - 6];
        }
      }
    }
  }

  lemma FirstLine(line: string, rest: string, s: string)
    requires '\n' !in line && s == line + "\n" + rest
    ensures IndexOf(s, '\n') == |line| && s[..|line|] == line && s[|line| + 1..] == rest
  {
    assert forall j :: 0 <= j < |line| ==> s[j] == line[j];
    assert s[|line|] == '\n';
  }

  lemma OnlyLine(line: string)
    requires '\n' !in line
    ensures IndexOf(line, '\n') == |line| && line[..|line|] == line
  {
  }

  lemma {:induction false} DataLinesOf(lines: seq<Line>)
    requires lines != [] && AreLines(lines)
    ensures DataLines(TextOf(lines)) == Values(lines)
    decreases |lines|
  {
    var s, line, rest := TextOf(lines), Written(lines[0]), TextOf(lines[1..]);
    WrittenLine(lines[0], line);
    if |lines| > 1 {
      FirstLine(line, rest, s);
      DataLinesOf(lines[1..]);
    } else {
      OnlyLine(line);
      assert Values(lines[1..]) == [];
    }
  }

  /** Reading the frame of an event gives its data lines, one under the other, whatever stands between them. */
  lemma DataOfEvent(lines: seq<Line>)
    requires lines != [] && AreLines(lines)
    ensures Data(TextOf(lines)) == Join(Values(lines), "\n")
  {
    DataLinesOf(lines);
  }

  lemma BlankCons(c: char, more: string, s: string)
    requires c != '\n' && s == [c] + more
    ensures BlankAt(s) == 1 + BlankAt(more)
  {
    assert s[1..] == more;
  }

  lemma {:induction false} NoBlankInLine(line: string, rest: string)
    requires '\n' !in line && line != "" && (rest == "" || rest[0] == '\n')
    ensures BlankAt(line + rest) == |line| + BlankAt(rest)
  {
    var c, more := line[0], line[1..];
    BlankCons(c, more + rest, line + rest);
    if more != "" {
      NoBlankInLine(more, rest);
    } else {
      assert more + rest == rest;
    }
  }

  lemma BlankAfterBreak(line: string)
    requires line != "" && line[0] != '\n'
    ensures BlankAt("\n" + line) == 1 + BlankAt(line)
  {
    assert ("\n" + line)[1..] == line;
  }

  /** An event as it is written: no blank line in it, and none at its head. */
  predicate IsUnbroken(s: string) {
    s != "" && s[0] != '\n' && BlankAt(s + "\n\n") == |s|
  }

  lemma UnbrokenLine(line: string)
    requires '\n' !in line && line != ""
    ensures IsUnbroken(line)
  {
    NoBlankInLine(line, "\n\n");
  }

  lemma UnbrokenCons(line: string, more: string, s: string)
    requires '\n' !in line && line != "" && IsUnbroken(more) && s == line + "\n" + more
    ensures IsUnbroken(s)
  {
    BlankAfterBreak(more + "\n\n");
    NoBlankInLine(line, "\n" + (more + "\n\n"));
    assert s + "\n\n" == line + ("\n" + (more + "\n\n"));
  }

  lemma {:induction false} NoBlankInEvent(lines: seq<Line>)
    requires lines != [] && AreLines(lines)
    ensures IsUnbroken(TextOf(lines))
    decreases |lines|
  {
    var line := Written(lines[0]);
    WrittenLine(lines[0], line);
    if |lines| == 1 {
      UnbrokenLine(line);
    } else {
      NoBlankInEvent(lines[1..]);
      UnbrokenCons(line, TextOf(lines[1..]), TextOf(lines));
    }
  }

  lemma EventsAreFrames(events: seq<seq<Line>>)
    requires AreEvents(events)
    ensures IsLeftmostCut(Rebuild(Texts(events)), Cut(Texts(events), ""))
  {
    var c := Cut(Texts(events), "");
    assert Rebuild(c.frames) + c.tail == Rebuild(Texts(events));
    forall i | 0 <= i < |c.frames|
      ensures BlankAt(c.frames[i] + "\n\n") == |c.frames[i]|
    {
      NoBlankInEvent(events[i]);
    }
  }

  /** Events sent one after the other arrive whole, in order and alone, each with its own data, in chunks of any size. */
  lemma EventsReadBack(events: seq<seq<Line>>, chunks: seq<string>)
    requires AreEvents(events) && Concat(chunks) == Rebuild(Texts(events))
    ensures var cut := Split(Concat(chunks));
      && cut.tail == "" && |cut.frames| == |events|
      && forall i :: 0 <= i < |events| ==> Data(cut.frames[i]) == Join(Values(events[i]), "\n")
  {
    EventsAreFrames(events);
    LeftmostIsUnique(Concat(chunks), Cut(Texts(events), ""));
    forall i | 0 <= i < |events|
      ensures Data(Texts(events)[i]) == Join(Values(events[i]), "\n")
    {
      DataOfEvent(events[i]);
    }
  }

  /** Data that the parser takes for this state. */
  predicate Parses(parse: Parser, data: string, n: int) {
    data != "" && parse(data) == State(n)
  }

  lemma {:induction false} AllStates(parse: Parser, frames: seq<string>, states: seq<int>)
    requires |frames| == |states|
    requires forall i :: 0 <= i < |frames| ==> Parses(parse, Data(frames[i]), states[i])
    ensures StatesIn(parse, frames) == states && EndsAfter(parse, frames, |frames|)
    decreases |frames|
  {
    if frames != [] {
      AllStates(parse, frames[1..], states[1..]);
      assert StateIn(parse, frames[0]) == [states[0]];
      assert states == [states[0]] + states[1..];
    }
  }

  /**
   * End to end: events whose data parse to states, sent in any chunks, hand on exactly those states,
   * in order, and the stream has not ended early.
   */
  lemma StatesArrive(parse: Parser, events: seq<seq<Line>>, states: seq<int>, chunks: seq<string>)
    requires AreEvents(events) && Concat(chunks) == Rebuild(Texts(events)) && |states| == |events|
    requires forall i :: 0 <= i < |events| ==> Parses(parse, Join(Values(events[i]), "\n"), states[i])
    ensures FeedAll(parse, chunks).result == Result(states, false)
  {
    EventsAreFrames(events);
    DeliversWhatWasSent(parse, chunks, Cut(Texts(events), ""));
    forall i | 0 <= i < |events|
      ensures Parses(parse, Data(Texts(events)[i]), states[i])
    {
      DataOfEvent(events[i]);
    }
    AllStates(parse, Texts(events), states);
    var k: nat :| EndsAfter(parse, Texts(events), k) && FeedAll(parse, chunks).result.states == StatesIn(parse, Texts(events)[..k])
      && (FeedAll(parse, chunks).result.stopped <==> k < |events|);
    assert k == |events| && Texts(events)[..|events|] == Texts(events);
  }
}
