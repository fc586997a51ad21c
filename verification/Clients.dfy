/**
 * `jsonFileClient.register` of `clients.ts`: our entry merged into a configuration file that
 * another application owns and may rewrite, move or remove at any moment.
 */
module Clients {
  import opened Text
  import A = AtomicWrite

  const MAX_MERGE_ATTEMPTS := 3
  const SERVER_NAME := "walrus-console-mcp"

  datatype Json = JNull | JText(s: string) | JArr(items: seq<Json>) | JObj(fields: map<string, Json>) | JAtom(n: int)

  type Config = map<string, Json>

  type Target = nat

  /** JSON text is abstract: a reader, a writer. */
  datatype Codec = Codec(parse: string -> Option<Json>, write: Config -> string)

  ghost predicate Lawful(codec: Codec) {
    forall c :: codec.parse(codec.write(c)) == Some(JObj(c))
  }

  // ---- The merge -----------------------------------------------------------------------------------

  /** The `mcpServers` of a configuration; what is not there reads as empty. */
  function Servers(config: Config): map<string, Json> {
    if "mcpServers" in config && config["mcpServers"].JObj? then config["mcpServers"].fields else map[]
  }

  function Entry(command: string): Json {
    JObj(map["command" := JText(command), "args" := JArr([])])
  }

  function UpsertMcpServer(config: Config, name: string, command: string): Config {
    config["mcpServers" := JObj(Servers(config)[name := Entry(command)])]
  }

  /** `parseConfig`: None is a refusal, a missing file an empty configuration. */
  function ParseConfig(codec: Codec, raw: Option<string>): Option<Config> {
    if raw.None? then Some(map[])
    else
      match codec.parse(raw.value)
      case Some(JObj(config)) =>
        if "mcpServers" in config && !config["mcpServers"].JObj? then None else Some(config)
      case _ => None
  }

  /** What a registration that saw `raw` publishes; None if it refuses. */
  function MergedText(codec: Codec, raw: Option<string>, command: string): Option<string> {
    match ParseConfig(codec, raw)
    case None => None
    case Some(config) => Some(codec.write(UpsertMcpServer(config, SERVER_NAME, command)))
  }

  /** `verify`: the entry is there, points at the command, and takes no arguments. */
  predicate Verified(codec: Codec, raw: Option<string>, command: string) {
    var config := ParseConfig(codec, raw);
    && config.Some? && SERVER_NAME in Servers(config.value) && Servers(config.value)[SERVER_NAME].JObj?
    && var entry := Servers(config.value)[SERVER_NAME].fields;
       && "command" in entry && entry["command"] == JText(command)
       && ("args" in entry ==> entry["args"] == JArr([]))
  }

  /** Everything that is not our entry reads the same in both. */
  predicate SameForOthers(before: Config, after: Config) {
    && (forall key :: key in before.Keys + after.Keys && key != "mcpServers" ==>
          key in before && key in after && before[key] == after[key])
    && (forall name :: name in Servers(before).Keys + Servers(after).Keys && name != SERVER_NAME ==>
          name in Servers(before) && name in Servers(after) && Servers(before)[name] == Servers(after)[name])
  }

  /**
   * What is published reads back as the configuration it was merged from, with our entry as
   * `verify` wants it and nothing of theirs added, changed or lost; publishing it again is the same.
   */
  lemma PublishedKeepsTheirs(codec: Codec, raw: Option<string>, command: string)
    requires Lawful(codec) && MergedText(codec, raw, command).Some?
    ensures var text := MergedText(codec, raw, command);
      && ParseConfig(codec, text).Some?
      && SameForOthers(ParseConfig(codec, raw).value, ParseConfig(codec, text).value)
      && Verified(codec, text, command)
      && MergedText(codec, text, command) == text
  {
    var config := ParseConfig(codec, raw).value;
    var merged := UpsertMcpServer(config, SERVER_NAME, command);
    assert codec.parse(codec.write(merged)) == Some(JObj(merged));
    assert Servers(merged) == Servers(config)[SERVER_NAME := Entry(command)];
    assert Servers(merged)[SERVER_NAME := Entry(command)] == Servers(merged);
    assert UpsertMcpServer(merged, SERVER_NAME, command) == merged;
  }

  /**
   * A registration refuses exactly if a file is there whose text is no JSON object, or is one whose
   * `mcpServers` is something else than an object; a missing file is an empty configuration.
   */
  lemma RefusesExactlyWhen(codec: Codec, raw: Option<string>, command: string)
    ensures MergedText(codec, raw, command).None? <==>
      && raw.Some?
      && (match codec.parse(raw.value)
          case Some(JObj(config)) => "mcpServers" in config && !config["mcpServers"].JObj?
          case _ => true)
  {
  }

  /**
   * What is published, exactly: the configuration that was read, or an empty one for a missing file,
   * with one thing in it set anew, the entry of that command without arguments.
   */
  lemma PublishedIs(codec: Codec, raw: Option<string>, command: string, config: Config)
    requires Lawful(codec) && MergedText(codec, raw, command).Some?
    requires if raw.Some? then codec.parse(raw.value) == Some(JObj(config)) else config == map[]
    ensures var servers := if "mcpServers" in config && config["mcpServers"].JObj? then config["mcpServers"].fields else map[];
      var entry := JObj(map["command" := JText(command), "args" := JArr([])]);
      codec.parse(MergedText(codec, raw, command).value) ==
        Some(JObj(config["mcpServers" := JObj(servers["walrus-console-mcp" := entry])]))
  {
    var merged := UpsertMcpServer(config, SERVER_NAME, command);
    assert codec.parse(codec.write(merged)) == Some(JObj(merged));
  }

  /** The entry that verifying looks for: an object with this command and no arguments, whatever else is in it. */
  lemma VerifiedExactlyWhen(codec: Codec, raw: Option<string>, command: string, config: Config, servers: Config, entry: Config)
    requires raw.Some? && codec.parse(raw.value) == Some(JObj(config))
    requires "mcpServers" in config && config["mcpServers"] == JObj(servers)
    requires "walrus-console-mcp" in servers && servers["walrus-console-mcp"] == JObj(entry)
    ensures Verified(codec, raw, command) <==>
      "command" in entry && entry["command"] == JText(command) && ("args" in entry ==> entry["args"] == JArr([]))
  {
  }

  // ---- The retry loop -------------------------------------------------------------------------------

  /** What the path resolves to (None: `resolveTarget` throws) and what the files hold. */
  datatype World = World(link: Option<Target>, files: map<Target, string>, unreadable: set<Target>)

  function Raw(w: World, target: Target): Option<string> {
    if target in w.files then Some(w.files[target]) else None
  }

  datatype Answer = Renames | Locked | Fails

  /** What a call does that matters afterwards, in order. */
  datatype Event =
    | Read(target: Target, raw: Option<string>)
    | Checked(target: Target, raw: Option<string>)
    | Published(target: Target, text: string, was: Option<string>)

  /** How the precondition, the renames or a whole merge ended. */
  datatype Verdict = Passed | Changed | Threw

  datatype Outcome = Registered | Refused | GaveUp

  function CountReads(events: seq<Event>): nat {
    if events == [] then 0 else (if events[|events| - 1].Read? then 1 else 0) + CountReads(events[..|events| - 1])
  }

  function CountPublished(events: seq<Event>): nat {
    if events == [] then 0 else (if events[|events| - 1].Published? then 1 else 0) + CountPublished(events[..|events| - 1])
  }

  /** Every publication comes right after a check, and is the merge of exactly what that check read there. */
  ghost predicate OnlyMergesOfChecked(codec: Codec, command: string, events: seq<Event>) {
    forall i :: 0 <= i < |events| && events[i].Published? ==>
      && 0 < i && events[i - 1].Checked? && events[i - 1].target == events[i].target
      && MergedText(codec, events[i - 1].raw, command) == Some(events[i].text)
  }

  lemma OneEventMore(events: seq<Event>, e: Event)
    ensures CountReads(events + [e]) == CountReads(events) + if e.Read? then 1 else 0
    ensures CountPublished(events + [e]) == CountPublished(events) + if e.Published? then 1 else 0
  {
    assert (events + [e])[..|events|] == events;
  }

  /** The event follows a check of its target and is the merge of what that check read, if it is a publication. */
  predicate Follows(codec: Codec, command: string, events: seq<Event>, e: Event) {
    e.Published? ==>
      && events != [] && events[|events| - 1].Checked? && events[|events| - 1].target == e.target
      && MergedText(codec, events[|events| - 1].raw, command) == Some(e.text)
  }

  lemma MergesOneMore(codec: Codec, command: string, events: seq<Event>, e: Event)
    requires OnlyMergesOfChecked(codec, command, events) && Follows(codec, command, events, e)
    ensures OnlyMergesOfChecked(codec, command, events + [e])
  {
    var more := events + [e];
    assert forall i :: 0 <= i < |events| ==> more[i] == events[i];
    forall i | 0 <= i < |more| && more[i].Published?
      ensures 0 < i && more[i - 1].Checked? && more[i - 1].target == more[i].target
      ensures MergedText(codec, more[i - 1].raw, command) == Some(more[i].text)
    {
      if i < |events| {
        assert events[i].Published?;
      }
    }
  }

  lemma SameForOthersSteps(a: Config, b: Config, c: Config)
    requires SameForOthers(b, c)
    ensures SameForOthers(a, c) <==> SameForOthers(a, b)
  {
  }

  /**
   * Whatever stood in the file when we published: everything of theirs in it survives exactly if,
   * apart from our entry, it was what the last check had read. The check and the rename are two
   * system calls, so this is what the precondition can and cannot promise.
   */
  lemma TheirsSurviveExactlyWhen(codec: Codec, command: string, events: seq<Event>, i: nat)
    requires Lawful(codec) && OnlyMergesOfChecked(codec, command, events) && i < |events| && events[i].Published?
    requires ParseConfig(codec, events[i].was).Some?
    ensures 0 < i && events[i - 1].Checked? && ParseConfig(codec, events[i - 1].raw).Some?
    ensures var text := ParseConfig(codec, Some(events[i].text));
      && text.Some? && Verified(codec, Some(events[i].text), command)
      && (SameForOthers(ParseConfig(codec, events[i].was).value, text.value) <==>
          SameForOthers(ParseConfig(codec, events[i].was).value, ParseConfig(codec, events[i - 1].raw).value))
  {
    PublishedKeepsTheirs(codec, events[i - 1].raw, command);
    SameForOthersSteps(ParseConfig(codec, events[i].was).value, ParseConfig(codec, events[i - 1].raw).value,
                       ParseConfig(codec, Some(events[i].text)).value);
  }

  class Registration {
    const codec: Codec
    const command: string
    /** What the application does to its file between our system calls. */
    const meddle: (nat, World) -> World
    const answers: nat -> Answer
    var turn: nat
    var w: World
    ghost var events: seq<Event>

    constructor (codec: Codec, command: string, meddle: (nat, World) -> World, answers: nat -> Answer, w: World)
      ensures this.codec == codec && this.command == command && this.w == w && events == []
    {
      this.codec, this.command, this.meddle, this.answers := codec, command, meddle, answers;
      this.w, turn, events := w, 0, [];
    }

    ghost predicate Valid()
      reads this
    {
      OnlyMergesOfChecked(codec, command, events)
    }

    /** The application leaves everything alone. */
    ghost predicate Still() {
      forall n, w :: meddle(n, w) == w
    }

    /** Whatever the application does, the path leads to a file that can be read and merged into. */
    ghost predicate Benign() {
      forall n, w :: Mergeable(meddle(n, w))
    }

    ghost predicate Mergeable(w: World) {
      w.link.Some? && w.unreadable == {} && forall t :: MergedText(codec, Raw(w, t), command).Some?
    }

    /** Of eight renames the `k`-th succeeds, and each before it met a lock. */
    ghost predicate RenamesAt(from: nat, k: nat) {
      k <= 7 && LockedUntil(from, k) && answers(from + 3 * k + 1) == Renames
    }

    ghost predicate SomeRename(from: nat) {
      exists k: nat :: RenamesAt(from, k)
    }

    ghost predicate LockedUntil(from: nat, k: nat) {
      forall j {:trigger LockedAt(from, j)} :: 0 <= j < k ==> LockedAt(from, j)
    }

    ghost predicate LockedAt(from: nat, j: nat) {
      answers(from + 3 * j + 1) == Locked
    }

    lemma NoneRenames(from: nat, k: nat)
      requires k <= 7 && LockedUntil(from, k) && answers(from + 3 * k + 1) != Renames
      requires k == 7 || answers(from + 3 * k + 1) != Locked
      ensures !SomeRename(from)
    {
      forall j: nat
        ensures !RenamesAt(from, j)
      {
        if j < k {
          assert LockedAt(from, j);
        } else if k < j <= 7 {
          assert LockedUntil(from, j) ==> LockedAt(from, k);
        }
      }
    }

    /** Time passes: the application may do anything. */
    method Pause()
      modifies this`turn, this`w
      ensures w == meddle(old(turn), old(w)) && turn == old(turn) + 1
    {
      w := meddle(turn, w);
      turn := turn + 1;
    }

    /** `resolveTarget`. */
    method ResolveTarget() returns (target: Option<Target>)
      modifies this`turn, this`w
      ensures w == meddle(old(turn), old(w)) && turn == old(turn) + 1
      ensures target == w.link
    {
      Pause();
      target := w.link;
    }

    /** `readRaw`; `seen` is false if it throws. */
    method ReadRaw(target: Target) returns (seen: bool, raw: Option<string>)
      modifies this`turn, this`w
      ensures w == meddle(old(turn), old(w)) && turn == old(turn) + 1
      ensures seen <==> target !in w.unreadable
      ensures seen ==> raw == Raw(w, target)
    {
      Pause();
      seen := target !in w.unreadable;
      raw := if target in w.files then Some(w.files[target]) else None;
    }

    /** One more thing to remember. */
    ghost method Note(e: Event)
      requires Valid() && Follows(codec, command, events, e)
      modifies this`events
      ensures Valid() && events == old(events) + [e]
      ensures CountReads(events) == old(CountReads(events)) + if e.Read? then 1 else 0
      ensures CountPublished(events) == old(CountPublished(events)) + if e.Published? then 1 else 0
    {
      OneEventMore(events, e);
      MergesOneMore(codec, command, events, e);
      events := events + [e];
    }

    /** What the application has made of the world at our next system call, and at the one after it. */
    ghost function Soon(): World
      reads this
    {
      meddle(turn, w)
    }

    ghost function Later(): World
      reads this
    {
      meddle(turn + 1, Soon())
    }

    /** By then the path leads to the target and the file there can be read and holds this text. */
    ghost predicate WillAgree(target: Target, raw: Option<string>)
      reads this
    {
      Soon().link == Some(target) && target !in Later().unreadable && Raw(Later(), target) == raw
    }

    /** By then the path leads elsewhere, or the file there can be read and holds another text. */
    ghost predicate WillDiffer(target: Target, raw: Option<string>)
      reads this
    {
      && Soon().link.Some?
      && (Soon().link != Some(target) || (target !in Later().unreadable && Raw(Later(), target) != raw))
    }

    /**
     * The precondition: nothing moved since the merge was made. It passes exactly if the path then
     * resolves to the target and the file can after that be read and holds the text merged from; it
     * reports a change exactly if the path leads elsewhere or the text differs, and otherwise throws.
     */
    method StillTheSame(target: Target, raw: Option<string>) returns (same: Verdict)
      requires Valid()
      modifies this
      ensures same == Passed <==> old(WillAgree(target, raw))
      ensures same == Changed <==> old(WillDiffer(target, raw))
      ensures Valid() && CountReads(events) == old(CountReads(events)) && CountPublished(events) == old(CountPublished(events))
      ensures same == Passed ==> events == old(events) + [Checked(target, raw)] && Raw(w, target) == raw
      ensures same == Passed ==> turn == old(turn) + 2 && w == old(Later())
    {
      var now := ResolveTarget();
      if now.None? {
        return Threw;
      }
      if now.value != target {
        return Changed;
      }
      var seen, found := ReadRaw(target);
      if !seen {
        return Threw;
      }
      same := if found == raw then Passed else Changed;
      Note(Checked(target, found));
    }

    /** The rename itself: it replaces the file at `target`, whatever is in it by now, and nothing else. */
    method Rename(target: Target, raw: Option<string>, text: string)
      requires Valid() && events != [] && events[|events| - 1] == Checked(target, raw)
      requires MergedText(codec, raw, command) == Some(text)
      modifies this
      ensures Valid() && w == old(w).(files := old(w).files[target := text])
      ensures events == old(events) + [Published(target, text, Raw(old(w), target))]
      ensures CountReads(events) == old(CountReads(events)) && CountPublished(events) == old(CountPublished(events)) + 1
    {
      Note(Published(target, text, Raw(w, target)));
      w := w.(files := w.files[target := text]);
    }

    /** One rename, and after a lock error the check before the next; None if that was the last. */
    method TryPublish(target: Target, raw: Option<string>, text: string, attempt: nat) returns (over: bool, same: Verdict)
      requires Valid() && events != [] && events[|events| - 1] == Checked(target, raw)
      requires MergedText(codec, raw, command) == Some(text)
      modifies this
      ensures Valid() && CountReads(events) == old(CountReads(events))
      ensures CountPublished(events) == old(CountPublished(events)) + if over && same == Passed then 1 else 0
      ensures over && same == Passed ==>
        JustPublished() && w == meddle(old(turn), old(w)).(files := meddle(old(turn), old(w)).files[target := text])
      ensures answers(old(turn) + 1) == Renames ==> over && same == Passed
      ensures answers(old(turn) + 1) == Fails || (attempt >= 7 && answers(old(turn) + 1) == Locked) ==> over && same == Threw
      ensures !over ==> attempt < 7 && answers(old(turn) + 1) == Locked && events != [] && events[|events| - 1] == Checked(target, raw)
      ensures !over ==> turn == old(turn) + 3
      ensures Still() && old(Agrees(target, raw)) && answers(old(turn) + 1) == Locked && attempt < 7 ==> !over && w == old(w)
    {
      Pause();
      over := true;
      if answers(turn) == Renames {
        Rename(target, raw, text);
        same := Passed;
      } else if answers(turn) == Fails || attempt >= A.RENAME_RETRIES {
        same := Threw;
      } else {
        same := StillTheSame(target, raw);
        over := same != Passed;
      }
    }

    /** `renameSyncWithRetry`, entered right after a check that passed. */
    method Publish(target: Target, raw: Option<string>, text: string) returns (same: Verdict)
      requires Valid() && events != [] && events[|events| - 1] == Checked(target, raw)
      requires MergedText(codec, raw, command) == Some(text)
      modifies this
      ensures Valid() && CountReads(events) == old(CountReads(events))
      ensures CountPublished(events) == old(CountPublished(events)) + if same == Passed then 1 else 0
      ensures same == Passed ==> JustPublished()
      ensures answers(old(turn) + 1) == Renames ==> same == Passed
      ensures Still() && old(Agrees(target, raw)) ==>
        && (same == Passed <==> SomeRename(old(turn)))
        && (same == Passed ==> w == old(w).(files := old(w).files[target := text])) && same != Changed
    {
      ghost var from, before, readSoFar, published := turn, w, CountReads(events), CountPublished(events);
      ghost var still := Still() && Agrees(target, raw);
      var attempt, over := 0, false;
      same := Threw;
      while !over
        invariant Valid() && attempt <= 8 && CountReads(events) == readSoFar
        invariant CountPublished(events) == published + if over && same == Passed then 1 else 0
        invariant over && same == Passed ==> JustPublished()
        invariant !over ==> attempt <= 7 && turn == from + 3 * attempt && LockedUntil(from, attempt)
        invariant !over ==> events != [] && events[|events| - 1] == Checked(target, raw)
        invariant over ==> attempt > 0 && (answers(from + 1) == Renames ==> same == Passed)
        invariant !over && attempt > 0 ==> LockedAt(from, 0)
        invariant still ==> if over then EndsAt(from, attempt - 1, same) else w == before
        invariant still && over && same == Passed ==> w == before.(files := before.files[target := text])
        decreases 8 - attempt, !over
      {
        over, same := TryPublish(target, raw, text, attempt);
        attempt := attempt + 1;
        assert answers(from + 3 * (attempt - 1) + 1) == Locked ==> LockedAt(from, attempt - 1);
      }
      if still {
        EndsDecided(from, attempt - 1, same);
      }
    }

    /** In a still world it ends at the first rename that meets no lock, or at the eighth. */
    ghost predicate EndsAt(from: nat, k: int, same: Verdict) {
      && 0 <= k <= 7 && LockedUntil(from, k)
      && (answers(from + 3 * k + 1) == Locked ==> k == 7)
      && same == if answers(from + 3 * k + 1) == Renames then Passed else Threw
    }

    lemma EndsDecided(from: nat, k: int, same: Verdict)
      requires EndsAt(from, k, same)
      ensures same == Passed <==> SomeRename(from)
    {
      if same == Passed {
        assert RenamesAt(from, k);
      } else {
        NoneRenames(from, k);
      }
    }

    /** The path leads to the target, and the file there can be read and holds this text. */
    ghost predicate Agrees(target: Target, raw: Option<string>)
      reads this
    {
      w.link == Some(target) && target !in w.unreadable && Raw(w, target) == raw
    }

    /** The last thing that happened is a publication, and its text is in the file. */
    ghost predicate JustPublished()
      reads this
    {
      && events != [] && events[|events| - 1].Published?
      && Raw(w, events[|events| - 1].target) == Some(events[|events| - 1].text)
    }

    /** What the application has made of the world after the third and the fourth of our next calls. */
    ghost function Third(): World
      reads this
    {
      meddle(turn + 2, Later())
    }

    ghost function Fourth(): World
      reads this
    {
      meddle(turn + 3, Third())
    }

    /** The next read will find something to merge into. */
    ghost predicate WillRead()
      reads this
    {
      && Soon().link.Some? && Soon().link.value !in Later().unreadable
      && MergedText(codec, Raw(Later(), Soon().link.value), command).Some?
    }

    /** By the check after it the path leads elsewhere, or the file there can be read and its text is another. */
    ghost predicate WillChange()
      reads this
      requires WillRead()
    {
      var target := Soon().link.value;
      && Third().link.Some?
      && (Third().link != Some(target) || (target !in Fourth().unreadable && Raw(Fourth(), target) != Raw(Later(), target)))
    }

    /** By the check after it nothing has moved. */
    ghost predicate WillStay()
      reads this
      requires WillRead()
    {
      var target := Soon().link.value;
      Third().link == Some(target) && target !in Fourth().unreadable && Raw(Fourth(), target) == Raw(Later(), target)
    }

    /**
     * One merge: Changed means the file changed underneath, None that the call is over without a
     * write. A change by the time of the check makes it Changed; if nothing moved, it is written
     * as soon as the rename is allowed.
     */
    method MergeOnce() returns (done: Verdict)
      requires Valid()
      modifies this
      ensures Valid() && CountReads(events) <= old(CountReads(events)) + 1
      ensures !done.Threw? ==> CountReads(events) == old(CountReads(events)) + 1
      ensures CountPublished(events) == old(CountPublished(events)) + if done == Passed then 1 else 0
      ensures done == Passed ==> JustPublished()
      ensures old(WillRead() && WillChange()) ==> done == Changed
      ensures old(WillRead() && WillStay()) && answers(old(turn) + 5) == Renames ==> done == Passed
      ensures Benign() && (forall n :: answers(n) == Renames) ==> !done.Threw?
      ensures Still() && !old(Ready()) ==> done.Threw?
      ensures Still() && old(Ready()) ==>
        && (done == Passed <==> SomeRename(old(turn) + 4)) && done != Changed
        && (done == Passed ==> w == old(w).(files := old(w).files[old(w).link.value := old(Text())]))
    {
      var target, raw := ReadTarget();
      if target.None? {
        return Threw;
      }
      var text := MergedText(codec, raw, command);
      if text.None? {
        return Threw;
      }
      done := CheckAndPublish(target.value, raw, text.value);
    }

    /** `resolveTarget` and `readRaw`; None if either throws. */
    method ReadTarget() returns (target: Option<Target>, raw: Option<string>)
      requires Valid()
      modifies this
      ensures Valid() && CountPublished(events) == old(CountPublished(events))
      ensures target.Some? <==> old(Soon().link.Some? && Soon().link.value !in Later().unreadable)
      ensures target.Some? ==> target == old(Soon()).link && raw == Raw(w, target.value) && w == old(Later()) && turn == old(turn) + 2
      ensures CountReads(events) == old(CountReads(events)) + if target.Some? then 1 else 0
    {
      target := ResolveTarget();
      raw := None;
      if target.Some? {
        var seen;
        seen, raw := ReadRaw(target.value);
        if seen {
          Note(Read(target.value, raw));
        } else {
          target := None;
        }
      }
    }

    /** `writeFileAtomic` with the precondition: checked, then renamed into place. */
    method CheckAndPublish(target: Target, raw: Option<string>, text: string) returns (done: Verdict)
      requires Valid() && MergedText(codec, raw, command) == Some(text)
      modifies this
      ensures Valid() && CountReads(events) == old(CountReads(events))
      ensures CountPublished(events) == old(CountPublished(events)) + if done == Passed then 1 else 0
      ensures done == Passed ==> JustPublished()
      ensures old(WillDiffer(target, raw)) ==> done == Changed
      ensures old(WillAgree(target, raw)) && answers(old(turn) + 3) == Renames ==> done == Passed
      ensures Benign() && answers(old(turn) + 3) == Renames ==> done != Threw
      ensures Still() && old(Agrees(target, raw)) ==>
        && (done == Passed <==> SomeRename(old(turn) + 2)) && done != Changed
        && (done == Passed ==> w == old(w).(files := old(w).files[target := text]))
    {
      done := StillTheSame(target, raw);
      if done == Passed {
        done := Publish(target, raw, text);
      }
    }

    /** The path leads to a file that can be read and merged into. */
    ghost predicate Ready()
      reads this
    {
      && w.link.Some? && w.link.value !in w.unreadable
      && MergedText(codec, Raw(w, w.link.value), command).Some?
    }

    /** What is published if nothing moves. */
    ghost function Text(): string
      requires Ready()
      reads this
    {
      MergedText(codec, Raw(w, w.link.value), command).value
    }

    /**
     * At most three merges; one publication if it reports success, none otherwise. It gives up only
     * after three, and while there is something to merge into and renames are allowed it does nothing
     * else but succeed or give up. If the application leaves its file alone it succeeds exactly if the
     * file can be merged into and one of eight renames succeeds, and the file is then that merge.
     * `Valid` says that whatever is published is the merge of what the last check read.
     */
    method Register() returns (outcome: Outcome)
      requires Valid() && events == []
      modifies this
      ensures Valid() && CountReads(events) <= 3
      ensures CountPublished(events) == if outcome.Registered? then 1 else 0
      ensures outcome.Registered? ==> JustPublished()
      ensures outcome.GaveUp? ==> CountReads(events) == 3
      ensures Benign() && (forall n :: answers(n) == Renames) ==> !outcome.Refused?
      ensures Still() ==>
        && (outcome.Registered? <==> old(Ready()) && SomeRename(old(turn) + 4))
        && (outcome.Registered? ==> w == old(w).(files := old(w).files[old(w).link.value := old(Text())]))
        && !outcome.GaveUp?
    {
      for attempt := 0 to MAX_MERGE_ATTEMPTS
        invariant Valid() && CountReads(events) == attempt && CountPublished(events) == 0
        invariant Still() ==> attempt == 0 && turn == old(turn) && w == old(w)
      {
        var done := MergeOnce();
        if done == Passed {
          return Registered;
        }
        if done.Threw? {
          return Refused;
        }
      }
      outcome := GaveUp;
    }
  }
}
