/**
 * The command line of `spawnCommand.ts`: arguments quoted for a batch file run through `cmd.exe`,
 * and what comes out after cmd has read the line, the batch file has expanded `%*` and cmd has
 * read that, and the program's C runtime has split its arguments.
 */
module SpawnCommand {
  import opened Text

  // ---- The writer ------------------------------------------------------------------------------

  predicate Unpassable(s: string) {
    '\r' in s || '\n' in s || '\0' in s
  }

  /** The characters `CMD_META` matches. */
  predicate IsMeta(c: char) {
    || c == '(' || c == ')' || c == ']' || c == '[' || c == '%' || c == '!' || c == '^' || c == '"' || c == '`'
    || c == '<' || c == '>' || c == '&' || c == '|' || c == ';' || c == ',' || c == ' ' || c == '*' || c == '?'
  }

  function Backslashes(n: nat): (s: string)
    ensures |s| == n && forall i :: 0 <= i < n ==> s[i] == '\\'
  {
    if n == 0 then "" else ['\\'] + Backslashes(n - 1)
  }

  /** The length of the run of backslashes `s` begins with: what a greedy `\\*` takes. */
  function LeadingRun(s: string): (k: nat)
    ensures k <= |s| && (forall i :: 0 <= i < k ==> s[i] == '\\') && (k < |s| ==> s[k] != '\\')
  {
    if s != "" && s[0] == '\\' then 1 + LeadingRun(s[1..]) else 0
  }

  function TrailingRun(s: string): (k: nat)
    ensures k <= |s|
  {
    if s != "" && s[|s| - 1] == '\\' then 1 + TrailingRun(s[..|s| - 1]) else 0
  }

  /** `replace(/(\\*)"/g, '$1$1\\"')`, matching from the left. */
  function EscapeQuotes(s: string): string
    decreases |s|
  {
    var k := LeadingRun(s);
    if s == "" then ""
    else if k < |s| && s[k] == '"' then Backslashes(2 * k) + "\\\"" + EscapeQuotes(s[k + 1..])
    else [s[0]] + EscapeQuotes(s[1..])
  }

  /** `replace(/(\\*)$/, '$1$1')` */
  function DoubleTrailing(s: string): string {
    s + Backslashes(TrailingRun(s))
  }

  function Quoted(arg: string): string {
    "\"" + DoubleTrailing(EscapeQuotes(arg)) + "\""
  }

  /** `replace(CMD_META, '^$1')` */
  function CaretEscape(s: string): string {
    if s == "" then "" else CaretOne(s[0]) + CaretEscape(s[1..])
  }

  function CaretOne(c: char): string {
    if IsMeta(c) then ['^', c] else [c]
  }

  function QuoteCmdArgument(arg: string): Result<string> {
    if Unpassable(arg) then Err else Ok(CaretEscape(CaretEscape(Quoted(arg))))
  }

  function QuoteCmdCommand(file: string): Result<string> {
    if Unpassable(file) then Err else Ok(CaretEscape(file))
  }

  function JoinSpace(parts: seq<string>): string {
    Join(parts, " ")
  }

  function QuoteAll(args: seq<string>): Result<seq<string>> {
    if args == [] then Ok([])
    else
      match (QuoteCmdArgument(args[0]), QuoteAll(args[1..]))
      case (Ok(a), Ok(rest)) => Ok([a] + rest)
      case _ => Err
  }

  /** The text between the outer quotes of `/s /c "..."`; an Err is the thrown error. */
  function CommandLine(resolved: string, args: seq<string>): Result<string> {
    match (QuoteCmdCommand(resolved), QuoteAll(args))
    case (Ok(c), Ok(rest)) => Ok(JoinSpace([c] + rest))
    case _ => Err
  }

  // ---- The readers -------------------------------------------------------------------------------

  /** A character as cmd sees it: live if it was neither caret-escaped nor inside quotes. */
  datatype Cell = Cell(ch: char, live: bool)

  /** One pass of cmd over a line: the characters it passes on, and whether its quote state was ever on. */
  datatype Pass = Pass(cells: seq<Cell>, everQuoted: bool)

  function CmdPass(s: string, quoted: bool): Pass
    decreases |s|
  {
    if s == "" then Pass([], quoted)
    else if quoted then
      var r := CmdPass(s[1..], s[0] != '"');
      Pass([Cell(s[0], s[0] == '"')] + r.cells, true)
    else if s[0] == '^' then
      if |s| == 1 then Pass([], false)
      else var r := CmdPass(s[2..], false); Pass([Cell(s[1], false)] + r.cells, r.everQuoted)
    else
      var r := CmdPass(s[1..], s[0] == '"');
      Pass([Cell(s[0], true)] + r.cells, r.everQuoted)
  }

  function Chars(cells: seq<Cell>): string {
    seq(|cells|, i requires 0 <= i < |cells| => cells[i].ch)
  }

  /** What cmd acts on outside quotes, delimiters apart: operators, groups, redirections, expansions, carets, wildcards. */
  predicate IsSpecial(c: char) {
    c in {'&', '|', '<', '>', '(', ')', '%', '!', '^', '"', '[', ']', '`', '*', '?'}
  }

  /** What ends a command's name. */
  predicate IsDelimiter(c: char) {
    c in {' ', '\t', ',', ';', '='}
  }

  /** Nothing on the line would make cmd do anything but start one program. */
  ghost predicate OneCommand(cells: seq<Cell>) {
    forall i :: 0 <= i < |cells| && cells[i].live ==> !IsSpecial(cells[i].ch)
  }

  /** Where the command ends: the first live delimiter, or the end of the line. */
  function CommandEnd(cells: seq<Cell>): (n: nat)
    ensures n <= |cells| && (n < |cells| ==> cells[n].live && IsDelimiter(cells[n].ch))
    ensures forall i :: 0 <= i < n ==> !(cells[i].live && IsDelimiter(cells[i].ch))
  {
    if cells == [] || (cells[0].live && IsDelimiter(cells[0].ch)) then 0 else 1 + CommandEnd(cells[1..])
  }

  /** What `%*` stands for: everything after the delimiter that ends the command. */
  function Tail(cells: seq<Cell>): seq<Cell> {
    if CommandEnd(cells) < |cells| then cells[CommandEnd(cells) + 1..] else []
  }

  datatype Scan = Scan(arg: string, rest: string)

  /**
   * The C runtime reading one argument, from inside or outside double quotes, with `n` backslashes
   * seen and not yet accounted for.
   */
  function ScanArg(s: string, quoted: bool, n: nat): (r: Scan)
    ensures |r.rest| <= |s|
    decreases |s|
  {
    if s == "" then Scan(Backslashes(n), "")
    else if s[0] == '\\' then ScanArg(s[1..], quoted, n + 1)
    else if s[0] == '"' then
      if n % 2 == 1 then Emit(Backslashes(n / 2) + "\"", ScanArg(s[1..], quoted, 0))
      else if quoted && |s| > 1 && s[1] == '"' then Emit(Backslashes(n / 2) + "\"", ScanArg(s[2..], true, 0))
      else Emit(Backslashes(n / 2), ScanArg(s[1..], !quoted, 0))
    else if !quoted && (s[0] == ' ' || s[0] == '\t') then Scan(Backslashes(n), s[1..])
    else Emit(Backslashes(n) + [s[0]], ScanArg(s[1..], quoted, 0))
  }

  function Emit(text: string, r: Scan): Scan {
    Scan(text + r.arg, r.rest)
  }

  function Argv(s: string): seq<string>
    decreases |s|
  {
    if s == "" then []
    else if s[0] == ' ' || s[0] == '\t' then Argv(s[1..])
    else
      var r := ScanArg(s, false, 0);
      if |r.rest| < |s| then [r.arg] + Argv(r.rest) else [r.arg]
  }

  /** The batch file that runs, and the arguments its program finally receives. */
  datatype Launch = Launch(command: string, args: seq<string>)

  /**
   * `cmd /c`, then `%*` in the batch file, then the C runtime; None if cmd, either time, would act on
   * something else that it found on the line.
   */
  ghost function Launched(line: string): Option<Launch> {
    var first := CmdPass(line, false).cells;
    var second := CmdPass(Chars(Tail(first)), false).cells;
    if OneCommand(first) && OneCommand(second) then Some(Launch(Chars(first[..CommandEnd(first)]), Argv(Chars(second)))) else None
  }

  // ---- Both cmd passes leave every metacharacter dead ----------------------------------------------

  /** `s` with every metacharacter escaped: what a pass makes of a caret-escaped `s`. */
  function Dead(s: string): seq<Cell> {
    if s == "" then [] else [DeadOne(s[0])] + Dead(s[1..])
  }

  function DeadOne(c: char): Cell {
    Cell(c, !IsMeta(c))
  }

  function JoinCells(parts: seq<string>): seq<Cell> {
    if parts == [] then [] else if |parts| == 1 then Dead(parts[0]) else Dead(parts[0]) + [Cell(' ', true)] + JoinCells(parts[1..])
  }

  function EscapeAll(parts: seq<string>): seq<string> {
    if parts == [] then [] else [CaretEscape(parts[0])] + EscapeAll(parts[1..])
  }

  lemma PassOverOne(c: char, more: string)
    ensures var r := CmdPass(more, false);
      CmdPass(CaretOne(c) + more, false) == Pass([DeadOne(c)] + r.cells, r.everQuoted)
  {
    if IsMeta(c) {
      assert (['^', c] + more)[2..] == more;
    } else {
      assert ([c] + more)[1..] == more;
    }
  }

  lemma EscapedCons(s: string, rest: string, cells: seq<Cell>)
    requires s != ""
    ensures CaretEscape(s) + rest == CaretOne(s[0]) + (CaretEscape(s[1..]) + rest)
    ensures Dead(s) + cells == [DeadOne(s[0])] + (Dead(s[1..]) + cells)
  {
  }

  lemma PassCons(c: char, more: string, cells: seq<Cell>, quoted: bool, whole: string)
    requires whole == CaretOne(c) + more && CmdPass(more, false) == Pass(cells, quoted)
    ensures CmdPass(whole, false) == Pass([DeadOne(c)] + cells, quoted)
  {
    PassOverOne(c, more);
  }

  lemma {:induction false} PassOverEscaped(s: string, rest: string)
    requires rest == "" || rest[0] == ' '
    ensures var r := CmdPass(rest, false);
      CmdPass(CaretEscape(s) + rest, false) == Pass(Dead(s) + r.cells, r.everQuoted)
  {
    var r := CmdPass(rest, false);
    if s == "" {
      assert CaretEscape(s) + rest == rest;
      assert Dead(s) + r.cells == r.cells;
    } else {
      PassOverEscaped(s[1..], rest);
      EscapedCons(s, rest, r.cells);
      PassCons(s[0], CaretEscape(s[1..]) + rest, Dead(s[1..]) + r.cells, r.everQuoted, CaretEscape(s) + rest);
    }
  }

  lemma PassOverPart(part: string, rest: string)
    ensures CmdPass(CaretEscape(part), false) == Pass(Dead(part), false)
    ensures var r := CmdPass(rest, false);
      CmdPass(CaretEscape(part) + (" " + rest), false) == Pass(Dead(part) + ([Cell(' ', true)] + r.cells), r.everQuoted)
  {
    PassOverEscaped(part, "");
    assert CaretEscape(part) + "" == CaretEscape(part);
    assert Dead(part) + CmdPass("", false).cells == Dead(part);
    PassOverEscaped(part, " " + rest);
    assert (" " + rest)[1..] == rest;
  }

  /**
   * A pass over escaped parts joined by spaces strips exactly one layer: the parts come out as they
   * were, the only live metacharacters are the joining spaces, and cmd is never inside quotes.
   */
  lemma {:induction false} PassStripsOneLayer(parts: seq<string>)
    ensures CmdPass(JoinSpace(EscapeAll(parts)), false) == Pass(JoinCells(parts), false)
  {
    if parts != [] {
      var escaped := EscapeAll(parts);
      assert escaped[0] == CaretEscape(parts[0]) && escaped[1..] == EscapeAll(parts[1..]);
      EscapeAllLength(parts);
      var rest := JoinSpace(EscapeAll(parts[1..]));
      PassOverPart(parts[0], rest);
      if |parts| > 1 {
        PassStripsOneLayer(parts[1..]);
        assert JoinSpace(escaped) == CaretEscape(parts[0]) + (" " + rest);
        assert JoinCells(parts) == Dead(parts[0]) + ([Cell(' ', true)] + JoinCells(parts[1..]));
      }
    }
  }

  lemma {:induction false} EscapeAllLength(parts: seq<string>)
    ensures |EscapeAll(parts)| == |parts|
  {
    if parts != [] {
      EscapeAllLength(parts[1..]);
    }
  }

  lemma {:induction false} DeadChars(s: string)
    ensures |Dead(s)| == |s| && Chars(Dead(s)) == s
    ensures forall i :: 0 <= i < |s| ==> Dead(s)[i] == Cell(s[i], !IsMeta(s[i]))
  {
    if s != "" {
      DeadChars(s[1..]);
    }
  }

  lemma {:induction false} JoinedChars(parts: seq<string>)
    ensures Chars(JoinCells(parts)) == JoinSpace(parts)
  {
    if parts != [] {
      DeadChars(parts[0]);
      if |parts| > 1 {
        JoinedChars(parts[1..]);
        var a, b := Dead(parts[0]), JoinCells(parts[1..]);
        assert Chars(a + [Cell(' ', true)] + b) == Chars(a) + " " + Chars(b);
      }
    }
  }

  /** The delimiters that no caret is put before. */
  predicate Unescaped(c: char) {
    c == '=' || c == '\t'
  }

  /** Its own spaces, commas and semicolons are escaped, so the command ends where it should, unless it holds an `=` or a tab. */
  lemma CommandEndsAt(resolved: string, rest: seq<Cell>)
    requires rest == [] || rest[0] == Cell(' ', true)
    ensures CommandEnd(Dead(resolved) + rest) == |resolved| <==> forall i :: 0 <= i < |resolved| ==> !Unescaped(resolved[i])
    ensures CommandEnd(Dead(resolved) + rest) <= |resolved|
  {
    var cells := Dead(resolved) + rest;
    DeadChars(resolved);
    assert forall i :: 0 <= i < |resolved| ==> cells[i] == Cell(resolved[i], !IsMeta(resolved[i]));
    assert |cells| > |resolved| ==> cells[|resolved|] == rest[0];
  }

  // ---- The C runtime undoes the quoting ---------------------------------------------------------------

  function Body(arg: string): string {
    DoubleTrailing(EscapeQuotes(arg))
  }

  lemma {:induction false} LeadingRunOf(k: nat, t: string)
    requires t == "" || t[0] != '\\'
    ensures LeadingRun(Backslashes(k) + t) == k
  {
    if k > 0 {
      LeadingRunOf(k - 1, t);
      assert (Backslashes(k) + t)[1..] == Backslashes(k - 1) + t;
    } else {
      assert Backslashes(0) + t == t;
    }
  }

  lemma EscapeOneOfRun(s: string, more: string, k: nat)
    requires s == "\\" + more && LeadingRun(s) == k && (k == |s| || s[k] != '"')
    ensures EscapeQuotes(s) == "\\" + EscapeQuotes(more)
  {
    assert s[1..] == more;
  }

  lemma RunCons(k: nat, t: string)
    requires k > 0
    ensures Backslashes(k) + t == "\\" + (Backslashes(k - 1) + t)
  {
  }

  lemma {:induction false} EscapePlainRun(k: nat, t: string)
    requires t == "" || (t[0] != '\\' && t[0] != '"')
    ensures EscapeQuotes(Backslashes(k) + t) == Backslashes(k) + EscapeQuotes(t)
  {
    if k > 0 {
      LeadingRunOf(k, t);
      EscapePlainRun(k - 1, t);
      RunCons(k, t);
      RunCons(k, EscapeQuotes(t));
      EscapeOneOfRun(Backslashes(k) + t, Backslashes(k - 1) + t, k);
    } else {
      assert Backslashes(0) + t == t;
      assert Backslashes(0) + EscapeQuotes(t) == EscapeQuotes(t);
    }
  }

  lemma {:induction false} TrailingRunOf(x: string, y: string)
    requires x != "" && x[|x| - 1] != '\\'
    ensures TrailingRun(x + y) == TrailingRun(y)
    decreases |y|
  {
    if y == "" {
      assert x + y == x;
    } else if y[|y| - 1] == '\\' {
      TrailingRunOf(x, y[..|y| - 1]);
      assert (x + y)[..|x + y| - 1] == x + y[..|y| - 1];
    }
  }

  lemma {:induction false} TrailingRunOfRun(k: nat)
    ensures TrailingRun(Backslashes(k)) == k
  {
    if k > 0 {
      TrailingRunOfRun(k - 1);
      assert Backslashes(k)[..k - 1] == Backslashes(k - 1);
    }
  }

  lemma EscapeAtQuote(arg: string, k: nat)
    requires k == LeadingRun(arg) && k < |arg| && arg[k] == '"'
    ensures EscapeQuotes(arg) == Backslashes(2 * k + 1) + "\"" + EscapeQuotes(arg[k + 1..])
  {
    RunPlusOne(2 * k);
    assert Backslashes(2 * k) + "\\\"" == Backslashes(2 * k + 1) + "\"";
  }

  lemma RunPlusOne(n: nat)
    ensures Backslashes(n + 1) == Backslashes(n) + "\\"
  {
  }

  lemma EscapePlain(t: string)
    requires t != "" && t[0] != '\\' && t[0] != '"'
    ensures EscapeQuotes(t) == [t[0]] + EscapeQuotes(t[1..])
  {
    assert LeadingRun(t) == 0;
  }

  lemma EscapeRunThenPlain(k: nat, c: char, more: string)
    requires c != '\\' && c != '"'
    ensures EscapeQuotes(Backslashes(k) + ([c] + more)) == Backslashes(k) + ([c] + EscapeQuotes(more))
  {
    EscapePlainRun(k, [c] + more);
    EscapePlain([c] + more);
    assert ([c] + more)[1..] == more;
  }

  lemma EscapeAtPlain(arg: string, k: nat)
    requires k == LeadingRun(arg) && k < |arg| && arg[k] != '"'
    ensures EscapeQuotes(arg) == Backslashes(k) + [arg[k]] + EscapeQuotes(arg[k + 1..])
  {
    EscapeRunThenPlain(k, arg[k], arg[k + 1..]);
    RunAndOne(arg, k, arg[k + 1..]);
    RunAndOneAgain(k, arg[k], EscapeQuotes(arg[k + 1..]));
  }

  lemma RunIsPrefix(arg: string, k: nat)
    requires k <= LeadingRun(arg)
    ensures arg[..k] == Backslashes(k)
  {
  }

  lemma AroundIndex(arg: string, k: nat, front: string, more: string)
    requires k < |arg| && front == arg[..k] && more == arg[k + 1..]
    ensures arg == front + [arg[k]] + more && arg == front + ([arg[k]] + more)
  {
  }

  lemma RunAndOne(arg: string, k: nat, more: string)
    requires k == LeadingRun(arg) && k < |arg| && more == arg[k + 1..]
    ensures arg == Backslashes(k) + ([arg[k]] + more) && arg == Backslashes(k) + [arg[k]] + more
  {
    RunIsPrefix(arg, k);
    AroundIndex(arg, k, Backslashes(k), more);
  }

  lemma RunAndOneAgain(k: nat, c: char, more: string)
    ensures Backslashes(k) + ([c] + more) == Backslashes(k) + [c] + more
  {
  }

  lemma DoubleAfter(x: string, y: string)
    requires x != "" && x[|x| - 1] != '\\'
    ensures DoubleTrailing(x + y) == x + DoubleTrailing(y)
  {
    TrailingRunOf(x, y);
  }

  /** Splitting an argument at its first run of backslashes splits its quoted body the same way. */
  lemma BodySplits(arg: string, k: nat)
    requires k == LeadingRun(arg)
    ensures k == |arg| ==> Body(arg) == Backslashes(2 * k)
    ensures k < |arg| && arg[k] == '"' ==> Body(arg) == Backslashes(2 * k + 1) + "\"" + Body(arg[k + 1..])
    ensures k < |arg| && arg[k] != '"' ==> Body(arg) == Backslashes(k) + [arg[k]] + Body(arg[k + 1..])
  {
    if k == |arg| {
      assert arg == Backslashes(k) + "";
      EscapePlainRun(k, "");
      assert EscapeQuotes(arg) == Backslashes(k) + "";
      assert Backslashes(k) + "" == Backslashes(k);
      TrailingRunOfRun(k);
      assert Backslashes(k) + Backslashes(k) == Backslashes(2 * k);
    } else if arg[k] == '"' {
      EscapeAtQuote(arg, k);
      DoubleAfter(Backslashes(2 * k + 1) + "\"", EscapeQuotes(arg[k + 1..]));
    } else {
      EscapeAtPlain(arg, k);
      DoubleAfter(Backslashes(k) + [arg[k]], EscapeQuotes(arg[k + 1..]));
    }
  }

  lemma ScanOneOfRun(s: string, more: string, n: nat)
    requires s == "\\" + more
    ensures ScanArg(s, true, n) == ScanArg(more, true, n + 1)
  {
    assert s[1..] == more;
  }

  lemma {:induction false} ScanRun(k: nat, t: string, n: nat)
    ensures ScanArg(Backslashes(k) + t, true, n) == ScanArg(t, true, n + k)
  {
    if k == 0 {
      assert Backslashes(k) + t == t;
    } else {
      ScanRun(k - 1, t, n + 1);
      RunCons(k, t);
      ScanOneOfRun(Backslashes(k) + t, Backslashes(k - 1) + t, n);
    }
  }

  lemma ScanCons(c: char, more: string, n: nat)
    requires c != '\\'
    ensures c != '"' ==> ScanArg([c] + more, true, n) == Emit(Backslashes(n) + [c], ScanArg(more, true, 0))
    ensures c == '"' && n % 2 == 1 ==> ScanArg([c] + more, true, n) == Emit(Backslashes(n / 2) + "\"", ScanArg(more, true, 0))
  {
    assert ([c] + more)[1..] == more;
  }

  lemma ScanClose(n: nat, after: string)
    requires (after == "" || after[0] == ' ') && n % 2 == 0
    ensures ScanArg("\"" + after, true, n) == Scan(Backslashes(n / 2), if after == "" then "" else after[1..])
  {
    var s := "\"" + after;
    assert s[1..] == after && (|s| > 1 ==> s[1] == ' ');
    assert ScanArg(after, false, 0) == Scan(Backslashes(0), if after == "" then "" else after[1..]);
    assert Backslashes(n / 2) + Backslashes(0) == Backslashes(n / 2);
  }

  /** One run of backslashes and the character after it, written as `body`, reads back as itself. */
  lemma ScanOne(k: nat, c: char, body: string, bodyRest: string, tail: string, read: Scan)
    requires c != '\\' && body == Backslashes(if c == '"' then 2 * k + 1 else k) + [c] + bodyRest
    requires ScanArg(bodyRest + tail, true, 0) == read
    ensures ScanArg(body + tail, true, 0) == Emit(Backslashes(k) + [c], read)
  {
    var n := if c == '"' then 2 * k + 1 else k;
    var more := bodyRest + tail;
    assert body + tail == Backslashes(n) + ([c] + more);
    ScanRun(n, [c] + more, 0);
    ScanCons(c, more, n);
  }

  lemma ScanAllRun(k: nat, after: string)
    requires after == "" || after[0] == ' '
    ensures ScanArg(Backslashes(2 * k) + ("\"" + after), true, 0) == Scan(Backslashes(k), if after == "" then "" else after[1..])
  {
    ScanRun(2 * k, "\"" + after, 0);
    ScanClose(2 * k, after);
  }

  lemma BodyOfAllRun(arg: string)
    requires LeadingRun(arg) == |arg|
    ensures Body(arg) == Backslashes(2 * |arg|) && arg == Backslashes(|arg|)
  {
    BodySplits(arg, |arg|);
  }

  lemma ScanLast(arg: string, after: string)
    requires (after == "" || after[0] == ' ') && LeadingRun(arg) == |arg|
    ensures ScanArg(Body(arg) + ("\"" + after), true, 0) == Scan(arg, if after == "" then "" else after[1..])
  {
    BodyOfAllRun(arg);
    ScanAllRun(|arg|, after);
  }

  /** What `BodySplits` says of a run that a character follows. */
  lemma BodyOfRun(arg: string, k: nat)
    requires k == LeadingRun(arg) && k < |arg|
    ensures Body(arg) == Backslashes(if arg[k] == '"' then 2 * k + 1 else k) + [arg[k]] + Body(arg[k + 1..])
  {
    BodySplits(arg, k);
  }

  lemma ScanStep(arg: string, k: nat, tail: string, rest: string)
    requires k == LeadingRun(arg) && k < |arg|
    requires ScanArg(Body(arg[k + 1..]) + tail, true, 0) == Scan(arg[k + 1..], rest)
    ensures ScanArg(Body(arg) + tail, true, 0) == Scan(arg, rest)
  {
    BodyOfRun(arg, k);
    RunAndOne(arg, k, arg[k + 1..]);
    ScanOne(k, arg[k], Body(arg), Body(arg[k + 1..]), tail, Scan(arg[k + 1..], rest));
  }

  /** The runtime, inside the quotes, reads the body back to the argument and stops at the closing quote. */
  lemma {:induction false} ScanBody(arg: string, after: string)
    requires after == "" || after[0] == ' '
    ensures ScanArg(Body(arg) + ("\"" + after), true, 0) == Scan(arg, if after == "" then "" else after[1..])
    decreases |arg|
  {
    var k := LeadingRun(arg);
    if k == |arg| {
      ScanLast(arg, after);
    } else {
      ScanBody(arg[k + 1..], after);
      ScanStep(arg, k, "\"" + after, if after == "" then "" else after[1..]);
    }
  }

  function QuotedAll(args: seq<string>): seq<string> {
    if args == [] then [] else [Quoted(args[0])] + QuotedAll(args[1..])
  }

  lemma OpenQuote(arg: string, after: string, s: string)
    requires s == Quoted(arg) + after && (after == "" || after[0] == ' ')
    ensures s != "" && s[0] == '"' && ScanArg(s, false, 0) == Scan(arg, if after == "" then "" else after[1..])
  {
    ScanBody(arg, after);
    QuotedParts(Body(arg), after, s);
    ScanOpen(Body(arg) + ("\"" + after));
  }

  lemma QuotedParts(body: string, after: string, s: string)
    requires s == "\"" + body + "\"" + after
    ensures s == "\"" + (body + ("\"" + after))
  {
  }

  lemma ScanOpen(t: string)
    ensures ScanArg("\"" + t, false, 0) == ScanArg(t, true, 0)
  {
    var s := "\"" + t;
    assert s[0] == '"' && s[1..] == t;
    var r := ScanArg(t, true, 0);
    assert Backslashes(0) + r.arg == r.arg;
  }

  lemma ArgvFirst(arg: string, after: string, s: string)
    requires s == Quoted(arg) + after && (after == "" || after[0] == ' ')
    ensures Argv(s) == [arg] + Argv(if after == "" then "" else after[1..])
  {
    OpenQuote(arg, after, s);
  }

  function AfterFirst(rest: seq<string>): string {
    if rest == [] then "" else " " + JoinSpace(rest)
  }

  lemma JoinCons(first: string, rest: seq<string>)
    ensures JoinSpace([first] + rest) == first + AfterFirst(rest)
  {
    assert ([first] + rest)[1..] == rest;
  }

  lemma {:induction false} ArgvOfQuoted(args: seq<string>)
    ensures Argv(JoinSpace(QuotedAll(args))) == args
  {
    if args != [] {
      ArgvOfQuoted(args[1..]);
      var rest := QuotedAll(args[1..]);
      JoinCons(Quoted(args[0]), rest);
      ArgvFirst(args[0], AfterFirst(rest), JoinSpace(QuotedAll(args)));
      assert rest != [] ==> AfterFirst(rest)[1..] == JoinSpace(rest);
      assert args == [args[0]] + args[1..];
    }
  }

  // ---- The round trip ------------------------------------------------------------------------------------

  lemma {:induction false} QuoteAllIs(args: seq<string>)
    ensures QuoteAll(args).Ok? <==> forall i :: 0 <= i < |args| ==> !Unpassable(args[i])
    ensures QuoteAll(args).Ok? ==> QuoteAll(args).value == EscapeAll(EscapeAll(QuotedAll(args)))
  {
    if args != [] {
      QuoteAllIs(args[1..]);
      assert forall i :: 1 <= i < |args| ==> args[i] == args[1..][i - 1];
      var q := QuotedAll(args);
      assert q[0] == Quoted(args[0]) && q[1..] == QuotedAll(args[1..]);
      assert EscapeAll(q)[1..] == EscapeAll(q[1..]);
    }
  }

  lemma EscapeAllCons(s: string, parts: seq<string>)
    ensures EscapeAll([s] + parts) == [CaretEscape(s)] + EscapeAll(parts)
  {
    assert ([s] + parts)[1..] == parts;
  }

  /** The joined parts after the first, with the space before them. */
  function AfterCommand(parts: seq<string>): seq<Cell> {
    if parts == [] then [] else [Cell(' ', true)] + JoinCells(parts)
  }

  lemma JoinCellsCons(first: string, parts: seq<string>)
    ensures JoinCells([first] + parts) == Dead(first) + AfterCommand(parts)
  {
    assert ([first] + parts)[1..] == parts;
    if parts == [] {
      assert Dead(first) + [] == Dead(first);
    }
  }

  /** A command path that holds neither `=` nor a tab. */
  predicate EndsAtSpace(resolved: string) {
    '=' !in resolved && '\t' !in resolved
  }

  /**
   * The first pass shows the batch file one layer of carets less, and never enters quotes; the
   * command is read as it is, and `%*` begins right after it, exactly if it has no `=` and no tab.
   */
  lemma FirstPass(resolved: string, args: seq<string>)
    requires CommandLine(resolved, args).Ok?
    ensures var parts := EscapeAll(QuotedAll(args));
      var p := CmdPass(CommandLine(resolved, args).value, false);
      && p == Pass(JoinCells([resolved] + parts), false)
      && (Chars(p.cells[..CommandEnd(p.cells)]) == resolved <==> EndsAtSpace(resolved))
      && (EndsAtSpace(resolved) ==> Tail(p.cells) == JoinCells(parts))
  {
    QuoteAllIs(args);
    var parts := EscapeAll(QuotedAll(args));
    EscapeAllCons(resolved, parts);
    PassStripsOneLayer([resolved] + parts);
    JoinCellsCons(resolved, parts);
    CommandIs(resolved, parts, JoinCells([resolved] + parts));
  }

  lemma CommandIs(resolved: string, parts: seq<string>, cells: seq<Cell>)
    requires cells == Dead(resolved) + AfterCommand(parts)
    ensures Chars(cells[..CommandEnd(cells)]) == resolved <==> EndsAtSpace(resolved)
    ensures EndsAtSpace(resolved) ==> Tail(cells) == JoinCells(parts)
  {
    CommandEndsAt(resolved, AfterCommand(parts));
    DeadChars(resolved);
    if EndsAtSpace(resolved) {
      assert cells[..|resolved|] == Dead(resolved);
    } else {
      assert exists i :: 0 <= i < |resolved| && Unescaped(resolved[i]);
    }
  }

  /** The second pass sees the quoted arguments themselves, and never enters quotes either. */
  lemma SecondPass(args: seq<string>)
    ensures CmdPass(JoinSpace(EscapeAll(QuotedAll(args))), false) == Pass(JoinCells(QuotedAll(args)), false)
  {
    PassStripsOneLayer(QuotedAll(args));
  }

  /** In a pass a live character that cmd acts on is a space between two parts and nothing else. */
  lemma {:induction false} OnlyJoinsAreLive(parts: seq<string>, i: nat)
    requires i < |JoinCells(parts)|
    ensures var c := JoinCells(parts)[i];
      c.live && (IsSpecial(c.ch) || c.ch == ' ' || c.ch == ',' || c.ch == ';') ==>
        c.ch == ' ' && exists n :: 0 < n < |parts| && i + 1 == Offset(parts, n)
  {
    DeadChars(parts[0]);
    var cells := JoinCells(parts);
    if |parts| > 1 {
      if i == |parts[0]| {
        assert Offset(parts, 1) == |parts[0]| + 1 + Offset(parts[1..], 0);
      } else if i > |parts[0]| {
        var j := i - |parts[0]| - 1;
        OnlyJoinsAreLive(parts[1..], j);
        assert cells[i] == JoinCells(parts[1..])[j];
        if cells[i].live && cells[i].ch == ' ' {
          var n :| 0 < n < |parts[1..]| && j + 1 == Offset(parts[1..], n);
          assert Offset(parts, n + 1) == |parts[0]| + 1 + Offset(parts[1..], n);
        }
      }
    }
  }

  lemma JoinedIsOneCommand(parts: seq<string>)
    ensures OneCommand(JoinCells(parts))
  {
    var cells := JoinCells(parts);
    forall i | 0 <= i < |cells| && cells[i].live
      ensures !IsSpecial(cells[i].ch)
    {
      OnlyJoinsAreLive(parts, i);
    }
  }

  /** Neither time cmd reads it does it find anything to do but to run that one command. */
  lemma OneCommandTwice(resolved: string, args: seq<string>)
    requires CommandLine(resolved, args).Ok? && EndsAtSpace(resolved)
    ensures var first := CmdPass(CommandLine(resolved, args).value, false).cells;
      && OneCommand(first) && Chars(Tail(first)) == JoinSpace(EscapeAll(QuotedAll(args)))
      && OneCommand(CmdPass(Chars(Tail(first)), false).cells)
  {
    var parts := EscapeAll(QuotedAll(args));
    FirstPass(resolved, args);
    JoinedIsOneCommand([resolved] + parts);
    JoinedChars(parts);
    SecondPass(args);
    JoinedIsOneCommand(QuotedAll(args));
  }

  predicate HasBreakOrNul(s: string) {
    '\r' in s || '\n' in s || '\0' in s
  }

  /**
   * A list with a line break or NUL in it is refused, and no other. Any other runs that command with
   * exactly those arguments, and nothing else, if and only if the path of the command holds neither
   * `=` nor a tab, which no caret is put before.
   */
  lemma RoundTrip(resolved: string, args: seq<string>)
    ensures CommandLine(resolved, args).Err? <==>
      HasBreakOrNul(resolved) || exists i :: 0 <= i < |args| && HasBreakOrNul(args[i])
    ensures CommandLine(resolved, args).Ok? ==>
      (Launched(CommandLine(resolved, args).value) == Some(Launch(resolved, args)) <==> '=' !in resolved && '\t' !in resolved)
  {
    QuoteAllIs(args);
    if CommandLine(resolved, args).Ok? {
      FirstPass(resolved, args);
      if EndsAtSpace(resolved) {
        OneCommandTwice(resolved, args);
        SecondPass(args);
        JoinedChars(QuotedAll(args));
        ArgvOfQuoted(args);
      }
    }
  }

  /** Where part `n` begins in the joined line. */
  function Offset(parts: seq<string>, n: nat): nat
    requires n <= |parts|
  {
    if n == 0 then 0 else |parts[0]| + 1 + Offset(parts[1..], n - 1)
  }
}
