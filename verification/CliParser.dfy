/** The code of the statement executor and of the alias functions in src/bas/cli/cli_parser.c. */
module CliParser {
  import opened CText
  import opened Redirections
  import opened RedirectionParser
  import opened AliasExpansion
  import opened Statements
  import ArgsParse
  import Braces
  import PrefixTable
  import PrefixMap

  // ---------------------------------------------------------------------------
  // The alias loop
  // ---------------------------------------------------------------------------

  /** strncat into a buffer of 1024 bytes. */
  function StrCat(text: string, more: string): string
    requires |text| < COMMAND_SIZE
  {
    Truncate(text + more, COMMAND_SIZE)
  }

  lemma CatTruncated(a: string, b: string)
    ensures |Truncate(a, COMMAND_SIZE)| < COMMAND_SIZE
    ensures StrCat(Truncate(a, COMMAND_SIZE), b) == Truncate(a + b, COMMAND_SIZE)
  {
  }

  /** expanded_cmd, lines 438-450. */
  method BuildExpanded(value: string, parsed: seq<string>) returns (expanded: string)
    ensures expanded == Expanded(value, parsed)
  {
    hide Truncate, AfterSpaces;
    expanded := Truncate(value, COMMAND_SIZE);
    AfterSpacesNone();
    assert value + "" == value;
    CatTruncated(value, "");
    for i := 0 to |parsed|
      invariant |expanded| < COMMAND_SIZE && expanded == Truncate(value + AfterSpaces(parsed[..i]), COMMAND_SIZE)
    {
      ghost var before := value + AfterSpaces(parsed[..i]);
      CatTruncated(before, " ");
      expanded := StrCat(expanded, " ");
      CatTruncated(before + " ", parsed[i]);
      expanded := StrCat(expanded, parsed[i]);
      CatTruncated(before + " " + parsed[i], "");
      AfterSpacesNext(value, parsed, i);
    }
    assert parsed[..|parsed|] == parsed;
  }

  lemma AfterSpacesNone()
    ensures AfterSpaces([]) == ""
  {
  }

  lemma AfterSpacesNext(value: string, parsed: seq<string>, i: nat)
    requires i < |parsed|
    ensures value + AfterSpaces(parsed[..i + 1]) == value + AfterSpaces(parsed[..i]) + " " + parsed[i]
  {
    assert parsed[..i + 1][..i] == parsed[..i];
  }

  /** cmd_argv holds these words, and a NULL after them. */
  predicate HoldsArgv(slots: seq<Option<string>>, words: seq<string>) {
    && |words| < |slots| && slots[|words|] == None
    && forall i :: 0 <= i < |words| ==> slots[i] == Some(words[i])
  }

  /** Lines 408-413, and 472-476 with no name before the words. */
  method FillArgv(cmdArgv: array<Option<string>>, first: seq<string>, words: seq<string>) returns (argc: nat)
    requires |first| + |words| < cmdArgv.Length
    modifies cmdArgv
    ensures argc == |first| + |words| && HoldsArgv(cmdArgv[..], first + words)
  {
    argc := 0;
    var all := first + words;
    for i := 0 to |all|
      invariant argc == i && forall k :: 0 <= k < i ==> cmdArgv[k] == Some(all[k])
    {
      cmdArgv[i] := Some(all[i]);
      argc := argc + 1;
    }
    cmdArgv[argc] := None;
  }

  /** What a handler sees of cmd_argv. */
  method ReadArgv(cmdArgv: array<Option<string>>, argc: nat, ghost words: seq<string>) returns (argv: seq<string>)
    requires HoldsArgv(cmdArgv[..], words) && argc == |words|
    ensures argv == words
  {
    argv := [];
    for i := 0 to argc
      invariant argv == words[..i]
    {
      argv := argv + [cmdArgv[i].value];
    }
  }

  /** The argvs of the first n expansions fit cmd_argv. */
  ghost predicate FitUpTo<W>(sh: Shell<W>, w: W, s: Stage, n: nat) {
    forall k :: 0 <= k <= n && StageAfter(sh, w, s, k).Some? ==> |StageAfter(sh, w, s, k).value.argv| < ARGV_SLOTS
  }

  lemma NextStage<W>(sh: Shell<W>, w: W, s: Stage, k: nat, t: Stage)
    requires StageAfter(sh, w, s, k) == Some(t) && FitUpTo(sh, w, s, k) && k < MAX_EXPANSIONS
    ensures Turn(sh, w, t).To? ==> StageAfter(sh, w, s, k + 1) == Some(Turn(sh, w, t).stage)
    ensures !Turn(sh, w, t).To? ==> ArgvFits(sh, w, s)
    ensures Turn(sh, w, t).To? ==>
      if |Turn(sh, w, t).stage.argv| < ARGV_SLOTS then FitUpTo(sh, w, s, k + 1) else !ArgvFits(sh, w, s)
  {
    hide Turn;
    forall j | k < j
      ensures StageAfter(sh, w, s, j).Some? ==> Turn(sh, w, t).To?
    {
      if StageAfter(sh, w, s, j).Some? {
        StagesBefore(sh, w, s, k, j);
      }
    }
  }

  lemma ExpandNext<W>(sh: Shell<W>, w: W, s: Stage, count: nat)
    requires count < MAX_EXPANSIONS
    ensures Expand(sh, w, s, count) ==
      match Turn(sh, w, s)
      case NotAnAlias => Ready(s)
      case Fails(e) => Failed(e)
      case To(next) => Expand(sh, w, next, count + 1)
  {
    hide Turn;
  }

  /**
    The loop at lines 415-491, on the fixed array cmd_argv. `overrun` says that the source would
    write past its slots, for which there is no outcome.
   */
  method ExpandAliases<W>(sh: Shell<W>, world: W, name: string, cmdArgv: array<Option<string>>, argc: nat,
                          args: seq<string>, ghost argv: seq<string>)
    returns (r: Expansion, overrun: bool)
    requires cmdArgv.Length == ARGV_SLOTS && HoldsArgv(cmdArgv[..], argv) && argc == |argv|
    modifies cmdArgv
    ensures overrun <==> !ArgvFits(sh, world, Stage(name, argv, args))
    ensures !overrun ==> r == Expand(sh, world, Stage(name, argv, args), 0)
  {
    hide ArgvFits, StageAfter, Expand, FitUpTo;
    ghost var start, now := Stage(name, argv, args), Stage(name, argv, args);
    var cmdName, cmdArgc, parsed := name, argc, args;
    var count := 0;
    FirstStage(sh, world, start);
    while count < MAX_EXPANSIONS
      invariant count <= MAX_EXPANSIONS && now.name == cmdName && now.parsed == parsed
      invariant HoldsArgv(cmdArgv[..], now.argv) && cmdArgc == |now.argv|
      invariant StageAfter(sh, world, start, count) == Some(now) && FitUpTo(sh, world, start, count)
      invariant Expand(sh, world, now, count) == Expand(sh, world, start, 0)
    {
      ExpandNext(sh, world, now, count);
      NextStage(sh, world, start, count, now);
      var value := sh.aliasOf(world, cmdName);
      if value.None? {
        var seen := ReadArgv(cmdArgv, cmdArgc, now.argv);
        return Ready(Stage(cmdName, seen, parsed)), false;
      }
      var expanded := BuildExpanded(value.value, parsed);
      var words := sh.parse(expanded);
      if words.None? {
        return Failed(BadAlias), false;
      }
      parsed := words.value;
      if |parsed| == 0 {
        return Failed(EmptyAlias), false;
      }
      cmdName := Truncate(parsed[0], NAME_SIZE);
      if |parsed| >= ARGV_SLOTS {
        return Failed(TooManyAliases), true;
      }
      now := Stage(cmdName, parsed, parsed);
      cmdArgc := FillArgv(cmdArgv, [], parsed);
      assert [] + parsed == parsed;
      count := count + 1;
    }
    TooMany(sh, world, now);
    AllFit(sh, world, start);
    return Failed(TooManyAliases), false;
  }

  lemma FirstStage<W>(sh: Shell<W>, w: W, s: Stage)
    ensures StageAfter(sh, w, s, 0) == Some(s)
    ensures if |s.argv| < ARGV_SLOTS then FitUpTo(sh, w, s, 0) else !ArgvFits(sh, w, s)
  {
    assert StageAfter(sh, w, s, 0) == Some(s);
  }

  lemma AllFit<W>(sh: Shell<W>, w: W, s: Stage)
    requires FitUpTo(sh, w, s, MAX_EXPANSIONS)
    ensures ArgvFits(sh, w, s)
  {
  }

  lemma TooMany<W>(sh: Shell<W>, w: W, s: Stage)
    ensures Expand(sh, w, s, MAX_EXPANSIONS) == Failed(TooManyAliases)
  {
  }

  /** The loop over the handlers, lines 493-521. */
  method TryHandlers<W>(sh: Shell<W>, world: W, s: Stage, streams: Streams) returns (r: Outcome<W>)
    ensures r == Dispatch(sh, world, s, streams)
  {
    var i := 0;
    while i < |sh.handlers|
      invariant i <= |sh.handlers| && FirstHandler(sh, world, s, i) == FirstHandler(sh, world, s, 0)
    {
      if sh.handlers[i].canHandle(world, s.name, s.argv) {
        var call := Call(s.name, s.argv, streams);
        var (world', code) := sh.handlers[i].handle(world, call);
        return Outcome(world', code, [Event(world, i, call)], []);
      }
      i := i + 1;
    }
    return Failure(world, InvalidCommand(s.name));
  }

  // ---------------------------------------------------------------------------
  // One statement
  // ---------------------------------------------------------------------------

  /** A copy of a text, with its NUL. */
  method Copy(text: string) returns (buf: array<char>)
    requires NUL !in text
    ensures fresh(buf) && buf[..] == text + [NUL] && HoldsFrom(buf[..], text, 0)
  {
    buf := new char[|text| + 1](i requires 0 <= i < |text| + 1 => if i < |text| then text[i] else NUL);
    assert buf[..] == text + [NUL];
  }

  /** The end of the word at `start`. */
  method WordEnd(cmd: string, start: nat) returns (end: nat)
    requires start <= |cmd|
    ensures start <= end <= |cmd| && end - start == WordLength(cmd[start..])
  {
    end := start;
    while end < |cmd| && !IsSpace(cmd[end])
      invariant start <= end <= |cmd|
      invariant WordLength(cmd[start..]) == end - start + WordLength(cmd[end..])
    {
      assert cmd[end..][1..] == cmd[end + 1..];
      end := end + 1;
    }
    assert WordLength(cmd[end..]) == 0;
  }

  /** The first word and the arguments of a command, lines 358-391. */
  method SplitCommand(cmd: string) returns (name: string, args: string)
    ensures name == NameOf(cmd) && args == ArgumentText(cmd)
  {
    hide WordLength, SkipSpace, NameOf, ArgumentText;
    assert cmd[0..] == cmd;
    var start := ArgsParse.SkipWhitespace(cmd, 0);
    var end := WordEnd(cmd, start);
    var length := end - start;
    if length >= NAME_SIZE {
      length := NAME_SIZE - 1;
    }
    name := cmd[start..start + length];
    NameIs(cmd, start, end);
    args := "";
    if end < |cmd| {
      var from := ArgsParse.SkipWhitespace(cmd, end + 1);
      args := cmd[from..];
    }
    SkipAfterWord(cmd, start, end);
  }

  lemma NameIs(cmd: string, start: nat, end: nat)
    requires start <= end <= |cmd| && cmd[start..] == SkipSpace(cmd) && end - start == WordLength(cmd[start..])
    ensures NameOf(cmd) == cmd[start..start + if end - start >= NAME_SIZE then NAME_SIZE - 1 else end - start]
  {
    hide SkipSpace, WordLength;
    assert cmd[start..][..end - start] == cmd[start..end];
  }

  lemma SkipAfterWord(cmd: string, start: nat, end: nat)
    requires start <= end <= |cmd| && cmd[start..] == SkipSpace(cmd)
    requires end - start == WordLength(cmd[start..])
    ensures ArgumentText(cmd) == if end < |cmd| then SkipSpace(cmd[end + 1..]) else ""
  {
    assert cmd[start..][end - start..] == cmd[end..];
    if end < |cmd| {
      assert cmd[end..][1..] == cmd[end + 1..];
      Braces.SkipSpaceStep(cmd[end..]);
    }
  }

  /** The text of a part, read from the buffer. */
  lemma StoredText(b: seq<char>, t: string, r: Region)
    requires Stored(b, t, r)
    ensures CString(b[r.from..]) == Text(t, r)
  {
    var s := b[r.from..];
    assert s[r.to - r.from] == NUL && forall k :: 0 <= k < r.to - r.from ==> s[k] == b[r.from + k] != NUL;
    IndexOfUnique(s, NUL, r.to - r.from);
  }

  method ReadStream(buf: array<char>, at: Option<nat>, ghost t: string, ghost r: Option<Region>)
    returns (text: Option<string>)
    requires Points(buf[..], t, r, at) && FitsIn(t, r)
    ensures text == StreamText(t, r)
  {
    if at.None? {
      return None;
    }
    StoredText(buf[..], t, r.value);
    text := Some(CString(buf[at.value..]));
  }

  /** The trimmed statement, in its own buffer. */
  method TrimStatement(statement: string) returns (t: string)
    requires NUL !in statement
    ensures t == Text(statement, Trimmed(statement, 0)) && NUL !in t
  {
    hide Trimmed;
    var buf := Copy(statement);
    ghost var b0 := buf[..];
    var start := TrimWhitespace(buf, 0, statement);
    ClearedIsStored(b0, buf[..], statement, Trimmed(statement, 0));
    StoredText(buf[..], statement, Trimmed(statement, 0));
    t := CString(buf[start..]);
  }

  lemma ClearedIsStored(b0: seq<char>, b: seq<char>, t: string, r: Region)
    requires HoldsFrom(b0, t, 0) && Cleared(b0, b, r.to, |t|) && r.from <= r.to <= |t|
    ensures Stored(b, t, r)
  {
  }

  /** What follows the redirections, lines 358-523. */
  method RunName<W>(sh: Shell<W>, world: W, cmd: string, streams: Streams) returns (r: Outcome<W>, overrun: bool)
    ensures overrun <==> !CommandFits(sh, world, cmd)
    ensures !overrun ==> r == RunCommand(sh, world, cmd, streams)
  {
    hide NameOf, ArgumentText, Expand, Dispatch, ArgvFits, HoldsArgv, FitUpTo;
    var name, args := SplitCommand(cmd);
    if |name| == 0 {
      return Nothing(world), false;
    }
    var parsed := [];
    if |args| > 0 {
      var words := sh.parse(args);
      if words.None? {
        return Failure(world, BadArguments), false;
      }
      parsed := words.value;
    }
    ghost var start := Stage(name, [name] + parsed, parsed);
    FirstStage(sh, world, start);
    if 1 + |parsed| >= ARGV_SLOTS {
      return Nothing(world), true;
    }
    var cmdArgv := new Option<string>[ARGV_SLOTS](_ => None);
    var argc := FillArgv(cmdArgv, [name], parsed);
    var expansion;
    expansion, overrun := ExpandAliases(sh, world, name, cmdArgv, argc, parsed, start.argv);
    if overrun {
      return Nothing(world), true;
    }
    if expansion.Failed? {
      return Failure(world, expansion.error), false;
    }
    r := TryHandlers(sh, world, expansion.stage, streams);
  }

  /** execute_statement */
  method ExecuteStatement<W>(sh: Shell<W>, world: W, statement: string) returns (r: Outcome<W>, overrun: bool)
    requires NUL !in statement
    ensures overrun <==> !StatementFits(sh, world, statement)
    ensures !overrun ==> r == RunStatement(sh, world, statement)
  {
    hide Trimmed, Redirect, RunCommand, CommandFits, CString, Stored, Points;
    var t := TrimStatement(statement);
    if |t| == 0 || t[0] == '#' {
      return Nothing(world), false;
    }
    ghost var copy := Truncate(t, COMMAND_SIZE);
    var buf := Copy(Truncate(t, COMMAND_SIZE));
    CStringIs(buf[..], copy);
    var redir := ParseRedirections(buf);
    ghost var p := Redirect(copy);
    RedirectFits(copy);
    StoredText(buf[..], copy, p.cmd);
    CommandIsFirst(copy);
    assert buf[0..] == buf[..] && Text(copy, p.cmd) == copy[..p.cmd.to];
    var pipe := ReadStream(buf, redir.pipe, copy, p.pipe);
    var input := ReadStream(buf, redir.input, copy, p.input);
    var output := ReadStream(buf, redir.output, copy, p.output);
    r, overrun := RunName(sh, world, CString(buf[..]), Streams(pipe, input, output, redir.append));
  }

  lemma CommandIsFirst(t: string)
    ensures Redirect(t).cmd.from == 0
  {
  }

  // ---------------------------------------------------------------------------
  // Lines
  // ---------------------------------------------------------------------------

  /** cli_parser_parse_line */
  method ParseLine<W>(sh: Shell<W>, world: W, line: string) returns (r: Outcome<W>, overrun: bool)
    requires NUL !in line
    ensures overrun <==> !LineFits(sh, world, line)
    ensures !overrun ==> r == RunLine(sh, world, line)
  {
    hide RunStatement, RunStatements, Split, StatementsFit;
    var first := ArgsParse.SkipWhitespace(line, 0);
    assert line[0..] == line;
    if first < |line| && line[first] == '#' {
      return Nothing(world), false;
    }
    var copy := Truncate(line[first..], LINE_SIZE);
    SliceLacksNul(line, first, |line|, LINE_SIZE);
    assert line[first..|line|] == line[first..];
    r, overrun := ExecuteStatements(sh, world, copy);
  }

  /** The loop over the statements of the copied line, lines 542-574. */
  method ExecuteStatements<W>(sh: Shell<W>, world: W, copy: string) returns (r: Outcome<W>, overrun: bool)
    requires NUL !in copy
    ensures overrun <==> !StatementsFit(sh, world, Split(copy))
    ensures !overrun ==> r == RunStatements(sh, world, Split(copy))
  {
    hide RunStatement, RunStatements, Split, Truncate, Then, StatementsFit, StatementFits;
    var start := 0;
    r, overrun := Nothing(world), false;
    assert copy[0..] == copy;
    ThenNothing(RunStatements(sh, world, Split(copy)));
    while true
      invariant start <= |copy| && r.code == 0 && !overrun
      invariant Then(r, RunStatements(sh, r.world, Split(copy[start..]))) == RunStatements(sh, world, Split(copy))
      invariant StatementsFit(sh, r.world, Split(copy[start..])) <==> StatementsFit(sh, world, Split(copy))
      decreases |copy| - start
    {
      var end := start + IndexOf(copy[start..], ';');
      FitStep(sh, r.world, copy, start, end);
      SliceLacksNul(copy, start, end, COMMAND_SIZE);
      var result;
      result, overrun := ExecuteStatement(sh, r.world, Truncate(copy[start..end], COMMAND_SIZE));
      if overrun {
        return;
      }
      LineStep(sh, r, copy, start, end, result);
      ThenIs(r, result);
      r := Then(r, result);
      if result.code != 0 || end == |copy| {
        return;
      }
      start := end + 1;
    }
  }

  lemma FitStep<W>(sh: Shell<W>, w: W, copy: string, start: nat, end: nat)
    requires start <= end <= |copy| && end - start == IndexOf(copy[start..], ';')
    ensures var statement := Truncate(copy[start..end], COMMAND_SIZE);
      var first := RunStatement(sh, w, statement);
      StatementsFit(sh, w, Split(copy[start..])) <==>
        && StatementFits(sh, w, statement)
        && (first.code == 0 && end < |copy| ==> StatementsFit(sh, first.world, Split(copy[end + 1..])))
  {
    hide RunStatement, StatementFits, Split, Truncate;
    SplitNext(copy[start..]);
    assert copy[start..][..end - start] == copy[start..end];
    if end < |copy| {
      assert copy[start..][end - start + 1..] == copy[end + 1..];
      assert Split(copy[start..])[1..] == Split(copy[end + 1..]);
    } else {
      assert copy[start..end] == copy[start..];
    }
  }

  lemma ThenIs<W>(a: Outcome<W>, b: Outcome<W>)
    ensures Then(a, b).code == b.code && Then(a, b).world == b.world
  {
  }

  lemma SliceLacksNul(t: string, a: nat, b: nat, size: nat)
    requires NUL !in t && a <= b <= |t| && size > 0
    ensures NUL !in Truncate(t[a..b], size)
  {
  }

  lemma LineStep<W>(sh: Shell<W>, r: Outcome<W>, copy: string, start: nat, end: nat, result: Outcome<W>)
    requires start <= end <= |copy| && end - start == IndexOf(copy[start..], ';')
    requires result == RunStatement(sh, r.world, Truncate(copy[start..end], COMMAND_SIZE))
    ensures Then(r, RunStatements(sh, r.world, Split(copy[start..]))) ==
      if result.code != 0 || end == |copy| then Then(r, result)
      else Then(Then(r, result), RunStatements(sh, result.world, Split(copy[end + 1..])))
  {
    hide RunStatement, RunStatements, Split, Truncate;
    SplitNext(copy[start..]);
    assert copy[start..][..end - start] == copy[start..end];
    if end < |copy| {
      RunFirst(sh, r.world, copy[start..end], Split(copy[end + 1..]));
      assert copy[start..][end - start + 1..] == copy[end + 1..];
      ThenThen(r, result, RunStatements(sh, result.world, Split(copy[end + 1..])));
    } else {
      assert copy[start..end] == copy[start..];
      RunLast(sh, r.world, copy[start..]);
    }
  }

  lemma SplitNext(t: string)
    ensures var i := IndexOf(t, ';');
      && (i < |t| ==> Split(t) == [t[..i]] + Split(t[i + 1..]))
      && (i == |t| ==> Split(t) == [t])
  {
    hide Split, IndexOf;
    if IndexOf(t, ';') < |t| {
      SplitAtFirst(t, IndexOf(t, ';'));
    } else {
      SplitOne(t);
    }
  }

  lemma RunFirst<W>(sh: Shell<W>, w: W, t: string, rest: seq<string>)
    ensures RunStatements(sh, w, [t] + rest) ==
      var first := RunStatement(sh, w, Truncate(t, COMMAND_SIZE));
      if first.code != 0 then first else Then(first, RunStatements(sh, first.world, rest))
  {
    hide RunStatement;
    assert ([t] + rest)[1..] == rest;
  }

  lemma RunLast<W>(sh: Shell<W>, w: W, t: string)
    ensures RunStatements(sh, w, [t]) == RunStatement(sh, w, Truncate(t, COMMAND_SIZE))
  {
    hide RunStatement;
    var first := RunStatement(sh, w, Truncate(t, COMMAND_SIZE));
    assert [t][1..] == [];
    assert RunStatements(sh, first.world, []) == Nothing(first.world);
    assert first.events + [] == first.events && first.errors + [] == first.errors;
  }

  // ---------------------------------------------------------------------------
  // The alias table
  // ---------------------------------------------------------------------------

  /** What the alias loop finds under a name in the internal table: nothing for a NULL entry. */
  function AliasIn(t: PrefixTable.Table, name: string): Option<string>
    requires |t| == PrefixTable.SIZE
  {
    match PrefixTable.Lookup(t, name)
    case None => None
    case Some(entry) => if entry == null then None else Some(entry.text)
  }

  /** The alias fields of a cli_parser_t. */
  class Aliases {
    const resolver: Option<string -> Option<string>>
    const table: PrefixMap.PrefixMap?

    ghost predicate Valid()
      reads if table == null then {} else {table, table.buckets} + table.all
    {
      (table == null <==> resolver.Some?) && (table != null ==> table.Valid() && table.destroys)
    }

    /** cli_parser_create: the internal table exists if and only if there is no resolver. */
    constructor (resolver: Option<string -> Option<string>>)
      ensures Valid() && this.resolver == resolver
      ensures table != null ==> fresh(table) && fresh(table.buckets) && fresh(table.all)
      ensures table != null ==> table.table == PrefixTable.Empty()
    {
      this.resolver := resolver;
      if resolver.None? {
        table := new PrefixMap.PrefixMap(true);
      } else {
        table := null;
      }
    }

    /** cli_parser_get_alias, and the lookup at lines 422-432. */
    method GetAlias(name: string) returns (value: Option<string>)
      requires Valid()
      ensures resolver.Some? ==> value == resolver.value(name)
      ensures resolver.None? ==> table != null && |table.table| == PrefixTable.SIZE
      ensures resolver.None? ==> value == AliasIn(table.table, name)
    {
      hide PrefixTable.Lookup;
      if resolver.Some? {
        return resolver.value(name);
      }
      var entry := table.Get(name);
      return if entry == null then None else Some(entry.text);
    }

    /** cli_parser_set_alias: false for its -1. */
    method SetAlias(name: string, value: string) returns (done: bool)
      requires Valid()
      modifies if table == null then {} else {table, table.buckets} + table.all
      ensures Valid() && (done <==> resolver.None?)
      ensures table != null ==> fresh(table.all - old(table.all))
      ensures done ==> |old(table.table)| == |table.table| == PrefixTable.SIZE
      ensures done ==> forall k: string ::
        AliasIn(table.table, k) == if k == name then Some(value) else AliasIn(old(table.table), k)
    {
      if table == null {
        return false;
      }
      ghost var was := PrefixTable.State(table.table, table.destroyed);
      var entry := new PrefixTable.Value(value);
      table.Add(name, entry);
      done := true;
      SetLooksUp(was, name, entry);
    }

    /** cli_parser_remove_alias: false for its -1. */
    method RemoveAlias(name: string) returns (done: bool)
      requires Valid()
      modifies if table == null then {} else {table, table.buckets} + table.all
      ensures Valid() && (table != null ==> table.all == old(table.all))
      ensures done ==> table != null && |old(table.table)| == |table.table| == PrefixTable.SIZE
      ensures done <==> resolver.None? && AliasIn(old(table.table), name).Some?
      ensures done ==> forall k: string ::
        AliasIn(table.table, k) == if k == name then None else AliasIn(old(table.table), k)
      ensures !done && table != null ==> table.table == old(table.table)
    {
      if table == null {
        return false;
      }
      ghost var was := PrefixTable.State(table.table, table.destroyed);
      var found := table.Contains(name);
      if !found {
        return false;
      }
      var removed := table.Remove(name);
      done := true;
      RemoveLooksUp(was, name);
    }
  }

  lemma SetLooksUp(s: PrefixTable.State, name: string, entry: PrefixTable.Value)
    requires PrefixTable.TableOk(s.table)
    ensures |s.table| == PrefixTable.SIZE
    ensures forall k: string ::
      AliasIn(PrefixTable.Step(s, PrefixTable.Add(name, entry)).table, k)
        == if k == name then Some(entry.text) else AliasIn(s.table, k)
  {
    hide PrefixTable.Hash, PrefixTable.PutIn, PrefixTable.ValueIn, PrefixTable.Displaced;
    forall k: string
      ensures AliasIn(PrefixTable.Step(s, PrefixTable.Add(name, entry)).table, k) ==
        if k == name then Some(entry.text) else AliasIn(s.table, k)
    {
      var h := PrefixTable.Hash(name);
      PrefixTable.PutFinds(s.table[h], name, entry, k);
      PrefixTable.UpdateLookup(s.table, name, PrefixTable.PutIn(s.table[h], name, entry), k);
      PrefixTable.LookupInBucket(s.table, name, k);
    }
  }

  lemma RemoveLooksUp(s: PrefixTable.State, name: string)
    requires PrefixTable.TableOk(s.table)
    ensures |s.table| == PrefixTable.SIZE
    ensures forall k: string ::
      AliasIn(PrefixTable.Step(s, PrefixTable.Remove(name)).table, k) == if k == name then None else AliasIn(s.table, k)
  {
    hide PrefixTable.Hash, PrefixTable.DropFrom, PrefixTable.ValueIn, PrefixTable.Displaced, PrefixTable.UniqueKeys;
    var h := PrefixTable.Hash(name);
    var chain := PrefixTable.BucketOf(s.table, name);
    forall k: string
      ensures AliasIn(PrefixTable.Step(s, PrefixTable.Remove(name)).table, k) ==
        if k == name then None else AliasIn(s.table, k)
    {
      PrefixTable.DropFinds(chain, name, k);
      PrefixTable.UpdateLookup(s.table, name, PrefixTable.DropFrom(chain, name), k);
      PrefixTable.LookupInBucket(s.table, name, k);
    }
  }
}
