/**
  What a handler is given for a printed statement (execute_statement in src/bas/cli/cli_parser.c):
  its name, its words and its streams, each where it was written.
 */
module StatementLaws {
  import opened CText
  import opened Redirections
  import opened AliasExpansion
  import opened Statements
  import ArgsParse
  import DefaultParser
  import Globs
  import Tokenizer

  /** A statement as it is written: a name, its arguments after some white space, and redirections. */
  datatype Written = Written(name: string, gap: string, args: string, pipe: Option<Piece>, input: Option<Piece>,
                             append: bool, output: Option<Piece>)

  function CommandText(s: Written): string {
    s.name + (s.gap + s.args)
  }

  function StatementText(s: Written): string {
    Line(CommandText(s), s.pipe, s.input, s.append, s.output)
  }

  predicate IsStatement(s: Written) {
    && s.name != "" && |s.name| < 256 && (forall i :: 0 <= i < |s.name| ==> !IsSpace(s.name[i])) && s.name[0] != '#'
    && (if s.args == "" then s.gap == "" else s.gap != "" && AllSpace(s.gap) && !IsSpace(s.args[0]))
    && IsWord(CommandText(s), "|<>")
    && IsPiece(s.pipe, "|<>") && IsPiece(s.input, "<>") && IsPiece(s.output, ">")
    && |StatementText(s)| < 1024
  }

  function PieceText(p: Option<Piece>): Option<string> {
    if p.Some? then Some(p.value.text) else None
  }

  /** Handler h is the first that takes this call. */
  ghost predicate Takes<W>(sh: Shell<W>, w: W, h: nat, name: string, argv: seq<string>) {
    && h < |sh.handlers| && sh.handlers[h].canHandle(w, name, argv)
    && forall k :: 0 <= k < h ==> !sh.handlers[k].canHandle(w, name, argv)
  }

  /** What comes of handler h's call. */
  function CallOf<W>(sh: Shell<W>, w: W, h: nat, call: Call): Outcome<W>
    requires h < |sh.handlers|
  {
    var (w', code) := sh.handlers[h].handle(w, call);
    Outcome(w', code, [Event(w, h, call)], [])
  }

  // ---------------------------------------------------------------------------
  // Name and arguments
  // ---------------------------------------------------------------------------

  lemma WordLengthIs(name: string, rest: string)
    requires forall i :: 0 <= i < |name| ==> !IsSpace(name[i])
    requires rest == "" || IsSpace(rest[0])
    ensures WordLength(name + rest) == |name|
  {
    var s, n := name + rest, WordLength(name + rest);
    assert forall k :: 0 <= k < |name| ==> s[k] == name[k];
    assert rest != "" ==> s[|name|] == rest[0];
  }

  lemma NameAndArguments(name: string, gap: string, args: string)
    requires name != "" && |name| < 256 && forall i :: 0 <= i < |name| ==> !IsSpace(name[i])
    requires if args == "" then gap == "" else gap != "" && AllSpace(gap) && !IsSpace(args[0])
    ensures NameOf(name + (gap + args)) == name && ArgumentText(name + (gap + args)) == args
  {
    hide SpacePrefix, WordLength, SkipSpace;
    var cmd := name + (gap + args);
    SkipSpaceIsUnique("", cmd);
    assert "" + cmd == cmd && cmd[0] == name[0];
    WordLengthIs(name, gap + args);
    assert cmd[..|name|] == name && cmd[|name|..] == gap + args;
    SkipSpaceIsUnique(gap, args);
  }

  // ---------------------------------------------------------------------------
  // Trimming
  // ---------------------------------------------------------------------------

  predicate Solid(s: string) {
    s != "" && !IsSpace(s[0]) && !IsSpace(s[|s| - 1])
  }

  lemma {:induction false} TrimmedEndIs(t: string, from: nat, blank: string)
    requires from < |t| && !IsSpace(t[|t| - 1]) && AllSpace(blank)
    ensures TrimmedEnd(t + blank, from) == |t|
    decreases |blank|
  {
    if blank == "" {
      assert t + blank == t;
    } else {
      var init := blank[..|blank| - 1];
      assert (t + blank)[..|t + blank| - 1] == t + init;
      TrimmedEndIs(t, from, init);
    }
  }

  lemma TrimmedText(before: string, s: string, after: string)
    requires AllSpace(before) && Solid(s) && AllSpace(after)
    ensures var t := before + (s + after); Text(t, Trimmed(t, 0)) == s
  {
    hide TrimmedEnd, SpacePrefix;
    var t := before + (s + after);
    assert t[0..] == t;
    SkipSpaceIsUnique(before, s + after);
    assert (s + after)[0] == s[0];
    assert |t| - SpacePrefix(t) == |s + after|;
    assert t == (before + s) + after;
    TrimmedEndIs(before + s, |before|, after);
    assert t[|before|..|before| + |s|] == s;
  }

  lemma PrintedIsSolid(head: string, op: string, piece: Option<Piece>, ops: string)
    requires Solid(head) && IsPiece(piece, ops)
    ensures Solid(head + Printed(op, piece))
  {
    hide Spaced;
    var s := head + Printed(op, piece);
    assert s[0] == head[0];
    if piece.Some? {
      var text := piece.value.text;
      assert s[|s| - 1] == text[|text| - 1];
    } else {
      assert s == head;
    }
  }

  lemma StatementIsSolid(s: Written)
    requires IsStatement(s)
    ensures Solid(StatementText(s)) && StatementText(s)[0] != '#'
  {
    hide Printed;
    var cmd := CommandText(s);
    assert Solid(cmd) && cmd[0] == s.name[0];
    PrintedIsSolid(cmd, "|", s.pipe, "|<>");
    PrintedIsSolid(cmd + Printed("|", s.pipe), "<", s.input, "<>");
    PrintedIsSolid(cmd + Printed("|", s.pipe) + Printed("<", s.input), OutputOp(s.append), s.output, ">");
  }

  // ---------------------------------------------------------------------------
  // One statement
  // ---------------------------------------------------------------------------

  function StreamsWritten(s: Written): Streams {
    Streams(PieceText(s.pipe), PieceText(s.input), PieceText(s.output), s.append && s.output.Some?)
  }

  lemma {:induction false} RunsItsParts<W>(sh: Shell<W>, w: W, before: string, s: Written, after: string)
    requires IsStatement(s) && AllSpace(before) && AllSpace(after)
    ensures RunStatement(sh, w, before + (StatementText(s) + after)) ==
      RunCommand(sh, w, CommandText(s), StreamsWritten(s))
  {
    hide RunCommand, Redirect, Trimmed, IsWord, IsPiece, Line, CommandText;
    var t := StatementText(s);
    StatementIsSolid(s);
    TrimmedText(before, t, after);
    LineRoundTrip(CommandText(s), s.pipe, s.input, s.append, s.output);
    RedirectFits(t);
    assert StreamsOf(t) == StreamsWritten(s);
  }

  lemma DispatchIs<W>(sh: Shell<W>, w: W, s: Stage, streams: Streams)
    ensures forall h :: Takes(sh, w, h, s.name, s.argv) ==>
      Dispatch(sh, w, s, streams) == CallOf(sh, w, h, Call(s.name, s.argv, streams))
    ensures (forall h :: !Takes(sh, w, h, s.name, s.argv)) ==>
      Dispatch(sh, w, s, streams) == Outcome(w, -1, [], [InvalidCommand(s.name)])
  {
    var i := FirstHandler(sh, w, s, 0);
    assert i < |sh.handlers| ==> Takes(sh, w, i, s.name, s.argv);
  }

  lemma RunsParsed<W>(sh: Shell<W>, w: W, s: Written, words: seq<string>, streams: Streams)
    requires IsStatement(s) && (if s.args == "" then words == [] else sh.parse(s.args) == Some(words))
    ensures var r := Expand(sh, w, Stage(s.name, [s.name] + words, words), 0);
      RunCommand(sh, w, CommandText(s), streams) ==
        if r.Failed? then Outcome(w, -1, [], [r.error]) else Dispatch(sh, w, r.stage, streams)
  {
    hide Expand, Dispatch, IsWord, IsPiece, NameOf, ArgumentText;
    NameAndArguments(s.name, s.gap, s.args);
  }

  /**
    What a handler is given, with any argument parser and any aliases: the name and the words that
    the aliases lead to, and the texts written after '|', '<' and '>' or '>>', each as its stream.
   */
  lemma {:induction false} HandlerIsGiven<W>(sh: Shell<W>, w: W, before: string, s: Written, after: string,
                                             words: seq<string>, t: Stage, h: nat)
    requires IsStatement(s) && AllSpace(before) && AllSpace(after)
    requires if s.args == "" then words == [] else sh.parse(s.args) == Some(words)
    requires Expand(sh, w, Stage(s.name, [s.name] + words, words), 0) == Ready(t)
    requires Takes(sh, w, h, t.name, t.argv)
    ensures RunStatement(sh, w, before + (StatementText(s) + after)) ==
      CallOf(sh, w, h, Call(t.name, t.argv,
        Streams(PieceText(s.pipe), PieceText(s.input), PieceText(s.output), s.append && s.output.Some?)))
  {
    hide RunStatement, RunCommand, IsStatement, Expand, Dispatch, CallOf;
    RunsItsParts(sh, w, before, s, after);
    RunsParsed(sh, w, s, words, StreamsWritten(s));
    DispatchIs(sh, w, t, StreamsWritten(s));
  }

  lemma NoAliasIsReady<W>(sh: Shell<W>, w: W, s: Stage)
    requires sh.aliasOf(w, s.name).None?
    ensures Expand(sh, w, s, 0) == Ready(s)
  {
  }

  /** A name that is no alias: the handler is given the name, then the words. */
  lemma {:induction false} NameIsGiven<W>(sh: Shell<W>, w: W, before: string, s: Written, after: string,
                                          words: seq<string>, h: nat)
    requires IsStatement(s) && AllSpace(before) && AllSpace(after)
    requires if s.args == "" then words == [] else sh.parse(s.args) == Some(words)
    requires sh.aliasOf(w, s.name).None? && Takes(sh, w, h, s.name, [s.name] + words)
    ensures RunStatement(sh, w, before + (StatementText(s) + after)) ==
      CallOf(sh, w, h, Call(s.name, [s.name] + words,
        Streams(PieceText(s.pipe), PieceText(s.input), PieceText(s.output), s.append && s.output.Some?)))
  {
    hide RunStatement, IsStatement, Expand, CallOf;
    NoAliasIsReady(sh, w, Stage(s.name, [s.name] + words, words));
    HandlerIsGiven(sh, w, before, s, after, words, Stage(s.name, [s.name] + words, words), h);
  }

  /** When no call is made: arguments that do not parse, aliases that fail, a command nobody takes. */
  lemma {:induction false} ArgumentsFail<W>(sh: Shell<W>, w: W, before: string, s: Written, after: string)
    requires IsStatement(s) && AllSpace(before) && AllSpace(after) && s.args != "" && sh.parse(s.args) == None
    ensures RunStatement(sh, w, before + (StatementText(s) + after)) == Outcome(w, -1, [], [BadArguments])
  {
    hide RunStatement, Expand, Dispatch, NameOf, ArgumentText, IsWord, IsPiece, StatementText, CommandText;
    RunsItsParts(sh, w, before, s, after);
    NameAndArguments(s.name, s.gap, s.args);
    CommandTextIs(s);
  }

  lemma CommandTextIs(s: Written)
    ensures CommandText(s) == s.name + (s.gap + s.args)
  {
  }

  lemma {:induction false} AliasesFail<W>(sh: Shell<W>, w: W, before: string, s: Written, after: string,
                                          words: seq<string>, e: Error)
    requires IsStatement(s) && AllSpace(before) && AllSpace(after)
    requires if s.args == "" then words == [] else sh.parse(s.args) == Some(words)
    requires Expand(sh, w, Stage(s.name, [s.name] + words, words), 0) == Failed(e)
    ensures RunStatement(sh, w, before + (StatementText(s) + after)) == Outcome(w, -1, [], [e])
  {
    hide RunStatement, RunCommand, IsStatement, Expand;
    RunsItsParts(sh, w, before, s, after);
    RunsParsed(sh, w, s, words, StreamsWritten(s));
  }

  lemma {:induction false} NobodyTakes<W>(sh: Shell<W>, w: W, before: string, s: Written, after: string,
                                          words: seq<string>, t: Stage)
    requires IsStatement(s) && AllSpace(before) && AllSpace(after)
    requires if s.args == "" then words == [] else sh.parse(s.args) == Some(words)
    requires Expand(sh, w, Stage(s.name, [s.name] + words, words), 0) == Ready(t)
    requires forall h :: !Takes(sh, w, h, t.name, t.argv)
    ensures RunStatement(sh, w, before + (StatementText(s) + after)) == Outcome(w, -1, [], [InvalidCommand(t.name)])
  {
    hide RunStatement, RunCommand, IsStatement, Expand, Dispatch, Takes;
    RunsItsParts(sh, w, before, s, after);
    RunsParsed(sh, w, s, words, StreamsWritten(s));
    DispatchIs(sh, w, t, StreamsWritten(s));
  }

  // ---------------------------------------------------------------------------
  // With the default parser
  // ---------------------------------------------------------------------------

  /** Words with one blank between two of them. */
  function Spaces(words: seq<string>): string {
    if words == [] then "" else if |words| == 1 then words[0] else words[0] + " " + Spaces(words[1..])
  }

  /** A statement of plain words. */
  function Plain(name: string, words: seq<string>, pipe: Option<Piece>, input: Option<Piece>,
                 append: bool, output: Option<Piece>): Written {
    Written(name, if words == [] then "" else " ", Spaces(words), pipe, input, append, output)
  }

  lemma {:induction false} SpacesAre(words: seq<string>)
    ensures AfterSpaces(words) == if words == [] then "" else " " + Spaces(words)
  {
    hide AfterSpaces;
    if words == [] {
      NoSpaces();
    } else {
      AfterSpacesFront(words[0], words[1..]);
      assert words == [words[0]] + words[1..];
      SpacesAre(words[1..]);
      Associative(" ", words[0], AfterSpaces(words[1..]));
      assert words[0] + "" == words[0];
      Associative(words[0], " ", Spaces(words[1..]));
    }
  }

  lemma NoSpaces()
    ensures AfterSpaces([]) == ""
  {
  }

  lemma Associative(a: string, b: string, c: string)
    ensures a + b + c == a + (b + c)
  {
  }

  lemma {:induction false} AfterSpacesFront(first: string, rest: seq<string>)
    ensures AfterSpaces([first] + rest) == " " + first + AfterSpaces(rest)
    decreases |rest|
  {
    hide AfterSpaces;
    NoSpaces();
    if rest == [] {
      DefaultParser.AfterSpacesPush([], first);
      assert [] + [first] == [first] == [first] + rest;
      assert "" + (" " + first) == " " + first + "";
    } else {
      var init, last := rest[..|rest| - 1], rest[|rest| - 1];
      AfterSpacesFront(first, init);
      assert [first] + rest == ([first] + init) + [last] && rest == init + [last];
      DefaultParser.AfterSpacesPush([first] + init, last);
      DefaultParser.AfterSpacesPush(init, last);
      Associative(" " + first, AfterSpaces(init), " " + last);
    }
  }

  lemma {:induction false} PlainWordsParse(words: seq<string>, env: Globs.Env)
    requires words != [] && forall i :: 0 <= i < |words| ==> DefaultParser.PlainArgument(words[i])
    ensures ArgsParse.Arguments(Spaces(words), env) == Tokenizer.Words(words)
    ensures Spaces(words) != "" && !IsSpace(Spaces(words)[0])
  {
    hide DefaultParser.PlainArgument, ArgsParse.Arguments, AfterSpaces;
    DefaultParser.PlainArgumentsParse(words, env);
    SpacesAre(words);
    PlainStarts(words[0]);
    assert Spaces(words)[0] == words[0][0];
    BlankFirst(Spaces(words), env);
  }

  lemma PlainStarts(w: string)
    requires DefaultParser.PlainArgument(w)
    ensures w != "" && !IsSpace(w[0])
  {
  }

  lemma BlankFirst(text: string, env: Globs.Env)
    requires text != "" && !IsSpace(text[0])
    ensures ArgsParse.Arguments(" " + text, env) == ArgsParse.Arguments(text, env)
  {
    hide ArgsParse.ExpandAll, Tokenizer.Tokens, Tokenizer.Word;
    Tokenizer.TokensStep(" ", text);
    Tokenizer.TokensStep("", text);
    assert "" + text == text;
  }

  /**
    The statement `name words | pipe < input > output` with args_parse: the first handler that takes
    it is given the name, the words after the name, and the three streams.
   */
  lemma {:induction false} PlainStatementIsGiven<W>(
      sh: Shell<W>, w: W, env: Globs.Env, name: string, words: seq<string>, pipe: Option<Piece>,
      input: Option<Piece>, append: bool, output: Option<Piece>, h: nat)
    requires sh.parse == DefaultParser.DefaultParse(env) && sh.aliasOf(w, name).None?
    requires forall i :: 0 <= i < |words| ==> DefaultParser.PlainArgument(words[i])
    requires IsStatement(Plain(name, words, pipe, input, append, output))
    requires Takes(sh, w, h, name, [name] + words)
    ensures RunStatement(sh, w, StatementText(Plain(name, words, pipe, input, append, output))) ==
      CallOf(sh, w, h, Call(name, [name] + words,
        Streams(PieceText(pipe), PieceText(input), PieceText(output), append && output.Some?)))
  {
    hide RunStatement, IsStatement, StatementText, CallOf, ArgsParse.Arguments, DefaultParser.PlainArgument;
    var s := Plain(name, words, pipe, input, append, output);
    if words != [] {
      PlainWordsParse(words, env);
    }
    assert "" + (StatementText(s) + "") == StatementText(s);
    NameIsGiven(sh, w, "", s, "", words, h);
  }

  lemma TwoStages<W>(sh: Shell<W>, w: W, s: Stage, t: Stage)
    requires Turn(sh, w, s) == To(t) && sh.aliasOf(w, t.name).None?
    ensures Expand(sh, w, s, 0) == Ready(t)
  {
    assert Turn(sh, w, t) == NotAnAlias;
    assert Expand(sh, w, t, 1) == Ready(t);
  }

  /**
    An alias with plain arguments: the handler is given the first word of the alias' value as the
    name, the words of the value and then the written ones, and the same streams.
   */
  lemma {:induction false} AliasIsGiven<W>(
      sh: Shell<W>, w: W, env: Globs.Env, name: string, words: seq<string>, pipe: Option<Piece>,
      input: Option<Piece>, append: bool, output: Option<Piece>, value: string, head: seq<string>, h: nat)
    requires sh.parse == DefaultParser.DefaultParse(env) && sh.aliasOf(w, name) == Some(value)
    requires DefaultParser.ClosedValue(value, env) && ArgsParse.Arguments(value, env) == Tokenizer.Words(head)
    requires |value + AfterSpaces(words)| < 1024 && head != [] && |head[0]| < 256 && sh.aliasOf(w, head[0]).None?
    requires forall i :: 0 <= i < |words| ==> DefaultParser.PlainArgument(words[i])
    requires IsStatement(Plain(name, words, pipe, input, append, output))
    requires Takes(sh, w, h, head[0], head + words)
    ensures RunStatement(sh, w, StatementText(Plain(name, words, pipe, input, append, output))) ==
      CallOf(sh, w, h, Call(head[0], head + words,
        Streams(PieceText(pipe), PieceText(input), PieceText(output), append && output.Some?)))
  {
    hide RunStatement, IsStatement, StatementText, CallOf, ArgsParse.Arguments, DefaultParser.PlainArgument;
    hide Turn, Expand, AfterSpaces, DefaultParser.ClosedValue;
    var s := Plain(name, words, pipe, input, append, output);
    if words != [] {
      PlainWordsParse(words, env);
    }
    var stage := Stage(name, [name] + words, words);
    DefaultParser.NamePilesUp(sh, w, stage, env);
    var next := Turn(sh, w, stage).stage;
    assert next.argv[0] == head[0];
    TwoStages(sh, w, stage, next);
    assert "" + (StatementText(s) + "") == StatementText(s);
    HandlerIsGiven(sh, w, "", s, "", words, next, h);
  }

  // ---------------------------------------------------------------------------
  // The slots of cmd_argv
  // ---------------------------------------------------------------------------

  lemma FitsItsParts<W>(sh: Shell<W>, w: W, before: string, s: Written, after: string)
    requires IsStatement(s) && AllSpace(before) && AllSpace(after)
    ensures StatementFits(sh, w, before + (StatementText(s) + after)) <==> CommandFits(sh, w, CommandText(s))
  {
    hide CommandFits, Redirect, Trimmed, IsWord, IsPiece, Line, CommandText;
    var t := StatementText(s);
    StatementIsSolid(s);
    TrimmedText(before, t, after);
    LineRoundTrip(CommandText(s), s.pipe, s.input, s.append, s.output);
    RedirectFits(t);
  }

  lemma OneStageFitsIff<W>(sh: Shell<W>, w: W, s: Stage)
    requires sh.aliasOf(w, s.name).None?
    ensures ArgvFits(sh, w, s) <==> |s.argv| <= 64
  {
    hide Turn;
    assert StageAfter(sh, w, s, 0) == Some(s);
    forall k: nat | k > 0
      ensures StageAfter(sh, w, s, k).None?
    {
      NoMoreStages(sh, w, s, k);
    }
  }

  lemma NoMoreStages<W>(sh: Shell<W>, w: W, s: Stage, k: nat)
    requires sh.aliasOf(w, s.name).None? && k > 0
    ensures StageAfter(sh, w, s, k).None?
  {
    hide StageAfter;
    StageAfterFirst(sh, w, s, k - 1);
  }

  /** The NULL at the end needs a slot too: with a name that is no alias there is room for 63 words after it. */
  lemma {:induction false} WordsFitIff<W>(sh: Shell<W>, w: W, before: string, s: Written, after: string,
                                          words: seq<string>)
    requires IsStatement(s) && AllSpace(before) && AllSpace(after)
    requires if s.args == "" then words == [] else sh.parse(s.args) == Some(words)
    requires sh.aliasOf(w, s.name).None?
    ensures StatementFits(sh, w, before + (StatementText(s) + after)) <==> |words| <= 63
  {
    hide StatementFits, ArgvFits, IsWord, IsPiece, NameOf, ArgumentText, StatementText, CommandText;
    FitsItsParts(sh, w, before, s, after);
    CommandTextIs(s);
    NameAndArguments(s.name, s.gap, s.args);
    OneStageFitsIff(sh, w, Stage(s.name, [s.name] + words, words));
  }

  // ---------------------------------------------------------------------------
  // On a line
  // ---------------------------------------------------------------------------

  /** A line without a semicolon is its one statement, unless it is a comment. */
  lemma {:induction false} LineIsStatement<W>(sh: Shell<W>, w: W, line: string)
    requires ';' !in line && |line| < COMMAND_SIZE && !IsComment(SkipSpace(line))
    ensures RunLine(sh, w, line) == RunStatement(sh, w, SkipSpace(line))
  {
    hide RunStatement, SkipSpace;
    var t := SkipSpace(line);
    assert t == line[|line| - |t|..];
    SplitOne(t);
    assert [t][1..] == [];
    var r := RunStatement(sh, w, t);
    assert RunStatements(sh, r.world, []) == Nothing(r.world);
    assert r.events + [] == r.events && r.errors + [] == r.errors;
  }

  // ---------------------------------------------------------------------------
  // What does not fit
  // ---------------------------------------------------------------------------

  /** A name is cut to 255 characters, a statement to 1023 and a line to 2047. */
  lemma {:induction false} LongNameIsCut(name: string, rest: string)
    requires |name| >= 256 && (forall i :: 0 <= i < |name| ==> !IsSpace(name[i])) && (rest == "" || IsSpace(rest[0]))
    ensures NameOf(name + rest) == name[..255]
  {
    hide SpacePrefix, WordLength, SkipSpace;
    var cmd := name + rest;
    assert cmd[0] == name[0] && "" + cmd == cmd;
    SkipSpaceIsUnique("", cmd);
    WordLengthIs(name, rest);
    assert cmd[..|name|] == name;
  }

  lemma {:induction false} LongStatementIsCut<W>(sh: Shell<W>, w: W, t: string, rest: seq<string>)
    requires |t| >= 1024
    ensures RunStatements(sh, w, [t] + rest) == RunStatements(sh, w, [t[..1023]] + rest)
  {
    hide RunStatement;
    assert ([t] + rest)[1..] == rest == ([t[..1023]] + rest)[1..];
  }

  lemma {:induction false} LongLineIsCut<W>(sh: Shell<W>, w: W, line: string)
    requires |SkipSpace(line)| >= 2048
    ensures RunLine(sh, w, line) == RunLine(sh, w, SkipSpace(line)[..2047])
  {
    hide RunStatements, Split, SkipSpace;
    var t := SkipSpace(line)[..2047];
    assert t[0] == SkipSpace(line)[0];
    AlreadySkipped(t);
  }

  lemma AlreadySkipped(t: string)
    requires t != "" && !IsSpace(t[0])
    ensures SkipSpace(t) == t
  {
    SkipSpaceIsUnique("", t);
    assert "" + t == t;
  }
}
