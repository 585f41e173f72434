/**
  Lines of statements in src/bas/cli/cli_parser.c: each statement is redirected, expanded and given
  to the first handler that takes it, until one of them fails.
 */
module Statements {
  import opened CText
  import opened Redirections
  import opened AliasExpansion

  /** A handler's call, in the world it is made in. */
  datatype Event<W> = Event(world: W, handler: nat, call: Call)

  datatype Outcome<W> = Outcome(world: W, code: int, events: seq<Event<W>>, errors: seq<Error>)

  function Nothing<W>(w: W): Outcome<W> {
    Outcome(w, 0, [], [])
  }

  function Failure<W>(w: W, e: Error): Outcome<W> {
    Outcome(w, -1, [], [e])
  }

  // ---------------------------------------------------------------------------
  // One statement
  // ---------------------------------------------------------------------------

  /** Index of the first white space, or |s|. */
  function WordLength(s: string): (n: nat)
    ensures n <= |s| && (n < |s| ==> IsSpace(s[n])) && forall k :: 0 <= k < n ==> !IsSpace(s[k])
  {
    if s == "" || IsSpace(s[0]) then 0 else 1 + WordLength(s[1..])
  }

  /** The command's first word, in a buffer of 256 bytes. */
  function NameOf(cmd: string): string {
    var s := SkipSpace(cmd);
    Truncate(s[..WordLength(s)], NAME_SIZE)
  }

  /** What follows the first word, without white space before it. */
  function ArgumentText(cmd: string): string {
    var s := SkipSpace(cmd);
    SkipSpace(s[WordLength(s)..])
  }

  function ParseArguments(parse: string -> Option<seq<string>>, text: string): Option<seq<string>> {
    if text == "" then Some([]) else parse(text)
  }

  predicate FitsIn(t: string, r: Option<Region>) {
    r.Some? ==> r.value.from <= r.value.to <= |t|
  }

  function StreamText(t: string, r: Option<Region>): Option<string>
    requires FitsIn(t, r)
  {
    if r.Some? then Some(Text(t, r.value)) else None
  }

  /** Index of the first handler, from i on, that can handle a command; the number of handlers if none can. */
  function FirstHandler<W>(sh: Shell<W>, w: W, s: Stage, i: nat): (j: nat)
    requires i <= |sh.handlers|
    ensures i <= j <= |sh.handlers|
    ensures j < |sh.handlers| ==> sh.handlers[j].canHandle(w, s.name, s.argv)
    ensures forall k :: i <= k < j ==> !sh.handlers[k].canHandle(w, s.name, s.argv)
    decreases |sh.handlers| - i
  {
    if i == |sh.handlers| || sh.handlers[i].canHandle(w, s.name, s.argv) then i else FirstHandler(sh, w, s, i + 1)
  }

  function Dispatch<W>(sh: Shell<W>, w: W, s: Stage, streams: Streams): Outcome<W> {
    var i := FirstHandler(sh, w, s, 0);
    if i == |sh.handlers| then Failure(w, InvalidCommand(s.name))
    else
      var call := Call(s.name, s.argv, streams);
      var (w', code) := sh.handlers[i].handle(w, call);
      Outcome(w', code, [Event(w, i, call)], [])
  }

  /** The command without its redirections. */
  function RunCommand<W>(sh: Shell<W>, w: W, cmd: string, streams: Streams): Outcome<W> {
    if NameOf(cmd) == "" then Nothing(w)
    else
      match ParseArguments(sh.parse, ArgumentText(cmd))
      case None => Failure(w, BadArguments)
      case Some(words) =>
        match Expand(sh, w, Stage(NameOf(cmd), [NameOf(cmd)] + words, words), 0)
        case Failed(e) => Failure(w, e)
        case Ready(s) => Dispatch(sh, w, s, streams)
  }

  function StreamsOf(t: string): Streams {
    var p := Redirect(t);
    RedirectFits(t);
    Streams(StreamText(t, p.pipe), StreamText(t, p.input), StreamText(t, p.output), p.append)
  }

  lemma RedirectFits(t: string)
    ensures var p := Redirect(t); p.cmd.to <= |t| && FitsIn(t, p.pipe) && FitsIn(t, p.input) && FitsIn(t, p.output)
  {
    hide Trimmed, TrimmedEnd, SingleCut, OutputCut, AppendCut, IsCut;
  }

  predicate IsComment(t: string) {
    t != "" && t[0] == '#'
  }

  /** execute_statement */
  function RunStatement<W>(sh: Shell<W>, w: W, statement: string): Outcome<W> {
    var t := Text(statement, Trimmed(statement, 0));
    if t == "" || IsComment(t) then Nothing(w)
    else
      var copy := Truncate(t, COMMAND_SIZE);
      RedirectFits(copy);
      RunCommand(sh, w, copy[..Redirect(copy).cmd.to], StreamsOf(copy))
  }

  /** The argvs of a command fit cmd_argv, also those of its alias expansions. */
  ghost predicate CommandFits<W>(sh: Shell<W>, w: W, cmd: string) {
    var words := ParseArguments(sh.parse, ArgumentText(cmd));
    NameOf(cmd) != "" && words.Some? ==>
      ArgvFits(sh, w, Stage(NameOf(cmd), [NameOf(cmd)] + words.value, words.value))
  }

  ghost predicate StatementFits<W>(sh: Shell<W>, w: W, statement: string) {
    var t := Text(statement, Trimmed(statement, 0));
    t != "" && !IsComment(t) ==>
      var copy := Truncate(t, COMMAND_SIZE);
      RedirectFits(copy);
      CommandFits(sh, w, copy[..Redirect(copy).cmd.to])
  }

  // ---------------------------------------------------------------------------
  // Lines
  // ---------------------------------------------------------------------------

  /** A line cut at every semicolon. */
  function Split(t: string): (r: seq<string>)
    ensures r != []
    decreases |t|
  {
    var i := IndexOf(t, ';');
    if i == |t| then [t] else [t[..i]] + Split(t[i + 1..])
  }

  /** One outcome after another: the second part runs only if the first returned 0. */
  function Then<W>(a: Outcome<W>, b: Outcome<W>): Outcome<W> {
    Outcome(b.world, b.code, a.events + b.events, a.errors + b.errors)
  }

  function RunStatements<W>(sh: Shell<W>, w: W, statements: seq<string>): Outcome<W> {
    if statements == [] then Nothing(w)
    else
      var first := RunStatement(sh, w, Truncate(statements[0], COMMAND_SIZE));
      if first.code != 0 then first else Then(first, RunStatements(sh, first.world, statements[1..]))
  }

  /** Each statement that the line gets to fits cmd_argv. */
  ghost predicate StatementsFit<W>(sh: Shell<W>, w: W, statements: seq<string>) {
    statements != [] ==>
      var statement := Truncate(statements[0], COMMAND_SIZE);
      var first := RunStatement(sh, w, statement);
      StatementFits(sh, w, statement) && (first.code == 0 ==> StatementsFit(sh, first.world, statements[1..]))
  }

  ghost predicate LineFits<W>(sh: Shell<W>, w: W, line: string) {
    var t := SkipSpace(line);
    !IsComment(t) ==> StatementsFit(sh, w, Split(Truncate(t, LINE_SIZE)))
  }

  /** cli_parser_parse_line */
  function RunLine<W>(sh: Shell<W>, w: W, line: string): Outcome<W> {
    var t := SkipSpace(line);
    if IsComment(t) then Nothing(w) else RunStatements(sh, w, Split(Truncate(t, LINE_SIZE)))
  }

  // ---------------------------------------------------------------------------
  // Laws of lines
  // ---------------------------------------------------------------------------

  function Join(parts: seq<string>): string
    requires parts != []
  {
    if |parts| == 1 then parts[0] else parts[0] + ";" + Join(parts[1..])
  }

  /** The statements, with semicolons between them, are the line, and none has a semicolon: quoted ones cut too. */
  lemma {:induction false} SplitJoins(t: string)
    ensures Join(Split(t)) == t && forall i :: 0 <= i < |Split(t)| ==> ';' !in Split(t)[i]
    decreases |t|
  {
    var i := IndexOf(t, ';');
    if i < |t| {
      SplitJoins(t[i + 1..]);
      assert Split(t)[1..] == Split(t[i + 1..]);
      assert t == t[..i] + ";" + t[i + 1..];
    }
  }

  lemma {:induction false} SplitConcat(a: string, b: string)
    ensures Split(a + (";" + b)) == Split(a) + Split(b)
    decreases |a|
  {
    hide Split;
    var t := a + (";" + b);
    var i := IndexOf(a, ';');
    FirstSemicolon(a, b, i);
    SplitAtFirst(t, i);
    if i < |a| {
      SplitAtFirst(a, i);
      SplitConcat(a[i + 1..], b);
    } else {
      SplitOne(a);
    }
  }

  lemma FirstSemicolon(a: string, b: string, i: nat)
    requires i <= |a| && (i < |a| ==> a[i] == ';') && forall k :: 0 <= k < i ==> a[k] != ';'
    ensures var t := a + (";" + b);
      && i < |t| && t[i] == ';' && (forall k :: 0 <= k < i ==> t[k] != ';') && t[..i] == a[..i]
      && t[i + 1..] == if i < |a| then a[i + 1..] + (";" + b) else b
  {
  }

  lemma SplitAtFirst(t: string, i: nat)
    requires i < |t| && t[i] == ';' && forall k :: 0 <= k < i ==> t[k] != ';'
    ensures Split(t) == [t[..i]] + Split(t[i + 1..])
  {
    IndexOfUnique(t, ';', i);
  }

  /** Statements in sequence: the rest starts in the world the first ones leave, if they succeed. */
  lemma {:induction false} RunConcat<W>(sh: Shell<W>, w: W, a: seq<string>, b: seq<string>)
    ensures RunStatements(sh, w, a + b) ==
      var first := RunStatements(sh, w, a);
      if first.code != 0 then first else Then(first, RunStatements(sh, first.world, b))
  {
    hide RunStatement;
    if a == [] {
      assert a + b == b;
      ThenNothing(RunStatements(sh, w, b));
    } else {
      assert (a + b)[1..] == a[1..] + b;
      var first := RunStatement(sh, w, Truncate(a[0], COMMAND_SIZE));
      RunConcat(sh, first.world, a[1..], b);
      var rest := RunStatements(sh, first.world, a[1..]);
      ThenThen(first, rest, RunStatements(sh, rest.world, b));
    }
  }

  lemma ThenNothing<W>(r: Outcome<W>)
    ensures forall w: W :: Then(Nothing(w), r) == r
  {
  }

  lemma ThenThen<W>(a: Outcome<W>, b: Outcome<W>, c: Outcome<W>)
    ensures Then(a, Then(b, c)) == Then(Then(a, b), c)
  {
  }

  /** A line with a semicolon is what is before it and then what is after it, unless it is a comment. */
  lemma SequenceLaw<W>(sh: Shell<W>, w: W, a: string, b: string)
    requires |a + (";" + b)| < LINE_SIZE && !IsComment(SkipSpace(a))
    ensures RunLine(sh, w, a + (";" + b)) ==
      var first := RunLine(sh, w, a);
      if first.code != 0 then first else Then(first, RunStatements(sh, first.world, Split(b)))
  {
    hide RunStatements, Split, RunLine, SkipSpace, IsComment;
    var t := SkipSpace(a);
    SkipSpaceBefore(a, ";" + b);
    ShortLine(sh, w, a + (";" + b));
    ShortLine(sh, w, a);
    StillNoComment(t, b);
    SplitConcat(t, b);
    RunConcat(sh, w, Split(t), Split(b));
  }

  lemma ShortLine<W>(sh: Shell<W>, w: W, line: string)
    requires |line| < LINE_SIZE
    ensures RunLine(sh, w, line) ==
      if IsComment(SkipSpace(line)) then Nothing(w) else RunStatements(sh, w, Split(SkipSpace(line)))
  {
    hide RunStatements, Split;
  }

  lemma StillNoComment(t: string, b: string)
    requires !IsComment(t)
    ensures !IsComment(t + (";" + b))
  {
    assert t != "" ==> (t + (";" + b))[0] == t[0];
  }

  lemma SkipSpaceBefore(a: string, b: string)
    requires b != "" && !IsSpace(b[0])
    ensures SkipSpace(a + b) == SkipSpace(a) + b
  {
    var n := SpacePrefix(a);
    assert a + b == a[..n] + (a[n..] + b);
    SkipSpaceIsUnique(a[..n], a[n..] + b);
  }

  lemma CommentDoesNothing<W>(sh: Shell<W>, w: W, comment: string)
    requires IsComment(comment)
    ensures RunStatement(sh, w, comment) == Nothing(w)
  {
    hide TrimmedEnd;
    assert comment[0..] == comment;
    assert Trimmed(comment, 0).from == 0;
  }

  /**
    A comment hides all of its line, but after another statement only what is up to the next
    semicolon.
   */
  lemma CommentScope<W>(sh: Shell<W>, w: W, a: string, comment: string, b: string)
    requires |a + (";" + (comment + (";" + b)))| < LINE_SIZE && !IsComment(SkipSpace(a))
    requires IsComment(comment) && ';' !in comment && |comment| < COMMAND_SIZE
    ensures RunLine(sh, w, comment + (";" + b)) == Nothing(w)
    ensures RunLine(sh, w, a + (";" + (comment + (";" + b)))) == RunLine(sh, w, a + (";" + b))
  {
    hide RunStatements, Split, RunStatement;
    CommentedLine(sh, w, comment + (";" + b));
    SequenceLaw(sh, w, a, comment + (";" + b));
    SequenceLaw(sh, w, a, b);
    SplitConcat(comment, b);
    SplitOne(comment);
    var first := RunLine(sh, w, a);
    RunConcat(sh, first.world, [comment], Split(b));
    RunOne(sh, first.world, comment);
    CommentDoesNothing(sh, first.world, comment);
    ThenNothing(RunStatements(sh, first.world, Split(b)));
  }

  lemma CommentedLine<W>(sh: Shell<W>, w: W, line: string)
    requires IsComment(line)
    ensures RunLine(sh, w, line) == Nothing(w)
  {
    hide RunStatements, Split, SpacePrefix;
    SkipSpaceBefore("", line);
    assert "" + line == line && SkipSpace("") == "";
  }

  lemma SplitOne(t: string)
    requires ';' !in t
    ensures Split(t) == [t]
  {
    IndexOfAbsent(t, ';');
  }

  lemma RunOne<W>(sh: Shell<W>, w: W, t: string)
    requires |t| < COMMAND_SIZE
    ensures RunStatements(sh, w, [t]).code != 0 ==> RunStatements(sh, w, [t]) == RunStatement(sh, w, t)
    ensures RunStatement(sh, w, t) == Nothing(w) ==> RunStatements(sh, w, [t]) == Nothing(w)
  {
    hide RunStatement;
    assert [t][1..] == [];
  }

  // ---------------------------------------------------------------------------
  // Safety of a whole line
  // ---------------------------------------------------------------------------

  /** The call goes to the first handler that takes it, and its name is not an alias then. */
  ghost predicate Resolved<W>(sh: Shell<W>, e: Event<W>) {
    && sh.aliasOf(e.world, e.call.name).None?
    && e.handler < |sh.handlers| && sh.handlers[e.handler].canHandle(e.world, e.call.name, e.call.argv)
    && forall k :: 0 <= k < e.handler ==> !sh.handlers[k].canHandle(e.world, e.call.name, e.call.argv)
  }

  function Effect<W>(sh: Shell<W>, e: Event<W>): (W, int)
    requires e.handler < |sh.handlers|
  {
    sh.handlers[e.handler].handle(e.world, e.call)
  }

  /** The calls follow each other from world w to w', and all of them succeed. */
  ghost predicate Succeed<W>(sh: Shell<W>, w: W, events: seq<Event<W>>, w': W) {
    if events == [] then w' == w
    else
      && events[0].world == w && Resolved(sh, events[0])
      && Effect(sh, events[0]).1 == 0 && Succeed(sh, Effect(sh, events[0]).0, events[1..], w')
  }

  /**
    An outcome: all calls succeed and the code is 0; or all succeed and there is one error, code -1;
    or the last call fails, and its code is the code.
   */
  ghost predicate IsTrace<W>(sh: Shell<W>, w: W, r: Outcome<W>) {
    if r.code == 0 || r.errors != [] then
      && Succeed(sh, w, r.events, r.world) && (if r.code == 0 then r.errors == [] else r.code == -1 && |r.errors| == 1)
    else
      && r.events != [] && FailsIn(sh, w, r)
  }

  ghost predicate FailsIn<W>(sh: Shell<W>, w: W, r: Outcome<W>)
    requires r.events != []
  {
    var last := r.events[|r.events| - 1];
    && Succeed(sh, w, r.events[..|r.events| - 1], last.world)
    && Resolved(sh, last) && Effect(sh, last) == (r.world, r.code)
  }

  lemma DispatchIsTrace<W>(sh: Shell<W>, w: W, s: Stage, streams: Streams)
    requires sh.aliasOf(w, s.name).None?
    ensures IsTrace(sh, w, Dispatch(sh, w, s, streams))
  {
    var r := Dispatch(sh, w, s, streams);
    if r.errors == [] {
      var e := r.events[0];
      assert r.events == [e] && Resolved(sh, e) && Effect(sh, e) == (r.world, r.code);
      assert r.events[..0] == [] && r.events[1..] == [];
      assert Succeed(sh, w, [], w) && FailsIn(sh, w, r);
    }
  }

  lemma StatementIsTrace<W>(sh: Shell<W>, w: W, statement: string)
    ensures IsTrace(sh, w, RunStatement(sh, w, statement))
  {
    hide Redirect, Dispatch, IsTrace, Expand, Trimmed, NameOf, ArgumentText;
    QuietIsTrace(sh, w);
    var t := Text(statement, Trimmed(statement, 0));
    if t != "" && !IsComment(t) {
      var copy := Truncate(t, COMMAND_SIZE);
      RedirectFits(copy);
      CommandIsTrace(sh, w, copy[..Redirect(copy).cmd.to], StreamsOf(copy));
    }
  }

  lemma CommandIsTrace<W>(sh: Shell<W>, w: W, cmd: string, streams: Streams)
    ensures IsTrace(sh, w, RunCommand(sh, w, cmd, streams))
  {
    hide Dispatch, IsTrace, Expand, NameOf, ArgumentText, ParseArguments;
    QuietIsTrace(sh, w);
    var words := ParseArguments(sh.parse, ArgumentText(cmd));
    if words.Some? {
      var s := Stage(NameOf(cmd), [NameOf(cmd)] + words.value, words.value);
      var r := Expand(sh, w, s, 0);
      if r.Ready? {
        ExpandIff(sh, w, s, r.stage);
        DispatchIsTrace(sh, w, r.stage, streams);
      }
    }
  }

  lemma QuietIsTrace<W>(sh: Shell<W>, w: W)
    ensures IsTrace(sh, w, Nothing(w)) && forall e :: IsTrace(sh, w, Failure(w, e))
  {
  }

  lemma {:induction false} SucceedConcat<W>(sh: Shell<W>, u: W, a: seq<Event<W>>, v: W, b: seq<Event<W>>, w: W)
    requires Succeed(sh, u, a, v) && Succeed(sh, v, b, w)
    ensures Succeed(sh, u, a + b, w)
  {
    if a == [] {
      assert a + b == b;
    } else {
      assert (a + b)[1..] == a[1..] + b;
      SucceedConcat(sh, Effect(sh, a[0]).0, a[1..], v, b, w);
    }
  }

  lemma ThenIsTrace<W>(sh: Shell<W>, w: W, a: Outcome<W>, b: Outcome<W>)
    requires IsTrace(sh, w, a) && a.code == 0 && IsTrace(sh, a.world, b)
    ensures IsTrace(sh, w, Then(a, b))
  {
    hide Succeed, Resolved, Effect;
    var r := Then(a, b);
    assert r.errors == b.errors;
    if b.code == 0 || b.errors != [] {
      SucceedConcat(sh, w, a.events, a.world, b.events, b.world);
    } else {
      var v := b.events[|b.events| - 1].world;
      var init := b.events[..|b.events| - 1];
      SucceedConcat(sh, w, a.events, a.world, init, v);
      assert r.events[..|r.events| - 1] == a.events + init;
      assert FailsIn(sh, w, r);
    }
  }

  /** Whatever handlers, aliases and argument parser there are, a run of statements is a trace. */
  lemma {:induction false} StatementsAreTrace<W>(sh: Shell<W>, w: W, statements: seq<string>)
    ensures IsTrace(sh, w, RunStatements(sh, w, statements))
  {
    hide RunStatement, IsTrace;
    if statements == [] {
      QuietIsTrace(sh, w);
    } else {
      var first := RunStatement(sh, w, Truncate(statements[0], COMMAND_SIZE));
      StatementIsTrace(sh, w, Truncate(statements[0], COMMAND_SIZE));
      if first.code == 0 {
        StatementsAreTrace(sh, first.world, statements[1..]);
        ThenIsTrace(sh, w, first, RunStatements(sh, first.world, statements[1..]));
      }
    }
  }

  /**
    Safety of a line: handlers are called one after the other, each in the world the one before left,
    with names that are not aliases there; the line stops at the first failure and returns its code.
   */
  lemma LineIsTrace<W>(sh: Shell<W>, w: W, line: string)
    ensures IsTrace(sh, w, RunLine(sh, w, line))
  {
    hide RunStatements, IsTrace, Split;
    QuietIsTrace(sh, w);
    StatementsAreTrace(sh, w, Split(Truncate(SkipSpace(line), LINE_SIZE)));
  }
}
