/**
  The statement executor of src/bas/cli/cli_parser.c: what a line with several statements, aliases
  and redirections makes the handlers do. Handlers and the alias table live in a world of type W
  that only handlers change.
 */
module AliasExpansion {
  import opened CText
  import opened Redirections

  /** The strings of a cli_redirection_t. */
  datatype Streams = Streams(pipe: Option<string>, input: Option<string>, output: Option<string>, append: bool)

  datatype Call = Call(name: string, argv: seq<string>, streams: Streams)

  datatype Handler<!W> = Handler(canHandle: (W, string, seq<string>) -> bool, handle: (W, Call) -> (W, int))

  datatype Shell<!W> = Shell(
    aliasOf: (W, string) -> Option<string>,
    parse: string -> Option<seq<string>>,
    handlers: seq<Handler<W>>)

  datatype Error = BadArguments | BadAlias | EmptyAlias | TooManyAliases | InvalidCommand(name: string)

  const NAME_SIZE := 256
  const COMMAND_SIZE := 1024
  const LINE_SIZE := 2048
  const MAX_EXPANSIONS := 10

  /** The slots of cmd_argv, one of them for the NULL at its end. */
  const ARGV_SLOTS := 65

  // ---------------------------------------------------------------------------
  // Aliases
  // ---------------------------------------------------------------------------

  /** cmd_name, cmd_argv and parsed_argv in the alias loop. */
  datatype Stage = Stage(name: string, argv: seq<string>, parsed: seq<string>)

  /** Every word after a space. */
  function AfterSpaces(words: seq<string>): string {
    if words == [] then "" else AfterSpaces(words[..|words| - 1]) + " " + words[|words| - 1]
  }

  /** The command line with the alias replaced, in a buffer of 1024 bytes. */
  function Expanded(value: string, parsed: seq<string>): string {
    Truncate(value + AfterSpaces(parsed), COMMAND_SIZE)
  }

  datatype Next = NotAnAlias | Fails(error: Error) | To(stage: Stage)

  /** One turn of the alias loop. */
  function Turn<W>(sh: Shell<W>, w: W, s: Stage): Next {
    match sh.aliasOf(w, s.name)
    case None => NotAnAlias
    case Some(value) =>
      match sh.parse(Expanded(value, s.parsed))
      case None => Fails(BadAlias)
      case Some(words) =>
        if words == [] then Fails(EmptyAlias)
        else To(Stage(Truncate(words[0], NAME_SIZE), words, words))
  }

  datatype Expansion = Ready(stage: Stage) | Failed(error: Error)

  /** The alias loop, after `count` expansions. */
  function Expand<W>(sh: Shell<W>, w: W, s: Stage, count: nat): Expansion
    requires count <= MAX_EXPANSIONS
    decreases MAX_EXPANSIONS - count
  {
    if count == MAX_EXPANSIONS then Failed(TooManyAliases)
    else
      match Turn(sh, w, s)
      case NotAnAlias => Ready(s)
      case Fails(e) => Failed(e)
      case To(next) => Expand(sh, w, next, count + 1)
  }

  /** The stage after k expansions, if there are that many. */
  function StageAfter<W>(sh: Shell<W>, w: W, s: Stage, k: nat): Option<Stage> {
    if k == 0 then Some(s)
    else
      var before := StageAfter(sh, w, s, k - 1);
      if before.Some? && Turn(sh, w, before.value).To? then Some(Turn(sh, w, before.value).stage) else None
  }

  /** cmd_argv has room for every argv of the loop. */
  ghost predicate ArgvFits<W>(sh: Shell<W>, w: W, s: Stage) {
    forall k :: 0 <= k <= MAX_EXPANSIONS && StageAfter(sh, w, s, k).Some? ==>
      |StageAfter(sh, w, s, k).value.argv| < ARGV_SLOTS
  }

  /** The expansions stop after k of them, in this way. */
  predicate Stops<W>(sh: Shell<W>, w: W, s: Stage, k: nat, next: Next) {
    StageAfter(sh, w, s, k).Some? && Turn(sh, w, StageAfter(sh, w, s, k).value) == next && !next.To?
  }

  lemma {:induction false} StageAfterFirst<W>(sh: Shell<W>, w: W, s: Stage, k: nat)
    ensures Turn(sh, w, s).To? ==> StageAfter(sh, w, s, k + 1) == StageAfter(sh, w, Turn(sh, w, s).stage, k)
    ensures !Turn(sh, w, s).To? ==> StageAfter(sh, w, s, k + 1).None?
  {
    hide Turn;
    if k == 0 {
      assert StageAfter(sh, w, s, 0) == Some(s);
    } else {
      StageAfterFirst(sh, w, s, k - 1);
    }
  }

  /** What the loop does, exactly, by what happens within the expansions left to it. */
  lemma {:induction false} ExpandFrom<W>(sh: Shell<W>, w: W, s: Stage, count: nat) returns (k: nat)
    requires count <= MAX_EXPANSIONS
    ensures k <= MAX_EXPANSIONS - count && StageAfter(sh, w, s, k).Some?
    ensures k == MAX_EXPANSIONS - count ==> Expand(sh, w, s, count) == Failed(TooManyAliases)
    ensures k < MAX_EXPANSIONS - count ==>
      match Turn(sh, w, StageAfter(sh, w, s, k).value)
      case NotAnAlias => Expand(sh, w, s, count) == Ready(StageAfter(sh, w, s, k).value)
      case Fails(e) => Expand(sh, w, s, count) == Failed(e)
      case To(_) => false
    decreases MAX_EXPANSIONS - count
  {
    hide Turn;
    k := 0;
    if count < MAX_EXPANSIONS && Turn(sh, w, s).To? {
      k := ExpandFrom(sh, w, Turn(sh, w, s).stage, count + 1);
      StageAfterFirst(sh, w, s, k);
      k := k + 1;
    }
  }

  lemma {:induction false} StagesBefore<W>(sh: Shell<W>, w: W, s: Stage, k: nat, n: nat)
    requires k <= n && StageAfter(sh, w, s, n).Some?
    ensures StageAfter(sh, w, s, k).Some?
    ensures k < n ==> Turn(sh, w, StageAfter(sh, w, s, k).value).To?
    decreases n
  {
    hide Turn;
    if k < n {
      StagesBefore(sh, w, s, k, n - 1);
    }
  }

  /**
    The alias loop, exactly, for any parser and any table: a command is ready if and only if after
    at most nine expansions its name is not an alias, and there are too many expansions if and only
    if there are ten.
   */
  lemma {:induction false} ExpandIff<W>(sh: Shell<W>, w: W, s: Stage, t: Stage)
    ensures Expand(sh, w, s, 0) == Ready(t) <==>
      exists k :: 0 <= k <= 9 && StageAfter(sh, w, s, k) == Some(t) && sh.aliasOf(w, t.name).None?
    ensures Expand(sh, w, s, 0) == Failed(TooManyAliases) <==> StageAfter(sh, w, s, 10).Some?
    ensures forall e :: e != TooManyAliases ==>
      (Expand(sh, w, s, 0) == Failed(e) <==> exists k :: 0 <= k <= 9 && Stops(sh, w, s, k, Fails(e)))
  {
    hide Turn, Expand, StageAfter;
    var k := ExpandFrom(sh, w, s, 0);
    TurnNames(sh, w);
    assert k < 10 ==> Stops(sh, w, s, k, Turn(sh, w, StageAfter(sh, w, s, k).value));
    forall j: nat | j <= 10 && StageAfter(sh, w, s, j).Some? && j != k
      ensures j < k && Turn(sh, w, StageAfter(sh, w, s, j).value).To?
    {
      if j < k {
        StagesBefore(sh, w, s, j, k);
      } else {
        StagesBefore(sh, w, s, k, j);
      }
    }
  }

  lemma TurnNames<W>(sh: Shell<W>, w: W)
    ensures forall s :: Turn(sh, w, s).NotAnAlias? <==> sh.aliasOf(w, s.name).None?
    ensures forall s :: Turn(sh, w, s) != Fails(TooManyAliases)
  {
  }

  // ---------------------------------------------------------------------------
  // The names that a command goes through
  // ---------------------------------------------------------------------------

  /**
    Each alias' expansions all start with the same word, whatever arguments follow, and `heads`
    holds that word.
   */
  ghost predicate HeadsAre<W>(sh: Shell<W>, w: W, heads: map<string, string>) {
    forall name: string ::
      match sh.aliasOf(w, name)
      case None => name !in heads
      case Some(value) => name in heads && HeadIs(sh.parse, value, heads[name])
  }

  ghost predicate HeadIs(parse: string -> Option<seq<string>>, value: string, head: string) {
    forall parsed: seq<string> ::
      var r := parse(Expanded(value, parsed));
      r.Some? && r.value != [] ==> Truncate(r.value[0], NAME_SIZE) == head
  }

  /** Following the aliases by their first words alone. */
  function Follow(heads: map<string, string>, name: string, k: nat): Option<string> {
    if k == 0 then Some(name)
    else
      var before := Follow(heads, name, k - 1);
      if before.Some? && before.value in heads then Some(heads[before.value]) else None
  }

  lemma TurnFollows<W>(sh: Shell<W>, w: W, heads: map<string, string>, s: Stage)
    requires HeadsAre(sh, w, heads)
    ensures Turn(sh, w, s).NotAnAlias? <==> s.name !in heads
    ensures Turn(sh, w, s).To? ==> s.name in heads && Turn(sh, w, s).stage.name == heads[s.name]
  {
    match sh.aliasOf(w, s.name)
    case None =>
    case Some(value) =>
      assert HeadIs(sh.parse, value, heads[s.name]);
      var line := Expanded(value, s.parsed);
  }

  lemma {:induction false} NamesFollow<W>(sh: Shell<W>, w: W, heads: map<string, string>, s: Stage, k: nat)
    requires HeadsAre(sh, w, heads) && StageAfter(sh, w, s, k).Some?
    ensures Follow(heads, s.name, k) == Some(StageAfter(sh, w, s, k).value.name)
  {
    hide Turn, HeadsAre;
    if k > 0 {
      NamesFollow(sh, w, heads, s, k - 1);
      TurnFollows(sh, w, heads, StageAfter(sh, w, s, k - 1).value);
    }
  }

  /** A command that gets ready has followed its chain of first words to the end, in at most nine steps. */
  lemma {:induction false} ReadyFollows<W>(sh: Shell<W>, w: W, heads: map<string, string>, s: Stage, t: Stage)
    requires HeadsAre(sh, w, heads) && Expand(sh, w, s, 0) == Ready(t)
    ensures t.name !in heads && exists k :: 0 <= k <= 9 && Follow(heads, s.name, k) == Some(t.name)
  {
    hide Turn, Expand, StageAfter, Follow, HeadsAre;
    ExpandIff(sh, w, s, t);
    var k :| 0 <= k <= 9 && StageAfter(sh, w, s, k) == Some(t) && sh.aliasOf(w, t.name).None?;
    NamesFollow(sh, w, heads, s, k);
    TurnFollows(sh, w, heads, t);
    TurnNames(sh, w);
  }

  lemma {:induction false} FollowBefore(heads: map<string, string>, name: string, k: nat, n: nat)
    requires k < n && Follow(heads, name, n).Some?
    ensures Follow(heads, name, k).Some? && Follow(heads, name, k).value in heads
    decreases n
  {
    if k < n - 1 {
      FollowBefore(heads, name, k, n - 1);
    }
  }

  /** A chain of ten first words or more is always an error. */
  lemma {:induction false} LongChainFails<W>(sh: Shell<W>, w: W, heads: map<string, string>, s: Stage)
    requires HeadsAre(sh, w, heads) && Follow(heads, s.name, 10).Some?
    ensures Expand(sh, w, s, 0).Failed?
  {
    hide Turn, Expand, StageAfter, Follow, HeadsAre;
    var r := Expand(sh, w, s, 0);
    if r.Ready? {
      ReadyFollows(sh, w, heads, s, r.stage);
      var k :| 0 <= k <= 9 && Follow(heads, s.name, k) == Some(r.stage.name);
      FollowBefore(heads, s.name, k, 10);
    }
  }

  lemma {:induction false} FollowAdds(heads: map<string, string>, name: string, k: nat, n: nat)
    requires Follow(heads, name, k).Some?
    ensures Follow(heads, name, k + n) == Follow(heads, Follow(heads, name, k).value, n)
  {
    if n > 0 {
      FollowAdds(heads, name, k, n - 1);
    }
  }

  /** A cycle goes on for any number of steps. */
  lemma {:induction false} CycleGoesOn(heads: map<string, string>, name: string, p: nat, n: nat)
    requires p > 0 && Follow(heads, name, p) == Some(name)
    ensures Follow(heads, name, n).Some?
  {
    hide Follow;
    if n < p {
      FollowBefore(heads, name, n, p);
    } else {
      CycleGoesOn(heads, name, p, n - p);
      FollowAdds(heads, name, p, n - p);
    }
  }

  /** A cycle of aliases is always an error, wherever it is entered. */
  lemma {:induction false} CycleFails<W>(sh: Shell<W>, w: W, heads: map<string, string>, s: Stage, k: nat, p: nat)
    requires HeadsAre(sh, w, heads) && p > 0
    requires Follow(heads, s.name, k).Some? && Follow(heads, s.name, k + p) == Follow(heads, s.name, k)
    ensures Expand(sh, w, s, 0).Failed?
  {
    hide Follow, HeadsAre;
    var name := Follow(heads, s.name, k).value;
    FollowAdds(heads, s.name, k, p);
    CycleGoesOn(heads, name, p, 10);
    FollowAdds(heads, s.name, k, 10);
    if k > 0 {
      FollowBefore(heads, s.name, 10, k + 10);
    }
    LongChainFails(sh, w, heads, s);
  }
}
