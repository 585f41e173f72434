/** The alias loop of src/bas/cli/cli_parser.c with args_parse, its default parser. */
module DefaultParser {
  import opened CText
  import opened Tokenizer
  import opened Globs
  import opened ArgsParse
  import AliasExpansion

  /** default_args_parser */
  function DefaultParse(env: Env): string -> Option<seq<string>> {
    line => match Arguments(line, env)
      case Failed => None
      case Words(words) => Some(words)
  }

  lemma {:induction false} AfterSpacesStartsBlank(words: seq<string>)
    ensures StartsBlank(AliasExpansion.AfterSpaces(words))
  {
    if words != [] {
      AfterSpacesStartsBlank(words[..|words| - 1]);
    }
  }

  /** An alias value that fits the buffer is followed by a blank, or by nothing. */
  lemma ExpandedStarts(value: string, parsed: seq<string>) returns (rest: string)
    requires |value| < AliasExpansion.COMMAND_SIZE
    ensures AliasExpansion.Expanded(value, parsed) == value + rest && StartsBlank(rest)
    ensures |value + AliasExpansion.AfterSpaces(parsed)| < AliasExpansion.COMMAND_SIZE ==>
      rest == AliasExpansion.AfterSpaces(parsed)
  {
    hide AliasExpansion.AfterSpaces;
    var spaced := AliasExpansion.AfterSpaces(parsed);
    AfterSpacesStartsBlank(parsed);
    rest := AliasExpansion.Expanded(value, parsed)[|value|..];
    if rest != "" {
      assert rest[0] == (value + spaced)[|value|] == spaced[0];
    }
  }

  /** Values that fit the buffer, end outside quotes and escapes, and have a word. */
  predicate ClosedValue(value: string, env: Env) {
    && |value| < AliasExpansion.COMMAND_SIZE && EndsClosed(value)
    && Arguments(value, env).Words? && Arguments(value, env).words != []
  }

  function HeadOf(value: string, env: Env): string
    requires ClosedValue(value, env)
  {
    Truncate(Arguments(value, env).words[0], AliasExpansion.NAME_SIZE)
  }

  /**
    With the default parser the first argument of an expansion is that of the alias' value, whatever
    follows, if the value fits the buffer and does not end in a quote or after a backslash.
   */
  lemma {:induction false} ClosedValueHasHead(value: string, env: Env)
    requires ClosedValue(value, env)
    ensures AliasExpansion.HeadIs(DefaultParse(env), value, HeadOf(value, env))
  {
    hide Arguments, AliasExpansion.Expanded;
    forall parsed: seq<string>
      ensures var r := DefaultParse(env)(AliasExpansion.Expanded(value, parsed));
        r.Some? ==> r.value != [] && r.value[0] == Arguments(value, env).words[0]
    {
      var rest := ExpandedStarts(value, parsed);
      ArgumentsConcat(value, rest, env);
    }
  }

  /** An alias table of such values, and the first word of each. */
  ghost predicate ClosedTable<W>(sh: AliasExpansion.Shell<W>, w: W, env: Env, heads: map<string, string>) {
    && sh.parse == DefaultParse(env)
    && forall name: string ::
         match sh.aliasOf(w, name)
         case None => name !in heads
         case Some(value) => name in heads && ClosedValue(value, env) && heads[name] == HeadOf(value, env)
  }

  lemma {:induction false} ClosedTableHasHeads<W>(
      sh: AliasExpansion.Shell<W>, w: W, env: Env, heads: map<string, string>)
    requires ClosedTable(sh, w, env, heads)
    ensures AliasExpansion.HeadsAre(sh, w, heads)
  {
    hide Arguments, AliasExpansion.HeadIs, DefaultParse;
    forall name: string | sh.aliasOf(w, name).Some?
      ensures name in heads && AliasExpansion.HeadIs(sh.parse, sh.aliasOf(w, name).value, heads[name])
    {
      ClosedValueHasHead(sh.aliasOf(w, name).value, env);
    }
  }

  /** With args_parse, a chain of ten aliases or more is always an error. */
  lemma {:induction false} DefaultLongChainFails<W>(
      sh: AliasExpansion.Shell<W>, w: W, env: Env, heads: map<string, string>, s: AliasExpansion.Stage)
    requires ClosedTable(sh, w, env, heads) && AliasExpansion.Follow(heads, s.name, 10).Some?
    ensures AliasExpansion.Expand(sh, w, s, 0).Failed?
  {
    hide ClosedTable, AliasExpansion.HeadsAre, AliasExpansion.Expand, AliasExpansion.Follow;
    ClosedTableHasHeads(sh, w, env, heads);
    AliasExpansion.LongChainFails(sh, w, heads, s);
  }

  /** With args_parse, a cycle of aliases is always an error, wherever it is entered. */
  lemma {:induction false} DefaultCycleFails<W>(
      sh: AliasExpansion.Shell<W>, w: W, env: Env, heads: map<string, string>, s: AliasExpansion.Stage, k: nat, p: nat)
    requires ClosedTable(sh, w, env, heads) && p > 0
    requires AliasExpansion.Follow(heads, s.name, k).Some?
    requires AliasExpansion.Follow(heads, s.name, k + p) == AliasExpansion.Follow(heads, s.name, k)
    ensures AliasExpansion.Expand(sh, w, s, 0).Failed?
  {
    hide ClosedTable, AliasExpansion.HeadsAre, AliasExpansion.Expand, AliasExpansion.Follow;
    ClosedTableHasHeads(sh, w, env, heads);
    AliasExpansion.CycleFails(sh, w, heads, s, k, p);
  }

  /** A word that the parser leaves as it is. */
  predicate PlainArgument(w: string) {
    && w != "" && !ContainsWildcard(w) && '{' !in w
    && forall i :: 0 <= i < |w| ==> BareChar(w[i])
  }

  lemma {:induction false} BareScan(s: string)
    requires forall i :: 0 <= i < |s| ==> BareChar(s[i])
    ensures ScanText(START, s) == START
  {
    if s != "" {
      BareScan(s[1..]);
    }
  }

  lemma PlainExpandsToItself(w: string, env: Env)
    requires PlainArgument(w)
    ensures ExpandAll([w], env) == [w]
  {
    hide ExpandEach;
    assert [w][..0] == [];
    ExpandNone(env);
  }

  lemma PlainArgumentParses(w: string, env: Env)
    requires PlainArgument(w)
    ensures Arguments(" " + w, env) == Words([w])
  {
    hide Tokens, ExpandAll;
    var words, gaps := [[Bare(w)]], [" "];
    assert RenderWord([Bare(w)]) == w by { assert [Bare(w)][1..] == []; assert w + "" == w; }
    assert TextOf([Bare(w)]) == w by { assert [Bare(w)][1..] == []; assert w + "" == w; }
    assert RenderLine(words, gaps) == " " + w by { assert words[1..] == []; }
    LineRoundTrip(words, gaps);
    assert Tokenizer.Texts(words) == [w];
    PlainExpandsToItself(w, env);
  }

  lemma AfterSpacesPush(words: seq<string>, w: string)
    ensures AliasExpansion.AfterSpaces(words + [w]) == AliasExpansion.AfterSpaces(words) + (" " + w)
  {
    assert (words + [w])[..|words|] == words;
    assert AliasExpansion.AfterSpaces(words) + " " + w == AliasExpansion.AfterSpaces(words) + (" " + w);
  }

  /** Plain words joined by spaces are read back as they were. */
  lemma {:induction false} PlainArgumentsParse(words: seq<string>, env: Env)
    requires forall i :: 0 <= i < |words| ==> PlainArgument(words[i])
    ensures EndsClosed(AliasExpansion.AfterSpaces(words))
    ensures Arguments(AliasExpansion.AfterSpaces(words), env) == Words(words)
  {
    hide PlainArgument, Arguments, AliasExpansion.AfterSpaces;
    if words == [] {
      NothingParses(env);
    } else {
      var init, w := words[..|words| - 1], words[|words| - 1];
      PlainArgumentsParse(init, env);
      assert words == init + [w];
      AfterSpacesPush(init, w);
      PlainArgumentParses(w, env);
      ClosedWithWord(AliasExpansion.AfterSpaces(init), w);
      ArgumentsConcat(AliasExpansion.AfterSpaces(init), " " + w, env);
    }
  }

  lemma NothingIsClosed()
    ensures EndsClosed("")
  {
  }

  lemma NothingParses(env: Env)
    ensures AliasExpansion.AfterSpaces([]) == "" && EndsClosed("") && Arguments("", env) == Words([])
  {
    hide Tokens, EndsClosed, ExpandAll;
    NothingIsClosed();
    TokensOfBlank("");
    ExpandNone(env);
  }

  lemma ClosedWithWord(text: string, w: string)
    requires EndsClosed(text) && PlainArgument(w)
    ensures EndsClosed(text + (" " + w)) && StartsBlank(" " + w)
  {
    ScanAppend(START, text, " " + w);
    ScanAppend(START, " ", w);
    BareScan(w);
    assert ScanText(START, " ") == START by { ScanBlank(" "); }
  }

  /**
    An expansion puts the value's arguments before the ones there are. From the second one on these
    begin with the name just replaced, which so becomes an argument.
   */
  lemma {:induction false} NamePilesUp<W>(sh: AliasExpansion.Shell<W>, w: W, s: AliasExpansion.Stage, env: Env)
    requires sh.parse == DefaultParse(env) && sh.aliasOf(w, s.name).Some?
    requires var value := sh.aliasOf(w, s.name).value;
      ClosedValue(value, env) && |value + AliasExpansion.AfterSpaces(s.parsed)| < AliasExpansion.COMMAND_SIZE
    requires forall i :: 0 <= i < |s.parsed| ==> PlainArgument(s.parsed[i])
    ensures var next := AliasExpansion.Turn(sh, w, s);
      && next.To? && next.stage.argv == Arguments(sh.aliasOf(w, s.name).value, env).words + s.parsed
      && next.stage.parsed == next.stage.argv
      && (|next.stage.argv[0]| < AliasExpansion.NAME_SIZE ==> next.stage.name == next.stage.argv[0])
  {
    hide Arguments, AliasExpansion.Expanded, PlainArgument, AliasExpansion.AfterSpaces;
    var value := sh.aliasOf(w, s.name).value;
    var rest := ExpandedStarts(value, s.parsed);
    PlainArgumentsParse(s.parsed, env);
    ArgumentsConcat(value, rest, env);
  }
}
