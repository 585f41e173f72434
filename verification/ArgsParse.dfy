/**
  args_parse in src/bas/cli/args.c: split a line into words, then expand each word's braces and
  the wildcards of what they give, keeping track of every string.
 */
module ArgsParse {
  import opened CText
  import opened Memory
  import opened Tokenizer
  import opened Braces
  import opened Globs
  import opened Hints

  // ---------------------------------------------------------------------------
  // What args_parse returns
  // ---------------------------------------------------------------------------

  function ExpandEach(items: seq<string>, env: Env): seq<string> {
    if items == [] then []
    else ExpandEach(items[..|items| - 1], env) + ExpandWildcards(items[|items| - 1], env)
  }

  /** A raw word's arguments: braces first, then wildcards. */
  function ExpandWord(w: string, env: Env): seq<string> {
    if BraceExpansions(w) != [] then ExpandEach(BraceExpansions(w), env) else ExpandWildcards(w, env)
  }

  function ExpandAll(words: seq<string>, env: Env): seq<string> {
    if words == [] then []
    else ExpandAll(words[..|words| - 1], env) + ExpandWord(words[|words| - 1], env)
  }

  /** The flat map that args_parse implements. */
  function Arguments(line: string, env: Env): Tokenized {
    match Tokens(line)
    case Failed => Failed
    case Words(words) => Words(ExpandAll(words, env))
  }

  /** Wildcard expansion replaces the word by something. */
  predicate Replaced(w: string, env: Env) {
    ContainsWildcard(w) && List(w, env).ok && Matches(w, List(w, env).paths) != []
  }

  /** The plain wildcard branch with matches, which drops the raw word without freeing it. */
  predicate Leaks(w: string, env: Env) {
    BraceExpansions(w) == [] && Replaced(w, env)
  }

  function LeakedWords(words: seq<string>, env: Env): seq<string> {
    if words == [] then []
    else
      var init, last := LeakedWords(words[..|words| - 1], env), words[|words| - 1];
      if Leaks(last, env) then init + [last] else init
  }

  lemma ExpandAllPush(words: seq<string>, w: string, env: Env)
    ensures ExpandAll(words + [w], env) == ExpandAll(words, env) + ExpandWord(w, env)
    ensures LeakedWords(words + [w], env) == LeakedWords(words, env) + if Leaks(w, env) then [w] else []
  {
    hide Leaks, ExpandWord;
    assert (words + [w])[..|words|] == words;
  }

  lemma ExpandEachPush(items: seq<string>, item: string, env: Env)
    ensures ExpandEach(items + [item], env) == ExpandEach(items, env) + ExpandWildcards(item, env)
  {
    hide ExpandWildcards;
    assert (items + [item])[..|items|] == items;
  }

  // ---------------------------------------------------------------------------
  // Laws of the result
  // ---------------------------------------------------------------------------

  /** args_parse fails exactly when the line ends inside an open quote. */
  lemma FailsIff(line: string, env: Env)
    ensures Arguments(line, env).Failed? <==> EndsInsideQuote(line)
  {
    TokensFailIff(line);
  }

  lemma ExpandNone(env: Env)
    ensures ExpandAll([], env) == [] && ExpandEach([], env) == [] && LeakedWords([], env) == []
  {
  }

  lemma {:induction false} ExpandAllConcat(a: seq<string>, b: seq<string>, env: Env)
    ensures ExpandAll(a + b, env) == ExpandAll(a, env) + ExpandAll(b, env)
    decreases |b|
  {
    hide ExpandWord, LeakedWords, ExpandAll, Leaks;
    if b == [] {
      assert a + b == a;
      ExpandNone(env);
    } else {
      var init, last := b[..|b| - 1], b[|b| - 1];
      assert a + b == (a + init) + [last] && b == init + [last];
      ExpandAllConcat(a, init, env);
      ExpandAllPush(a + init, last, env);
      ExpandAllPush(init, last, env);
    }
  }

  /** Arguments of a closed text followed by a blank come before those of the rest. */
  lemma {:induction false} ArgumentsConcat(a: string, b: string, env: Env)
    requires EndsClosed(a) && StartsBlank(b)
    ensures Arguments(a + b, env) == Append(Arguments(a, env), Arguments(b, env))
  {
    hide Tokens, ExpandAll;
    TokensConcat(a, b);
    if Tokens(a).Words? && Tokens(b).Words? {
      ExpandAllConcat(Tokens(a).words, Tokens(b).words, env);
    }
  }

  /**
    Expansion sees only the text of a word: whichever way words are quoted or escaped, and
    quoted wildcards and braces included, the arguments are the expansions of their texts.
   */
  lemma {:induction false} QuotesDoNotProtect(words: seq<seq<Piece>>, gaps: seq<string>, env: Env)
    requires |gaps| == |words| && ValidGaps(gaps)
    requires forall i :: 0 <= i < |words| ==> ValidWord(words[i])
    ensures Arguments(RenderLine(words, gaps), env) == Words(ExpandAll(Tokenizer.Texts(words), env))
  {
    hide Tokens, ExpandAll, RenderLine;
    LineRoundTrip(words, gaps);
  }

  /** The wildcard expansions of some words, one after the other. */
  function Each(items: seq<string>, env: Env): seq<string> {
    Concat(seq(|items|, k requires 0 <= k < |items| => ExpandWildcards(items[k], env)))
  }

  lemma EachPush(items: seq<string>, item: string, env: Env)
    ensures Each(items + [item], env) == Each(items, env) + ExpandWildcards(item, env)
  {
    hide ExpandWildcards;
    var all, last := items + [item], ExpandWildcards(item, env);
    var parts := seq(|items|, k requires 0 <= k < |items| => ExpandWildcards(items[k], env));
    assert seq(|all|, k requires 0 <= k < |all| => ExpandWildcards(all[k], env)) == parts + [last];
    ConcatAppend(parts, [ExpandWildcards(item, env)]);
    ConcatOne(ExpandWildcards(item, env));
  }

  lemma ConcatOne(part: seq<string>)
    ensures Concat([part]) == part
  {
    assert [part][1..] == [];
  }

  lemma {:induction false} ExpandEachIs(items: seq<string>, env: Env)
    ensures ExpandEach(items, env) == Each(items, env)
  {
    hide ExpandWildcards;
    if items != [] {
      var init, last := items[..|items| - 1], items[|items| - 1];
      assert items == init + [last];
      ExpandEachIs(init, env);
      EachPush(init, last, env);
    }
  }

  /** A word with braces: each item, between what is before and after them, and its wildcards. */
  lemma {:induction false} BracedWord(w: string, i: nat, j: nat, env: Env)
    requires IsPair(w, i, j) && !AllSpace(w[i + 1..j])
    ensures ExpandWord(w, env)
      == Each(Around(w[..i], DropBlankLast(StripAll(Segments(w[i + 1..j], NO_QUOTE))), w[j + 1..]), env)
  {
    hide ExpandEach, BraceExpansions, Each, Around, StripAll, Segments, AllSpace;
    ExpandsIff(w);
    ExpansionsAre(w, i, j);
    ExpandEachIs(BraceExpansions(w), env);
  }

  /** A word without such a pair: its wildcards. */
  lemma {:induction false} UnbracedWord(w: string, env: Env)
    requires !Expandable(w)
    ensures ExpandWord(w, env) == ExpandWildcards(w, env)
  {
    hide BraceExpansions, ExpandWildcards, Expandable;
    ExpandsIff(w);
  }

  lemma {:induction false} ExpandAllIs(words: seq<string>, env: Env)
    ensures ExpandAll(words, env) == Concat(seq(|words|, k requires 0 <= k < |words| => ExpandWord(words[k], env)))
  {
    hide ExpandWord;
    if words != [] {
      var init, last := words[..|words| - 1], words[|words| - 1];
      var parts := seq(|init|, k requires 0 <= k < |init| => ExpandWord(init[k], env));
      ExpandAllIs(init, env);
      assert seq(|words|, k requires 0 <= k < |words| => ExpandWord(words[k], env)) == parts + [ExpandWord(last, env)];
      ConcatAppend(parts, [ExpandWord(last, env)]);
      ConcatOne(ExpandWord(last, env));
    }
  }

  /** The arguments of a line of words, however they are quoted, are those of each word in turn. */
  lemma {:induction false} ArgumentsAre(words: seq<seq<Piece>>, gaps: seq<string>, env: Env)
    requires |gaps| == |words| && ValidGaps(gaps)
    requires forall i :: 0 <= i < |words| ==> ValidWord(words[i])
    ensures Arguments(RenderLine(words, gaps), env) ==
      Words(Concat(seq(|words|, k requires 0 <= k < |words| => ExpandWord(TextOf(words[k]), env))))
  {
    hide Arguments, ExpandAll, ExpandWord, RenderLine, TextOf;
    QuotesDoNotProtect(words, gaps, env);
    var texts := Tokenizer.Texts(words);
    ExpandAllIs(texts, env);
    assert seq(|words|, k requires 0 <= k < |words| => ExpandWord(TextOf(words[k]), env))
        == seq(|texts|, k requires 0 <= k < |texts| => ExpandWord(texts[k], env));
  }

  /** For instance '*' in quotes, in a directory that holds one file. */
  lemma QuotedStarIsExpanded()
    ensures Arguments("'*'", Env(Some(Plain(dir => ["/home/a"])), None)) == Words(["a"])
  {
    hide Tokens, ExpandAll, ExpandWord, QuoteLine;
    var env := Env(Some(Plain(dir => ["/home/a"])), None);
    QuoteRoundTrip(["*"]);
    QuotedStar();
    ExpandAllOne("*", env);
    StarMatches(env);
  }

  lemma QuotedStar()
    ensures QuoteLine(["*"]) == "'*'"
  {
    assert "*"[1..] == "";
    assert EscapeFor('\'', "*") == "*" + EscapeFor('\'', "");
  }

  lemma ExpandAllOne(w: string, env: Env)
    ensures ExpandAll([w], env) == ExpandWord(w, env)
  {
    hide ExpandWord;
    assert [w][..0] == [];
  }

  lemma StarMatches(env: Env)
    requires env == Env(Some(Plain(dir => ["/home/a"])), None)
    ensures ExpandWord("*", env) == ["a"]
  {
    hide Truncate, Items;
    assert AfterLast("*", '/') == 0 by { assert "*"[..0] == ""; }
    assert "*"[0..] == "*";
    assert Truncate("*", 256) == "*" && Truncate("a", 1024) == "a" by {
      TruncateShort("*", 256);
      TruncateShort("a", 1024);
    }
    assert FilePattern("*") == "*" && PatternDir("*") == "";
    assert Basename("/home/a") == "a" by { assert "/home/a"[6..] == "a"; AfterLastUnique("/home/a", '/', 6); }
    assert FnMatch("*", "a") by { assert "*"[1..] == "" && "a"[1..] == ""; assert FnMatch("*", ""); }
    assert [] + ["/home/a"] == ["/home/a"];
    MatchesPush("*", [], "/home/a");
    assert IsWild("*"[0]);
  }

  lemma TruncateShort(s: string, size: nat)
    requires |s| < size
    ensures Truncate(s, size) == s
  {
  }

  lemma {:induction false} AfterLastUnique(s: string, c: char, n: nat)
    requires 0 < n <= |s| && s[n - 1] == c && forall k :: n <= k < |s| ==> s[k] != c
    ensures AfterLast(s, c) == n
  {
  }

  lemma {:induction false} ExpandEachLength(items: seq<string>, env: Env)
    ensures |ExpandEach(items, env)| >= |items|
  {
    hide ExpandWildcards;
    if items != [] {
      ExpandEachLength(items[..|items| - 1], env);
      WildcardsNonEmpty(items[|items| - 1], env);
    }
  }

  lemma WildcardsNonEmpty(w: string, env: Env)
    ensures ExpandWildcards(w, env) != []
    ensures ExpandWildcards(w, env) == if Replaced(w, env) then Matches(w, List(w, env).paths) else [w]
  {
    hide Matches, List;
  }

  lemma ExpandEachOne(item: string, env: Env)
    ensures ExpandEach([item], env) == ExpandWildcards(item, env)
  {
    hide ExpandWildcards;
    assert [item][..0] == [];
  }

  /**
    A word comes out as itself: it has no brace that expands and, if wildcards replace it, one file
    of that very name does; or it has one brace item, which a file named like the whole word replaces.
   */
  ghost predicate KeepsItself(w: string, env: Env) {
    if Expandable(w) then
      && |BraceExpansions(w)| == 1
      && var item := BraceExpansions(w)[0]; Replaced(item, env) && Matches(item, List(item, env).paths) == [w]
    else Replaced(w, env) ==> Matches(w, List(w, env).paths) == [w]
  }

  lemma {:induction false} KeepsItselfIff(w: string, env: Env)
    ensures ExpandWord(w, env) != []
    ensures ExpandWord(w, env) == [w] <==> KeepsItself(w, env)
  {
    hide ExpandEach, ExpandWildcards, BraceExpansions, Expandable, Replaced, Matches, List;
    ExpandsIff(w);
    WildcardsNonEmpty(w, env);
    if Expandable(w) {
      var items := BraceExpansions(w);
      ExpandEachLength(items, env);
      if |items| == 1 {
        assert items == [items[0]];
        ExpandEachOne(items[0], env);
        WildcardsNonEmpty(items[0], env);
        SingleExpansionIsShorter(w);
      }
    }
  }

  lemma {:induction false} ExpandAllLength(words: seq<string>, env: Env)
    ensures |ExpandAll(words, env)| >= |words|
    ensures |ExpandAll(words, env)| == |words| ==>
      forall i :: 0 <= i < |words| ==> ExpandWord(words[i], env) == [ExpandAll(words, env)[i]]
  {
    hide ExpandWord, ExpandAll, LeakedWords, Leaks, KeepsItself;
    if words != [] {
      var init, last := words[..|words| - 1], words[|words| - 1];
      assert words == init + [last];
      ExpandAllPush(init, last, env);
      ExpandAllLength(init, env);
      KeepsItselfIff(last, env);
      OneEach(ExpandAll(init, env), ExpandWord(last, env), |init|);
    }
  }

  lemma OneEach(a: seq<string>, b: seq<string>, n: nat)
    requires |a| >= n && b != []
    ensures |a + b| >= n + 1
    ensures |a + b| == n + 1 ==> |a| == n && b == [(a + b)[n]] && forall i :: 0 <= i < n ==> (a + b)[i] == a[i]
  {
  }

  /**
    Round trip, exactly, with any enumerator: single-quoted words come back as they were if and only
    if each of them keeps itself.
   */
  lemma {:induction false} RoundTripIff(words: seq<string>, env: Env)
    ensures Arguments(QuoteLine(words), env) == Words(words)
      <==> forall i :: 0 <= i < |words| ==> KeepsItself(words[i], env)
  {
    hide Tokens, QuoteLine, ExpandAll, ExpandWord, KeepsItself;
    QuoteRoundTrip(words);
    ExpandAllLength(words, env);
    forall i | 0 <= i < |words|
      ensures ExpandWord(words[i], env) == [words[i]] <==> KeepsItself(words[i], env)
    {
      KeepsItselfIff(words[i], env);
    }
    if forall i :: 0 <= i < |words| ==> KeepsItself(words[i], env) {
      ExpandAllKeeps(words, env);
    }
  }

  /**
    Without an enumerator that is: none of them has a '{' and a '}' after it with something other
    than white space between the first such pair.
   */
  lemma {:induction false} PlainRoundTripIff(words: seq<string>, context: Option<string>)
    ensures Arguments(QuoteLine(words), Env(None, context)) == Words(words)
      <==> forall i :: 0 <= i < |words| ==> !Expandable(words[i])
  {
    hide Arguments, QuoteLine, Expandable, BraceExpansions;
    RoundTripIff(words, Env(None, context));
    forall i | 0 <= i < |words|
      ensures KeepsItself(words[i], Env(None, context)) <==> !Expandable(words[i])
    {
    }
  }

  lemma {:induction false} ExpandAllKeeps(words: seq<string>, env: Env)
    requires forall i :: 0 <= i < |words| ==> ExpandWord(words[i], env) == [words[i]]
    ensures ExpandAll(words, env) == words
  {
    hide ExpandWord;
    if words != [] {
      ExpandAllKeeps(words[..|words| - 1], env);
    }
  }

  /** The patterns that a word makes args_parse look up. */
  function Patterns(w: string): seq<string> {
    if BraceExpansions(w) != [] then BraceExpansions(w) else [w]
  }

  ghost predicate AllMayFilter(patterns: seq<string>) {
    forall j :: 0 <= j < |patterns| ==> MayFilter(patterns[j])
  }

  lemma {:induction false} EachPruned(items: seq<string>, tree: Tree, context: Option<string>)
    requires AllMayFilter(items)
    ensures ExpandEach(items, Env(Some(Pruned(tree)), context)) == ExpandEach(items, Env(Some(Plain(tree)), context))
  {
    hide ExpandWildcards, MayFilter;
    if items != [] {
      EachPruned(items[..|items| - 1], tree, context);
      PruningIsInvisible(items[|items| - 1], tree, context);
    }
  }

  lemma {:induction false} WordPruned(w: string, tree: Tree, context: Option<string>)
    requires AllMayFilter(Patterns(w))
    ensures ExpandWord(w, Env(Some(Pruned(tree)), context)) == ExpandWord(w, Env(Some(Plain(tree)), context))
  {
    hide ExpandWildcards, BraceExpansions, ExpandEach, MayFilter;
    if BraceExpansions(w) != [] {
      EachPruned(BraceExpansions(w), tree, context);
    } else {
      assert MayFilter(Patterns(w)[0]);
      PruningIsInvisible(w, tree, context);
    }
  }

  lemma {:induction false} WordsPruned(words: seq<string>, tree: Tree, context: Option<string>)
    requires forall i :: 0 <= i < |words| ==> AllMayFilter(Patterns(words[i]))
    ensures ExpandAll(words, Env(Some(Pruned(tree)), context)) == ExpandAll(words, Env(Some(Plain(tree)), context))
  {
    hide ExpandWord, Patterns, AllMayFilter;
    if words != [] {
      var n := |words| - 1;
      assert forall i :: 0 <= i < n ==> words[..n][i] == words[i];
      WordsPruned(words[..n], tree, context);
      WordPruned(words[n], tree, context);
    }
  }

  /** A line whose patterns all have a right hint gives the same arguments with pruning and without. */
  lemma {:induction false} LinePruned(line: string, tree: Tree, context: Option<string>)
    requires Tokens(line).Words? ==>
      forall i :: 0 <= i < |Tokens(line).words| ==> AllMayFilter(Patterns(Tokens(line).words[i]))
    ensures Arguments(line, Env(Some(Pruned(tree)), context)) == Arguments(line, Env(Some(Plain(tree)), context))
  {
    hide Tokens, ExpandAll, AllMayFilter, Patterns;
    if Tokens(line).Words? {
      WordsPruned(Tokens(line).words, tree, context);
    }
  }

  // ---------------------------------------------------------------------------
  // The code: one word
  // ---------------------------------------------------------------------------

  method SkipWhitespace(line: string, start: nat) returns (p: nat)
    requires start <= |line|
    ensures start <= p <= |line| && line[p..] == SkipSpace(line[start..])
  {
    p := start;
    while p < |line| && IsSpace(line[p])
      invariant start <= p <= |line|
      invariant SkipSpace(line[p..]) == SkipSpace(line[start..])
    {
      SkipSpaceStep(line[p..]);
      assert line[p..][1..] == line[p + 1..];
      p := p + 1;
    }
    SkipSpaceDone(line[p..]);
  }

  lemma SkipSpaceDone(s: string)
    requires s == "" || !IsSpace(s[0])
    ensures SkipSpace(s) == s
  {
  }

  lemma PrependPush(acc: string, c: char, r: WordResult)
    ensures PrependText(acc + [c], r) == PrependText(acc, Prepend(c, r))
  {
    if r.Done? {
      assert (acc + [c]) + r.text == acc + ([c] + r.text);
    }
  }

  /** parse_arg, from the first character of a word. */
  method ParseArg(heap: Heap, line: string, start: nat)
    returns (error: bool, arg: Block?, next: nat)
    requires start < |line| && !IsSpace(line[start])
    modifies heap`live, heap`buffers
    ensures heap.buffers == old(heap.buffers)
    ensures match Word(line[start..], NO_QUOTE, false)
      case Unclosed => error && arg == null && next == start && heap.live == old(heap.live)
      case Done(text, rest) =>
        && !error && arg != null && fresh(arg) && arg.text == text
        && start < next <= |line| && line[next..] == rest
        && heap.live == old(heap.live) + {arg}
  {
    hide Word, PrependText;
    var buffer := heap.Malloc(64);
    var len := 0;
    var p, quoteChar, escaped := start, NO_QUOTE, false;
    ghost var target := Word(line[start..], NO_QUOTE, false);
    PrependNothing(target);
    assert buffer[..0] == "";
    while p < |line|
      invariant start <= p <= |line| && fresh(buffer) && len < buffer.Length
      invariant PrependText(buffer[..len], Word(line[p..], quoteChar, escaped)) == target
      invariant heap.live == old(heap.live) && heap.buffers == old(heap.buffers) + {buffer}
    {
      var c := line[p];
      ghost var acc, rest := buffer[..len], line[p + 1..];
      assert line[p..] == [c] + rest;
      WordStep(c, rest, quoteChar, escaped);
      if escaped {
        PrependPush(acc, c, Word(rest, quoteChar, false));
        buffer := StoreChar(heap, buffer, len, c);
        len, escaped := len + 1, false;
      } else if c == '\\' {
        escaped := true;
      } else if quoteChar != NO_QUOTE {
        if c == quoteChar {
          quoteChar := NO_QUOTE;
        } else {
          PrependPush(acc, c, Word(rest, quoteChar, false));
          buffer := StoreChar(heap, buffer, len, c);
          len := len + 1;
        }
      } else if IsQuote(c) {
        quoteChar := c;
      } else if IsSpace(c) {
        break;
      } else {
        PrependPush(acc, c, Word(rest, quoteChar, false));
        buffer := StoreChar(heap, buffer, len, c);
        len := len + 1;
      }
      p := p + 1;
    }
    assert target == (if quoteChar != NO_QUOTE then Unclosed else Done(buffer[..len], line[p..])) by {
      WordStops(buffer[..len], line[p..], quoteChar, escaped);
    }
    if quoteChar != NO_QUOTE {
      heap.FreeBuffer(buffer);
      return true, null, start;
    }
    WordMoves(line[start..]);
    buffer[len] := '\0';
    arg := heap.TakeString(buffer, len);
    return false, arg, p;
  }

  lemma WordStops(acc: string, s: string, quote: char, escaped: bool)
    requires s == "" || (quote == NO_QUOTE && !escaped && IsSpace(s[0]))
    ensures PrependText(acc, Word(s, quote, escaped)) == if quote != NO_QUOTE then Unclosed else Done(acc, s)
  {
  }

  lemma WordMoves(s: string)
    requires s != "" && !IsSpace(s[0])
    ensures var r := Word(s, NO_QUOTE, false); r.Done? ==> |r.rest| < |s|
  {
  }

  // ---------------------------------------------------------------------------
  // The code: the whole line
  // ---------------------------------------------------------------------------

  /** Store the strings of an array of matches; only pointers move. */
  method MoveAll(args: array<Block?>, count: nat, matches: array<Block?>, matchCount: nat,
                 ghost out: seq<Block>, ghost blocks: seq<Block>)
    returns (args': array<Block?>)
    requires count == |out| && Holds(args, out) && matchCount == |blocks| && Holds(matches, blocks)
    requires args != matches
    modifies args
    ensures (args' == args || fresh(args')) && Holds(args', out + blocks)
  {
    args' := args;
    for i := 0 to matchCount
      invariant (args' == args || fresh(args')) && args' != matches
      invariant Holds(args', out + blocks[..i]) && Holds(matches, blocks)
    {
      assert (out + blocks[..i]) + [blocks[i]] == out + blocks[..i + 1];
      args' := Push(args', out + blocks[..i], count + i, matches[i], 16);
    }
    assert blocks[..matchCount] == blocks;
  }

  /**
    One string through wildcard expansion: its matches are stored, or it is stored itself.
    `rest` are the other strings args_parse owns at this point, `out` the arguments so far.
   */
  method WildcardInto(heap: Heap, env: Env, arg: Block, args: array<Block?>, count: nat,
                      ghost base: set<Block>, ghost rest: seq<Block>, ghost out: seq<Block>)
    returns (args': array<Block?>, count': nat, replaced: bool, ghost out': seq<Block>)
    requires count == |out| && Holds(args, out) && OwnedBeyond(base, rest + out, heap.live)
    modifies heap`live, args
    ensures (args' == args || fresh(args')) && count' == |out'| && Holds(args', out')
    ensures Memory.Texts(out') == Memory.Texts(out) + ExpandWildcards(arg.text, env)
    ensures replaced == Replaced(arg.text, env)
    ensures replaced ==> OwnedBeyond(base, rest + out', heap.live)
    ensures !replaced ==> out' == out + [arg] && heap.live == old(heap.live)
  {
    hide OwnedBeyond, Memory.Texts, Matches, List;
    TextsOfPush(out, arg);
    if ContainsWildcard(arg.text) {
      var ok, matches, matchCount, blocks := ExpandWildcard(heap, arg.text, env);
      if ok && matchCount > 0 {
        args' := MoveAll(args, count, matches, matchCount, out, blocks);
        TextsOfConcat(out, blocks);
        OwnJoin(base, rest + out, old(heap.live), blocks, heap.live);
        assert (rest + out) + blocks == rest + (out + blocks);
        return args', count + matchCount, true, out + blocks;
      }
      OwnNone(old(heap.live), blocks, heap.live);
    }
    args' := Push(args, out, count, arg, 16);
    return args', count + 1, false, out + [arg];
  }

  lemma OwnNone(base: set<Block>, blocks: seq<Block>, live: set<Block>)
    requires OwnedBeyond(base, blocks, live) && |Memory.Texts(blocks)| == 0
    ensures live == base
  {
  }

  /** The brace branch: every expansion goes through wildcard expansion, then the word is freed. */
  method BracesInto(heap: Heap, env: Env, arg: Block, expansions: array<Block?>, braceCount: nat,
                    args: array<Block?>, count: nat, ghost base: set<Block>,
                    ghost before: seq<Block>, ghost after: seq<Block>,
                    ghost blocks: seq<Block>, ghost out: seq<Block>)
    returns (args': array<Block?>, count': nat, ghost out': seq<Block>)
    requires braceCount == |blocks| && Holds(expansions, blocks) && args != expansions
    requires count == |out| && Holds(args, out)
    requires OwnedBeyond(base, (before + [arg] + after) + out + blocks, heap.live)
    modifies heap`live, args
    ensures (args' == args || fresh(args')) && count' == |out'| && Holds(args', out')
    ensures Memory.Texts(out') == Memory.Texts(out) + ExpandEach(Memory.Texts(blocks), env)
    ensures OwnedBeyond(base, (before + after) + out', heap.live)
  {
    hide OwnedBeyond, Memory.Texts, ExpandEach, ExpandWildcards, Replaced;
    ghost var word := before + [arg] + after;
    args', count', out' := args, count, out;
    ExpandNone(env);
    assert Memory.Texts(blocks)[..0] == [];
    OwnSwap(base, word, out, blocks, heap.live);
    assert word + blocks + out == (word + blocks[0..]) + out;
    for j := 0 to braceCount
      invariant (args' == args || fresh(args')) && args' != expansions && Holds(expansions, blocks)
      invariant count' == |out'| && Holds(args', out')
      invariant Memory.Texts(out') == Memory.Texts(out) + ExpandEach(Memory.Texts(blocks)[..j], env)
      invariant OwnedBeyond(base, (word + blocks[j..]) + out', heap.live)
    {
      var expanded := expansions[j];
      ghost var was, texts := out', Memory.Texts(blocks);
      var replaced;
      assert texts[j] == expanded.text && texts[..j] + [texts[j]] == texts[..j + 1];
      ExpandEachPush(texts[..j], texts[j], env);
      args', count', replaced, out' :=
        WildcardInto(heap, env, expanded, args', count', base, word + blocks[j..], out');
      assert blocks[j..] == [expanded] + blocks[j + 1..];
      if replaced {
        assert (word + blocks[j..]) + out' == word + [expanded] + (blocks[j + 1..] + out');
        OwnMove(base, word, expanded, blocks[j + 1..] + out', heap.live);
        heap.Free(expanded);
        assert word + (blocks[j + 1..] + out') == (word + blocks[j + 1..]) + out';
      } else {
        assert (word + blocks[j..]) + was == word + [expanded] + (blocks[j + 1..] + was);
        OwnMove(base, word, expanded, blocks[j + 1..] + was, heap.live);
        assert word + (blocks[j + 1..] + was) + [expanded] == (word + blocks[j + 1..]) + out';
      }
    }
    assert Memory.Texts(blocks)[..braceCount] == Memory.Texts(blocks);
    assert (word + blocks[braceCount..]) + out' == before + [arg] + (after + out');
    OwnMove(base, before, arg, after + out', heap.live);
    heap.Free(arg);
    assert before + (after + out') == (before + after) + out';
  }

  lemma OwnSwap(base: set<Block>, a: seq<Block>, b: seq<Block>, c: seq<Block>, live: set<Block>)
    requires OwnedBeyond(base, a + b + c, live)
    ensures OwnedBeyond(base, a + c + b, live)
    decreases |b|
  {
    hide OwnedBeyond;
    if b == [] {
      assert a + b + c == a + c + b;
    } else {
      assert a + b + c == a + [b[0]] + (b[1..] + c);
      OwnMove(base, a, b[0], b[1..] + c, live);
      assert a + (b[1..] + c) + [b[0]] == a + b[1..] + (c + [b[0]]);
      OwnSwap(base, a, b[1..], c + [b[0]], live);
      assert a + (c + [b[0]]) + b[1..] == a + c + b;
    }
  }

  /** The first pass: all raw words, or nothing and an error. */
  method ParseWords(heap: Heap, line: string)
    returns (error: bool, raw: array<Block?>, rawCount: nat, ghost words: seq<Block>)
    modifies heap`live, heap`buffers
    ensures heap.buffers == old(heap.buffers)
    ensures fresh(raw) && rawCount == |words| && Holds(raw, words)
    ensures OwnedBeyond(old(heap.live), words, heap.live)
    ensures error == Tokens(line).Failed?
    ensures error ==> words == []
    ensures !error ==> Memory.Texts(words) == Tokens(line).words
  {
    hide OwnedBeyond, Tokens, Word, Memory.Texts;
    raw, rawCount, words := new Block?[16](_ => null), 0, [];
    OwnNothing(heap.live);
    var p := 0;
    assert line[0..] == line;
    PrependNoWords(Tokens(line));
    while p < |line|
      invariant p <= |line| && fresh(raw) && rawCount == |words| && Holds(raw, words)
      invariant heap.buffers == old(heap.buffers)
      invariant OwnedBeyond(old(heap.live), words, heap.live)
      invariant Append(Words(Memory.Texts(words)), Tokens(line[p..])) == Tokens(line)
      decreases |line| - p
    {
      ghost var start := p;
      p := SkipWhitespace(line, p);
      TokensSkip(line[start..], line[p..]);
      if p == |line| {
        break;
      }
      var failed, arg, next := ParseArg(heap, line, p);
      if failed {
        FreeAll(heap, raw, rawCount, old(heap.live), words);
        return true, raw, 0, [];
      }
      TextsOfPush(words, arg);
      AppendCons(Memory.Texts(words), arg.text, Tokens(line[next..]));
      OwnOne(old(heap.live), words, arg, heap.live - {arg}, heap.live);
      raw := Push(raw, words, rawCount, arg, 16);
      words, rawCount, p := words + [arg], rawCount + 1, next;
    }
    TokensOfBlank("");
    assert line[p..] == "";
    AppendNoWords(Memory.Texts(words));
    return false, raw, rawCount, words;
  }

  lemma PrependNoWords(t: Tokenized)
    ensures Append(Words(Memory.Texts([])), t) == t
  {
    if t.Words? {
      assert [] + t.words == t.words;
    }
  }

  lemma AppendNoWords(a: seq<string>)
    ensures Append(Words(a), Words([])) == Words(a)
  {
    assert a + [] == a;
  }

  lemma AppendCons(a: seq<string>, w: string, t: Tokenized)
    ensures Append(Words(a), Cons(w, t)) == Append(Words(a + [w]), t)
  {
    if t.Words? {
      assert a + ([w] + t.words) == (a + [w]) + t.words;
    }
  }

  lemma TokensSkip(s: string, t: string)
    requires t == SkipSpace(s)
    ensures Tokens(s) ==
      if t == "" then Words([])
      else if Word(t, NO_QUOTE, false).Unclosed? then Failed
      else Cons(Word(t, NO_QUOTE, false).text, Tokens(Word(t, NO_QUOTE, false).rest))
  {
  }

  lemma OwnOne(base: set<Block>, a: seq<Block>, b: Block, mid: set<Block>, live: set<Block>)
    requires OwnedBeyond(base, a, mid) && live == mid + {b} && b !in mid
    ensures OwnedBeyond(base, a + [b], live)
  {
    TextsOfPush(a, b);
    assert b !in BlockSet(a);
  }

  /** Free every string of an array. */
  method FreeAll(heap: Heap, raw: array<Block?>, rawCount: nat, ghost base: set<Block>, ghost words: seq<Block>)
    requires rawCount == |words| && Holds(raw, words) && OwnedBeyond(base, words, heap.live)
    modifies heap`live
    ensures OwnedBeyond(base, [], heap.live)
  {
    for i := 0 to rawCount
      invariant Holds(raw, words) && heap.live == base + BlockSet(words[i..])
    {
      heap.Free(raw[i]);
    }
  }

  /**
    args_parse. `out` are the strings of argv; `leaked` are the strings that nothing refers to any
    more and nobody freed: exactly the raw words that the plain wildcard branch replaced.
   */
  method ArgsParse(heap: Heap, env: Env, line: string)
    returns (rc: int, argc: nat, argv: array?<Block?>, ghost out: seq<Block>, ghost leaked: seq<Block>)
    modifies heap`live, heap`buffers
    ensures heap.buffers == old(heap.buffers)
    ensures rc == if Arguments(line, env).Failed? then -1 else 0
    ensures rc == -1 ==> argc == 0 && argv == null && leaked == out == []
    ensures rc == 0 ==>
      && argv != null && fresh(argv) && argc == |out| < argv.Length
      && Holds(argv, out) && argv[argc] == null
      && Memory.Texts(out) == Arguments(line, env).words
      && Memory.Texts(leaked) == LeakedWords(Tokens(line).words, env)
    ensures OwnedBeyond(old(heap.live), leaked + out, heap.live)
  {
    hide OwnedBeyond, Tokens, Memory.Texts, ExpandAll, LeakedWords, ExpandWord, Leaks;
    var args, count := new Block?[16](_ => null), 0;
    out, leaked := [], [];
    var error, raw, rawCount, words := ParseWords(heap, line);
    assert [] + [] == words[0..0];
    if error {
      assert [] + [] == words;
      return -1, 0, null, [], [];
    }
    ExpandNone(env);
    OwnNothing(heap.live);
    ghost var texts := Memory.Texts(words);
    assert texts[..0] == [] && leaked + words[0..] + out == words;
    for i := 0 to rawCount
      invariant fresh(args) && args != raw && Holds(raw, words) && count == |out| && Holds(args, out)
      invariant Memory.Texts(out) == ExpandAll(texts[..i], env)
      invariant Memory.Texts(leaked) == LeakedWords(texts[..i], env)
      invariant heap.buffers == old(heap.buffers)
      invariant OwnedBeyond(old(heap.live), leaked + words[i..] + out, heap.live)
    {
      var arg := raw[i];
      ElementAt(words, i);
      ElementAt(texts, i);
      ExpandAllPush(texts[..i], arg.text, env);
      args, count, out, leaked :=
        ExpandInto(heap, env, arg, args, count, old(heap.live), leaked, words[i + 1..], out);
    }
    assert texts[..rawCount] == texts;
    assert leaked + words[rawCount..] + out == leaked + out;
    if count >= args.Length {
      args := Realloc(args, args.Length + 1, out);
    }
    args[count] := null;
    return 0, count, args, out, leaked;
  }

  /** args_parse_to_list: a list of copies; argv is freed again, but not what args_parse leaked. */
  method ArgsParseToList(heap: Heap, env: Env, line: string)
    returns (list: array?<Block?>, count: nat, ghost copies: seq<Block>, ghost leaked: seq<Block>)
    modifies heap`live, heap`buffers
    ensures heap.buffers == old(heap.buffers)
    ensures list == null <==> Arguments(line, env).Failed?
    ensures list == null ==> copies == leaked == []
    ensures list != null ==>
      && fresh(list) && count == |copies| && Holds(list, copies)
      && Memory.Texts(copies) == Arguments(line, env).words
      && Memory.Texts(leaked) == LeakedWords(Tokens(line).words, env)
    ensures OwnedBeyond(old(heap.live), leaked + copies, heap.live)
  {
    hide OwnedBeyond, Arguments, Memory.Texts, LeakedWords, Tokens;
    var rc, argc, argv, out, l := ArgsParse(heap, env, line);
    leaked := l;
    if rc != 0 {
      return null, 0, [], [];
    }
    list, copies := CopyAndFree(heap, argv, argc, old(heap.live), leaked, out);
    count := argc;
  }

  /** The list of copies, lines 837-853. */
  method CopyAndFree(heap: Heap, argv: array<Block?>, argc: nat, ghost base: set<Block>,
                     ghost leaked: seq<Block>, ghost out: seq<Block>)
    returns (list: array<Block?>, ghost copies: seq<Block>)
    requires argc == |out| && Holds(argv, out) && OwnedBeyond(base, leaked + out, heap.live)
    modifies heap`live
    ensures fresh(list) && |copies| == argc && Holds(list, copies) && Memory.Texts(copies) == Memory.Texts(out)
    ensures OwnedBeyond(base, leaked + copies, heap.live)
  {
    hide OwnedBeyond, Memory.Texts, Distinct, BlockSet;
    ghost var base' := base + BlockSet(leaked);
    OwnExcept(base, leaked, out, heap.live);
    OwnMore(base', out, heap.live);
    list, copies := DupAll(heap, argv, argc, base', out);
    FreeList(heap, argv, argc, base', out, copies);
    OwnJoin(base, leaked, base', copies, heap.live);
  }

  /** The loop body of the second pass, for one raw word. */
  method ExpandInto(heap: Heap, env: Env, arg: Block, args: array<Block?>, count: nat,
                    ghost base: set<Block>, ghost leaked: seq<Block>, ghost after: seq<Block>, ghost out: seq<Block>)
    returns (args': array<Block?>, count': nat, ghost out': seq<Block>, ghost leaked': seq<Block>)
    requires count == |out| && Holds(args, out)
    requires OwnedBeyond(base, leaked + ([arg] + after) + out, heap.live)
    modifies heap`live, args
    ensures (args' == args || fresh(args')) && count' == |out'| && Holds(args', out')
    ensures Memory.Texts(out') == Memory.Texts(out) + ExpandWord(arg.text, env)
    ensures Memory.Texts(leaked') == Memory.Texts(leaked) + if Leaks(arg.text, env) then [arg.text] else []
    ensures OwnedBeyond(base, leaked' + after + out', heap.live)
  {
    hide OwnedBeyond, Memory.Texts, ExpandEach, ExpandWildcards, Replaced, BraceExpansions;
    ghost var word := leaked + [arg] + after;
    assert leaked + ([arg] + after) + out == word + out;
    leaked' := leaked;
    if '{' in arg.text {
      var expansions, braceCount, blocks := ExpandBrace(heap, arg.text);
      OwnJoin(base, word + out, old(heap.live), blocks, heap.live);
      if braceCount > 0 {
        args', count', out' :=
          BracesInto(heap, env, arg, expansions, braceCount, args, count, base, leaked, after, blocks, out);
        return;
      }
      OwnNone(old(heap.live), blocks, heap.live);
    } else {
      NoBraceNoExpansion(arg.text);
    }
    ghost var was := heap.live;
    var replaced;
    args', count', replaced, out' := WildcardInto(heap, env, arg, args, count, base, word, out);
    if replaced {
      TextsOfPush(leaked, arg);
      leaked' := leaked + [arg];
      assert word + out' == leaked' + after + out';
    } else {
      assert word + out == leaked + [arg] + (after + out);
      OwnMove(base, leaked, arg, after + out, heap.live);
      assert leaked + (after + out) + [arg] == leaked' + after + out';
    }
  }

  lemma NoBraceNoExpansion(w: string)
    requires '{' !in w
    ensures BraceExpansions(w) == []
  {
    IndexOfAbsent(w, '{');
  }
}
