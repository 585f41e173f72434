/** Brace expansion: expand_brace in src/bas/cli/args.c. */
module Braces {
  import opened CText
  import opened Memory

  /** The item scanner's quote state after one character that does not end the item. */
  function NextQuote(quote: char, c: char): char {
    if quote == NO_QUOTE then (if IsQuote(c) then c else NO_QUOTE)
    else if c == quote then NO_QUOTE else quote
  }

  /** Index of the first comma outside quotes, or |s|. */
  function ItemEnd(s: string, quote: char): (e: nat)
    ensures e <= |s|
    decreases s
  {
    if s == "" || (quote == NO_QUOTE && s[0] == ',') then 0
    else 1 + ItemEnd(s[1..], NextQuote(quote, s[0]))
  }

  /** The items of a brace's content, in the order the scanner finds them. */
  function Items(content: string): seq<string>
    decreases |content|
  {
    var t := SkipSpace(content);
    if t == "" then []
    else
      var e := ItemEnd(t, NO_QUOTE);
      [t[..e]] + if e < |t| then Items(t[e + 1..]) else []
  }

  function Around(prefix: string, items: seq<string>, suffix: string): seq<string> {
    seq(|items|, i requires 0 <= i < |items| => prefix + items[i] + suffix)
  }

  datatype BraceParts = NoBrace | Brace(prefix: string, content: string, suffix: string)

  /** A word around its first '{' and the first '}' after it. */
  function SplitBrace(w: string): BraceParts {
    var open := IndexOf(w, '{');
    var tail := w[open..];
    var length := IndexOf(tail, '}');
    if open == |w| || length == |tail| then NoBrace
    else Brace(w[..open], tail[1..length], tail[length + 1..])
  }

  /** What a word expands to; [] when it is to be left alone. */
  function BraceExpansions(w: string): seq<string> {
    match SplitBrace(w)
    case NoBrace => []
    case Brace(prefix, content, suffix) => Around(prefix, Items(content), suffix)
  }

  // ---------------------------------------------------------------------------
  // Reference definition: cut at every top-level comma, strip, drop a blank last part
  // ---------------------------------------------------------------------------

  /** `s` cut at every comma outside quotes. */
  function Segments(s: string, quote: char): (r: seq<string>)
    ensures r != []
    decreases s
  {
    if s == "" then [""]
    else
      if quote == NO_QUOTE && s[0] == ',' then [""] + Segments(s[1..], NO_QUOTE)
      else
        var r := Segments(s[1..], NextQuote(quote, s[0]));
        [[s[0]] + r[0]] + r[1..]
  }

  function StripAll(parts: seq<string>): seq<string> {
    seq(|parts|, i requires 0 <= i < |parts| => SkipSpace(parts[i]))
  }

  function DropBlankLast(parts: seq<string>): seq<string>
    requires parts != []
  {
    if parts[|parts| - 1] == "" then parts[..|parts| - 1] else parts
  }

  lemma {:induction false} SegmentsAtEnd(s: string, quote: char)
    ensures var e := ItemEnd(s, quote);
      Segments(s, quote) == [s[..e]] + if e < |s| then Segments(s[e + 1..], NO_QUOTE) else []
    decreases s
  {
    if s != "" && !(quote == NO_QUOTE && s[0] == ',') {
      var q := NextQuote(quote, s[0]);
      SegmentsAtEnd(s[1..], q);
      var e := ItemEnd(s[1..], q);
      assert s[..e + 1] == [s[0]] + s[1..][..e];
      if e < |s[1..]| {
        assert s[1..][e + 1..] == s[e + 2..];
      }
    }
  }

  lemma {:induction false} ItemEndSkipsBlanks(s: string)
    ensures var t := SkipSpace(s); ItemEnd(s, NO_QUOTE) == |s| - |t| + ItemEnd(t, NO_QUOTE)
    decreases s
  {
    if s != "" && IsSpace(s[0]) {
      ItemEndSkipsBlanks(s[1..]);
      SkipSpaceStep(s);
    }
  }

  lemma SkipSpaceStep(s: string)
    requires s != "" && IsSpace(s[0])
    ensures SkipSpace(s) == SkipSpace(s[1..])
  {
    assert SpacePrefix(s) == 1 + SpacePrefix(s[1..]);
  }

  /** Stripping a segment is the segment of the stripped text. */
  lemma SkipSpacePrefix(s: string, e: nat)
    requires e <= |s| && |s| - |SkipSpace(s)| <= e
    ensures SkipSpace(s[..e]) == SkipSpace(s)[..e - (|s| - |SkipSpace(s)|)]
  {
    var n := SpacePrefix(s);
    var t := s[..e];
    assert forall k :: 0 <= k < n ==> t[k] == s[k];
    assert n < e ==> t[n] == s[n];
    assert SpacePrefix(t) == n;
    assert s[..e][n..] == s[n..][..e - n];
  }

  lemma StripCons(first: string, rest: seq<string>)
    ensures StripAll([first] + rest) == [SkipSpace(first)] + StripAll(rest)
  {
    hide SkipSpace;
    var all := [first] + rest;
    assert forall i :: 0 <= i < |rest| ==> all[i + 1] == rest[i];
  }

  lemma DropCons(first: string, rest: seq<string>)
    requires rest != []
    ensures DropBlankLast([first] + rest) == [first] + DropBlankLast(rest)
  {
  }

  lemma ItemsStep(content: string)
    ensures Items(content) ==
      var t := SkipSpace(content);
      var e := ItemEnd(t, NO_QUOTE);
      if t == "" then [] else [t[..e]] + if e < |t| then Items(t[e + 1..]) else []
  {
    hide SkipSpace, ItemEnd;
  }

  /** The scanner's items are the stripped top-level segments, without a blank last one. */
  lemma {:induction false} ItemsAreSegments(content: string)
    ensures Items(content) == DropBlankLast(StripAll(Segments(content, NO_QUOTE)))
    decreases |content|
  {
    hide SkipSpace, Segments, ItemEnd, Items, StripAll;
    var t := SkipSpace(content);
    var e := ItemEnd(content, NO_QUOTE);
    var n := |content| - |t|;
    SegmentsAtEnd(content, NO_QUOTE);
    ItemEndSkipsBlanks(content);
    SkipSpacePrefix(content, e);
    ItemsStep(content);
    if e < |content| {
      var rest := content[e + 1..];
      assert t[e - n + 1..] == rest;
      StripCons(content[..e], Segments(rest, NO_QUOTE));
      StripOne(Segments(rest, NO_QUOTE));
      DropCons(SkipSpace(content[..e]), StripAll(Segments(rest, NO_QUOTE)));
      ItemsAreSegments(rest);
    } else {
      assert content[..e] == content;
      assert t[..e - n] == t;
      assert Segments(content, NO_QUOTE) == [content];
      StripOne([content]);
    }
  }

  lemma StripOne(parts: seq<string>)
    requires parts != []
    ensures StripAll(parts) != []
    ensures |parts| == 1 ==> StripAll(parts) == [SkipSpace(parts[0])]
  {
  }

  // ---------------------------------------------------------------------------
  // Which words expand
  // ---------------------------------------------------------------------------

  /** The first '{' of a word is at i, and the first '}' after it at j. */
  predicate IsPair(w: string, i: nat, j: nat) {
    && i < j < |w| && w[i] == '{' && w[j] == '}'
    && '{' !in w[..i] && '}' !in w[i..j]
  }

  /** A '{', a later '}', and something other than white space between the first such pair. */
  ghost predicate Expandable(w: string) {
    exists i: nat, j: nat :: IsPair(w, i, j) && !AllSpace(w[i + 1..j])
  }

  lemma PairSplits(w: string, i: nat, j: nat)
    requires IsPair(w, i, j)
    ensures SplitBrace(w) == Brace(w[..i], w[i + 1..j], w[j + 1..])
  {
    assert '{' !in w[..i] && '}' !in w[i..j];
    var tail := w[i..];
    assert forall k :: 0 <= k < i ==> w[k] == w[..i][k];
    IndexOfUnique(w, '{', i);
    assert forall k :: 0 <= k < j - i ==> tail[k] == w[i..j][k];
    IndexOfUnique(tail, '}', j - i);
    assert tail[1..j - i] == w[i + 1..j] && tail[j - i + 1..] == w[j + 1..];
  }

  lemma SplitHasPair(w: string)
    requires SplitBrace(w).Brace?
    ensures var i := IndexOf(w, '{'); IsPair(w, i, i + IndexOf(w[i..], '}'))
  {
    var i := IndexOf(w, '{');
    hide IndexOf;
    NotBefore(w, '{');
    NotBefore(w[i..], '}');
    assert w[i..][0] == '{' && w[i..i + IndexOf(w[i..], '}')] == w[i..][..IndexOf(w[i..], '}')];
  }

  lemma NotBefore(s: string, c: char)
    ensures c !in s[..IndexOf(s, c)]
  {
  }

  lemma ItemsExist(content: string)
    ensures Items(content) == [] <==> AllSpace(content)
  {
    var t := SkipSpace(content);
    assert t != "" ==> t[0] == content[|content| - |t|];
    assert t == "" ==> content[..|content|] == content;
  }

  /** A word is left alone exactly when it has no '{', no later '}' or only white space between them. */
  lemma ExpandsIff(w: string)
    ensures BraceExpansions(w) != [] <==> Expandable(w)
  {
    hide SplitBrace, Items, AllSpace;
    if SplitBrace(w).Brace? {
      SplitHasPair(w);
    }
    forall i: nat, j: nat | IsPair(w, i, j)
      ensures BraceExpansions(w) != [] <==> !AllSpace(w[i + 1..j])
    {
      PairSplits(w, i, j);
      ItemsExist(w[i + 1..j]);
    }
  }

  /**
    What it expands to, exactly: what is between the braces is cut at commas outside quotes, the
    parts are stripped of leading white space, a blank last one is dropped, and each of the others
    stands between what is before and what is after the braces.
   */
  lemma ExpansionsAre(w: string, i: nat, j: nat)
    requires IsPair(w, i, j)
    ensures BraceExpansions(w) ==
      Around(w[..i], DropBlankLast(StripAll(Segments(w[i + 1..j], NO_QUOTE))), w[j + 1..])
  {
    hide SplitBrace, Items, Around, StripAll, Segments;
    PairSplits(w, i, j);
    ItemsAreSegments(w[i + 1..j]);
  }

  lemma FirstItemFits(content: string)
    requires Items(content) != []
    ensures |Items(content)[0]| <= |content|
  {
  }

  /** Dropping both braces makes a single expansion shorter than its word. */
  lemma SingleExpansionIsShorter(w: string)
    requires |BraceExpansions(w)| == 1
    ensures |BraceExpansions(w)[0]| < |w|
  {
    hide Items;
    FirstItemFits(SplitBrace(w).content);
  }

  // ---------------------------------------------------------------------------
  // Round trip
  // ---------------------------------------------------------------------------

  function JoinComma(items: seq<string>): string
    requires items != []
  {
    if |items| == 1 then items[0] else items[0] + "," + JoinComma(items[1..])
  }

  /** Quote state after a whole item. */
  function QuoteAfter(quote: char, s: string): char
    decreases s
  {
    if s == "" then quote else QuoteAfter(NextQuote(quote, s[0]), s[1..])
  }

  /** No comma outside quotes, no '}', no leading blank, quotes closed. */
  predicate PlainItem(item: string) {
    && ItemEnd(item, NO_QUOTE) == |item|
    && QuoteAfter(NO_QUOTE, item) == NO_QUOTE
    && '}' !in item
    && (item == "" || !IsSpace(item[0]))
  }

  lemma {:induction false} ItemEndBeforeComma(item: string, t: string, quote: char)
    requires ItemEnd(item, quote) == |item| && QuoteAfter(quote, item) == NO_QUOTE
    requires t == "" || t[0] == ','
    ensures ItemEnd(item + t, quote) == |item|
    decreases item
  {
    if item == "" {
      assert item + t == t;
    } else {
      assert (item + t)[0] == item[0] && (item + t)[1..] == item[1..] + t;
      ItemEndBeforeComma(item[1..], t, NextQuote(quote, item[0]));
    }
  }

  lemma FirstItem(item: string, t: string)
    requires PlainItem(item) && item + t != ""
    requires t == "" || t[0] == ','
    ensures Items(item + t) == [item] + if t == "" then [] else Items(t[1..])
  {
    hide Items, ItemEnd, SkipSpace;
    var all := item + t;
    ItemEndBeforeComma(item, t, NO_QUOTE);
    SkipSpaceIsUnique("", all);
    assert "" + all == all;
    ItemsStep(all);
    assert all[..|item|] == item;
    assert t != "" ==> all[|item| + 1..] == t[1..];
  }

  lemma {:induction false} ItemsRoundTrip(items: seq<string>)
    requires items != [] && items[|items| - 1] != ""
    requires forall i :: 0 <= i < |items| ==> PlainItem(items[i])
    ensures Items(JoinComma(items)) == items
    ensures '}' !in JoinComma(items)
    decreases |items|
  {
    hide Items, ItemEnd, QuoteAfter;
    var t := if |items| == 1 then "" else "," + JoinComma(items[1..]);
    assert JoinComma(items) == items[0] + t;
    FirstItem(items[0], t);
    if |items| > 1 {
      assert t[1..] == JoinComma(items[1..]);
      ItemsRoundTrip(items[1..]);
    }
    assert items == [items[0]] + items[1..];
  }

  lemma SplitBraceOf(prefix: string, content: string, suffix: string)
    requires '{' !in prefix && '}' !in content
    ensures SplitBrace(prefix + ("{" + content + "}" + suffix)) == Brace(prefix, content, suffix)
  {
    var tail := "{" + content + "}" + suffix;
    var w := prefix + tail;
    assert forall k :: 0 <= k < |prefix| ==> w[k] == prefix[k];
    assert w[|prefix|] == '{';
    IndexOfUnique(w, '{', |prefix|);
    assert w[|prefix|..] == tail && w[..|prefix|] == prefix;
    assert forall k :: 0 <= k < |content| ==> tail[k + 1] == content[k];
    assert tail[|content| + 1] == '}';
    IndexOfUnique(tail, '}', |content| + 1);
    assert tail[1..|content| + 1] == content && tail[|content| + 2..] == suffix;
  }

  /** prefix{a,b,c}suffix expands to prefix-a-suffix, prefix-b-suffix, prefix-c-suffix, in order. */
  lemma {:induction false} BraceRoundTrip(prefix: string, items: seq<string>, suffix: string)
    requires '{' !in prefix
    requires items != [] && items[|items| - 1] != ""
    requires forall i :: 0 <= i < |items| ==> PlainItem(items[i])
    ensures BraceExpansions(prefix + ("{" + JoinComma(items) + "}" + suffix)) == Around(prefix, items, suffix)
  {
    hide Items, PlainItem, SplitBrace, Around, JoinComma;
    ItemsRoundTrip(items);
    SplitBraceOf(prefix, JoinComma(items), suffix);
  }

  // ---------------------------------------------------------------------------
  // The code
  // ---------------------------------------------------------------------------

  /** The inner item loop. */
  method FindItemEnd(content: string, start: nat) returns (itemEnd: nat)
    requires start <= |content|
    ensures itemEnd == start + ItemEnd(content[start..], NO_QUOTE)
  {
    itemEnd := start;
    var quoteChar := NO_QUOTE;
    while itemEnd < |content|
      invariant start <= itemEnd <= |content|
      invariant start + ItemEnd(content[start..], NO_QUOTE) == itemEnd + ItemEnd(content[itemEnd..], quoteChar)
    {
      var c := content[itemEnd];
      assert content[itemEnd..][1..] == content[itemEnd + 1..];
      if quoteChar == NO_QUOTE && IsQuote(c) {
        quoteChar := c;
      } else if quoteChar != NO_QUOTE && c == quoteChar {
        quoteChar := NO_QUOTE;
      } else if quoteChar == NO_QUOTE && c == ',' {
        return;
      }
      itemEnd := itemEnd + 1;
    }
  }

  lemma AroundCons(prefix: string, item: string, items: seq<string>, suffix: string)
    ensures Around(prefix, [item] + items, suffix) == [prefix + item + suffix] + Around(prefix, items, suffix)
  {
    var all := [item] + items;
    assert forall i :: 0 <= i < |items| ==> all[i + 1] == items[i];
  }

  /** The expansions still to come, seen from position p of the content. */
  function ToCome(prefix: string, content: string, p: nat, suffix: string): seq<string>
    requires p <= |content|
  {
    Around(prefix, Items(content[p..]), suffix)
  }

  /** expand_brace: fresh strings, one per item, in an array that starts at 8 slots and doubles. */
  method ExpandBrace(heap: Heap, pattern: string)
    returns (expansions: array<Block?>, count: nat, ghost blocks: seq<Block>)
    modifies heap`live
    ensures fresh(expansions) && count == |blocks| && Holds(expansions, blocks)
    ensures Texts(blocks) == BraceExpansions(pattern)
    ensures OwnedBeyond(old(heap.live), blocks, heap.live)
  {
    hide Items, Around, OwnedBeyond, Texts;
    var parts := SplitBrace(pattern);
    if parts.NoBrace? {
      OwnNothing(heap.live);
      expansions, count, blocks := new Block?[0], 0, [];
      return;
    }
    assert parts.content[0..] == parts.content;
    expansions, count, blocks := ExpandContent(heap, parts.prefix, parts.content, parts.suffix);
  }

  /** The loop over the items, lines 84-163. */
  method ExpandContent(heap: Heap, prefix: string, content: string, suffix: string)
    returns (expansions: array<Block?>, count: nat, ghost blocks: seq<Block>)
    modifies heap`live
    ensures fresh(expansions) && count == |blocks| && Holds(expansions, blocks)
    ensures Texts(blocks) == ToCome(prefix, content, 0, suffix)
    ensures OwnedBeyond(old(heap.live), blocks, heap.live)
  {
    hide ToCome, SkipSpace, ItemEnd, OwnedBeyond, Texts, Holds;
    expansions, count, blocks := NoStrings(heap);
    var p := 0;
    while true
      invariant p <= |content| && fresh(expansions) && count == |blocks| && Holds(expansions, blocks)
      invariant OwnedBeyond(old(heap.live), blocks, heap.live)
      invariant Texts(blocks) + ToCome(prefix, content, p, suffix) == ToCome(prefix, content, 0, suffix)
      decreases |content| - p
    {
      NextToCome(prefix, content, p, suffix);
      p := |content| - |SkipSpace(content[p..])|;
      if p == |content| {
        break;
      }
      var itemEnd := FindItemEnd(content, p);
      var text := prefix + content[p..itemEnd] + suffix;
      ghost var before := Texts(blocks);
      expansions, count, blocks := PushCopy(heap, expansions, count, text, 8, old(heap.live), blocks);
      if itemEnd == |content| {
        break;
      }
      p := itemEnd + 1;
      Regrouped(before, text, ToCome(prefix, content, p, suffix));
    }
  }

  method NoStrings(heap: Heap) returns (expansions: array<Block?>, count: nat, ghost blocks: seq<Block>)
    ensures fresh(expansions) && count == 0 && blocks == [] && Holds(expansions, blocks) && Texts(blocks) == []
    ensures OwnedBeyond(heap.live, blocks, heap.live)
  {
    OwnNothing(heap.live);
    expansions, count, blocks := new Block?[0], 0, [];
  }

  lemma Regrouped(a: seq<string>, x: string, b: seq<string>)
    ensures a + [x] + b == a + ([x] + b)
  {
  }

  lemma NextToCome(prefix: string, content: string, p: nat, suffix: string)
    requires p <= |content|
    ensures var start := |content| - |SkipSpace(content[p..])|;
      var itemEnd := start + ItemEnd(content[start..], NO_QUOTE);
      && p <= start <= itemEnd <= |content|
      && ToCome(prefix, content, p, suffix) ==
        if start == |content| then []
        else if itemEnd == |content| then [prefix + content[start..itemEnd] + suffix]
        else [prefix + content[start..itemEnd] + suffix] + ToCome(prefix, content, itemEnd + 1, suffix)
  {
    hide Items, ItemEnd, SkipSpace;
    var t := SkipSpace(content[p..]);
    var start := |content| - |t|;
    assert content[start..] == t;
    ItemsStep(content[p..]);
    var e := ItemEnd(t, NO_QUOTE);
    if t != "" {
      hide Around;
      SliceOfTail(content, start, e);
      if e < |t| {
        AroundCons(prefix, t[..e], Items(t[e + 1..]), suffix);
      } else {
        AroundCons(prefix, t[..e], [], suffix);
        AroundNothing(prefix, suffix);
      }
    }
  }

  lemma SliceOfTail(s: string, start: nat, e: nat)
    requires start + e <= |s|
    ensures s[start..][..e] == s[start..start + e]
    ensures start + e < |s| ==> s[start..][e + 1..] == s[start + e + 1..]
  {
  }

  lemma AroundNothing(prefix: string, suffix: string)
    ensures Around(prefix, [], suffix) == []
  {
  }
}
