/**
  The word splitter of src/bas/cli/args.c (parse_arg and the first pass of args_parse):
  quotes, backslash escapes and white space.
 */
module Tokenizer {
  import opened CText

  datatype WordResult = Unclosed | Done(text: string, rest: string)

  function Prepend(c: char, r: WordResult): WordResult {
    match r
    case Unclosed => Unclosed
    case Done(text, rest) => Done([c] + text, rest)
  }

  /** One word, read in state (quote, escaped); what is left starts at the blank that ended it. */
  function Word(s: string, quote: char, escaped: bool): (r: WordResult)
    ensures r.Done? ==> |r.rest| <= |s| && (r.rest == "" || IsSpace(r.rest[0]))
    ensures r.Done? && s != "" && (quote != NO_QUOTE || escaped || !IsSpace(s[0])) ==> |r.rest| < |s|
  {
    if s == "" then
      if quote != NO_QUOTE then Unclosed else Done("", "")
    else if escaped then
      Prepend(s[0], Word(s[1..], quote, false))
    else if s[0] == '\\' then
      Word(s[1..], quote, true)
    else if quote != NO_QUOTE then
      if s[0] == quote then Word(s[1..], NO_QUOTE, false) else Prepend(s[0], Word(s[1..], quote, false))
    else if IsQuote(s[0]) then
      Word(s[1..], s[0], false)
    else if IsSpace(s[0]) then
      Done("", s)
    else
      Prepend(s[0], Word(s[1..], NO_QUOTE, false))
  }

  datatype Tokenized = Failed | Words(words: seq<string>)

  function Cons(w: string, r: Tokenized): Tokenized {
    match r
    case Failed => Failed
    case Words(ws) => Words([w] + ws)
  }

  /** All words of a line: the first pass of args_parse. */
  function Tokens(line: string): Tokenized
    decreases |line|
  {
    var s := SkipSpace(line);
    if s == "" then Words([])
    else
      match Word(s, NO_QUOTE, false)
      case Unclosed => Failed
      case Done(text, rest) => Cons(text, Tokens(rest))
  }

  // ---------------------------------------------------------------------------
  // When splitting fails
  // ---------------------------------------------------------------------------

  datatype Scan = Scan(quote: char, escaped: bool)

  const START := Scan(NO_QUOTE, false)

  /** Quoting state after one character, blind to where words begin and end. */
  function ScanChar(st: Scan, c: char): Scan {
    if st.escaped then Scan(st.quote, false)
    else if c == '\\' then Scan(st.quote, true)
    else if st.quote != NO_QUOTE then Scan(if c == st.quote then NO_QUOTE else st.quote, false)
    else Scan(if IsQuote(c) then c else NO_QUOTE, false)
  }

  function ScanText(st: Scan, s: string): Scan
    decreases s
  {
    if s == "" then st else ScanText(ScanChar(st, s[0]), s[1..])
  }

  predicate EndsInsideQuote(line: string) {
    ScanText(START, line).quote != NO_QUOTE
  }

  /** Neither inside a quote nor just after an escaping backslash. */
  predicate EndsClosed(line: string) {
    ScanText(START, line) == START
  }

  lemma {:induction false} ScanAppend(st: Scan, a: string, b: string)
    ensures ScanText(st, a + b) == ScanText(ScanText(st, a), b)
    decreases a
  {
    if a == "" {
      assert a + b == b;
    } else {
      assert (a + b)[1..] == a[1..] + b;
      ScanAppend(ScanChar(st, a[0]), a[1..], b);
    }
  }

  lemma {:induction false} ScanBlank(s: string)
    requires AllSpace(s)
    ensures ScanText(START, s) == START
  {
    if s != "" {
      assert forall i :: 0 <= i < |s[1..]| ==> s[1..][i] == s[i + 1];
      ScanBlank(s[1..]);
    }
  }

  /** A word leaves the scanner either mid-quote, at the end of the line, or back in the start state. */
  lemma {:induction false} WordScan(s: string, quote: char, escaped: bool)
    ensures Word(s, quote, escaped).Unclosed? ==> ScanText(Scan(quote, escaped), s).quote != NO_QUOTE
    ensures var r := Word(s, quote, escaped);
      r.Done? ==>
        if r.rest == "" then ScanText(Scan(quote, escaped), s).quote == NO_QUOTE
        else ScanText(Scan(quote, escaped), s) == ScanText(START, r.rest)
  {
    if s != "" && !(quote == NO_QUOTE && !escaped && IsSpace(s[0])) {
      var st := ScanChar(Scan(quote, escaped), s[0]);
      WordScan(s[1..], st.quote, st.escaped);
    }
  }

  lemma SkipScan(line: string)
    ensures ScanText(START, line) == ScanText(START, SkipSpace(line))
  {
    var s := SkipSpace(line);
    var blank := line[..|line| - |s|];
    assert line == blank + s;
    ScanBlank(blank);
    ScanAppend(START, blank, s);
  }

  /** Splitting fails exactly when the line ends inside an open quote. */
  lemma {:induction false} TokensFailIff(line: string)
    ensures Tokens(line).Failed? <==> EndsInsideQuote(line)
    decreases |line|
  {
    SkipScan(line);
    var s := SkipSpace(line);
    if s != "" {
      WordScan(s, NO_QUOTE, false);
      var r := Word(s, NO_QUOTE, false);
      if r.Done? {
        TokensFailIff(r.rest);
      }
    }
  }

  // ---------------------------------------------------------------------------
  // Splitting is a homomorphism at closed boundaries
  // ---------------------------------------------------------------------------

  predicate StartsBlank(t: string) {
    t == "" || IsSpace(t[0])
  }

  lemma {:induction false} WordConcat(a: string, t: string, quote: char, escaped: bool)
    requires StartsBlank(t)
    requires ScanText(Scan(quote, escaped), a) == START
    ensures var r := Word(a, quote, escaped);
      r.Done? && Word(a + t, quote, escaped) == Done(r.text, r.rest + t)
  {
    if a == "" {
      assert a + t == t;
    } else {
      assert (a + t)[0] == a[0] && (a + t)[1..] == a[1..] + t;
      if !(quote == NO_QUOTE && !escaped && IsSpace(a[0])) {
        var st := ScanChar(Scan(quote, escaped), a[0]);
        WordConcat(a[1..], t, st.quote, st.escaped);
      }
    }
  }

  function Append(a: Tokenized, b: Tokenized): Tokenized {
    match (a, b)
    case (Words(x), Words(y)) => Words(x + y)
    case _ => Failed
  }

  /** One turn of the loop over words. */
  lemma TokensStep(blank: string, s: string)
    requires AllSpace(blank) && (s == "" || !IsSpace(s[0]))
    ensures Tokens(blank + s) ==
      if s == "" then Words([])
      else if Word(s, NO_QUOTE, false).Unclosed? then Failed
      else Cons(Word(s, NO_QUOTE, false).text, Tokens(Word(s, NO_QUOTE, false).rest))
  {
    SkipSpaceIsUnique(blank, s);
  }

  lemma TokensOfBlank(blank: string)
    requires AllSpace(blank)
    ensures Tokens(blank) == Words([])
  {
    TokensStep(blank, "");
    assert blank + "" == blank;
  }

  lemma ConsAppend(w: string, a: Tokenized, b: Tokenized)
    ensures Cons(w, Append(a, b)) == Append(Cons(w, a), b)
    ensures Append(Words([]), b) == b
  {
    if a.Words? && b.Words? {
      assert [w] + (a.words + b.words) == ([w] + a.words) + b.words;
    }
  }

  /** The words of a closed text followed by a blank are its own words and then those of the rest. */
  lemma {:induction false} TokensConcat(a: string, b: string)
    requires EndsClosed(a) && StartsBlank(b)
    ensures Tokens(a + b) == Append(Tokens(a), Tokens(b))
    decreases |a|
  {
    hide Tokens, Word;
    var s := SkipSpace(a);
    var blank := a[..|a| - |s|];
    assert a == blank + s;
    SkipScan(a);
    TokensStep(blank, s);
    if s == "" {
      var u := SkipSpace(b);
      var blank' := b[..|b| - |u|];
      assert b == blank' + u && a + b == (blank + blank') + u;
      TokensStep(blank', u);
      TokensStep(blank + blank', u);
      ConsAppend("", Words([]), Tokens(b));
    } else {
      assert a + b == blank + (s + b);
      TokensStep(blank, s + b);
      WordConcat(s, b, NO_QUOTE, false);
      WordScan(s, NO_QUOTE, false);
      var r := Word(s, NO_QUOTE, false);
      TokensConcat(r.rest, b);
      ConsAppend(r.text, Tokens(r.rest), Tokens(b));
    }
  }

  // ---------------------------------------------------------------------------
  // Round trip: every way of writing a word
  // ---------------------------------------------------------------------------

  /** A stretch of a word, as typed: as is, in either kind of quotes, or escaped throughout. */
  /** A backslash gives the character after it, whatever it is, also in quotes; at the end of a line it is dropped. */
  lemma AnyEscape(quote: char, c: char, t: string)
    ensures Word(['\\', c] + t, quote, false) == Prepend(c, Word(t, quote, false))
    ensures Word("\\", NO_QUOTE, false) == Done("", "")
  {
    var s := ['\\', c] + t;
    assert s[0] == '\\' && s[1..][0] == c && s[1..][1..] == t;
    assert "\\"[1..] == "";
  }

  datatype Piece = Bare(text: string) | Quoted(quote: char, text: string) | Escaped(text: string)

  predicate BareChar(c: char) {
    !IsSpace(c) && !IsQuote(c) && c != '\\'
  }

  predicate ValidPiece(p: Piece) {
    match p
    case Bare(text) => forall i :: 0 <= i < |text| ==> BareChar(text[i])
    case Quoted(quote, _) => IsQuote(quote)
    case Escaped(_) => true
  }

  /** `text` for use between two `quote`s: a backslash before each quote and each backslash. */
  function EscapeFor(quote: char, text: string): string {
    if text == "" then ""
    else (if text[0] == quote || text[0] == '\\' then ['\\', text[0]] else [text[0]]) + EscapeFor(quote, text[1..])
  }

  function EscapeAll(text: string): string {
    if text == "" then "" else ['\\', text[0]] + EscapeAll(text[1..])
  }

  function RenderPiece(p: Piece): string {
    match p
    case Bare(text) => text
    case Quoted(quote, text) => [quote] + EscapeFor(quote, text) + [quote]
    case Escaped(text) => EscapeAll(text)
  }

  function RenderWord(ps: seq<Piece>): string {
    if ps == [] then "" else RenderPiece(ps[0]) + RenderWord(ps[1..])
  }

  function TextOf(ps: seq<Piece>): string {
    if ps == [] then "" else ps[0].text + TextOf(ps[1..])
  }

  predicate ValidWord(ps: seq<Piece>) {
    RenderWord(ps) != "" && forall i :: 0 <= i < |ps| ==> ValidPiece(ps[i])
  }

  function PrependText(s: string, r: WordResult): WordResult {
    match r
    case Unclosed => Unclosed
    case Done(text, rest) => Done(s + text, rest)
  }

  /** One character of the word loop. */
  lemma WordStep(c: char, u: string, quote: char, escaped: bool)
    ensures Word([c] + u, quote, escaped) ==
      if escaped then Prepend(c, Word(u, quote, false))
      else if c == '\\' then Word(u, quote, true)
      else if quote != NO_QUOTE then
        if c == quote then Word(u, NO_QUOTE, false) else Prepend(c, Word(u, quote, false))
      else if IsQuote(c) then Word(u, c, false)
      else if IsSpace(c) then Done("", [c] + u)
      else Prepend(c, Word(u, NO_QUOTE, false))
  {
    assert ([c] + u)[1..] == u;
  }

  lemma PrependFirst(text: string, r: WordResult)
    requires text != ""
    ensures Prepend(text[0], PrependText(text[1..], r)) == PrependText(text, r)
  {
    if r.Done? {
      assert [text[0]] + (text[1..] + r.text) == text + r.text;
    }
  }

  lemma PrependNothing(r: WordResult)
    ensures PrependText("", r) == r
  {
    if r.Done? {
      assert "" + r.text == r.text;
    }
  }

  lemma {:induction false} BareInWord(text: string, u: string)
    requires ValidPiece(Bare(text))
    ensures Word(text + u, NO_QUOTE, false) == PrependText(text, Word(u, NO_QUOTE, false))
  {
    hide Word;
    if text == "" {
      assert text + u == u;
      PrependNothing(Word(u, NO_QUOTE, false));
    } else {
      assert text + u == [text[0]] + (text[1..] + u);
      WordStep(text[0], text[1..] + u, NO_QUOTE, false);
      BareInWord(text[1..], u);
      PrependFirst(text, Word(u, NO_QUOTE, false));
    }
  }

  lemma EscapeAllStep(text: string, t: string)
    ensures EscapeAll(text) + t ==
      if text == "" then t else ['\\'] + ([text[0]] + (EscapeAll(text[1..]) + t))
  {
  }

  lemma {:induction false} EscapedInWord(text: string, u: string)
    ensures Word(EscapeAll(text) + u, NO_QUOTE, false) == PrependText(text, Word(u, NO_QUOTE, false))
  {
    hide Word, EscapeAll;
    EscapeAllStep(text, u);
    if text == "" {
      PrependNothing(Word(u, NO_QUOTE, false));
    } else {
      var c, tail := text[0], EscapeAll(text[1..]) + u;
      WordStep('\\', [c] + tail, NO_QUOTE, false);
      WordStep(c, tail, NO_QUOTE, true);
      EscapedInWord(text[1..], u);
      PrependFirst(text, Word(u, NO_QUOTE, false));
    }
  }

  lemma EscapeForStep(quote: char, text: string, t: string)
    ensures EscapeFor(quote, text) + t ==
      if text == "" then t
      else if text[0] == quote || text[0] == '\\' then ['\\'] + ([text[0]] + (EscapeFor(quote, text[1..]) + t))
      else [text[0]] + (EscapeFor(quote, text[1..]) + t)
  {
  }

  lemma {:induction false} QuotedInWord(quote: char, text: string, u: string)
    requires IsQuote(quote)
    ensures Word(EscapeFor(quote, text) + ([quote] + u), quote, false) == PrependText(text, Word(u, NO_QUOTE, false))
  {
    hide Word, EscapeFor;
    EscapeForStep(quote, text, [quote] + u);
    if text == "" {
      WordStep(quote, u, quote, false);
      PrependNothing(Word(u, NO_QUOTE, false));
    } else {
      var c, tail := text[0], EscapeFor(quote, text[1..]) + ([quote] + u);
      if c == quote || c == '\\' {
        WordStep('\\', [c] + tail, quote, false);
        WordStep(c, tail, quote, true);
      } else {
        WordStep(c, tail, quote, false);
      }
      QuotedInWord(quote, text[1..], u);
      PrependFirst(text, Word(u, NO_QUOTE, false));
    }
  }

  lemma {:induction false} PieceInWord(p: Piece, u: string)
    requires ValidPiece(p)
    ensures Word(RenderPiece(p) + u, NO_QUOTE, false) == PrependText(p.text, Word(u, NO_QUOTE, false))
  {
    match p
    case Bare(text) => BareInWord(text, u);
    case Escaped(text) => EscapedInWord(text, u);
    case Quoted(quote, text) =>
      var tail := EscapeFor(quote, text) + ([quote] + u);
      assert RenderPiece(p) + u == [quote] + tail;
      WordStep(quote, tail, NO_QUOTE, false);
      QuotedInWord(quote, text, u);
  }

  /** However a word is written, reading it back gives its text and stops at the next blank. */
  lemma {:induction false} WordRoundTrip(ps: seq<Piece>, t: string)
    requires StartsBlank(t) && forall i :: 0 <= i < |ps| ==> ValidPiece(ps[i])
    ensures Word(RenderWord(ps) + t, NO_QUOTE, false) == Done(TextOf(ps), t)
  {
    if ps == [] {
      assert RenderWord(ps) + t == t;
    } else {
      assert RenderWord(ps) + t == RenderPiece(ps[0]) + (RenderWord(ps[1..]) + t);
      PieceInWord(ps[0], RenderWord(ps[1..]) + t);
      WordRoundTrip(ps[1..], t);
    }
  }

  lemma {:induction false} RenderStartsVisible(ps: seq<Piece>)
    requires ValidWord(ps)
    ensures !IsSpace(RenderWord(ps)[0])
  {
    if RenderPiece(ps[0]) == "" {
      assert RenderWord(ps) == RenderWord(ps[1..]);
      RenderStartsVisible(ps[1..]);
    }
  }

  /** A written line: before each word its gap, white space that may be empty only before the first. */
  function RenderLine(words: seq<seq<Piece>>, gaps: seq<string>): string
    requires |gaps| == |words|
  {
    if words == [] then "" else gaps[0] + RenderWord(words[0]) + RenderLine(words[1..], gaps[1..])
  }

  predicate ValidGaps(gaps: seq<string>) {
    && (forall i :: 0 <= i < |gaps| ==> AllSpace(gaps[i]))
    && (forall i :: 1 <= i < |gaps| ==> gaps[i] != "")
  }

  function Texts(words: seq<seq<Piece>>): seq<string> {
    seq(|words|, i requires 0 <= i < |words| => TextOf(words[i]))
  }

  /** Tokenizer round trip, over every quoting style and every amount of white space. */
  lemma {:induction false} LineRoundTrip(words: seq<seq<Piece>>, gaps: seq<string>)
    requires |gaps| == |words| && ValidGaps(gaps)
    requires forall i :: 0 <= i < |words| ==> ValidWord(words[i])
    ensures Tokens(RenderLine(words, gaps)) == Words(Texts(words))
    decreases |words|
  {
    hide Word, Tokens, RenderWord, TextOf;
    if words == [] {
      TokensOfBlank("");
    } else {
      var rest := RenderLine(words[1..], gaps[1..]);
      var w := RenderWord(words[0]);
      assert RenderLine(words, gaps) == gaps[0] + (w + rest);
      RenderStartsVisible(words[0]);
      TokensStep(gaps[0], w + rest);
      assert |words| > 1 ==> rest[0] == gaps[1][0];
      WordRoundTrip(words[0], rest);
      LineRoundTrip(words[1..], gaps[1..]);
      assert Texts(words) == [TextOf(words[0])] + Texts(words[1..]);
    }
  }

  /** A word wrapped in single quotes. */
  function SingleQuoted(w: string): string {
    RenderPiece(Quoted('\'', w))
  }

  /** Words in single quotes, one blank between neighbours. */
  function QuoteLine(words: seq<string>): string {
    if words == [] then ""
    else if |words| == 1 then SingleQuoted(words[0])
    else SingleQuoted(words[0]) + " " + QuoteLine(words[1..])
  }

  lemma SingleQuotedWord(w: string, t: string)
    requires StartsBlank(t)
    ensures SingleQuoted(w) != "" && !IsSpace(SingleQuoted(w)[0])
    ensures Word(SingleQuoted(w) + t, NO_QUOTE, false) == Done(w, t)
  {
    PieceInWord(Quoted('\'', w), t);
  }

  lemma QuoteLineStep(words: seq<string>)
    requires words != []
    ensures QuoteLine(words) == SingleQuoted(words[0]) + if |words| == 1 then "" else " " + QuoteLine(words[1..])
  {
    hide SingleQuoted;
  }

  lemma {:induction false} QuoteLineTail(words: seq<string>, blank: string)
    requires AllSpace(blank)
    ensures Tokens(blank + QuoteLine(words)) == Words(words)
  {
    hide Word, Tokens, SingleQuoted;
    if words == [] {
      assert blank + QuoteLine(words) == blank;
      TokensOfBlank(blank);
    } else {
      var rest := if |words| == 1 then "" else " " + QuoteLine(words[1..]);
      QuoteLineStep(words);
      SingleQuotedWord(words[0], rest);
      assert QuoteLine(words) == SingleQuoted(words[0]) + rest;
      TokensStep(blank, QuoteLine(words));
      if |words| == 1 {
        TokensOfBlank("");
      } else {
        QuoteLineTail(words[1..], " ");
      }
      assert words == [words[0]] + words[1..];
    }
  }

  /** Any list of words, empty words included, survives single-quoting. */
  lemma QuoteRoundTrip(words: seq<string>)
    ensures Tokens(QuoteLine(words)) == Words(words)
  {
    QuoteLineTail(words, "");
    assert "" + QuoteLine(words) == QuoteLine(words);
  }
}
