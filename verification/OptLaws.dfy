/**
  What options mean by their declarations (src/bas/cli/opt_parser.h): for letters printed into an
  optstring and for a list of long options, what every way of writing one reports.
 */
module OptLaws {
  import opened CText
  import opened OptSpec

  // ---------------------------------------------------------------------------
  // Declared letters
  // ---------------------------------------------------------------------------

  datatype Argument = NoArgument | Required | Optional

  datatype Letter = Letter(letter: char, argument: Argument)

  function Colons(a: Argument): string {
    match a
    case NoArgument => ""
    case Required => ":"
    case Optional => "::"
  }

  /** The optstring that declares these letters. */
  function OptString(letters: seq<Letter>): string {
    if letters == [] then ""
    else [letters[0].letter] + Colons(letters[0].argument) + OptString(letters[1..])
  }

  function KindOf(a: Argument): int {
    match a
    case NoArgument => 0
    case Required => 1
    case Optional => 2
  }

  predicate Declared(letters: seq<Letter>, c: char, a: Argument) {
    Letter(c, a) in letters
  }

  predicate Undeclared(letters: seq<Letter>, c: char) {
    forall i :: 0 <= i < |letters| ==> letters[i].letter != c
  }

  /** Different letters, none of them a colon. */
  predicate IsDeclaration(letters: seq<Letter>) {
    && (forall i :: 0 <= i < |letters| ==> letters[i].letter != ':')
    && (forall i, j :: 0 <= i < j < |letters| ==> letters[i].letter != letters[j].letter)
  }

  lemma TypeSkips(d: string, rest: string, c: char)
    requires c !in d
    ensures ShortType(Some(d + rest), c) == ShortType(Some(rest), c)
  {
    var o, i := d + rest, IndexOf(rest, c);
    assert forall k :: 0 <= k < |d| ==> o[k] == d[k];
    assert forall k :: 0 <= k < |rest| ==> o[|d| + k] == rest[k];
    if i < |rest| {
      IndexOfUnique(o, c, |d| + i);
    } else {
      IndexOfAbsent(o, c);
    }
  }

  lemma TypeOfFirst(c: char, a: Argument, rest: string)
    requires c != ':' && (rest != "" ==> rest[0] != ':')
    ensures ShortType(Some([c] + Colons(a) + rest), c) == KindOf(a)
  {
    var o := [c] + Colons(a) + rest;
    IndexOfUnique(o, c, 0);
    assert o[1..] == Colons(a) + rest;
    assert rest != "" ==> o[1 + |Colons(a)|] == rest[0];
  }

  lemma StartsWithLetter(letters: seq<Letter>)
    requires IsDeclaration(letters)
    ensures OptString(letters) != "" ==> OptString(letters)[0] != ':'
  {
  }

  /** find_short_option knows every declared letter by its kind, and no other letter but the colon. */
  lemma {:induction false} TypesAreDeclared(letters: seq<Letter>, c: char)
    requires IsDeclaration(letters) && c != ':'
    ensures forall a :: Declared(letters, c, a) ==> ShortType(Some(OptString(letters)), c) == KindOf(a)
    ensures Undeclared(letters, c) ==> ShortType(Some(OptString(letters)), c) == -1
  {
    hide ShortType, Colons, KindOf;
    if letters == [] {
      NothingDeclared(c);
    } else {
      var first, rest := letters[0], letters[1..];
      TypesAreDeclared(rest, c);
      StartsWithLetter(rest);
      if first.letter == c {
        TypeOfFirst(c, first.argument, OptString(rest));
      } else {
        ColonsAreColons(first.argument);
        TypeSkips([first.letter] + Colons(first.argument), OptString(rest), c);
      }
      assert letters == [first] + rest;
    }
  }

  lemma ColonsAreColons(a: Argument)
    ensures forall c :: c in Colons(a) ==> c == ':'
  {
  }

  lemma NothingDeclared(c: char)
    ensures ShortType(Some(""), c) == -1
  {
  }

  /** The colon itself passes for an option, `-:`, as soon as any letter takes an argument. */
  lemma {:induction false} ColonPasses(letters: seq<Letter>)
    requires IsDeclaration(letters)
    ensures ShortType(Some(OptString(letters)), ':') != -1 <==>
      exists i :: 0 <= i < |letters| && letters[i].argument != NoArgument
  {
    hide ShortType;
    var o := OptString(letters);
    ColonIn(letters);
    TypeIff(o, ':');
  }

  lemma TypeIff(o: string, c: char)
    ensures ShortType(Some(o), c) != -1 <==> c in o
  {
    assert IndexOf(o, c) < |o| ==> o[IndexOf(o, c)] == c;
  }

  lemma {:induction false} ColonIn(letters: seq<Letter>)
    requires IsDeclaration(letters)
    ensures ':' in OptString(letters) <==> exists i :: 0 <= i < |letters| && letters[i].argument != NoArgument
  {
    if letters != [] {
      ColonIn(letters[1..]);
      assert forall i :: 1 <= i < |letters| ==> letters[i] == letters[1..][i - 1];
      assert letters[0].argument != NoArgument ==> ':' == Colons(letters[0].argument)[0];
    }
  }

  // ---------------------------------------------------------------------------
  // What short options report
  // ---------------------------------------------------------------------------

  /** Settings that declare these letters. */
  predicate Declares(s: Settings, letters: seq<Letter>) {
    IsDeclaration(letters) && s.optstring == Some(OptString(letters))
  }

  function Reported(result: int, arg: Option<string>): Event {
    Event(result, arg, None, None, None, None)
  }

  function Complaint(s: Settings, optopt: int, text: string): Event {
    Event('?' as int, None, None, Some(optopt), None, if s.opterr then Some(s.prog + text) else None)
  }

  /** Parsing is this event, `words` words, and what follows them. */
  predicate Reports(s: Settings, all: seq<Option<string>>, e: Event, words: nat, rest: seq<Option<string>>) {
    var o := Parse(s, rest);
    Parse(s, all) == Outcome([e] + o.events, words + o.used, o.stop)
  }

  /** A flag: no argument, and the letters after it go on as options of their own. */
  lemma {:induction false} FlagLaw(s: Settings, letters: seq<Letter>, c: char, ws: seq<Option<string>>)
    requires Declares(s, letters) && Declared(letters, c, NoArgument) && c != '-'
    ensures Reports(s, [Word("-" + [c])] + ws, Reported(CharInt(c), None), 1, ws)
  {
    hide ShortType, Parse;
    TypesAreDeclared(letters, c);
    ParseCluster(s, [c], ws);
    ClusterFlag(s, c, "", ws);
    assert [c] + "" == [c];
    PlainIs(s, c);
  }

  lemma PlainIs(s: Settings, c: char)
    ensures PlainEvent(s, c) == if ShortType(s.optstring, c) == -1
      then Complaint(s, CharInt(c), ": invalid option -- '" + [c] + "'\n") else Reported(CharInt(c), None)
  {
  }

  /** A letter that is not declared is reported as '?', and the letters after it go on. */
  lemma {:induction false} UnknownLaw(s: Settings, letters: seq<Letter>, c: char, ws: seq<Option<string>>)
    requires Declares(s, letters) && Undeclared(letters, c) && c != '-' && c != ':'
    ensures Reports(s, [Word("-" + [c])] + ws,
      Complaint(s, CharInt(c), ": invalid option -- '" + [c] + "'\n"), 1, ws)
  {
    hide ShortType, Parse;
    TypesAreDeclared(letters, c);
    ParseCluster(s, [c], ws);
    ClusterFlag(s, c, "", ws);
    assert [c] + "" == [c];
    PlainIs(s, c);
  }

  /** Options may be grouped: -abc is -a -bc, if -a is a declared flag or not declared at all. */
  lemma {:induction false} GroupingLaw(s: Settings, letters: seq<Letter>, c: char, rest: string,
                                       ws: seq<Option<string>>)
    requires Declares(s, letters) && (Declared(letters, c, NoArgument) || (Undeclared(letters, c) && c != ':'))
    requires rest != "" && c != '-' && rest[0] != '-'
    ensures var joined := Parse(s, [Word("-" + [c] + rest)] + ws);
      var split := Parse(s, [Word("-" + [c]), Word("-" + rest)] + ws);
      joined.events == split.events && split.used == joined.used + 1 && split.stop == joined.stop
  {
    hide ShortType, Parse;
    assert c != ':' by { assert forall l :: l in letters ==> l.letter != ':'; }
    TypesAreDeclared(letters, c);
    OptSpec.GroupingLaw(s, c, rest, ws);
  }

  lemma ClusterOne(s: Settings, c: char, tail: string, ws: seq<Option<string>>)
    requires ShortType(s.optstring, c) >= 1
    ensures tail != "" ==> Cluster(s, [c] + tail, ws) == Push(Reported(CharInt(c), Some(tail)), 1, Parse(s, ws))
    ensures tail == "" && ShortType(s.optstring, c) == 2 ==>
      Cluster(s, [c] + tail, ws) == Push(Reported(CharInt(c), None), 1, Parse(s, ws))
    ensures tail == "" && ShortType(s.optstring, c) == 1 ==>
      Cluster(s, [c] + tail, ws) ==
        if ws == [] then
          Push(Complaint(s, CharInt(c), ": option requires an argument -- '" + [c] + "'\n"), 1, Parse(s, ws))
        else Push(Reported(CharInt(c), ws[0]), 2, Parse(s, ws[1..]))
  {
    hide ShortType, Parse;
    assert ([c] + tail)[1..] == tail && ws[0..] == ws;
  }

  /** A required argument: the rest of the word, or the next word whatever it is, or a complaint. */
  lemma {:induction false} RequiredLaw(s: Settings, letters: seq<Letter>, c: char, value: string,
                                       next: Option<string>, ws: seq<Option<string>>)
    requires Declares(s, letters) && Declared(letters, c, Required) && c != '-' && value != ""
    ensures Reports(s, [Word("-" + [c] + value)] + ws, Reported(CharInt(c), Some(value)), 1, ws)
    ensures Reports(s, [Word("-" + [c]), next] + ws, Reported(CharInt(c), next), 2, ws)
    ensures Reports(s, [Word("-" + [c])],
      Complaint(s, CharInt(c), ": option requires an argument -- '" + [c] + "'\n"), 1, [])
  {
    hide ShortType, Parse;
    TypeOfDeclared(s, letters, c, Required);
    assert "-" + [c] + value == "-" + ([c] + value);
    ParseCluster(s, [c] + value, ws);
    ClusterOne(s, c, value, ws);
    ParseCluster(s, [c], [next] + ws);
    assert [Word("-" + [c]), next] + ws == [Word("-" + [c])] + ([next] + ws);
    ClusterOne(s, c, "", [next] + ws);
    assert [c] + "" == [c] && ([next] + ws)[1..] == ws;
    ParseCluster(s, [c], []);
    assert [Word("-" + [c])] + [] == [Word("-" + [c])];
    ClusterOne(s, c, "", []);
  }

  lemma TypeOfDeclared(s: Settings, letters: seq<Letter>, c: char, a: Argument)
    requires Declares(s, letters) && Declared(letters, c, a)
    ensures ShortType(s.optstring, c) == KindOf(a)
  {
    hide ShortType, OptString;
    assert forall l :: l in letters ==> l.letter != ':';
    TypesAreDeclared(letters, c);
  }

  /** An optional argument: only the rest of the word; the next word is left alone. */
  lemma {:induction false} OptionalLaw(s: Settings, letters: seq<Letter>, c: char, value: string,
                                       ws: seq<Option<string>>)
    requires Declares(s, letters) && Declared(letters, c, Optional) && c != '-' && value != ""
    ensures Reports(s, [Word("-" + [c] + value)] + ws, Reported(CharInt(c), Some(value)), 1, ws)
    ensures Reports(s, [Word("-" + [c])] + ws, Reported(CharInt(c), None), 1, ws)
  {
    hide ShortType, Parse;
    TypeOfDeclared(s, letters, c, Optional);
    assert "-" + [c] + value == "-" + ([c] + value);
    ParseCluster(s, [c] + value, ws);
    ClusterOne(s, c, value, ws);
    ParseCluster(s, [c], ws);
    ClusterOne(s, c, "", ws);
    assert [c] + "" == [c];
  }

  /** A required argument may be attached or separate: -fVALUE is -f VALUE. */
  lemma {:induction false} ShortArgumentLaw(s: Settings, letters: seq<Letter>, c: char, value: string,
                                            ws: seq<Option<string>>)
    requires Declares(s, letters) && Declared(letters, c, Required) && c != '-' && value != ""
    ensures var joined := Parse(s, [Word("-" + [c] + value)] + ws);
      var split := Parse(s, [Word("-" + [c]), Word(value)] + ws);
      joined.events == split.events && split.used == joined.used + 1 && split.stop == joined.stop
  {
    hide ShortType, Parse;
    RequiredLaw(s, letters, c, value, Word(value), ws);
  }

  // ---------------------------------------------------------------------------
  // What long options report
  // ---------------------------------------------------------------------------

  /** Option i is the first of its name. */
  predicate IsLong(s: Settings, i: nat, opt: LongOpt) {
    && s.longopts.Some? && i < |s.longopts.value| && s.longopts.value[i] == opt
    && opt.name != "" && '=' !in opt.name
    && forall k :: 0 <= k < i ==> s.longopts.value[k].name != opt.name
  }

  /** With a flag, its value is written there and 0 is the result; else it is the result. */
  function LongReported(opt: LongOpt, i: nat, arg: Option<string>): Event {
    match opt.flag
    case None => Event(opt.val, arg, Some(i), None, None, None)
    case Some(flag) => Event(0, arg, Some(i), None, Some(Write(flag, opt.val)), None)
  }

  lemma FindsLong(s: Settings, i: nat, opt: LongOpt)
    requires IsLong(s, i, opt)
    ensures FindLong(s, opt.name) == Some(i)
  {
    hide LongIndex;
    var r := LongIndex(s.longopts.value, opt.name);
    assert s.longopts.value[i].name == opt.name;
  }

  /** `--name`: an argument only if it is required, from the next word; without one, a complaint. */
  lemma {:induction false} LongLaw(s: Settings, i: nat, opt: LongOpt, next: Option<string>, ws: seq<Option<string>>)
    requires IsLong(s, i, opt)
    ensures opt.hasArg != 1 ==> Reports(s, [Word("--" + opt.name)] + ws, LongReported(opt, i, None), 1, ws)
    ensures opt.hasArg == 1 ==> Reports(s, [Word("--" + opt.name), next] + ws, LongReported(opt, i, next), 2, ws)
    ensures opt.hasArg == 1 ==> Reports(s, [Word("--" + opt.name)],
      Complaint(s, 0, ": option '--" + opt.name + "' requires an argument\n").(longindex := Some(i)), 1, [])
  {
    hide FindLong, Parse, IndexOf;
    FindsLong(s, i, opt);
    SplitName(opt.name, "");
    ParseLong(s, opt.name, ws);
    ParseLong(s, opt.name, [next] + ws);
    ParseLong(s, opt.name, []);
    assert [Word("--" + opt.name)] + [] == [Word("--" + opt.name)];
    assert [Word("--" + opt.name), next] + ws == [Word("--" + opt.name)] + ([next] + ws);
    assert ([next] + ws)[1..] == ws && ws[0..] == ws;
  }

  /** `--name=value`: the value is the argument, unless the option takes none. */
  lemma {:induction false} LongValueLaw(s: Settings, i: nat, opt: LongOpt, value: string, ws: seq<Option<string>>)
    requires IsLong(s, i, opt)
    ensures Reports(s, [Word("--" + opt.name + "=" + value)] + ws,
      LongReported(opt, i, if opt.hasArg == 1 || opt.hasArg == 2 then Some(value) else None), 1, ws)
  {
    hide FindLong, Parse, IndexOf;
    FindsLong(s, i, opt);
    SplitName(opt.name, value);
    assert "--" + opt.name + "=" + value == "--" + (opt.name + "=" + value);
    ParseLong(s, opt.name + "=" + value, ws);
    assert ws[0..] == ws;
  }

  /** A name that is not in the list. */
  lemma {:induction false} LongUnknownLaw(s: Settings, name: string, value: string, ws: seq<Option<string>>)
    requires name != "" && '=' !in name
    requires s.longopts.Some? ==> forall k :: 0 <= k < |s.longopts.value| ==> s.longopts.value[k].name != name
    ensures var e := Complaint(s, 0, ": unrecognized option '--" + name + "'\n");
      && Reports(s, [Word("--" + name)] + ws, e, 1, ws)
      && Reports(s, [Word("--" + name + "=" + value)] + ws, e, 1, ws)
  {
    hide Parse, IndexOf, LongIndex;
    SplitName(name, value);
    assert "--" + name + "=" + value == "--" + (name + "=" + value);
    ParseLong(s, name, ws);
    ParseLong(s, name + "=" + value, ws);
    assert ws[0..] == ws;
  }
}
