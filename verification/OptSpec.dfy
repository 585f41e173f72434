/**
  What a whole run over argv reports: the specification that opt_parse_long of
  src/bas/cli/opt_parser.c is proved against, word by word and without parser state.
 */
module OptSpec {
  import opened CText

  /** struct option; `flag` is the address of an int, if any. */
  datatype LongOpt = LongOpt(name: string, hasArg: int, flag: Option<nat>, val: int)

  /** The arguments that stay the same over a run; None stands for NULL. */
  datatype Settings = Settings(prog: string, opterr: bool, optstring: Option<string>, longopts: Option<seq<LongOpt>>)

  datatype Write = Write(flag: nat, val: int)

  /** What one call reports. `optopt` and `longindex` are None when the call leaves them alone. */
  datatype Event = Event(result: int, optarg: Option<string>, longindex: Option<nat>,
                         optopt: Option<int>, write: Option<Write>, message: Option<string>)

  /** Why a run stops. */
  datatype Stop = EndOfWords | Operand | DoubleDash | LoneDash

  /** The events of a run, how many words it has passed when it stops, and why it stops. */
  datatype Outcome = Outcome(events: seq<Event>, used: nat, stop: Stop)

  const QUESTION: int := '?' as int

  /** find_short_option: -1 unknown, 0 no argument, 1 required, 2 optional. */
  function ShortType(optstring: Option<string>, c: char): (kind: int)
    ensures -1 <= kind <= 2
  {
    if optstring.None? then -1
    else
      var o := optstring.value;
      var i := IndexOf(o, c);
      if i == |o| then -1
      else if i + 1 < |o| && o[i + 1] == ':' then
        if i + 2 < |o| && o[i + 2] == ':' then 2 else 1
      else 0
  }

  /** find_long_option: the first option of that name. */
  function LongIndex(longopts: seq<LongOpt>, name: string): (r: Option<nat>)
    ensures r.Some? ==> r.value < |longopts| && longopts[r.value].name == name
    ensures r.Some? ==> forall k :: 0 <= k < r.value ==> longopts[k].name != name
    ensures r.None? ==> forall k :: 0 <= k < |longopts| ==> longopts[k].name != name
  {
    if longopts == [] then None
    else if longopts[0].name == name then Some(0)
    else
      match LongIndex(longopts[1..], name)
      case None => None
      case Some(i) => assert forall k :: 1 <= k <= i ==> longopts[1..][k - 1] == longopts[k]; Some(i + 1)
  }

  function FindLong(s: Settings, name: string): (r: Option<nat>)
    ensures r.Some? ==> s.longopts.Some? && r.value < |s.longopts.value|
  {
    if s.longopts.None? then None else LongIndex(s.longopts.value, name)
  }

  function Message(s: Settings, text: string): Option<string> {
    if s.opterr then Some(s.prog + text) else None
  }

  /** The report for `--name` or `--name=value`, given the words after it, and how many of them it takes. */
  function LongEvent(s: Settings, body: string, ws: seq<Option<string>>): (r: (Event, nat))
    ensures r.1 <= |ws|
  {
    var q := IndexOf(body, '=');
    var name := body[..q];
    var value := if q < |body| then Some(body[q + 1..]) else None;
    match FindLong(s, name)
    case None =>
      (Event(QUESTION, None, None, Some(0), None, Message(s, ": unrecognized option '--" + name + "'\n")), 0)
    case Some(i) =>
      var opt := s.longopts.value[i];
      if opt.hasArg == 1 && value.None? && ws == [] then
        var message := Message(s, ": option '--" + name + "' requires an argument\n");
        (Event(QUESTION, None, Some(i), Some(0), None, message), 0)
      else
        var (arg, taken) :=
          if opt.hasArg == 1 && value.None? then (ws[0], 1)
          else if opt.hasArg == 1 || opt.hasArg == 2 then (value, 0)
          else (None, 0);
        if opt.flag.Some? then (Event(0, arg, Some(i), None, Some(Write(opt.flag.value, opt.val)), None), taken)
        else (Event(opt.val, arg, Some(i), None, None, None), taken)
  }

  function ShortEvent(c: char, arg: Option<string>): Event {
    Event(CharInt(c), arg, None, None, None, None)
  }

  function ShortError(s: Settings, c: char, text: string): Event {
    Event(QUESTION, None, None, Some(CharInt(c)), None, Message(s, text + [c] + "'\n"))
  }

  /** The report for a letter without an argument. */
  function PlainEvent(s: Settings, c: char): Event {
    if ShortType(s.optstring, c) == -1 then ShortError(s, c, ": invalid option -- '") else ShortEvent(c, None)
  }

  function Push(e: Event, taken: nat, o: Outcome): Outcome {
    Outcome([e] + o.events, taken + o.used, o.stop)
  }

  predicate LooksLikeOption(w: Option<string>) {
    w.Some? && w.value != "" && w.value[0] == '-'
  }

  /** A run over the words that are left. */
  function Parse(s: Settings, ws: seq<Option<string>>): Outcome
    decreases |ws|, 1, 0
  {
    if ws == [] then Outcome([], 0, EndOfWords)
    else if !LooksLikeOption(ws[0]) then Outcome([], 0, Operand)
    else
      var w := ws[0].value;
      if w == "-" then Outcome([], 1, LoneDash)
      else if w == "--" then Outcome([], 1, DoubleDash)
      else if w[1] == '-' then
        var (e, taken) := LongEvent(s, w[2..], ws[1..]);
        Push(e, 1 + taken, Parse(s, ws[1 + taken..]))
      else Cluster(s, w[1..], ws[1..])
  }

  /**
    The report for the first of some letters, whether the cluster goes on after it, and how many of
    the words after the cluster it takes.
   */
  function ClusterEvent(s: Settings, letters: string, ws: seq<Option<string>>): (r: (Event, bool, nat))
    requires letters != ""
    ensures (r.1 ==> |letters| > 1) && r.2 <= |ws|
  {
    var c, tail := letters[0], letters[1..];
    var kind := ShortType(s.optstring, c);
    if kind == 1 || (kind == 2 && tail != "") then
      if tail != "" then (ShortEvent(c, Some(tail)), false, 0)
      else if ws != [] then (ShortEvent(c, ws[0]), false, 1)
      else (ShortError(s, c, ": option requires an argument -- '"), false, 0)
    else (PlainEvent(s, c), tail != "", 0)
  }

  /** The letters that are left of a cluster, and then the words after it. */
  function Cluster(s: Settings, letters: string, ws: seq<Option<string>>): Outcome
    requires letters != ""
    decreases |ws|, 2, |letters|
  {
    var (e, stays, taken) := ClusterEvent(s, letters, ws);
    if stays then Push(e, 0, Cluster(s, letters[1..], ws)) else Push(e, 1 + taken, Parse(s, ws[taken..]))
  }

  // ---------------------------------------------------------------------------
  // Laws
  // ---------------------------------------------------------------------------

  function Word(w: string): Option<string> {
    Some(w)
  }

  ghost predicate StopsRight(ws: seq<Option<string>>, o: Outcome) {
    && o.used <= |ws|
    && match o.stop
       case EndOfWords => o.used == |ws|
       case Operand => o.used < |ws| && !LooksLikeOption(ws[o.used])
       case DoubleDash => o.used > 0 && ws[o.used - 1] == Word("--")
       case LoneDash => o.used > 0 && ws[o.used - 1] == Word("-")
  }

  /**
    Where the operands start: at the first word that a run has not passed, whether it stopped at
    an operand, at "--" or at the end. The one exception is a lone "-", itself an operand, which
    has been passed.
   */
  lemma {:induction false} ParseStops(s: Settings, ws: seq<Option<string>>)
    ensures StopsRight(ws, Parse(s, ws))
    decreases |ws|, 1, 0
  {
    hide LongEvent, Cluster;
    if ws != [] && LooksLikeOption(ws[0]) && ws[0].value != "-" && ws[0].value != "--" {
      var w := ws[0].value;
      if w[1] == '-' {
        var taken := LongEvent(s, w[2..], ws[1..]).1;
        ParseStops(s, ws[1 + taken..]);
      } else {
        ClusterStops(s, w[1..], ws[1..], ws[0]);
        assert ws == [ws[0]] + ws[1..];
      }
    }
  }

  /** A lone "-" is passed although it is an operand: optind does not point at it. */
  lemma LoneDashIsPassed(s: Settings)
    ensures Parse(s, [Word("-")]) == Outcome([], 1, LoneDash) && StartsOperands(Word("-"))
  {
  }

  /** A word that ends the options: one without a dash, or a dash alone. */
  predicate StartsOperands(w: Option<string>) {
    !LooksLikeOption(w) || w == Word("-")
  }

  /** Words after `--name` that are its argument. */
  function LongTakes(s: Settings, body: string, ws: seq<Option<string>>): (n: nat)
    ensures n <= |ws|
  {
    var found := FindLong(s, body[..IndexOf(body, '=')]);
    if '=' !in body && found.Some? && s.longopts.value[found.value].hasArg == 1 && ws != [] then 1 else 0
  }

  /** Words after a cluster that are its argument: one, if its last letter is the first that requires one. */
  function ClusterTakes(s: Settings, letters: string, ws: seq<Option<string>>): (n: nat)
    ensures n <= |ws|
  {
    if letters == "" then 0
    else if |letters| == 1 then (if ShortType(s.optstring, letters[0]) == 1 && ws != [] then 1 else 0)
    else if ShortType(s.optstring, letters[0]) >= 1 then 0
    else ClusterTakes(s, letters[1..], ws)
  }

  /** An option and its argument. */
  function OptionWords(s: Settings, w: string, ws: seq<Option<string>>): (n: nat)
    requires |w| > 1
    ensures 1 <= n <= 1 + |ws|
  {
    1 + if w[1] == '-' then LongTakes(s, w[2..], ws) else ClusterTakes(s, w[1..], ws)
  }

  /** The words before the operands: options, their arguments, and a `--` that ends them. */
  datatype Section = Section(words: nat, ended: bool)

  function OptionSection(s: Settings, ws: seq<Option<string>>): (r: Section)
    ensures r.words <= |ws|
    decreases |ws|
  {
    if ws == [] || StartsOperands(ws[0]) then Section(0, false)
    else
      var w := ws[0].value;
      assert w != "" && w != "-";
      if w == "--" then Section(1, true)
      else
        var n := OptionWords(s, w, ws[1..]);
        var r := OptionSection(s, ws[n..]);
        Section(n + r.words, r.ended)
  }

  /** The first operand is a lone dash, not after a `--`. */
  predicate LoneDashFirst(s: Settings, ws: seq<Option<string>>) {
    var r := OptionSection(s, ws);
    !r.ended && r.words < |ws| && ws[r.words] == Word("-")
  }

  /** What stands after the option section is an operand, whatever it is after a `--`. */
  lemma {:induction false} SectionEnds(s: Settings, ws: seq<Option<string>>)
    ensures var r := OptionSection(s, ws);
      if r.ended then r.words > 0 && ws[r.words - 1] == Word("--")
      else r.words == |ws| || StartsOperands(ws[r.words])
    decreases |ws|
  {
    hide OptionWords;
    if ws != [] && !StartsOperands(ws[0]) && ws[0].value != "--" {
      var w := ws[0].value;
      assert w != "" && w != "-";
      SectionEnds(s, ws[OptionWords(s, w, ws[1..])..]);
    }
  }

  lemma LongTakesIs(s: Settings, body: string, ws: seq<Option<string>>)
    ensures LongEvent(s, body, ws).1 == LongTakes(s, body, ws)
  {
    hide FindLong, Message;
    var q := IndexOf(body, '=');
    assert '=' in body <==> q < |body|;
  }

  lemma {:induction false} ClusterPasses(s: Settings, letters: string, ws: seq<Option<string>>)
    requires letters != ""
    ensures var rest := Parse(s, ws[ClusterTakes(s, letters, ws)..]);
      var o := Cluster(s, letters, ws);
      o.used == 1 + ClusterTakes(s, letters, ws) + rest.used && o.stop == rest.stop
    decreases |letters|
  {
    hide Parse, ShortType, PlainEvent;
    var (_, stays, taken) := ClusterEvent(s, letters, ws);
    if stays {
      ClusterPasses(s, letters[1..], ws);
    }
  }

  /** A run and the section both go on behind an option and its argument. */
  lemma OptionStep(s: Settings, ws: seq<Option<string>>)
    requires ws != [] && !StartsOperands(ws[0]) && ws[0].value != "--"
    ensures |ws[0].value| > 1
    ensures var n := OptionWords(s, ws[0].value, ws[1..]);
      var rest := Parse(s, ws[n..]);
      Parse(s, ws).used == n + rest.used && Parse(s, ws).stop == rest.stop
  {
    hide LongTakes, ClusterTakes, LongEvent, Cluster;
    var w := ws[0].value;
    assert w != "" && w != "-";
    if w[1] == '-' {
      LongTakesIs(s, w[2..], ws[1..]);
    } else {
      ClusterPasses(s, w[1..], ws[1..]);
      var n := ClusterTakes(s, w[1..], ws[1..]);
      assert ws[1..][n..] == ws[1 + n..];
    }
  }

  lemma SectionStep(s: Settings, ws: seq<Option<string>>)
    requires ws != [] && !StartsOperands(ws[0]) && ws[0].value != "--"
    ensures |ws[0].value| > 1
    ensures var n := OptionWords(s, ws[0].value, ws[1..]);
      var r := OptionSection(s, ws[n..]);
      OptionSection(s, ws) == Section(n + r.words, r.ended)
      && (LoneDashFirst(s, ws) <==> LoneDashFirst(s, ws[n..]))
  {
    hide OptionWords;
    var w := ws[0].value;
    assert w != "" && w != "-";
  }

  /** How many words a run passes: the option section, and one more if a lone dash stops it. */
  lemma {:induction false} UsedIs(s: Settings, ws: seq<Option<string>>)
    ensures var r, o := OptionSection(s, ws), Parse(s, ws);
      && o.used == r.words + (if o.stop.LoneDash? then 1 else 0)
      && (o.stop.LoneDash? <==> LoneDashFirst(s, ws)) && (o.stop.DoubleDash? <==> r.ended)
    decreases |ws|
  {
    if ws != [] && !StartsOperands(ws[0]) && ws[0].value != "--" {
      hide *;
      OptionStep(s, ws);
      SectionStep(s, ws);
      UsedIs(s, ws[OptionWords(s, ws[0].value, ws[1..])..]);
    } else {
      hide OptionWords, LongEvent, Cluster;
    }
  }

  /**
    The header's claim, exactly: after a run optind is at the first operand, the first word that is
    neither an option nor its argument nor the `--` that ends them, if and only if this is not a
    lone dash without a `--` before it.
   */
  lemma {:induction false} OperandsAreLeftIff(s: Settings, ws: seq<Option<string>>)
    ensures Parse(s, ws).used == OptionSection(s, ws).words <==> !LoneDashFirst(s, ws)
  {
    hide Parse, OptionSection;
    UsedIs(s, ws);
  }

  /** When no word is a lone "-" the operands are what is left after the run. */
  lemma {:induction false} OperandsAreLeft(s: Settings, ws: seq<Option<string>>)
    requires Word("-") !in ws
    ensures Parse(s, ws).used == OptionSection(s, ws).words
    ensures var used := Parse(s, ws).used;
      && used <= |ws|
      && (used == |ws| || StartsOperands(ws[used]) || (used > 0 && ws[used - 1] == Word("--")))
  {
    hide Parse, OptionSection;
    OperandsAreLeftIff(s, ws);
    SectionEnds(s, ws);
  }

  lemma {:induction false} ClusterStops(s: Settings, letters: string, ws: seq<Option<string>>, current: Option<string>)
    requires letters != ""
    ensures StopsRight([current] + ws, Cluster(s, letters, ws))
    decreases |ws|, 2, |letters|
  {
    hide ClusterEvent, Parse;
    var (_, stays, taken) := ClusterEvent(s, letters, ws);
    if stays {
      ClusterStops(s, letters[1..], ws, current);
    } else {
      ParseStops(s, ws[taken..]);
    }
  }

  /** Options may be grouped: -abc is -a -bc, whenever -a takes no argument, known or not. */
  lemma GroupingLaw(s: Settings, c: char, rest: string, ws: seq<Option<string>>)
    requires rest != "" && c != '-' && rest[0] != '-'
    requires ShortType(s.optstring, c) <= 0
    ensures var joined := Parse(s, [Word("-" + [c] + rest)] + ws);
      var split := Parse(s, [Word("-" + [c]), Word("-" + rest)] + ws);
      joined.events == split.events && split.used == joined.used + 1 && split.stop == joined.stop
  {
    hide ShortType, Cluster, PlainEvent;
    assert [c] + "" == [c];
    var split := [Word("-" + [c]), Word("-" + rest)] + ws;
    ParseCluster(s, [c] + rest, ws);
    assert "-" + [c] + rest == "-" + ([c] + rest);
    ParseCluster(s, [c], [Word("-" + rest)] + ws);
    assert split == [Word("-" + [c])] + ([Word("-" + rest)] + ws);
    ParseCluster(s, rest, ws);
    ClusterFlag(s, c, rest, ws);
    ClusterFlag(s, c, "", [Word("-" + rest)] + ws);
  }

  lemma ParseCluster(s: Settings, letters: string, ws: seq<Option<string>>)
    requires letters != "" && letters[0] != '-'
    ensures Parse(s, [Word("-" + letters)] + ws) == Cluster(s, letters, ws)
  {
    hide Cluster;
    var w, all := "-" + letters, [Word("-" + letters)] + ws;
    assert w[1..] == letters && all[1..] == ws;
  }

  lemma ClusterFlag(s: Settings, c: char, tail: string, ws: seq<Option<string>>)
    requires ShortType(s.optstring, c) <= 0
    ensures Cluster(s, [c] + tail, ws) ==
      if tail == "" then Push(PlainEvent(s, c), 1, Parse(s, ws))
      else Push(PlainEvent(s, c), 0, Cluster(s, tail, ws))
  {
    hide ShortType, Parse;
    assert ([c] + tail)[1..] == tail && ws[0..] == ws;
  }

  /** A required argument may be attached or separate: -fVALUE is -f VALUE. */
  lemma ShortArgumentLaw(s: Settings, c: char, value: string, ws: seq<Option<string>>)
    requires value != "" && c != '-' && ShortType(s.optstring, c) == 1
    ensures var joined := Parse(s, [Word("-" + [c] + value)] + ws);
      var split := Parse(s, [Word("-" + [c]), Word(value)] + ws);
      joined.events == split.events && split.used == joined.used + 1 && split.stop == joined.stop
  {
    hide ShortType, Parse;
    ParseCluster(s, [c] + value, ws);
    assert "-" + [c] + value == "-" + ([c] + value);
    assert ([c] + value)[1..] == value;
    ParseCluster(s, [c], [Word(value)] + ws);
    assert [Word("-" + [c]), Word(value)] + ws == [Word("-" + [c])] + ([Word(value)] + ws);
    assert ([Word(value)] + ws)[1..] == ws && ws[0..] == ws;
  }

  /** The same for long options: --name=VALUE is --name VALUE. */
  lemma LongArgumentLaw(s: Settings, name: string, value: string, ws: seq<Option<string>>)
    requires name != "" && '=' !in name
    requires FindLong(s, name).Some? && s.longopts.value[FindLong(s, name).value].hasArg == 1
    ensures
      var joined := Parse(s, [Word("--" + name + "=" + value)] + ws);
      var split := Parse(s, [Word("--" + name), Word(value)] + ws);
      joined.events == split.events && split.used == joined.used + 1 && split.stop == joined.stop
  {
    hide FindLong, Cluster, Parse, IndexOf;
    var body := name + "=" + value;
    SplitName(name, value);
    assert "--" + name + "=" + value == "--" + body;
    ParseLong(s, body, ws);
    ParseLong(s, name, [Word(value)] + ws);
    assert [Word("--" + name), Word(value)] + ws == [Word("--" + name)] + ([Word(value)] + ws);
    assert ([Word(value)] + ws)[1..] == ws && ws[0..] == ws;
  }

  lemma SplitName(name: string, value: string)
    requires '=' !in name
    ensures var body := name + "=" + value;
      IndexOf(body, '=') == |name| && body[..|name|] == name && body[|name| + 1..] == value
    ensures IndexOf(name, '=') == |name| && name[..|name|] == name
  {
    var body := name + "=" + value;
    assert forall k :: 0 <= k < |name| ==> body[k] == name[k];
    IndexOfUnique(body, '=', |name|);
    IndexOfAbsent(name, '=');
  }

  lemma ParseLong(s: Settings, body: string, ws: seq<Option<string>>)
    requires body != ""
    ensures Parse(s, [Word("--" + body)] + ws) ==
      var (e, taken) := LongEvent(s, body, ws); Push(e, 1 + taken, Parse(s, ws[taken..]))
  {
    hide FindLong, Cluster;
    var w, all := "--" + body, [Word("--" + body)] + ws;
    assert w[2..] == body && all[1..] == ws;
    var taken := LongEvent(s, body, ws).1;
    assert all[1 + taken..] == ws[taken..];
  }
}
