/** The re-entrant option parser of src/bas/cli/opt_parser.c, on argv as the caller's own buffers. */
module OptParser {
  import opened CText
  import opened OptSpec

  type CharPtr = array?<char>

  /** argv holds these texts, each NUL-terminated and NUL-free before that. */
  ghost predicate Represents(argv: seq<CharPtr>, ws: seq<Option<string>>)
    reads set i | 0 <= i < |argv| :: argv[i]
  {
    |argv| == |ws| && forall i :: 0 <= i < |argv| ==> Holds(argv[i], ws[i])
  }

  ghost predicate Holds(a: CharPtr, w: Option<string>)
    reads a
  {
    if a == null then w.None?
    else w.Some? && a[..] == w.value + "\0" && '\0' !in w.value
  }

  /** A pointer into a buffer, or NULL. */
  datatype Pointer = Null | Pointer(buffer: array<char>, offset: nat)

  /** The text a pointer into argv refers to. */
  ghost predicate PointsTo(p: Pointer, w: Option<string>)
    reads if p.Pointer? then {p.buffer} else {}
  {
    if p.Null? then w.None?
    else
      && w.Some? && p.offset + |w.value| + 1 == p.buffer.Length
      && p.buffer[p.offset..] == w.value + "\0" && '\0' !in w.value
  }

  function PointerTo(a: CharPtr): Pointer {
    if a == null then Null else Pointer(a, 0)
  }

  /** strlen and read: the text up to the first NUL. */
  method TextAt(a: array<char>, start: nat) returns (text: string)
    requires start < a.Length && '\0' in a[start..]
    ensures text == a[start..][..IndexOf(a[start..], '\0')]
  {
    var i := start;
    while a[i] != '\0'
      invariant start <= i < a.Length && '\0' !in a[start..i] && '\0' in a[i..]
      decreases a.Length - i
    {
      i := i + 1;
    }
    text := a[start..i];
    assert forall k :: 0 <= k < |text| ==> text[k] != '\0' && a[start..][k] == text[k];
    IndexOfUnique(a[start..], '\0', i - start);
  }

  method FindShortOption(optstring: Option<string>, c: char) returns (kind: int)
    ensures kind == ShortType(optstring, c)
  {
    if optstring.None? {
      return -1;
    }
    var o, p := optstring.value, 0;
    while p < |o|
      invariant p <= |o| && IndexOf(o, c) >= p
    {
      if o[p] == c {
        if p + 1 < |o| && o[p + 1] == ':' {
          return if p + 2 < |o| && o[p + 2] == ':' then 2 else 1;
        }
        return 0;
      }
      p := p + 1;
    }
    return -1;
  }

  method FindLongOption(s: Settings, name: string) returns (found: Option<nat>)
    ensures found == FindLong(s, name)
  {
    if s.longopts.None? {
      return None;
    }
    var longopts := s.longopts.value;
    for i := 0 to |longopts|
      invariant forall k :: 0 <= k < i ==> longopts[k].name != name
    {
      if longopts[i].name == name {
        return Some(i);
      }
    }
    return None;
  }

  /** A buffer's characters before the NUL that ends the C string. */
  lemma TextUpToNul(content: string, text: string, rest: string)
    requires content == text + "\0" + rest && '\0' !in text
    ensures '\0' in content && content[..IndexOf(content, '\0')] == text
  {
    assert content[|text|] == '\0';
    assert forall k :: 0 <= k < |text| ==> content[k] == text[k];
    IndexOfUnique(content, '\0', |text|);
  }

  /** Reading `--name=value` as `--name` while its '=' is overwritten by a NUL. */
  lemma PatchedName(w: string, q: nat)
    requires 2 <= |w| && '\0' !in w && q == IndexOf(w[2..], '=') && 2 + q < |w|
    ensures var patched := (w + "\0")[2 + q := '\0'];
      && '\0' in patched[2..] && patched[2..][..IndexOf(patched[2..], '\0')] == w[2..][..q]
      && patched[2 + q := '='] == w + "\0"
  {
    var patched := (w + "\0")[2 + q := '\0'];
    var name := w[2..][..q];
    assert patched[2..] == name + "\0" + patched[3 + q..];
    assert forall k :: 0 <= k < |name| ==> name[k] == w[k + 2];
    TextUpToNul(patched[2..], name, patched[3 + q..]);
    assert w[2 + q] == w[2..][q] == '=';
  }

  class OptParser {
    var optind: nat
    var optopt: int
    var optarg: Pointer
    var shortOptPos: nat
    var currentArg: CharPtr

    /** opt_parser_init */
    constructor ()
      ensures optind == 1 && optarg == Null && shortOptPos == 0 && currentArg == null && optopt == 0
    {
      optind, optopt, optarg, shortOptPos, currentArg := 1, 0, Null, 0, null;
    }

    /**
      Between words, or strictly inside the cluster argv[optind]. The source's recursive call for
      a position at the end of a cluster is therefore never reached.
     */
    ghost predicate Valid(argv: seq<CharPtr>, ws: seq<Option<string>>)
      reads this
    {
      && |argv| == |ws| && 1 <= optind
      && (argv != [] ==> optind <= |argv|)
      && if currentArg == null then shortOptPos == 0
         else
           && optind < |argv| && currentArg == argv[optind] && ws[optind].Some?
           && 1 <= shortOptPos < |ws[optind].value|
           && ws[optind].value[0] == '-' && ws[optind].value[1] != '-'
    }

    /** The rest of the run, as the specification sees it. */
    ghost function Remaining(s: Settings, argv: seq<CharPtr>, ws: seq<Option<string>>): Outcome
      requires Valid(argv, ws)
      reads this
    {
      if argv == [] then Outcome([], 0, EndOfWords)
      else if currentArg == null then Parse(s, ws[optind..])
      else Cluster(s, ws[optind].value[shortOptPos..], ws[optind + 1..])
    }

    /** Characters of the current word not yet passed. */
    ghost function CharsLeft(ws: seq<Option<string>>): int
      reads this
    {
      if optind < |ws| && ws[optind].Some? then |ws[optind].value| - shortOptPos else 0
    }

    /** `--name` and `--name=value`: lines 77 to 140. `rest` are the words after this one. */
    method LongOption(s: Settings, argv: seq<CharPtr>, arg: array<char>, ghost w: string,
                      ghost rest: seq<Option<string>>)
      returns (rc: int, longindex: Option<nat>, write: Option<Write>, message: Option<string>)
      requires optind < |argv| && arg == argv[optind] && |rest| == |argv| - optind - 1
      requires |w| > 2 && '\0' !in w && arg[..] == w + "\0"
      requires rest != [] ==> (rest[0].None? <==> argv[optind + 1] == null)
      requires optarg == Null
      modifies this`optind, this`optarg, this`optopt, arg
      ensures arg[..] == old(arg[..])
      ensures var (e, taken) := LongEvent(s, w[2..], rest);
        && rc == e.result && longindex == e.longindex && write == e.write && message == e.message
        && optopt == (if e.optopt.Some? then e.optopt.value else old(optopt))
        && optind == old(optind) + 1 + taken
        && optarg == if taken == 1 then PointerTo(argv[old(optind) + 1])
                     else if e.optarg.Some? then Pointer(arg, 3 + IndexOf(w[2..], '='))
                     else Null
    {
      hide FindLong, IndexOf;
      longindex, write, message := None, None, None;
      var optionName, equals := PatchName(arg, w);
      var found := FindLongOption(s, optionName);
      if found.Some? {
        var opt := s.longopts.value[found.value];
        longindex := found;
        optind := optind + 1;
        if opt.hasArg == 1 {
          if equals.Some? {
            optarg := Pointer(arg, equals.value + 1);
          } else if optind < |argv| {
            optarg := PointerTo(argv[optind]);
            optind := optind + 1;
          } else {
            message := Message(s, ": option '--" + optionName + "' requires an argument\n");
            optopt := 0;
            RestoreName(arg, w, equals);
            return QUESTION, longindex, write, message;
          }
        } else if opt.hasArg == 2 {
          if equals.Some? {
            optarg := Pointer(arg, equals.value + 1);
          }
        }
        RestoreName(arg, w, equals);
        if opt.flag.Some? {
          write := Some(Write(opt.flag.value, opt.val));
          return 0, longindex, write, message;
        }
        return opt.val, longindex, write, message;
      } else {
        message := Message(s, ": unrecognized option '--" + optionName + "'\n");
        optopt := 0;
        optind := optind + 1;
        RestoreName(arg, w, equals);
        return QUESTION, longindex, write, message;
      }
    }

    /** One letter of a cluster: lines 143 to 218. */
    method ShortOption(s: Settings, argv: seq<CharPtr>, arg: array<char>, ghost w: string,
                      ghost rest: seq<Option<string>>)
      returns (rc: int, message: Option<string>)
      requires optind < |argv| && arg == argv[optind] && |rest| == |argv| - optind - 1
      requires |w| > 1 && '\0' !in w && arg[..] == w + "\0"
      requires rest != [] ==> (rest[0].None? <==> argv[optind + 1] == null)
      requires if currentArg == null then shortOptPos == 0 else currentArg == arg && 1 <= shortOptPos < |w|
      requires optarg == Null
      modifies this
      ensures var k := if old(currentArg) == null then 1 else old(shortOptPos);
        var (e, stays, taken) := ClusterEvent(s, w[k..], rest);
        && rc == e.result && message == e.message && e.longindex.None? && e.write.None?
        && optopt == (if e.optopt.Some? then e.optopt.value else old(optopt))
        && (if stays then optind == old(optind) && currentArg == arg && shortOptPos == k + 1
            else optind == old(optind) + 1 + taken && currentArg == null && shortOptPos == 0)
        && optarg == if taken == 1 then PointerTo(argv[old(optind) + 1])
                     else if e.optarg.Some? then Pointer(arg, k + 1)
                     else Null
    {
      hide ShortType;
      if currentArg != arg {
        currentArg := arg;
        shortOptPos := 1;
      }
      var k := shortOptPos;
      ghost var letters := w[k..];
      assert forall i :: 0 <= i < |w| ==> arg[i] == w[i];
      assert arg[|w|] == '\0';
      if arg[shortOptPos] == '\0' {
        // The source calls itself here, on the next word.
        assert false;
      }
      var c := arg[shortOptPos];
      assert letters[0] == c && letters[1..] == w[k + 1..];
      message := None;
      var optType := FindShortOption(s.optstring, c);
      shortOptPos := shortOptPos + 1;
      var more := arg[shortOptPos] != '\0';
      if !more {
        EndWord();
      }
      if optType < 0 {
        message := Message(s, ": invalid option -- '" + [c] + "'\n");
        optopt := CharInt(c);
        return QUESTION, message;
      }
      if optType == 1 && !more {
        if optind < |argv| {
          optarg := PointerTo(argv[optind]);
          EndWord();
        } else {
          message := Message(s, ": option requires an argument -- '" + [c] + "'\n");
          optopt := CharInt(c);
          return QUESTION, message;
        }
      } else if optType > 0 && more {
        optarg := Pointer(arg, shortOptPos);
        EndWord();
      }
      return CharInt(c), message;
    }

    /** On to the next word, between clusters. */
    method EndWord()
      modifies this`optind, this`currentArg, this`shortOptPos
      ensures optind == old(optind) + 1 && currentArg == null && shortOptPos == 0
    {
      optind := optind + 1;
      currentArg := null;
      shortOptPos := 0;
    }

    /** What a call reports, against the event that the run before it called for. */
    ghost predicate Reports(e: Event, optoptWas: int, rc: int, longindex: Option<nat>,
                            write: Option<Write>, message: Option<string>)
      reads this, if optarg.Pointer? then {optarg.buffer} else {}
    {
      && rc == e.result && longindex == e.longindex && write == e.write && message == e.message
      && PointsTo(optarg, e.optarg)
      && optopt == if e.optopt.Some? then e.optopt.value else optoptWas
    }

    /** From a run `r` at word `was`, one event further and nearer the end of argv. */
    ghost predicate Advanced(r: Outcome, was: nat, charsWas: int, s: Settings, argv: seq<CharPtr>,
                             ws: seq<Option<string>>)
      requires Valid(argv, ws) && r.events != []
      reads this
    {
      var next := Remaining(s, argv, ws);
      && next.events == r.events[1..] && next.stop == r.stop && optind + next.used == was + r.used
      && (optind > was || (optind == was && CharsLeft(ws) < charsWas))
    }

    /**
      opt_parse_long. It reports the first event of the rest of the run and leaves the parser at
      what remains, or -1 when no event is left. argv is as before, byte for byte. A call that
      reports an event gets strictly nearer the end of argv.
     */
    method OptParseLong(s: Settings, argv: seq<CharPtr>, ghost ws: seq<Option<string>>)
      returns (rc: int, longindex: Option<nat>, write: Option<Write>, message: Option<string>)
      requires Valid(argv, ws) && Represents(argv, ws)
      modifies this, set i | 0 <= i < |argv| && argv[i] != null :: argv[i]
      ensures Represents(argv, ws) && Valid(argv, ws)
      ensures forall i :: 0 <= i < |argv| && argv[i] != null ==> argv[i][..] == old(argv[i][..])
      ensures var r := old(Remaining(s, argv, ws));
        if r.events == [] then
          && rc == -1 && longindex == None && write == None && message == None && optopt == old(optopt)
          && optind == old(optind) + r.used && (argv != [] ==> optarg == Null)
        else
          && Reports(r.events[0], old(optopt), rc, longindex, write, message)
          && Advanced(r, old(optind), old(CharsLeft(ws)), s, argv, ws)
    {
      hide Parse, Cluster, LongEvent, ClusterEvent, Reports, Advanced;
      longindex, write, message := None, None, None;
      if argv == [] {
        return -1, longindex, write, message;
      }
      optarg := Null;
      RunStep(s, ws, optind);
      if optind >= |argv| {
        return -1, longindex, write, message;
      }
      var arg := argv[optind];
      assert Holds(arg, ws[optind]);
      if arg == null || arg[0] != '-' {
        return -1, longindex, write, message;
      }
      ghost var w := ws[optind].value;
      assert forall i :: 0 <= i < |w| ==> arg[i] == arg[..][i] == w[i];
      assert arg[|w|] == '\0' && arg[..][|w|] == '\0';
      if arg[1] == '-' && arg[2] == '\0' {
        optind := optind + 1;
        return -1, longindex, write, message;
      }
      if arg[1] == '-' && arg[2] != '\0' {
        rc, longindex, write, message := LongCall(s, argv, ws, arg);
        return;
      }
      if arg[1] != '\0' && arg[1] != '-' {
        rc, message := ShortCall(s, argv, ws, arg);
        return;
      }
      optind := optind + 1;
      return -1, longindex, write, message;
    }

    /** The call when argv[optind] is a long option. */
    method LongCall(s: Settings, argv: seq<CharPtr>, ghost ws: seq<Option<string>>, arg: array<char>)
      returns (rc: int, longindex: Option<nat>, write: Option<Write>, message: Option<string>)
      requires Valid(argv, ws) && Represents(argv, ws) && optind < |argv| && arg == argv[optind]
      requires optarg == Null
      requires var w := ws[optind].value; |w| > 2 && w[0] == '-' && w[1] == '-'
      modifies this, arg
      ensures Represents(argv, ws) && Valid(argv, ws) && arg[..] == old(arg[..])
      ensures var r := old(Remaining(s, argv, ws));
        && r.events != []
        && Reports(r.events[0], old(optopt), rc, longindex, write, message)
        && Advanced(r, old(optind), old(CharsLeft(ws)), s, argv, ws)
    {
      hide Parse, Cluster, LongEvent, PointsTo;
      ghost var w, rest, was := ws[optind].value, ws[optind + 1..], optind;
      RunStep(s, ws, optind);
      LongArgument(s, w, rest);
      assert Holds(arg, ws[optind]);
      assert rest != [] ==> Holds(argv[optind + 1], rest[0]);
      rc, longindex, write, message := LongOption(s, argv, arg, w, rest);
      assert Represents(argv, ws);
      ArgumentText(argv, ws, was, arg);
      NothingPointsTo();
    }

    /** The call when argv[optind] is a cluster. */
    method ShortCall(s: Settings, argv: seq<CharPtr>, ghost ws: seq<Option<string>>, arg: array<char>)
      returns (rc: int, message: Option<string>)
      requires Valid(argv, ws) && Represents(argv, ws) && optind < |argv| && arg == argv[optind]
      requires optarg == Null
      requires var w := ws[optind].value; |w| > 1 && w[0] == '-' && w[1] != '-'
      modifies this
      ensures Represents(argv, ws) && Valid(argv, ws)
      ensures var r := old(Remaining(s, argv, ws));
        && r.events != []
        && Reports(r.events[0], old(optopt), rc, None, None, message)
        && Advanced(r, old(optind), old(CharsLeft(ws)), s, argv, ws)
    {
      hide Parse, Cluster, ClusterEvent, PointsTo, Represents, Holds;
      HoldsAt(argv, ws, optind);
      ghost var w, rest, was := ws[optind].value, ws[optind + 1..], optind;
      ghost var k := if currentArg == null then 1 else shortOptPos;
      RunStep(s, ws, optind);
      ClusterStep(s, ws, optind, k);
      LetterArgument(s, w[k..], rest);
      rc, message := ShortOption(s, argv, arg, w, rest);
      ArgumentText(argv, ws, was, arg);
      NothingPointsTo();
    }
  }

  lemma HoldsAt(argv: seq<CharPtr>, ws: seq<Option<string>>, i: nat)
    requires Represents(argv, ws) && i < |argv|
    ensures |ws| == |argv| && (ws[i].None? <==> argv[i] == null)
    ensures argv[i] != null ==> argv[i][..] == ws[i].value + "\0" && '\0' !in ws[i].value
    ensures i + 1 < |argv| ==> (ws[i + 1].None? <==> argv[i + 1] == null)
  {
    assert Holds(argv[i], ws[i]);
    assert i + 1 < |argv| ==> Holds(argv[i + 1], ws[i + 1]);
  }

  lemma NothingPointsTo()
    ensures PointsTo(Null, None)
  {
  }

  /** Where a long option's argument comes from. */
  lemma LongArgument(s: Settings, w: string, rest: seq<Option<string>>)
    requires |w| > 2
    ensures var (e, taken) := LongEvent(s, w[2..], rest);
      && taken <= 1 && (taken == 1 ==> rest != [] && e.optarg == rest[0])
      && (taken == 0 && e.optarg.Some? ==>
            3 + IndexOf(w[2..], '=') <= |w| && e.optarg.value == w[3 + IndexOf(w[2..], '=')..])
  {
    hide FindLong;
    var q := IndexOf(w[2..], '=');
    if 2 + q < |w| {
      assert w[2..][q + 1..] == w[3 + q..];
    }
  }

  /** Where a short option's argument comes from. */
  lemma LetterArgument(s: Settings, letters: string, rest: seq<Option<string>>)
    requires letters != ""
    ensures var (e, _, taken) := ClusterEvent(s, letters, rest);
      && taken <= 1 && (taken == 1 ==> rest != [] && e.optarg == rest[0])
      && (taken == 0 && e.optarg.Some? ==> e.optarg.value == letters[1..])
  {
    hide ShortType;
  }

  /** The run at word i, unfolded once. */
  lemma RunStep(s: Settings, ws: seq<Option<string>>, i: nat)
    requires i <= |ws|
    ensures var r := Parse(s, ws[i..]);
      if i == |ws| then r == Outcome([], 0, EndOfWords)
      else if !LooksLikeOption(ws[i]) then r == Outcome([], 0, Operand)
      else
        var w := ws[i].value;
        if w == "-" then r == Outcome([], 1, LoneDash)
        else if w == "--" then r == Outcome([], 1, DoubleDash)
        else if w[1] == '-' then
          var (e, taken) := LongEvent(s, w[2..], ws[i + 1..]);
          r == Push(e, 1 + taken, Parse(s, ws[i + 1 + taken..]))
        else r == Cluster(s, w[1..], ws[i + 1..])
  {
    hide LongEvent, Cluster;
    var all := ws[i..];
    if i < |ws| {
      assert all[1..] == ws[i + 1..];
      if LooksLikeOption(ws[i]) && |ws[i].value| > 1 {
        var taken := LongEvent(s, ws[i].value[2..], ws[i + 1..]).1;
        assert all[1 + taken..] == ws[i + 1 + taken..];
      }
    }
  }

  lemma ClusterStep(s: Settings, ws: seq<Option<string>>, i: nat, k: nat)
    requires i < |ws| && ws[i].Some? && k < |ws[i].value|
    ensures var w := ws[i].value;
      var (e, stays, taken) := ClusterEvent(s, w[k..], ws[i + 1..]);
      Cluster(s, w[k..], ws[i + 1..]) ==
        if stays then Push(e, 0, Cluster(s, w[k + 1..], ws[i + 1..]))
        else Push(e, 1 + taken, Parse(s, ws[i + 1 + taken..]))
  {
    hide Parse, ClusterEvent;
    var w := ws[i].value;
    var taken := ClusterEvent(s, w[k..], ws[i + 1..]).2;
    assert w[k..][1..] == w[k + 1..];
    assert ws[i + 1..][taken..] == ws[i + 1 + taken..];
  }

  /** Pointers into the current word and to the next word, as texts. */
  lemma ArgumentText(argv: seq<CharPtr>, ws: seq<Option<string>>, i: nat, arg: array<char>)
    requires Represents(argv, ws) && i < |argv| && arg == argv[i]
    ensures i + 1 < |argv| ==> PointsTo(PointerTo(argv[i + 1]), ws[i + 1])
    ensures forall k :: 0 <= k <= |ws[i].value| ==> PointsTo(Pointer(arg, k), Some(ws[i].value[k..]))
  {
    assert Holds(arg, ws[i]);
    forall k | 0 <= k <= |ws[i].value|
      ensures PointsTo(Pointer(arg, k), Some(ws[i].value[k..]))
    {
      assert arg[k..] == arg[..][k..] == ws[i].value[k..] + "\0";
    }
    if i + 1 < |argv| {
      assert Holds(argv[i + 1], ws[i + 1]);
      if argv[i + 1] != null {
        assert argv[i + 1][0..] == argv[i + 1][..];
      }
    }
  }

  /** The name in `--name` or `--name=value`; in the second form its '=' is left overwritten by a NUL. */
  method PatchName(arg: array<char>, ghost w: string) returns (name: string, equals: Option<nat>)
    requires |w| > 2 && '\0' !in w && arg[..] == w + "\0"
    modifies arg
    ensures var q := IndexOf(w[2..], '=');
      if 2 + q < |w| then
        equals == Some(2 + q) && name == w[2..][..q] && arg[..] == (w + "\0")[2 + q := '\0']
      else equals == None && name == w[2..] == w[2..][..q] && arg[..] == w + "\0"
  {
    hide IndexOf;
    assert arg[2..] == arg[..][2..] == w[2..] + "\0" + "";
    TextUpToNul(arg[2..], w[2..], "");
    equals := None;
    name := TextAt(arg, 2);
    var q := IndexOf(name, '=');
    if q < |name| {
      PatchedName(w, q);
      arg[2 + q] := '\0';
      assert arg[..] == (w + "\0")[2 + q := '\0'];
      assert arg[2..] == arg[..][2..];
      name := TextAt(arg, 2);
      equals := Some(2 + q);
    }
  }

  method RestoreName(arg: array<char>, ghost w: string, equals: Option<nat>)
    requires equals.None? ==> arg[..] == w + "\0"
    requires equals.Some? ==>
      equals.value < |w| && w[equals.value] == '=' && arg[..] == (w + "\0")[equals.value := '\0']
    modifies arg
    ensures arg[..] == w + "\0"
  {
    if equals.Some? {
      arg[equals.value] := '=';
      assert arg[..] == w + "\0";
    }
  }

  // ---------------------------------------------------------------------------
  // The loop of the header's usage example
  // ---------------------------------------------------------------------------

  /** What the body of the caller's loop sees of an event. */
  datatype Seen = Seen(result: int, optarg: Option<string>, longindex: Option<nat>,
                       write: Option<Write>, message: Option<string>)

  /** The events before the first one whose result is -1, which a caller takes for the end. */
  function SeenUntilEnd(events: seq<Event>): seq<Seen> {
    if events == [] || events[0].result == -1 then [] else [SeenOf(events[0])] + SeenUntilEnd(events[1..])
  }

  function SeenOf(e: Event): Seen {
    Seen(e.result, e.optarg, e.longindex, e.write, e.message)
  }

  predicate NeverMinusOne(events: seq<Event>) {
    forall i :: 0 <= i < |events| ==> events[i].result != -1
  }

  method PointerText(p: Pointer, ghost w: Option<string>) returns (text: Option<string>)
    requires PointsTo(p, w)
    ensures text == w
  {
    if p.Null? {
      return None;
    }
    assert p.buffer[p.offset..] == w.value + "\0" + "";
    TextUpToNul(p.buffer[p.offset..], w.value, "");
    var t := TextAt(p.buffer, p.offset);
    return Some(t);
  }

  /** `while ((opt = opt_parse_long(...)) != -1)`, from a fresh parser. */
  method ParseAll(s: Settings, argv: seq<CharPtr>, ghost ws: seq<Option<string>>)
    returns (seen: seq<Seen>, parser: OptParser)
    requires argv != [] && Represents(argv, ws)
    modifies set i | 0 <= i < |argv| && argv[i] != null :: argv[i]
    ensures Represents(argv, ws)
    ensures forall i :: 0 <= i < |argv| && argv[i] != null ==> argv[i][..] == old(argv[i][..])
    ensures var run := Parse(s, ws[1..]);
      && seen == SeenUntilEnd(run.events)
      && (NeverMinusOne(run.events) ==> parser.optind == 1 + run.used)
  {
    hide Parse, Cluster, OptParser.Reports, SeenUntilEnd, NeverMinusOne;
    hide Represents, PointsTo, OptParser.Valid, OptParser.Remaining, OptParser.CharsLeft;
    parser := new OptParser();
    FreshParser(parser, s, argv, ws);
    seen := [];
    ghost var run := Parse(s, ws[1..]);
    ghost var left := run;
    assert [] + SeenUntilEnd(run.events) == SeenUntilEnd(run.events);
    while true
      invariant fresh(parser) && parser.Valid(argv, ws) && Represents(argv, ws)
      invariant forall i :: 0 <= i < |argv| && argv[i] != null ==> argv[i][..] == old(argv[i][..])
      invariant left == parser.Remaining(s, argv, ws)
      invariant seen + SeenUntilEnd(left.events) == SeenUntilEnd(run.events)
      invariant NeverMinusOne(run.events) ==> NeverMinusOne(left.events)
      invariant parser.optind + left.used == 1 + run.used
      decreases |argv| - parser.optind, parser.CharsLeft(ws)
    {
      SeenStep(left.events);
      InArgv(parser, argv, ws);
      var rc, next := NextSeen(parser, s, argv, ws, left);
      if rc == -1 {
        break;
      }
      seen := seen + [next];
      left := parser.Remaining(s, argv, ws);
    }
  }

  /** One call, and what the loop's body sees of it. */
  method NextSeen(parser: OptParser, s: Settings, argv: seq<CharPtr>, ghost ws: seq<Option<string>>,
                  ghost left: Outcome)
    returns (rc: int, seen: Seen)
    requires parser.Valid(argv, ws) && Represents(argv, ws) && left == parser.Remaining(s, argv, ws)
    modifies parser, set i | 0 <= i < |argv| && argv[i] != null :: argv[i]
    ensures parser.Valid(argv, ws) && Represents(argv, ws)
    ensures forall i :: 0 <= i < |argv| && argv[i] != null ==> argv[i][..] == old(argv[i][..])
    ensures if left.events == [] then rc == -1 && parser.optind == old(parser.optind) + left.used
      else
        && rc == left.events[0].result && (rc != -1 ==> seen == SeenOf(left.events[0]))
        && parser.Advanced(left, old(parser.optind), old(parser.CharsLeft(ws)), s, argv, ws)
  {
    hide Represents, PointsTo, OptParser.Valid, OptParser.Remaining, OptParser.CharsLeft;
    hide OptParser.Reports, OptParser.Advanced;
    ghost var optoptWas := parser.optopt;
    var longindex, write, message;
    rc, longindex, write, message := parser.OptParseLong(s, argv, ws);
    seen := Seen(rc, None, longindex, write, message);
    if left.events != [] {
      ReportsResult(parser, left.events[0], optoptWas, rc, longindex, write, message);
    }
    if rc != -1 {
      var text := PointerText(parser.optarg, left.events[0].optarg);
      seen := Seen(rc, text, longindex, write, message);
    }
  }

  lemma FreshParser(parser: OptParser, s: Settings, argv: seq<CharPtr>, ws: seq<Option<string>>)
    requires argv != [] && Represents(argv, ws)
    requires parser.optind == 1 && parser.shortOptPos == 0 && parser.currentArg == null
    ensures parser.Valid(argv, ws) && parser.Remaining(s, argv, ws) == Parse(s, ws[1..])
  {
  }

  lemma InArgv(parser: OptParser, argv: seq<CharPtr>, ws: seq<Option<string>>)
    requires argv != [] && parser.Valid(argv, ws)
    ensures parser.optind <= |argv| && parser.CharsLeft(ws) >= 0
  {
  }

  lemma SeenStep(events: seq<Event>)
    ensures SeenUntilEnd(events) ==
      if events == [] || events[0].result == -1 then [] else [SeenOf(events[0])] + SeenUntilEnd(events[1..])
    ensures NeverMinusOne(events) && events != [] ==> events[0].result != -1 && NeverMinusOne(events[1..])
  {
  }

  lemma ReportsResult(parser: OptParser, e: Event, optoptWas: int, rc: int, longindex: Option<nat>,
                      write: Option<Write>, message: Option<string>)
    requires parser.Reports(e, optoptWas, rc, longindex, write, message)
    ensures rc == e.result && longindex == e.longindex && write == e.write && message == e.message
    ensures PointsTo(parser.optarg, e.optarg)
  {
  }
}
