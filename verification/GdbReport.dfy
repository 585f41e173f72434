/**
  A gdb "thread apply all bt" report: its lines (str_getline in src/bas/base/str.c), thread
  headers and the grouping of frames under threads (src/bas/proc/format_gdb.c), and the header
  printer of src/bas/proc/stackdump.c.
 */
module GdbReport {
  import opened CText
  import opened StackFrames

  // ---------------------------------------------------------------------------
  // Thread headers
  // ---------------------------------------------------------------------------

  /** thread_info_t without its frames; name is None for NULL. */
  datatype Thread = Thread(id: int, lwp: int, name: Option<string>)

  function HeaderText(t: Thread): string {
    "Thread " + Signed(t.id) + (if t.lwp > 0 then " (LWP " + Signed(t.lwp) + ")" else "")
    + " \"" + (if t.name.Some? then t.name.value else "?") + "\"\n"
  }

  /** thread_info_format, without colours: the line goes through a 256-byte buffer. */
  function FormatHeader(t: Thread): string {
    Truncate(HeaderText(t), 256)
  }

  predicate IsHeader(line: string) {
    "Thread " <= SkipBlanks(line)
  }

  function LeadingInt(s: string): int {
    if s != "" && IsDigit(s[0]) then ToInt(LeadingNumber(s)) else 0
  }

  /** The number after the first "(LWP ", or 0. */
  function LwpIn(s: string): int {
    match Find(s, LWP)
    case None => 0
    case Some(i) => LeadingInt(s[i + 5..])
  }

  /** What stands between the first two double quotes. */
  function QuotedIn(s: string): string {
    var q := IndexOf(s, '"');
    if q == |s| then ""
    else
      var t := s[q + 1..];
      var n := IndexOf(t, '"');
      if n == |t| then "" else t[..n]
  }

  /** gdb_output_thread_info_parse */
  function ParseHeader(line: string): Option<Thread> {
    var p := SkipBlanks(line);
    if !("Thread " <= p) then None
    else
      var t := p[7..];
      if t == "" || !IsDigit(t[0]) then None
      else Some(Thread(LeadingInt(t), LwpIn(t[DigitRun(t)..]), Some(QuotedIn(line))))
  }

  /** The headers whose printed line can be read back. */
  predicate ReadableHeader(t: Thread) {
    && t.id >= 0
    && t.name.Some? && '"' !in t.name.value
    && |HeaderText(t)| <= 256
    && (t.lwp <= 0 ==> t.lwp == LwpIn(t.name.value))
  }

  lemma {:induction false} DecimalLength(n: nat, k: nat)
    requires n < Power10(k) && k > 0
    ensures |Decimal(n)| <= k
  {
    if n >= 10 {
      PowerOfOne();
      TenthBelow(n, Power10(k - 1));
      DecimalLength(n / 10, k - 1);
    }
  }

  lemma PowerOfOne()
    ensures Power10(1) == 10
  {
  }

  lemma TenthBelow(n: nat, p: nat)
    requires n < 10 * p
    ensures n / 10 < p
  {
  }

  function Power10(k: nat): nat {
    if k == 0 then 1 else 10 * Power10(k - 1)
  }

  lemma IntLength(n: nat)
    requires n <= INT_MAX
    ensures |Decimal(n)| <= 10
  {
    assert Power10(3) == 1000;
    assert Power10(6) == 1000 * Power10(3);
    assert Power10(9) == 1000 * Power10(6);
    assert Power10(10) == 10_000_000_000;
    hide Power10;
    DecimalLength(n, 10);
  }

  /** The header up to the blank before the name, from the thread number on. */
  function Numbers(t: Thread): string
    requires t.id >= 0
  {
    Decimal(t.id) + (if t.lwp > 0 then " (LWP " + (Decimal(t.lwp) + ") ") else " ")
  }

  const LWP := "(LWP "

  /** An occurrence of the mark lies before a double quote that no '(' follows. */
  lemma MarkBeforeQuote(a: string, b: string, k: nat)
    requires '(' !in b && k <= |a| + 1 + |b| && LWP <= (a + ("\"" + b))[k..]
    ensures k + 5 <= |a| && LWP <= a[k..]
  {
    var s := a + ("\"" + b);
    assert forall j :: 0 <= j < 5 ==> s[k + j] == s[k..][j];
    assert forall j :: 0 <= j < 5 ==> LWP[j] == s[k..][j];
    assert s[k] == '(' && s[|a|] == '"';
    assert forall j :: |a| < j < |s| ==> s[j] == b[j - |a| - 1];
    assert forall j :: 0 <= j < 5 && k + j < |a| ==> a[k..][j] == s[k + j];
    assert LWP == "(LWP ";
  }

  /** A double quote ends the search for an LWP number. */
  lemma LwpBeforeQuote(a: string, b: string)
    requires '(' !in b
    ensures LwpIn(a + ("\"" + b)) == LwpIn(a)
  {
    hide LeadingInt, Find;
    var s := a + ("\"" + b);
    var r := Find(s, LWP);
    if r.Some? {
      MarkBeforeQuote(a, b, r.value);
    }
    var q := Find(a, LWP);
    if q.Some? {
      var i := q.value;
      assert s[i..] == a[i..] + ("\"" + b);
      assert LWP <= s[i..];
      assert r.value == i;
      assert s[i + 5..] == a[i + 5..] + ("\"" + b);
      LeadingIntBefore(a[i + 5..], b);
    }
  }

  lemma LeadingIntBefore(a: string, b: string)
    ensures LeadingInt(a + ("\"" + b)) == LeadingInt(a)
  {
    hide DigitRun, ValueOf, ToInt;
    var s := a + ("\"" + b);
    assert a == "" ==> s[0] == '"';
    var n := DigitRun(a);
    assert a == a[..n] + a[n..] && s == a[..n] + (a[n..] + ("\"" + b));
    DigitRunIs(a[..n], a[n..] + ("\"" + b));
    assert s[..n] == a[..n];
  }

  lemma LwpSkips(c: char, s: string)
    requires c != '('
    ensures LwpIn([c] + s) == LwpIn(s)
  {
    hide LeadingInt, Find;
    FindSkips(c, s);
    var r := Find(s, LWP);
    if r.Some? {
      assert ([c] + s)[r.value + 6..] == s[r.value + 5..];
    }
  }

  lemma FindSkips(c: char, s: string)
    requires c != '('
    ensures Find([c] + s, LWP) == match Find(s, LWP) case None => None case Some(i) => Some(i + 1)
  {
    hide Find;
    var t := [c] + s;
    forall k | 0 <= k <= |t|
      ensures LWP <= t[k..] <==> k > 0 && LWP <= s[k - 1..]
    {
      SuffixSkips(c, s, k);
    }
    var r, q := Find(s, LWP), Find(t, LWP);
    assert r.Some? ==> LWP <= t[r.value + 1..];
    assert q.Some? ==> LWP <= s[q.value - 1..];
  }

  lemma SuffixSkips(c: char, s: string, k: nat)
    requires c != '(' && k <= 1 + |s|
    ensures LWP <= ([c] + s)[k..] <==> k > 0 && LWP <= s[k - 1..]
  {
    var t := [c] + s;
    if k > 0 {
      assert t[k..] == s[k - 1..];
    } else {
      assert t[0..][0] == c && LWP[0] == '(';
    }
  }

  lemma HeaderPieces(t: Thread)
    requires t.id >= 0 && t.name.Some?
    ensures HeaderText(t) == "Thread " + (Numbers(t) + ("\"" + (t.name.value + "\"\n")))
  {
    hide Decimal;
    if t.lwp > 0 {
      assert " (LWP " + Decimal(t.lwp) + ")" + " \"" == " (LWP " + (Decimal(t.lwp) + ") ") + "\"";
    }
  }

  /** The quoted name of a line whose closing quote may be cut off. */
  lemma QuotedIff(pre: string, name: string, tail: string)
    requires '"' !in pre
    requires tail == "" || tail[0] == '"'
    ensures tail != "" ==> (QuotedIn(pre + ("\"" + (name + tail))) == name <==> '"' !in name)
    ensures tail == "" && '"' !in name ==> QuotedIn(pre + ("\"" + name)) == ""
  {
    var t := name + tail;
    var s := pre + ("\"" + t);
    assert forall k :: 0 <= k < |pre| ==> s[k] == pre[k];
    assert s[|pre|] == '"';
    IndexOfUnique(s, '"', |pre|);
    assert s[|pre| + 1..] == t;
    assert tail == "" ==> t == name;
    assert forall k :: 0 <= k < |name| ==> t[k] == name[k];
    if '"' !in name {
      if tail != "" {
        IndexOfUnique(t, '"', |name|);
        assert t[..|name|] == name;
      } else {
        IndexOfAbsent(name, '"');
      }
    } else {
      var k :| 0 <= k < |name| && name[k] == '"';
      assert t[k] == '"';
    }
  }

  /** What the parser makes of a header whose text is cut after its first m characters. */
  lemma CutHeader(t: Thread, m: nat)
    requires t.id >= 0 && t.name.Some? && IsInt(t.id) && IsInt(t.lwp)
    requires |Numbers(t)| + 8 <= m <= |HeaderText(t)|
    ensures var line := HeaderText(t)[..m];
      var parsed := ParseHeader(line);
      && parsed.Some? && parsed.value.id == t.id
      && parsed.value.name == Some(QuotedIn(line))
      && (t.lwp > 0 ==> parsed.value.lwp == t.lwp)
      && (t.lwp <= 0 && m + 1 >= |HeaderText(t)| ==> parsed.value.lwp == LwpIn(t.name.value))
  {
    hide Decimal, QuotedIn, LwpIn, HeaderText, LeadingInt, DigitRun, Numbers, LwpPart, ParseHeader;
    var rest := CutRest(t, m);
    var line := HeaderText(t)[..m];
    var after := LwpPart(t) + rest;
    DecimalFirst(t.id, after);
    HeaderStart(line, Decimal(t.id) + after);
    BlankFirst(t, rest);
    IdShown(t.id, after);
    LwpOfRest(t, rest, m == |HeaderText(t)|);
  }

  lemma BlankFirst(t: Thread, rest: string)
    ensures var after := LwpPart(t) + rest; after != "" && after[0] == ' '
  {
    hide Decimal;
  }

  /** The LWP number, found in its place or in a quoted name that may lack the last newline. */
  lemma LwpOfRest(t: Thread, rest: string, whole: bool)
    requires t.name.Some? && IsInt(t.lwp)
    ensures t.lwp > 0 ==> LwpIn(LwpPart(t) + rest) == t.lwp
    ensures t.lwp <= 0 && rest == "\"" + (t.name.value + if whole then "\"\n" else "\"")
      ==> LwpIn(LwpPart(t) + rest) == LwpIn(t.name.value)
  {
    hide Decimal, LwpIn;
    if t.lwp > 0 {
      LwpShown(t.lwp, rest);
      LwpText(Decimal(t.lwp), rest);
    } else if rest == "\"" + (t.name.value + if whole then "\"\n" else "\"") {
      var b := if whole then "\n" else "";
      var quoted := t.name.value + ("\"" + b);
      assert " " + rest == [' '] + (['"'] + quoted);
      LwpSkips(' ', ['"'] + quoted);
      LwpSkips('"', quoted);
      LwpBeforeQuote(t.name.value, b);
    }
  }

  lemma LwpText(digits: string, rest: string)
    ensures " (LWP " + (digits + ") ") + rest == " (LWP " + (digits + (") " + rest))
  {
  }

  function LwpPart(t: Thread): string {
    if t.lwp > 0 then " (LWP " + (Decimal(t.lwp) + ") ") else " "
  }

  /** What is left of the quoted name when the header is cut after m characters. */
  lemma CutRest(t: Thread, m: nat) returns (rest: string)
    requires t.id >= 0 && t.name.Some?
    requires |Numbers(t)| + 8 <= m <= |HeaderText(t)|
    ensures HeaderText(t)[..m] == "Thread " + (Decimal(t.id) + (LwpPart(t) + rest))
    ensures m == |HeaderText(t)| ==> rest == "\"" + (t.name.value + "\"\n")
    ensures m + 1 == |HeaderText(t)| ==> rest == "\"" + (t.name.value + "\"")
  {
    hide Decimal, HeaderText;
    HeaderPieces(t);
    var quoted := "\"" + (t.name.value + "\"\n");
    rest := quoted[..m - 7 - |Numbers(t)|];
    CutAfter("Thread ", Numbers(t), quoted, m);
    assert Numbers(t) == Decimal(t.id) + LwpPart(t);
    hide Numbers, LwpPart;
    Regrouped(Decimal(t.id), LwpPart(t), rest);
  }

  lemma CutAfter(a: string, b: string, c: string, m: nat)
    requires |a| + |b| <= m <= |a| + |b| + |c|
    ensures (a + (b + c))[..m] == a + (b + c[..m - |a| - |b|])
  {
  }

  lemma Regrouped(a: string, b: string, c: string)
    ensures a + b + c == a + (b + c)
  {
  }

  lemma DecimalFirst(n: nat, t: string)
    ensures Decimal(n) + t != "" && IsDigit((Decimal(n) + t)[0])
  {
    hide Decimal;
    assert (Decimal(n) + t)[0] == Decimal(n)[0];
  }

  lemma HeaderStart(line: string, digits: string)
    requires line == "Thread " + digits && digits != "" && IsDigit(digits[0])
    ensures ParseHeader(line) ==
      Some(Thread(LeadingInt(digits), LwpIn(digits[DigitRun(digits)..]), Some(QuotedIn(line))))
  {
    hide LeadingInt, LwpIn, QuotedIn, DigitRun;
    assert line[0] == "Thread "[0];
    NoBlanks(line);
    assert line[7..] == digits;
  }

  lemma IdShown(id: nat, after: string)
    requires id <= INT_MAX && after != "" && !IsDigit(after[0])
    ensures var t := Decimal(id) + after; LeadingInt(t) == id && t[DigitRun(t)..] == after
  {
    hide Decimal, DigitRun, LeadingNumber;
    DecimalRoundTrip(id, after);
    DecimalFirst(id, after);
  }

  lemma LwpShown(lwp: nat, rest: string)
    requires lwp <= INT_MAX
    ensures LwpIn(" (LWP " + (Decimal(lwp) + (") " + rest))) == lwp
  {
    hide Decimal, DigitRun, LeadingNumber, ToInt;
    var d := Decimal(lwp) + (") " + rest);
    var s := " (LWP " + d;
    assert s[1..] == LWP + d;
    assert s[0] != LWP[0];
    FindUnique(s, LWP, 1);
    assert s[6..] == d;
    assert d[0] == Decimal(lwp)[0];
    DecimalRoundTrip(lwp, ") " + rest);
  }

  lemma NumbersLength(t: Thread)
    requires t.id >= 0 && IsInt(t.id) && IsInt(t.lwp)
    ensures |Numbers(t)| <= 30 && '"' !in Numbers(t)
  {
    hide Decimal;
    IntLength(t.id);
    if t.lwp > 0 {
      IntLength(t.lwp);
    }
    assert '"' !in Decimal(t.id) && (t.lwp > 0 ==> '"' !in Decimal(t.lwp));
  }

  /** A printed header parses back to the same thread exactly when it is ReadableHeader. */
  lemma HeaderRoundTripIff(t: Thread)
    requires IsInt(t.id) && IsInt(t.lwp)
    ensures ParseHeader(FormatHeader(t)) == Some(t) <==> ReadableHeader(t)
  {
    hide Decimal, QuotedIn, LwpIn, HeaderText, ParseHeader, Numbers;
    if t.id < 0 {
      NegativeId(t);
    } else if t.name.None? {
      ParsedName(FormatHeader(t));
    } else {
      var text, name, pre := HeaderText(t), t.name.value, "Thread " + Numbers(t);
      HeaderPieces(t);
      NumbersLength(t);
      var m := if |text| < 256 then |text| else 255;
      assert FormatHeader(t) == text[..m];
      assert |text| == |pre| + |name| + 3;
      CutHeader(t, m);
      if |text| <= 256 {
        var tail := if |text| < 256 then "\"\n" else "\"";
        assert text[..m] == pre + ("\"" + (name + tail));
        QuotedIff(pre, name, tail);
      } else {
        var cut := name[..m - |pre| - 1];
        assert text[..m] == pre + ("\"" + cut);
        CutName(pre, cut);
      }
    }
  }

  /** Without its closing quote a name is not read whole. */
  lemma CutName(pre: string, cut: string)
    requires '"' !in pre
    ensures |QuotedIn(pre + ("\"" + cut))| <= |cut|
    ensures |cut| > 0 ==> |QuotedIn(pre + ("\"" + cut))| < |cut|
  {
    var s := pre + ("\"" + cut);
    assert forall k :: 0 <= k < |pre| ==> s[k] == pre[k];
    IndexOfUnique(s, '"', |pre|);
    assert s[|pre| + 1..] == cut;
  }

  lemma NegativeId(t: Thread)
    requires t.id < 0
    ensures ParseHeader(FormatHeader(t)) == None
  {
    hide Decimal;
    var line := FormatHeader(t);
    assert line[0] == 'T' && line[7] == '-';
    NoBlanks(line);
  }

  lemma ParsedName(line: string)
    ensures ParseHeader(line).Some? ==> ParseHeader(line).value.name.Some?
  {
    hide LwpIn, QuotedIn, SkipBlanks;
  }

  // ---------------------------------------------------------------------------
  // Lines
  // ---------------------------------------------------------------------------

  /** Length of the first line, its newline included. */
  function LineLength(data: string): (n: nat)
    ensures n <= |data| && (data != "" ==> n > 0)
    ensures forall k :: 0 <= k < n - 1 ==> data[k] != '\n'
    ensures 0 < n < |data| ==> data[n - 1] == '\n'
  {
    if data == "" then 0 else if data[0] == '\n' then 1 else 1 + LineLength(data[1..])
  }

  function Lines(data: string): seq<string>
    decreases |data|
  {
    if data == "" then [] else [data[..LineLength(data)]] + Lines(data[LineLength(data)..])
  }

  /** Nothing of a stream is lost or reordered by reading it in lines. */
  lemma {:induction false} LinesConcat(data: string)
    ensures Concat(Lines(data)) == data
    decreases |data|
  {
    if data != "" {
      LinesConcat(data[LineLength(data)..]);
      assert data == data[..LineLength(data)] + data[LineLength(data)..];
    }
  }

  /** Every line ends with its only newline, except perhaps the last. */
  predicate IsLine(line: string, last: bool) {
    && line != ""
    && (forall k :: 0 <= k < |line| - 1 ==> line[k] != '\n')
    && (last || line[|line| - 1] == '\n')
  }

  lemma {:induction false} LinesAreLines(data: string)
    ensures forall i :: 0 <= i < |Lines(data)| ==> IsLine(Lines(data)[i], i == |Lines(data)| - 1)
    decreases |data|
  {
    hide IsLine, LineLength;
    if data != "" {
      var n := LineLength(data);
      LinesAreLines(data[n..]);
      assert Lines(data) == [data[..n]] + Lines(data[n..]);
      FirstIsLine(data);
    }
  }

  lemma FirstIsLine(data: string)
    requires data != ""
    ensures IsLine(data[..LineLength(data)], Lines(data[LineLength(data)..]) == [])
  {
    hide LineLength;
  }

  /** What the C code sees of a line that holds a NUL byte: the text before it. */
  function Visible(line: string): string {
    line[..IndexOf(line, '\0')]
  }

  // ---------------------------------------------------------------------------
  // The report
  // ---------------------------------------------------------------------------

  datatype Dump = Dump(thread: Thread, frames: seq<Frame>)

  /** `open` is `current != NULL`; the current thread is then the last of the result. */
  datatype State = State(result: seq<Dump>, open: bool)

  function NoiseLibthread(): string {
    "[Thread debugging using libthread_db enabled]"
  }

  /**
    is_gdb_noise_line. The source compares 47 bytes of a 45-byte literal, so that line only counts
    as noise when nothing, not even a newline, follows it.
   */
  predicate IsNoise(line: string) {
    var p := SkipBlanks(line);
    "[New LWP " <= p || p == NoiseLibthread() || "Using host libthread_db library " <= p
  }

  predicate IsFrameLine(line: string) {
    line != "" && line[0] == '#'
  }

  function AddFrame(result: seq<Dump>, f: Frame): seq<Dump>
    requires result != []
  {
    var n := |result| - 1;
    result[n := Dump(result[n].thread, result[n].frames + [f])]
  }

  /** One line of gdb_output_parse, after the noise test. */
  function Feed(st: State, line: string): State {
    if IsHeader(line) then
      match ParseHeader(line)
      case None => State(st.result, false)
      case Some(t) => State(st.result + [Dump(t, [])], true)
    else if st.open && st.result != [] && IsFrameLine(line) && Parse(line).Some? then
      State(AddFrame(st.result, Parse(line).value), true)
    else st
  }

  function FeedAll(st: State, lines: seq<string>): State {
    if lines == [] then st
    else
      var init, last := FeedAll(st, lines[..|lines| - 1]), lines[|lines| - 1];
      if IsNoise(last) then init else Feed(init, last)
  }

  /** gdb_output_parse on a stream. */
  function Report(data: string): seq<Dump> {
    FeedAll(State([], false), VisibleAll(Lines(data))).result
  }

  function VisibleAll(lines: seq<string>): seq<string> {
    seq(|lines|, i requires 0 <= i < |lines| => Visible(lines[i]))
  }

  // ---------------------------------------------------------------------------
  // What the report is, without a state machine
  // ---------------------------------------------------------------------------

  /** The parseable frame lines, in order. */
  function FramesOf(lines: seq<string>): seq<Frame> {
    if lines == [] then []
    else
      var init, last := FramesOf(lines[..|lines| - 1]), lines[|lines| - 1];
      if IsFrameLine(last) && Parse(last).Some? then init + [Parse(last).value] else init
  }

  /** Index of the last header, or -1. */
  function LastHeader(lines: seq<string>): (i: int)
    ensures -1 <= i < |lines|
    ensures i >= 0 ==> IsHeader(lines[i])
    ensures forall k :: i < k < |lines| ==> !IsHeader(lines[k])
  {
    if lines == [] then -1
    else if IsHeader(lines[|lines| - 1]) then |lines| - 1
    else LastHeader(lines[..|lines| - 1])
  }

  /**
    Cut at the headers: every header that parses gives a thread, with the parseable frame lines up
    to the next header; lines before the first header and after a header that does not parse give
    nothing.
   */
  function Sections(lines: seq<string>): seq<Dump>
    decreases |lines|
  {
    var h := LastHeader(lines);
    if h < 0 then []
    else
      match ParseHeader(lines[h])
      case None => Sections(lines[..h])
      case Some(t) => Sections(lines[..h]) + [Dump(t, FramesOf(lines[h + 1..]))]
  }

  lemma NoiseIsInert(line: string, st: State)
    requires IsNoise(line)
    ensures !IsHeader(line) && !IsFrameLine(line) && Feed(st, line) == st
  {
    hide SkipBlanks, Parse, ParseHeader;
    var p := SkipBlanks(line);
    FirstOf("[New LWP ", p);
    FirstOf(NoiseLibthread(), p);
    FirstOf("Using host libthread_db library ", p);
    FirstOf("Thread ", p);
    if IsFrameLine(line) {
      NoBlanks(line);
    }
  }

  lemma FirstOf(pat: string, p: string)
    requires pat != ""
    ensures pat <= p ==> p[0] == pat[0]
  {
  }

  /** Skipping noise lines never changes the result: the loop does the same without the test. */
  function FeedEvery(st: State, lines: seq<string>): State {
    if lines == [] then st else Feed(FeedEvery(st, lines[..|lines| - 1]), lines[|lines| - 1])
  }

  lemma {:induction false} NoiseTestIsIdle(st: State, lines: seq<string>)
    ensures FeedAll(st, lines) == FeedEvery(st, lines)
  {
    hide Feed, IsNoise;
    if lines != [] {
      var n := |lines| - 1;
      NoiseTestIsIdle(st, lines[..n]);
      if IsNoise(lines[n]) {
        NoiseIsInert(lines[n], FeedEvery(st, lines[..n]));
      }
    }
  }

  function WithoutNoise(lines: seq<string>): seq<string> {
    if lines == [] then []
    else
      var init, last := WithoutNoise(lines[..|lines| - 1]), lines[|lines| - 1];
      if IsNoise(last) then init else init + [last]
  }

  /** ... and the same on the report with its noise lines taken out. */
  lemma {:induction false} NoiseCanBeRemoved(st: State, lines: seq<string>)
    ensures FeedAll(st, WithoutNoise(lines)) == FeedAll(st, lines)
  {
    hide Feed, IsNoise;
    if lines != [] {
      var init, last := lines[..|lines| - 1], lines[|lines| - 1];
      NoiseCanBeRemoved(st, init);
      if !IsNoise(last) {
        assert (WithoutNoise(init) + [last])[..|WithoutNoise(init)|] == WithoutNoise(init);
      }
    }
  }

  /** The state after some lines: open exactly after a header that parsed. */
  ghost predicate Follows(st: State, lines: seq<string>) {
    var h := LastHeader(lines);
    && st.result == Sections(lines)
    && st.open == (h >= 0 && ParseHeader(lines[h]).Some?)
    && (st.open ==> st.result != [])
  }

  lemma FeedFollows(st: State, lines: seq<string>, line: string)
    requires Follows(st, lines)
    ensures Follows(Feed(st, line), lines + [line])
  {
    hide Parse, ParseHeader, IsHeader;
    var all := lines + [line];
    var h := LastHeader(lines);
    assert all[..|lines|] == lines;
    if IsHeader(line) {
      assert LastHeader(all) == |lines|;
      assert all[|lines| + 1..] == [];
    } else {
      assert LastHeader(all) == h;
      if h >= 0 {
        assert all[..h] == lines[..h] && all[h] == lines[h];
        FramesPush(lines[h + 1..], line);
        assert all[h + 1..] == lines[h + 1..] + [line];
      }
    }
  }

  lemma FramesPush(lines: seq<string>, line: string)
    ensures FramesOf(lines + [line]) ==
      if IsFrameLine(line) && Parse(line).Some? then FramesOf(lines) + [Parse(line).value] else FramesOf(lines)
  {
    hide Parse;
    assert (lines + [line])[..|lines|] == lines;
  }

  /** The state machine builds exactly the sections. */
  lemma {:induction false} ReportIsSections(lines: seq<string>)
    ensures FeedAll(State([], false), lines).result == Sections(lines)
    ensures Follows(FeedAll(State([], false), lines), lines)
  {
    hide Feed, IsNoise, Sections, FeedAll;
    NoiseTestIsIdle(State([], false), lines);
    EveryFollows(lines);
  }

  lemma {:induction false} EveryFollows(lines: seq<string>)
    ensures Follows(FeedEvery(State([], false), lines), lines)
  {
    hide Feed, Sections;
    if lines == [] {
      NoSections();
    } else {
      var n := |lines| - 1;
      EveryFollows(lines[..n]);
      FeedFollows(FeedEvery(State([], false), lines[..n]), lines[..n], lines[n]);
      assert lines[..n] + [lines[n]] == lines;
    }
  }

  lemma NoSections()
    ensures Sections([]) == []
  {
  }
}
