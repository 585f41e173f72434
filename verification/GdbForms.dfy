/**
  Reports as gdb writes them, read by src/bas/proc/format_gdb.c: headers with a thread handle, an LWP
  number and a name, frames with any blanks after their number, and other lines between them.
 */
module GdbForms {
  import opened CText
  import opened StackFrames
  import opened GdbReport

  // ---------------------------------------------------------------------------
  // Headers
  // ---------------------------------------------------------------------------

  predicate Occurs(s: string, pat: string) {
    exists k :: 0 <= k <= |s| && pat <= s[k..]
  }

  /** The mark occurs in pre + mark only at its end. */
  predicate FirstMark(pre: string) {
    forall k :: 0 <= k < |pre| ==> !("(LWP " <= (pre + "(LWP ")[k..])
  }

  lemma MarkIsFound(pre: string, rest: string)
    requires FirstMark(pre)
    ensures Find(pre + ("(LWP " + rest), LWP) == Some(|pre|)
  {
    var s := pre + ("(LWP " + rest);
    forall k: nat | k < |pre|
      ensures !(LWP <= s[k..])
    {
      MarkNotBefore(pre, rest, k);
    }
    assert s[|pre|..] == LWP + rest;
    FindUnique(s, LWP, |pre|);
  }

  lemma LwpAfterMark(pre: string, rest: string)
    requires FirstMark(pre)
    ensures LwpIn(pre + ("(LWP " + rest)) == LeadingInt(rest)
  {
    hide Find, LeadingInt, FirstMark;
    MarkIsFound(pre, rest);
    assert (pre + ("(LWP " + rest))[|pre| + 5..] == rest;
  }

  lemma MarkNotBefore(pre: string, rest: string, k: nat)
    requires k < |pre| && !("(LWP " <= (pre + "(LWP ")[k..])
    ensures !(LWP <= (pre + ("(LWP " + rest))[k..])
  {
    var a := pre + LWP;
    var s := pre + ("(LWP " + rest);
    assert s == a + rest;
    assert |a| - k >= 5;
    assert s[k..][..5] == a[k..][..5];
  }

  lemma NumberShown(n: nat, rest: string)
    requires n <= INT_MAX && (rest == "" || !IsDigit(rest[0]))
    ensures LeadingInt(Decimal(n) + rest) == n
    ensures (Decimal(n) + rest)[DigitRun(Decimal(n) + rest)..] == rest
    ensures Decimal(n) + rest != "" && IsDigit((Decimal(n) + rest)[0])
  {
    hide Decimal, DigitRun, LeadingNumber, ToInt;
    DecimalRoundTrip(n, rest);
    DecimalFirst(n, rest);
  }

  /** Wherever it stands after the thread number, the number after the first "(LWP " is the LWP. */
  lemma {:induction false} LwpAnywhere(id: nat, pre: string, lwp: nat, rest: string)
    requires id <= INT_MAX && lwp <= INT_MAX && (pre == "" || !IsDigit(pre[0])) && FirstMark(pre)
    requires rest == "" || !IsDigit(rest[0])
    ensures var t := ParseHeader("Thread " + (Decimal(id) + (pre + ("(LWP " + (Decimal(lwp) + rest)))));
      t.Some? && t.value.id == id && t.value.lwp == lwp
  {
    hide Decimal, DigitRun, LeadingInt, LwpIn, QuotedIn, ParseHeader, FirstMark;
    var after := pre + ("(LWP " + (Decimal(lwp) + rest));
    assert after[0] == if pre == "" then '(' else pre[0];
    NumberShown(id, after);
    HeaderStart("Thread " + (Decimal(id) + after), Decimal(id) + after);
    LwpAfterMark(pre, Decimal(lwp) + rest);
    NumberShown(lwp, rest);
  }

  /** Without a mark the LWP is 0. */
  lemma {:induction false} NoLwp(id: nat, after: string)
    requires id <= INT_MAX && (after == "" || !IsDigit(after[0])) && !Occurs(after, "(LWP ")
    ensures var t := ParseHeader("Thread " + (Decimal(id) + after)); t.Some? && t.value.id == id && t.value.lwp == 0
  {
    hide Decimal, DigitRun, Find, QuotedIn, ParseHeader, Occurs;
    NumberShown(id, after);
    HeaderStart("Thread " + (Decimal(id) + after), Decimal(id) + after);
    NotFound(after);
  }

  /** ... and so it is without a number after the first one, even if a later one has a number. */
  lemma {:induction false} LwpWithoutNumber(id: nat, pre: string, rest: string)
    requires id <= INT_MAX && (pre == "" || !IsDigit(pre[0])) && FirstMark(pre) && (rest == "" || !IsDigit(rest[0]))
    ensures var t := ParseHeader("Thread " + (Decimal(id) + (pre + ("(LWP " + rest))));
      t.Some? && t.value.id == id && t.value.lwp == 0
  {
    hide Decimal, DigitRun, LeadingInt, LwpIn, QuotedIn, ParseHeader, FirstMark;
    NoNumber(rest);
    var after := pre + ("(LWP " + rest);
    assert after[0] == if pre == "" then '(' else pre[0];
    NumberShown(id, after);
    HeaderStart("Thread " + (Decimal(id) + after), Decimal(id) + after);
    LwpAfterMark(pre, rest);
  }

  lemma NoNumber(rest: string)
    requires rest == "" || !IsDigit(rest[0])
    ensures LeadingInt(rest) == 0
  {
  }

  lemma NotFound(s: string)
    requires !Occurs(s, "(LWP ")
    ensures Find(s, LWP) == None
  {
  }

  /** The name of a header is what stands between the first two double quotes of the line. */
  lemma {:induction false} NameAnywhere(line: string, before: string, name: string, rest: string)
    requires ParseHeader(line).Some? && line == before + ("\"" + (name + ("\"" + rest)))
    requires '"' !in before && '"' !in name
    ensures ParseHeader(line).value.name == Some(name)
  {
    hide QuotedIn, LwpIn, SkipBlanks, LeadingInt, DigitRun;
    QuotedIff(before, name, "\"" + rest);
  }

  /** gdb's own header, up to the closing parenthesis. */
  function GdbHeader(id: nat, handle: string, lwp: nat, name: string): string {
    "Thread " + (Decimal(id) + (" (Thread " + handle + " (LWP " + (Decimal(lwp) + (") \"" + (name + "\"")))))
  }

  lemma HandleHasNoMark(handle: string)
    requires '(' !in handle
    ensures FirstMark(" (Thread " + handle + " ")
  {
    var pre := " (Thread " + handle + " ";
    forall k: nat | k < |pre|
      ensures !("(LWP " <= (pre + "(LWP ")[k..])
    {
      var t := (pre + "(LWP ")[k..];
      assert t[0] == pre[k];
      if k == 1 {
        assert t[1] == pre[2] == 'T';
      } else {
        assert k > 8 && k < |pre| - 1 ==> pre[k] == handle[k - 9];
        assert pre[k] != '(';
      }
    }
  }

  lemma {:induction false} GdbHeaderIsRead(id: nat, handle: string, lwp: nat, name: string, rest: string)
    requires id <= INT_MAX && lwp <= INT_MAX
    requires '(' !in handle && '"' !in handle && '"' !in name
    ensures ParseHeader(GdbHeader(id, handle, lwp, name) + rest) == Some(Thread(id, lwp, Some(name)))
  {
    hide Decimal, ParseHeader, FirstMark;
    var pre := " (Thread " + handle + " ";
    var tail := ") \"" + (name + ("\"" + rest));
    var line := GdbHeader(id, handle, lwp, name) + rest;
    HandleHasNoMark(handle);
    HeaderSplits(id, handle, lwp, name, rest);
    LwpAnywhere(id, pre, lwp, tail);
    var before := "Thread " + Decimal(id) + pre + "(LWP " + Decimal(lwp) + ") ";
    NoQuotes(id, handle, lwp);
    NameAnywhere(line, before, name, rest);
    HeaderIs(line);
  }

  lemma HeaderSplits(id: nat, handle: string, lwp: nat, name: string, rest: string)
    ensures var pre := " (Thread " + handle + " ";
      var line := GdbHeader(id, handle, lwp, name) + rest;
      && line == "Thread " + (Decimal(id) + (pre + ("(LWP " + (Decimal(lwp) + (") \"" + (name + ("\"" + rest)))))))
      && line == ("Thread " + Decimal(id) + pre + "(LWP " + Decimal(lwp) + ") ") + ("\"" + (name + ("\"" + rest)))
  {
    hide Decimal;
  }

  lemma NoQuotes(id: nat, handle: string, lwp: nat)
    requires '"' !in handle
    ensures '"' !in "Thread " + Decimal(id) + (" (Thread " + handle + " ") + "(LWP " + Decimal(lwp) + ") "
  {
    hide Decimal;
    assert '"' !in Decimal(id) && '"' !in Decimal(lwp);
  }

  lemma HeaderIs(line: string)
    requires ParseHeader(line).Some? && ParseHeader(line).value.name.Some?
    ensures var t := ParseHeader(line).value; ParseHeader(line) == Some(Thread(t.id, t.lwp, t.name))
  {
    hide ParseHeader;
  }

  predicate AllBlank(s: string) {
    forall i :: 0 <= i < |s| ==> IsBlank(s[i])
  }

  /** Blanks before a header change nothing. */
  lemma {:induction false} IndentedHeader(indent: string, line: string)
    requires AllBlank(indent) && line != "" && !IsBlank(line[0])
    ensures ParseHeader(indent + line) == ParseHeader(line)
  {
    hide SkipBlanks, LwpIn, LeadingInt, DigitRun, QuotedIn;
    SkipBlanksOf(indent, line);
    NoBlanks(line);
    IndentedQuotes(indent, line);
  }

  lemma IndentedQuotes(indent: string, line: string)
    requires AllBlank(indent)
    ensures QuotedIn(indent + line) == QuotedIn(line)
  {
    var s, q := indent + line, IndexOf(line, '"');
    assert forall k :: 0 <= k < |indent| ==> s[k] == indent[k] != '"';
    assert forall k :: 0 <= k < |line| ==> s[|indent| + k] == line[k];
    if q < |line| {
      IndexOfUnique(s, '"', |indent| + q);
      assert s[|indent| + q + 1..] == line[q + 1..];
    } else {
      IndexOfAbsent(s, '"');
    }
  }

  // ---------------------------------------------------------------------------
  // Frames
  // ---------------------------------------------------------------------------

  /** A frame with blanks after its number, the address only if there is one. */
  function GdbFrame(f: Frame, gap: string): string {
    "#" + (Signed(f.number) + (gap + FromAddress(f)))
  }

  function FromAddress(f: Frame): string {
    if f.address == "" then f.name + AfterName(f) else f.address + " in " + (f.name + AfterName(f))
  }

  /** After the blanks, a frame without an address shows its name. */
  predicate ShowsName(f: Frame) {
    var s := f.name + AfterName(f);
    s != "" && !IsBlank(s[0]) && !HexMark(s) && !("in " <= s)
  }

  predicate IsGdbFrame(f: Frame) {
    && f.number >= 0 && IsInt(f.line) && BodyOk(f)
    && if f.address == "" then ShowsName(f) else IsAddress(f.address)
  }

  lemma FrontAfterGap(n: nat, gap: string, u: string)
    requires gap != "" && AllBlank(gap) && (u == "" || !IsBlank(u[0]))
    ensures ReadFront(Decimal(n) + (gap + u)) ==
      Front(n, u[..AddressLength(u)], DropIn(SkipBlanks(u[AddressLength(u)..])))
  {
    hide Decimal, DigitRun, LeadingNumber, SkipBlanks, DropIn, AddressLength;
    var t := gap + u;
    assert t[0] == gap[0];
    DecimalRoundTrip(n, t);
    assert (Decimal(n) + t)[|Decimal(n)|..] == t;
    SkipBlanksOf(gap, u);
  }

  lemma {:induction false} GdbFrameIsRead(f: Frame, gap: string)
    requires IsGdbFrame(f) && gap != "" && AllBlank(gap)
    ensures Parse(GdbFrame(f, gap)) == Some(f)
  {
    hide Decimal, ReadFront, ReadBody, AfterName, BodyOk, IsAddress, SkipBlanks, DropIn, AddressLength;
    var s := f.name + AfterName(f);
    ParseHash(f.number, gap + FromAddress(f));
    BodyIff(f);
    if f.address == "" {
      FrontAfterGap(f.number, gap, s);
      NameShown(f);
    } else {
      AddressStarts(f.address);
      assert FromAddress(f) == f.address + " in " + s;
      assert FromAddress(f)[0] == f.address[0];
      FrontAfterGap(f.number, gap, FromAddress(f));
      FrontAfterGap(f.number, " ", FromAddress(f));
      assert " " + FromAddress(f) == " " + f.address + " in " + s;
      FrontWithAddress(f.number, f.address, s);
    }
  }

  lemma AddressStarts(a: string)
    requires IsAddress(a)
    ensures |a| > 1 && !IsBlank(a[0]) && (a[1] == 'x' || a[1] == 'X')
  {
  }

  lemma NameShown(f: Frame)
    requires ShowsName(f)
    ensures var s := f.name + AfterName(f); AddressLength(s) == 0 && DropIn(SkipBlanks(s[0..])) == s && s[..0] == ""
  {
    hide AfterName;
    var s := f.name + AfterName(f);
    NoBlanks(s);
    assert s[0..] == s;
  }

  lemma ZeroAtEnd(digits: string)
    requires AllDigits(digits)
    ensures AllDigits(digits + "0") && ValueOf(digits + "0") == 10 * ValueOf(digits)
  {
    var s := digits + "0";
    assert s[..|s| - 1] == digits && s[|s| - 1] == '0';
  }

  /** A frame number joined to its address: the digits end in the address' own 0. */
  lemma JoinedNumber(n: nat, a: string, rest: string)
    requires IsAddress(a)
    ensures Number(Decimal(n) + (a + rest)) == if n > 0 then (n, a + rest) else (0, a[1..] + rest)
  {
    hide Decimal, ValueOf, DigitRun;
    var digits, t := Decimal(n) + "0", Decimal(n) + (a + rest);
    var r := a[1..] + rest;
    assert a[0] == '0' && a[1] == r[0] && !IsDigit(r[0]);
    assert "0" + r == a + rest && t == digits + r;
    ZeroAtEnd(Decimal(n));
    ValueOfDecimal(n);
    DigitRunIs(digits, r);
    assert t[..|digits|] == digits && t[|digits|..] == r;
  }

  /** `#30x7f... in f (...)`: the address may follow the number directly, if the number is not 0. */
  lemma {:induction false} JoinedFrameIff(f: Frame)
    requires IsGdbFrame(f) && f.address != ""
    ensures Parse("#" + (Decimal(f.number) + FromAddress(f))) == Some(f) <==> f.number > 0
  {
    hide Decimal, ReadBody, AfterName, BodyOk, IsAddress, SkipBlanks, DropIn, AddressLength, Number;
    var s, u := f.name + AfterName(f), FromAddress(f);
    ParseHash(f.number, u);
    BodyIff(f);
    AddressStarts(f.address);
    assert u == f.address + " in " + s == f.address + (" in " + s) && u[0] == f.address[0];
    JoinedNumber(f.number, f.address, " in " + s);
    if f.number > 0 {
      NoBlanks(u);
      FrontAfterGap(f.number, " ", u);
      assert " " + u == " " + f.address + " in " + s;
      FrontWithAddress(f.number, f.address, s);
    } else {
      NoAddress(f.address[1..] + (" in " + s));
    }
  }

  /** Without its 0 an address is none. */
  lemma NoAddress(r: string)
    requires r != "" && (r[0] == 'x' || r[0] == 'X')
    ensures AddressLength(SkipBlanks(r)) == 0
  {
    NoBlanks(r);
  }

  // ---------------------------------------------------------------------------
  // Whole reports
  // ---------------------------------------------------------------------------

  /** A line under a header: a frame, or one that does not start with '#' or, after blanks, with "Thread ". */
  datatype BodyLine = FrameLine(frame: Frame, gap: string) | OtherLine(text: string)

  /**
    A part of a report: a thread with its header, what follows the quoted name, and the lines under
    it; or a header without a number and the lines under that.
   */
  datatype Part =
    | Section(indent: string, id: nat, handle: string, lwp: nat, name: string, tail: string, body: seq<BodyLine>)
    | Broken(indent: string, text: string, lines: seq<string>)

  function BodyText(b: BodyLine): string {
    match b
    case FrameLine(f, gap) => GdbFrame(f, gap)
    case OtherLine(text) => text
  }

  function HeaderLine(s: Part): string {
    s.indent + (if s.Section? then GdbHeader(s.id, s.handle, s.lwp, s.name) + s.tail else "Thread " + s.text)
  }

  /** Text that ends with its only newline, and has no NUL. */
  predicate IsText(line: string) {
    IsLine(line, false) && '\0' !in line
  }

  /** After its blanks the line does not start with "Thread ". */
  ghost predicate NoHeader(line: string) {
    forall n :: 0 <= n <= |line| && AllBlank(line[..n]) ==> !("Thread " <= line[n..])
  }

  ghost predicate IsOther(text: string) {
    IsText(text) && text[0] != '#' && NoHeader(text)
  }

  lemma {:induction false} NoHeaderIs(line: string)
    requires NoHeader(line)
    ensures !IsHeader(line)
  {
    var n := BlanksBefore(line);
    assert !("Thread " <= line[n..]);
  }

  lemma {:induction false} BlanksBefore(line: string) returns (n: nat)
    ensures n <= |line| && AllBlank(line[..n]) && SkipBlanks(line) == line[n..]
  {
    n := 0;
    if line != "" && IsBlank(line[0]) {
      var m := BlanksBefore(line[1..]);
      n := m + 1;
      assert line[..n] == [line[0]] + line[1..][..m];
    }
  }

  ghost predicate IsBodyLine(b: BodyLine) {
    match b
    case FrameLine(f, gap) => IsGdbFrame(f) && gap != "" && AllBlank(gap) && IsText(GdbFrame(f, gap))
    case OtherLine(text) => IsOther(text)
  }

  ghost predicate IsPart(s: Part) {
    && AllBlank(s.indent) && IsText(HeaderLine(s))
    && match s
       case Section(_, id, handle, lwp, name, _, body) =>
         && id <= INT_MAX && lwp <= INT_MAX && '(' !in handle && '"' !in handle && '"' !in name
         && forall i :: 0 <= i < |body| ==> IsBodyLine(body[i])
       case Broken(_, text, lines) =>
         && (text == "" || !IsDigit(text[0])) && AreTexts(lines)
         && forall i :: 0 <= i < |lines| ==> NoHeader(lines[i])
  }

  ghost predicate AreParts(parts: seq<Part>) {
    forall i :: 0 <= i < |parts| ==> IsPart(parts[i])
  }

  ghost predicate AreTexts(lines: seq<string>) {
    forall i :: 0 <= i < |lines| ==> IsText(lines[i])
  }

  /** The frames of some lines, in order. */
  function FramesUnder(body: seq<BodyLine>): seq<Frame> {
    if body == [] then []
    else
      var init, last := FramesUnder(body[..|body| - 1]), body[|body| - 1];
      if last.FrameLine? then init + [last.frame] else init
  }

  /** The threads of a report with their frames. */
  function DumpsOf(parts: seq<Part>): seq<Dump> {
    if parts == [] then []
    else
      var init, last := DumpsOf(parts[..|parts| - 1]), parts[|parts| - 1];
      if last.Section? then init + [DumpOf(last)] else init
  }

  function DumpOf(s: Part): Dump
    requires s.Section?
  {
    Dump(Thread(s.id, s.lwp, Some(s.name)), FramesUnder(s.body))
  }

  function BodyLines(body: seq<BodyLine>): seq<string> {
    if body == [] then [] else BodyLines(body[..|body| - 1]) + [BodyText(body[|body| - 1])]
  }

  function PartLines(s: Part): seq<string> {
    [HeaderLine(s)] + if s.Section? then BodyLines(s.body) else s.lines
  }

  function ReportLines(parts: seq<Part>): seq<string> {
    if parts == [] then [] else ReportLines(parts[..|parts| - 1]) + PartLines(parts[|parts| - 1])
  }

  lemma FeedHeader(st: State, s: Part)
    requires IsPart(s) && s.Section?
    ensures Feed(st, HeaderLine(s)) == State(st.result + [Dump(Thread(s.id, s.lwp, Some(s.name)), [])], true)
  {
    hide ParseHeader, Parse, GdbHeader, IsText, IsBodyLine;
    var header := GdbHeader(s.id, s.handle, s.lwp, s.name) + s.tail;
    GdbHeaderStarts(s.id, s.handle, s.lwp, s.name, s.tail);
    GdbHeaderIsRead(s.id, s.handle, s.lwp, s.name, s.tail);
    IndentedHeader(s.indent, header);
    SkipBlanksOf(s.indent, header);
  }

  lemma GdbHeaderStarts(id: nat, handle: string, lwp: nat, name: string, rest: string)
    ensures var header := GdbHeader(id, handle, lwp, name) + rest;
      "Thread " <= header && header != "" && !IsBlank(header[0])
  {
    hide Decimal;
    assert GdbHeader(id, handle, lwp, name)[0] == 'T';
  }

  lemma FeedBodyLine(st: State, b: BodyLine)
    requires IsBodyLine(b) && st.open && st.result != []
    ensures Feed(st, BodyText(b)) == if b.FrameLine? then State(AddFrame(st.result, b.frame), true) else st
  {
    hide Parse, ParseHeader, GdbFrame, IsText, IsGdbFrame, IsHeader, NoHeader;
    if b.FrameLine? {
      GdbFrameIsRead(b.frame, b.gap);
      FrameLineIs(b.frame, b.gap);
    } else {
      NoHeaderIs(b.text);
    }
  }

  lemma FrameLineIs(f: Frame, gap: string)
    ensures IsFrameLine(GdbFrame(f, gap)) && !IsHeader(GdbFrame(f, gap))
  {
    hide Decimal, FromAddress;
    var line := GdbFrame(f, gap);
    assert line[0] == '#';
    NoBlanks(line);
  }

  lemma {:induction false} FeedBody(result: seq<Dump>, t: Thread, body: seq<BodyLine>)
    requires forall i :: 0 <= i < |body| ==> IsBodyLine(body[i])
    ensures FeedEvery(State(result + [Dump(t, [])], true), BodyLines(body))
      == State(result + [Dump(t, FramesUnder(body))], true)
  {
    hide Feed, BodyText, IsBodyLine;
    if body != [] {
      var init, last := body[..|body| - 1], body[|body| - 1];
      FeedBody(result, t, init);
      FeedBodyLine(State(result + [Dump(t, FramesUnder(init))], true), last);
      EveryPush(State(result + [Dump(t, [])], true), BodyLines(init), BodyText(last));
    }
  }

  lemma EveryPush(st: State, lines: seq<string>, line: string)
    ensures FeedEvery(st, lines + [line]) == Feed(FeedEvery(st, lines), line)
  {
    hide Feed;
    assert (lines + [line])[..|lines|] == lines;
  }

  lemma {:induction false} EveryConcat(st: State, a: seq<string>, b: seq<string>)
    ensures FeedEvery(st, a + b) == FeedEvery(FeedEvery(st, a), b)
    decreases |b|
  {
    hide Feed;
    if b == [] {
      assert a + b == a;
    } else {
      var init, last := b[..|b| - 1], b[|b| - 1];
      assert a + b == (a + init) + [last] && b == init + [last];
      EveryConcat(st, a, init);
      EveryPush(st, a + init, last);
      EveryPush(FeedEvery(st, a), init, last);
    }
  }

  lemma {:induction false} FeedSection(st: State, s: Part)
    requires IsPart(s) && s.Section?
    ensures FeedEvery(st, PartLines(s)) == State(st.result + [DumpOf(s)], true)
  {
    hide Feed, IsBodyLine, HeaderLine, FeedEvery, BodyLines, FramesUnder;
    var t := Thread(s.id, s.lwp, Some(s.name));
    FeedHeader(st, s);
    EveryOne(st, HeaderLine(s));
    EveryConcat(st, [HeaderLine(s)], BodyLines(s.body));
    FeedBody(st.result, t, s.body);
  }

  lemma EveryOne(st: State, line: string)
    ensures FeedEvery(st, [line]) == Feed(st, line)
  {
    hide Feed, FeedEvery;
    EveryPush(st, [], line);
    assert [] + [line] == [line];
    NothingFed(st);
  }

  /** A header without a number ends the thread before it and starts none. */
  lemma {:induction false} FeedBroken(st: State, s: Part)
    requires IsPart(s) && s.Broken?
    ensures FeedEvery(st, PartLines(s)) == State(st.result, false)
  {
    hide Feed, HeaderLine, FeedEvery, IsText, NoHeader;
    BrokenHeader(st, s);
    EveryOne(st, HeaderLine(s));
    EveryConcat(st, [HeaderLine(s)], s.lines);
    FeedClosed(st.result, s.lines);
  }

  lemma BrokenHeader(st: State, s: Part)
    requires AllBlank(s.indent) && s.Broken? && (s.text == "" || !IsDigit(s.text[0]))
    ensures Feed(st, HeaderLine(s)) == State(st.result, false)
  {
    hide Parse, SkipBlanks, LwpIn, QuotedIn, LeadingInt;
    assert ("Thread " + s.text)[0] == 'T' && ("Thread " + s.text)[7..] == s.text;
    SkipBlanksOf(s.indent, "Thread " + s.text);
  }

  lemma NothingFed(st: State)
    ensures FeedEvery(st, []) == st
  {
  }

  /** Where no thread is current nothing is kept, frame lines included. */
  lemma {:induction false} FeedClosed(result: seq<Dump>, lines: seq<string>)
    requires forall i :: 0 <= i < |lines| ==> NoHeader(lines[i])
    ensures FeedEvery(State(result, false), lines) == State(result, false)
  {
    hide IsHeader, Parse, ParseHeader, NoHeader;
    if lines != [] {
      FeedClosed(result, lines[..|lines| - 1]);
      NoHeaderIs(lines[|lines| - 1]);
    }
  }

  lemma {:induction false} FeedParts(parts: seq<Part>)
    requires AreParts(parts)
    ensures FeedEvery(State([], false), ReportLines(parts)).result == DumpsOf(parts)
  {
    hide IsPart, PartLines, FeedEvery, DumpOf;
    if parts == [] {
      NothingFed(State([], false));
    } else {
      var init, last := parts[..|parts| - 1], parts[|parts| - 1];
      FeedParts(init);
      var st := FeedEvery(State([], false), ReportLines(init));
      EveryConcat(State([], false), ReportLines(init), PartLines(last));
      if last.Section? {
        FeedSection(st, last);
      } else {
        FeedBroken(st, last);
      }
    }
  }

  // ---------------------------------------------------------------------------
  // As a stream
  // ---------------------------------------------------------------------------

  lemma FirstLine(line: string, rest: string)
    requires IsLine(line, false)
    ensures LineLength(line + rest) == |line|
  {
    var s, n := line + rest, LineLength(line + rest);
    assert forall k :: 0 <= k < |line| ==> s[k] == line[k];
  }

  lemma LineNotEmpty(line: string)
    requires IsLine(line, false)
    ensures line != ""
  {
  }

  lemma {:induction false} LinesOfConcat(lines: seq<string>)
    requires forall i :: 0 <= i < |lines| ==> IsLine(lines[i], false)
    ensures Lines(Concat(lines)) == lines
  {
    hide IsLine, LineLength;
    if lines != [] {
      var rest := Concat(lines[1..]);
      FirstLine(lines[0], rest);
      LinesOfConcat(lines[1..]);
      LineNotEmpty(lines[0]);
      assert (lines[0] + rest)[..|lines[0]|] == lines[0] && (lines[0] + rest)[|lines[0]|..] == rest;
    }
  }

  /** A NUL byte hides the rest of its line. */
  lemma NulHides(before: string, after: string)
    requires '\0' !in before
    ensures Visible(before + ("\0" + after)) == before
  {
    var s := before + ("\0" + after);
    assert forall k :: 0 <= k < |before| ==> s[k] == before[k];
    IndexOfUnique(s, '\0', |before|);
  }

  lemma AllVisible(lines: seq<string>)
    requires forall i :: 0 <= i < |lines| ==> '\0' !in lines[i]
    ensures VisibleAll(lines) == lines
  {
    forall i | 0 <= i < |lines|
      ensures Visible(lines[i]) == lines[i]
    {
      IndexOfAbsent(lines[i], '\0');
    }
  }

  lemma {:induction false} BodyIsText(body: seq<BodyLine>)
    requires forall i :: 0 <= i < |body| ==> IsBodyLine(body[i])
    ensures AreTexts(BodyLines(body))
  {
    hide IsText, GdbFrame, IsGdbFrame, NoHeader;
    if body != [] {
      BodyIsText(body[..|body| - 1]);
    }
  }

  lemma {:induction false} ReportIsText(parts: seq<Part>)
    requires AreParts(parts)
    ensures AreTexts(ReportLines(parts))
  {
    hide IsText, HeaderLine, IsBodyLine, NoHeader;
    if parts != [] {
      var last := parts[|parts| - 1];
      ReportIsText(parts[..|parts| - 1]);
      if last.Section? {
        BodyIsText(last.body);
      }
    }
  }

  /**
    Whole reports come back: whatever lines come first, every thread with its number, its LWP, its
    name and exactly its frames, in order. Frames under a header without a number are dropped.
   */
  lemma {:induction false} ReportIsRead(prelude: seq<string>, parts: seq<Part>)
    requires AreTexts(prelude) && forall i :: 0 <= i < |prelude| ==> NoHeader(prelude[i])
    requires AreParts(parts)
    ensures Report(Concat(prelude + ReportLines(parts))) == DumpsOf(parts)
  {
    hide AreParts, ReportLines, DumpsOf, NoHeader, FeedEvery, FeedAll, Lines, VisibleAll;
    var lines := prelude + ReportLines(parts);
    ReportIsText(parts);
    LinesOfConcat(lines);
    AllVisible(lines);
    NoiseTestIsIdle(State([], false), lines);
    EveryConcat(State([], false), prelude, ReportLines(parts));
    FeedClosed([], prelude);
    FeedParts(parts);
  }
}
