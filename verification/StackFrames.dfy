/**
  One stack frame as a line of text: stack_frame_format in src/bas/proc/stackdump.c and
  gdb_output_stack_frame_parse in src/bas/proc/format_gdb.c.
 */
module StackFrames {
  import opened CText

  const INT_MAX := 0x7FFF_FFFF

  /** stack_frame_t; "" for a string field that is NULL, which the printer does not tell apart. */
  datatype Frame = Frame(number: int, address: string, name: string, params: string, file: string, line: int)

  /** The escape sequences of a colour schema. */
  datatype Schema = Schema(reset: string, frameIndex: string, symbol: string, params: string, location: string)

  const PLAIN := Schema("", "", "", "", "")

  /** A value that fits an int. */
  predicate IsInt(n: int) {
    -INT_MAX - 1 <= n <= INT_MAX
  }

  function Signed(n: int): string {
    if n < 0 then "-" + Decimal(-n) else Decimal(n)
  }

  // ---------------------------------------------------------------------------
  // Printing
  // ---------------------------------------------------------------------------

  function FormatParams(f: Frame, s: Schema): string {
    if f.params == "" then "" else " " + s.params + f.params + s.reset
  }

  function FormatLocation(f: Frame, s: Schema): string {
    if f.file == "" then ""
    else " at " + s.location + (if f.line > 0 then f.file + ":" + Decimal(f.line) else f.file) + s.reset
  }

  function FormatIndex(f: Frame, s: Schema): string {
    s.frameIndex + "#" + Signed(f.number) + s.reset
  }

  function FormatAddress(f: Frame): string {
    if f.address == "" then "" else " " + f.address + " in "
  }

  function FormatName(f: Frame, s: Schema): string {
    if f.name == "" then "" else s.symbol + f.name + s.reset
  }

  function Format(f: Frame, s: Schema): string {
    FormatIndex(f, s) + (FormatAddress(f) + (FormatName(f, s) + (FormatParams(f, s) + FormatLocation(f, s) + "\n")))
  }

  // ---------------------------------------------------------------------------
  // Parsing
  // ---------------------------------------------------------------------------

  /** What stands before the symbol. */
  datatype Front = Front(number: int, address: string, rest: string)

  /** From the symbol on. */
  datatype Body = Body(name: string, params: string, file: string, line: int)

  function HexRun(s: string): (n: nat)
    ensures n <= |s|
    ensures forall k :: 0 <= k < n ==> IsHexDigit(s[k])
    ensures n < |s| ==> !IsHexDigit(s[n])
  {
    if s == "" || !IsHexDigit(s[0]) then 0 else 1 + HexRun(s[1..])
  }

  predicate HexMark(s: string) {
    |s| >= 2 && s[0] == '0' && (s[1] == 'x' || s[1] == 'X')
  }

  /** Length of the address a text starts with, 0 if none. */
  function AddressLength(s: string): (n: nat)
    ensures n <= |s|
  {
    if HexMark(s) then 2 + HexRun(s[2..]) else 0
  }

  /** Frame number, with "#30x7f..." read as frame 3 at 0x7f..., and the text left. */
  function Number(t: string): (int, string) {
    var num, r := LeadingNumber(t), t[DigitRun(t)..];
    if num > 0 && r != "" && (r[0] == 'x' || r[0] == 'X') && num % 10 == 0 then (num / 10, "0" + r) else (num, r)
  }

  function DropIn(s: string): string {
    if "in " <= s then s[3..] else s
  }

  function ReadFront(t: string): Front {
    var (number, r) := Number(t);
    var u := SkipBlanks(r);
    var n := AddressLength(u);
    Front(number, u[..n], DropIn(SkipBlanks(u[n..])))
  }

  /** Where the symbol ends: before " at ", before " (", or with the text. */
  predicate IsStop(s: string) {
    " at " <= s || " (" <= s
  }

  function NameEnd(s: string): (n: nat)
    ensures n <= |s|
    ensures n < |s| ==> IsStop(s[n..])
    ensures forall k :: 0 <= k < n ==> !IsStop(s[k..])
  {
    if s == "" || IsStop(s) then 0
    else
      var n := NameEnd(s[1..]);
      NoStopBefore(s, n);
      1 + n
  }

  lemma NoStopBefore(s: string, n: nat)
    requires s != "" && n < |s| && !IsStop(s) && forall k :: 0 <= k < n ==> !IsStop(s[1..][k..])
    ensures forall k :: 0 <= k < 1 + n ==> !IsStop(s[k..])
    ensures s[1 + n..] == s[1..][n..]
  {
    hide IsStop;
    forall k | 0 <= k < 1 + n
      ensures !IsStop(s[k..])
    {
      if k == 0 {
        assert s[0..] == s;
      } else {
        assert s[1..][k - 1..] == s[k..];
      }
    }
  }

  /** Index after the parenthesis that closes `depth` open ones, if there is one. */
  function GroupEnd(s: string, depth: nat): (r: Option<nat>)
    requires depth > 0
    ensures r.Some? ==> 0 < r.value <= |s|
    decreases s
  {
    if s == "" then None
    else
      var d := if s[0] == '(' then depth + 1 else if s[0] == ')' then depth - 1 else depth;
      if d == 0 then Some(1)
      else
        match GroupEnd(s[1..], d)
        case None => None
        case Some(n) => Some(n + 1)
  }

  /** The parenthesised group a text starts with, and the text after it; an open group takes everything. */
  function ReadParams(s: string): (string, string) {
    if s != "" && s[0] == '(' then
      match GroupEnd(s[1..], 1)
      case None => ("", "")
      case Some(n) => (s[..n + 1], s[n + 1..])
    else ("", s)
  }

  predicate IsColon(s: string) {
    |s| >= 2 && s[0] == ':' && IsDigit(s[1])
  }

  /** Index of the first ':' before a digit on this line, or |s|. */
  function ColonAt(s: string): (n: nat)
    ensures n <= |s|
    ensures n < |s| ==> IsColon(s[n..])
  {
    if s == "" || s[0] == '\n' || s[0] == '\r' then |s|
    else if IsColon(s) then 0
    else 1 + ColonAt(s[1..])
  }

  /** (int)strtol(...) of a run of digits: clamped to a 64-bit long, then cut to 32 bits. */
  function ToInt(value: nat): (n: int)
    ensures value <= INT_MAX ==> n == value
    ensures IsInt(n) && (if value <= 0x7FFF_FFFF_FFFF_FFFF then (value - n) % 0x1_0000_0000 == 0 else n == -1)
  {
    var clamped := if value > 0x7FFF_FFFF_FFFF_FFFF then 0x7FFF_FFFF_FFFF_FFFF else value;
    var low := clamped % 0x1_0000_0000;
    if low > INT_MAX then low - 0x1_0000_0000 else low
  }

  function ReadLocation(s: string): (string, int) {
    if "at " <= s then
      var u := s[3..];
      var n := ColonAt(u);
      if 0 < n < |u| then (u[..n], ToInt(LeadingNumber(u[n + 1..]))) else ("", 0)
    else ("", 0)
  }

  function ReadBody(s: string): Body {
    var n := NameEnd(s);
    var (params, r) := ReadParams(SkipBlanks(s[n..]));
    var (file, line) := ReadLocation(SkipBlanks(r));
    Body(s[..n], params, file, line)
  }

  predicate StartsFrame(p: string) {
    |p| >= 2 && p[0] == '#' && IsDigit(p[1])
  }

  /** gdb_output_stack_frame_parse */
  function Parse(text: string): Option<Frame> {
    var p := SkipBlanks(text);
    if !StartsFrame(p) then None
    else
      var front := ReadFront(p[1..]);
      var body := ReadBody(front.rest);
      Some(Frame(front.number, front.address, body.name, body.params, body.file, body.line))
  }

  // ---------------------------------------------------------------------------
  // Which frames survive
  // ---------------------------------------------------------------------------

  /** "0x" and hexadecimal digits. */
  predicate IsAddress(a: string) {
    HexMark(a) && forall k :: 2 <= k < |a| ==> IsHexDigit(a[k])
  }

  /** One balanced group in parentheses. */
  predicate IsGroup(p: string) {
    p != "" && p[0] == '(' && GroupEnd(p[1..], 1) == Some(|p| - 1)
  }

  /** A name can be told from what follows it: it holds no " (" and, with a blank after it, no " at ". */
  predicate NameEndsItself(name: string) {
    forall k :: 0 <= k < |name| ==> !IsStop((name + " ")[k..])
  }

  predicate NameStartsItself(number: int, name: string) {
    && name != "" && !IsDigit(name[0]) && !IsBlank(name[0])
    && !("in " <= name + " ")
    && !(number > 0 && number % 10 == 0 && (name[0] == 'x' || name[0] == 'X'))
  }

  /** One line, and no colon before a digit. */
  predicate IsFile(file: string) {
    forall k :: 0 <= k < |file| ==> file[k] != '\n' && file[k] != '\r' && !IsColon(file[k..])
  }

  predicate BodyOk(f: Frame) {
    && (f.params != "" || f.file != "")
    && NameEndsItself(f.name)
    && (f.params != "" ==> IsGroup(f.params))
    && (if f.file == "" then f.line == 0 else f.line > 0 && IsFile(f.file))
  }

  /** The frames whose printed line can be read back. */
  predicate Readable(f: Frame) {
    && f.number >= 0
    && (f.address != "" ==> IsAddress(f.address))
    && (f.address == "" ==> NameStartsItself(f.number, f.name))
    && BodyOk(f)
  }

  function BodyOf(f: Frame): Body {
    Body(f.name, f.params, f.file, f.line)
  }

  // ---------------------------------------------------------------------------
  // The body of a line
  // ---------------------------------------------------------------------------

  lemma StopAt(name: string, t: string)
    requires IsStop(t) && NameEndsItself(name)
    ensures NameEnd(name + t) == |name|
  {
    var s := name + t;
    assert s[|name|..] == t;
    forall k | 0 <= k < |name|
      ensures !IsStop(s[k..])
    {
      StopBefore(name, t, k);
    }
  }

  /** Whether the name ends at k is decided by the name and the blank after it. */
  lemma StopBefore(name: string, t: string, k: nat)
    requires t != "" && t[0] == ' ' && k < |name|
    ensures IsStop((name + t)[k..]) <==> IsStop((name + " ")[k..])
  {
    var a, b := (name + t)[k..], (name + " ")[k..];
    var n := |name| - k + 1;
    assert a[..n] == b;
    assert forall i :: 0 <= i < n ==> a[i] == b[i];
    if IsStop(a) {
      if " (" <= a {
        assert a[0] == ' ' && a[1] == '(';
        assert n > 1 && b[1] == a[1];
        assert " (" <= b;
      } else {
        assert a[0] == ' ' && a[1] == 'a' && a[2] == 't' && a[3] == ' ';
      }
    }
  }

  lemma NoBlanks(s: string)
    requires s == "" || !IsBlank(s[0])
    ensures SkipBlanks(s) == s
  {
  }

  lemma OneBlank(t: string)
    requires t == "" || !IsBlank(t[0])
    ensures SkipBlanks(" " + t) == t
  {
    SkipBlanksOf(" ", t);
  }

  lemma {:induction false} GroupEndAppend(s: string, t: string, depth: nat)
    requires depth > 0 && GroupEnd(s, depth).Some?
    ensures GroupEnd(s + t, depth) == GroupEnd(s, depth)
    decreases s
  {
    assert (s + t)[0] == s[0] && (s + t)[1..] == s[1..] + t;
    var d := if s[0] == '(' then depth + 1 else if s[0] == ')' then depth - 1 else depth;
    if d > 0 {
      GroupEndAppend(s[1..], t, d);
    }
  }

  /** A balanced group is read whole, and nothing else is. */
  lemma ReadParamsIff(p: string, t: string)
    requires p != "" && p[0] == '('
    ensures ReadParams(p + t).0 == p <==> IsGroup(p)
    ensures IsGroup(p) ==> ReadParams(p + t).1 == t
  {
    var s := p + t;
    assert s[0] == '(' && s[1..] == p[1..] + t;
    match GroupEnd(p[1..], 1) {
      case Some(n) =>
        GroupEndAppend(p[1..], t, 1);
        assert s[..n + 1] == p[..n + 1];
        if n == |p| - 1 {
          assert s[..|p|] == p && s[|p|..] == t;
        }
      case None =>
        var r := GroupEnd(s[1..], 1);
        if r.Some? {
          GroupEndBeyond(p[1..], t, 1);
          assert |s[..r.value + 1]| > |p|;
        }
    }
  }

  lemma {:induction false} GroupEndBeyond(s: string, t: string, depth: nat)
    requires depth > 0 && GroupEnd(s, depth).None? && GroupEnd(s + t, depth).Some?
    ensures GroupEnd(s + t, depth).value > |s|
    decreases s
  {
    if s != "" {
      assert (s + t)[0] == s[0] && (s + t)[1..] == s[1..] + t;
      var d := if s[0] == '(' then depth + 1 else if s[0] == ')' then depth - 1 else depth;
      GroupEndBeyond(s[1..], t, d);
    }
  }

  lemma {:induction false} ColonAfter(file: string, digits: string)
    requires digits != "" && IsDigit(digits[0]) && IsFile(file)
    ensures ColonAt(file + (":" + digits)) == |file|
  {
    var s := file + (":" + digits);
    if file == "" {
      assert s == ":" + digits;
    } else {
      assert s[1..] == file[1..] + (":" + digits);
      assert file[0..] == file;
      assert !IsColon(s) by {
        if IsColon(s) {
          assert |file| > 1;
          assert file[1] == s[1];
          assert IsColon(file[0..]);
        }
      }
      forall k | 0 <= k < |file[1..]|
        ensures file[1..][k] != '\n' && file[1..][k] != '\r' && !IsColon(file[1..][k..])
      {
        assert file[1..][k] == file[k + 1] && file[1..][k..] == file[k + 1..];
      }
      ColonAfter(file[1..], digits);
    }
  }

  lemma {:induction false} ColonBefore(file: string, t: string)
    requires ColonAt(file + t) == |file|
    requires t != "" && t[0] == ':'
    ensures IsFile(file)
  {
    if file != "" {
      var s := file + t;
      assert s[1..] == file[1..] + t;
      ColonBefore(file[1..], t);
      forall k | 0 <= k < |file|
        ensures file[k] != '\n' && file[k] != '\r' && !IsColon(file[k..])
      {
        if k == 0 {
          assert s[0] == file[0] && file[0..] == file;
          assert |file| > 1 ==> s[1] == file[1];
        } else {
          assert file[1..][k - 1] == file[k] && file[1..][k - 1..] == file[k..];
        }
      }
    }
  }

  /** A location with a line number, up to where the colon is found. */
  lemma NumberedLocation(file: string, line: nat)
    requires file != "" && 0 < line && IsInt(line)
    ensures var u := file + (":" + (Decimal(line) + "\n"));
      if ColonAt(u) == |file| then ReadLocation("at " + u) == (file, line) else ReadLocation("at " + u).0 != file
  {
    hide ColonAt, LeadingNumber, Decimal, DigitRun;
    var digits := Decimal(line) + "\n";
    var u := file + (":" + digits);
    assert ("at " + u)[3..] == u;
    assert u[..|file|] == file && u[|file| + 1..] == digits;
    DecimalRoundTrip(line, "\n");
  }

  lemma NumberedLocationIff(file: string, line: nat)
    requires file != "" && 0 < line && IsInt(line)
    ensures ReadLocation("at " + (file + ":" + Decimal(line) + "\n")) == (file, line) <==> IsFile(file)
  {
    hide ColonAt, Decimal, IsFile, ReadLocation;
    var digits := Decimal(line) + "\n";
    assert file + ":" + Decimal(line) + "\n" == file + (":" + digits);
    assert digits[0] == Decimal(line)[0];
    NumberedLocation(file, line);
    if IsFile(file) {
      ColonAfter(file, digits);
    } else if ColonAt(file + (":" + digits)) == |file| {
      ColonBefore(file, ":" + digits);
    }
  }

  lemma BareLocation(file: string)
    requires file != ""
    ensures ReadLocation("at " + (file + "\n")).0 != file
  {
    hide ColonAt, LeadingNumber, ToInt, DigitRun;
    var u := file + "\n";
    assert ("at " + u)[3..] == u;
    ColonIsColon(u);
  }

  /** A location is read back exactly when the line number is positive and the file name is plain. */
  lemma ReadLocationIff(f: Frame)
    requires f.file != "" && IsInt(f.line)
    ensures var text := if f.line > 0 then f.file + ":" + Decimal(f.line) else f.file;
      ReadLocation("at " + (text + "\n")) == (f.file, f.line) <==> f.line > 0 && IsFile(f.file)
  {
    hide ReadLocation, Decimal, IsFile;
    if f.line > 0 {
      NumberedLocationIff(f.file, f.line);
    } else {
      BareLocation(f.file);
    }
  }

  lemma {:induction false} ColonIsColon(s: string)
    ensures ColonAt(s) < |s| ==> IsColon(s[ColonAt(s)..])
  {
    if s != "" && s[0] != '\n' && s[0] != '\r' && !IsColon(s) {
      ColonIsColon(s[1..]);
      var n := ColonAt(s[1..]);
      assert n < |s[1..]| ==> s[1..][n..] == s[n + 1..];
    }
  }

  // ---------------------------------------------------------------------------
  // From the symbol on: exactly the bodies that are BodyOk
  // ---------------------------------------------------------------------------

  function AfterName(f: Frame): string {
    FormatParams(f, PLAIN) + FormatLocation(f, PLAIN) + "\n"
  }

  function LocationText(f: Frame): string {
    (if f.file == "" then "" else "at " + (if f.line > 0 then f.file + ":" + Decimal(f.line) else f.file)) + "\n"
  }

  /** The name ends at a blank, if anything follows it and params are in parentheses. */
  predicate Separated(f: Frame) {
    && (f.params != "" || f.file != "")
    && (f.params != "" ==> f.params[0] == '(')
  }

  lemma AfterNameText(f: Frame)
    requires Separated(f)
    ensures IsStop(AfterName(f)) && AfterName(f)[0] == ' '
    ensures AfterName(f)[1..] == f.params + (if f.params == "" || f.file == "" then "" else " ") + LocationText(f)
    ensures AfterName(f)[1] == '(' || AfterName(f)[1] == 'a'
  {
    hide Decimal;
    var t := AfterName(f);
    if f.params != "" {
      assert FormatParams(f, PLAIN) == " " + f.params;
      assert t[1] == f.params[0];
      if f.file != "" {
        assert FormatLocation(f, PLAIN) + "\n" == " " + LocationText(f);
      }
    } else {
      assert t == " " + LocationText(f);
    }
  }

  lemma LocationStartsVisible(f: Frame)
    ensures LocationText(f) != "" && !IsBlank(LocationText(f)[0]) && LocationText(f)[0] != '('
  {
    hide Decimal;
  }

  lemma ReadAfterName(f: Frame)
    requires Separated(f)
    ensures var (params, r) := ReadParams(SkipBlanks(AfterName(f)));
      && (params == f.params <==> (f.params != "" ==> IsGroup(f.params)))
      && (params == f.params ==> SkipBlanks(r) == LocationText(f))
  {
    hide LocationText, AfterName, IsGroup, ReadParams, SkipBlanks;
    AfterNameText(f);
    LocationStartsVisible(f);
    var v := AfterName(f)[1..];
    assert AfterName(f) == " " + v;
    assert v[0] == AfterName(f)[1];
    OneBlank(v);
    if f.params == "" {
      assert v == LocationText(f);
      NoGroup(v);
      NoBlanks(v);
    } else {
      var t := (if f.file == "" then "" else " ") + LocationText(f);
      assert v == f.params + t;
      ReadParamsIff(f.params, t);
      OneBlank(LocationText(f));
      NoBlanks(LocationText(f));
      assert "" + LocationText(f) == LocationText(f);
    }
  }

  lemma NoGroup(s: string)
    requires s != "" && s[0] != '('
    ensures ReadParams(s) == ("", s)
  {
  }

  lemma LocationIff(f: Frame)
    requires IsInt(f.line)
    ensures ReadLocation(LocationText(f)) == (f.file, f.line)
      <==> if f.file == "" then f.line == 0 else f.line > 0 && IsFile(f.file)
  {
    hide Decimal, IsFile, ColonAt;
    if f.file != "" {
      ReadLocationIff(f);
      var u := if f.line > 0 then f.file + ":" + Decimal(f.line) else f.file;
      assert LocationText(f) == "at " + (u + "\n");
    } else {
      assert LocationText(f) == "\n";
    }
  }

  /** Parsed params are none or a parenthesised text. */
  lemma ParsedParams(s: string)
    ensures var p := ReadParams(s).0; p != "" ==> p[0] == '('
  {
  }

  lemma NameIff(name: string, t: string)
    requires t != "" && t[0] == ' ' && IsStop(t)
    ensures NameEnd(name + t) == |name| <==> NameEndsItself(name)
  {
    if NameEndsItself(name) {
      StopAt(name, t);
    } else {
      var k :| 0 <= k < |name| && IsStop((name + " ")[k..]);
      StopBefore(name, t, k);
    }
  }

  /** Read back from the symbol on, a frame is the same exactly when BodyOk. */
  lemma BodyIff(f: Frame)
    requires IsInt(f.line)
    ensures ReadBody(f.name + AfterName(f)) == BodyOf(f) <==> BodyOk(f)
  {
    hide ReadLocation, ReadParams, LocationText, AfterName, IsGroup, SkipBlanks, NameEndsItself, IsFile;
    hide NameEnd, IsStop;
    var t := AfterName(f);
    var s := f.name + t;
    var n := NameEnd(s);
    AfterNameNotEmpty(f);
    assert s[|f.name|..] == t && s[..|f.name|] == f.name;
    ParsedParams(SkipBlanks(s[n..]));
    NameStopsThere(s);
    if ReadBody(s) == BodyOf(f) || BodyOk(f) {
      assert ReadBody(s) == BodyOf(f) ==> |s[..n]| == |f.name|;
      SeparatedIf(f);
      AfterNameText(f);
      NameIff(f.name, t);
      ReadAfterName(f);
      LocationIff(f);
    }
  }

  lemma NameStopsThere(s: string)
    ensures NameEnd(s) < |s| ==> IsStop(s[NameEnd(s)..])
  {
  }

  lemma AfterNameNotEmpty(f: Frame)
    ensures AfterName(f) != ""
    ensures f.params == "" && f.file == "" ==> !IsStop(AfterName(f))
  {
    hide Decimal;
  }

  /** What BodyIff needs before it can split the text after the name. */
  lemma SeparatedIf(f: Frame)
    requires BodyOk(f) || (IsStop(AfterName(f)) && (f.params != "" ==> f.params[0] == '('))
    ensures Separated(f)
  {
    hide AfterName, NameEndsItself, IsFile;
    AfterNameNotEmpty(f);
  }

  // ---------------------------------------------------------------------------
  // Before the symbol
  // ---------------------------------------------------------------------------

  lemma {:induction false} HexRunIs(h: string, t: string)
    requires forall k :: 0 <= k < |h| ==> IsHexDigit(h[k])
    requires t == "" || !IsHexDigit(t[0])
    ensures HexRun(h + t) == |h|
  {
    if h == "" {
      assert h + t == t;
    } else {
      assert (h + t)[1..] == h[1..] + t;
      HexRunIs(h[1..], t);
    }
  }

  /** A parsed address is none or well formed. */
  lemma ParsedAddress(u: string)
    ensures var a := u[..AddressLength(u)]; a == "" || IsAddress(a)
  {
    if HexMark(u) {
      var a := u[..AddressLength(u)];
      assert forall k :: 2 <= k < |a| ==> a[k] == u[2..][k - 2];
    }
  }

  lemma AddressIsRead(a: string, t: string)
    requires IsAddress(a) && (t == "" || !IsHexDigit(t[0]))
    ensures AddressLength(a + t) == |a| && (a + t)[..|a|] == a && (a + t)[|a|..] == t
  {
    assert (a + t)[2..] == a[2..] + t;
    assert forall k :: 0 <= k < |a[2..]| ==> a[2..][k] == a[k + 2];
    HexRunIs(a[2..], t);
  }

  /** After a number and a blank, an address is read back exactly when it is well formed. */
  lemma FrontWithAddress(n: nat, a: string, b: string)
    requires a != ""
    ensures var front := ReadFront(Decimal(n) + (" " + a + " in " + b));
      && (front.address == a <==> IsAddress(a))
      && (IsAddress(a) ==> front == Front(n, a, b))
  {
    hide Decimal, DigitRun, LeadingNumber, HexRun, IsAddress, AddressLength, SkipBlanks;
    var t := " " + a + " in " + b;
    DecimalRoundTrip(n, t);
    assert (Decimal(n) + t)[|Decimal(n)|..] == t;
    ParsedAddress(SkipBlanks(t));
    if IsAddress(a) {
      AddressFirst(a);
      var tail := " in " + b;
      assert t == " " + (a + tail);
      OneBlank(a + tail);
      AddressIsRead(a, tail);
      assert tail == " " + ("in " + b);
      OneBlank("in " + b);
      assert ("in " + b)[3..] == b;
    }
  }

  lemma AddressFirst(a: string)
    requires IsAddress(a)
    ensures a != "" && a[0] == '0'
  {
  }

  /** What the parser takes away in front of a symbol: digits, blanks, and "in ". */
  predicate Consumable(name: string) {
    name == "" || IsDigit(name[0]) || IsBlank(name[0]) || name[0] == 'i'
  }

  /** The text left once the parser has come to the symbol, when it has found no address. */
  ghost predicate LostStart(name: string, t: string, rest: string) {
    && Consumable(name)
    && ((exists k :: 0 < k <= |name| && rest == name[k..] + t)
        || (t != "" && t[0] == ' ' && rest == t[1..])
        || (name == "" && rest == t == "\n"))
  }

  predicate PlainTail(t: string) {
    t == "\n" || (|t| > 1 && t[0] == ' ' && (t[1] == '(' || t[1] == 'a'))
  }

  lemma BlanksOf(name: string, t: string)
    requires PlainTail(t)
    ensures var x := name[BlankCount(name)..];
      SkipBlanks(name + t) == if x != "" then x + t else if t == "\n" then t else t[1..]
  {
    hide SkipBlanks;
    var k := BlankCount(name);
    var x := name[k..];
    assert name + t == name[..k] + (x + t);
    if x != "" {
      assert (x + t)[0] == x[0];
      SkipBlanksOf(name[..k], x + t);
    } else if t == "\n" {
      assert x + t == t;
      SkipBlanksOf(name[..k], t);
    } else {
      var v := t[1..];
      assert name + t == (name + " ") + v;
      SkipBlanksOf(name + " ", v);
    }
  }

  /** Blanks, no address, "in ": the stages after the number, on what is left of the name. */
  lemma FrontStages(name: string, t: string)
    requires PlainTail(t)
    ensures var rest := DropIn(SkipBlanks(SkipBlanks(name + t)));
      if name != "" && !IsBlank(name[0]) && !("in " <= name + t) then rest == name + t
      else LostStart(name, t, rest) && (name == "" ==> rest == if t == "\n" then t else t[1..])
  {
    hide SkipBlanks;
    BlanksOf(name, t);
    NoBlanks(SkipBlanks(name + t));
    var k := BlankCount(name);
    var x := name[k..];
    assert k == 0 ==> x == name;
    if x != "" {
      DropInOf(name, k, t);
    } else {
      assert t == "\n" ==> name[|name|..] + t == t;
    }
  }

  /** "in " dropped from what is left of the name after k blanks. */
  lemma DropInOf(name: string, k: nat, t: string)
    requires PlainTail(t) && k < |name| && (k > 0 ==> IsBlank(name[0]))
    ensures var rest := DropIn(name[k..] + t);
      if k == 0 && !("in " <= name + t) then rest == name + t else LostStart(name, t, rest)
  {
    var x := name[k..];
    InOf(x, t);
    if "in " <= x + t && |x| >= 3 {
      assert x[3..] == name[k + 3..];
      assert DropIn(x + t) == name[k + 3..] + t;
    } else if k > 0 {
      assert "in " <= x + t || DropIn(x + t) == name[k..] + t;
    }
  }

  function BlankCount(s: string): (n: nat)
    ensures n <= |s| && (forall i :: 0 <= i < n ==> IsBlank(s[i])) && (n < |s| ==> !IsBlank(s[n]))
  {
    if s == "" || !IsBlank(s[0]) then 0 else 1 + BlankCount(s[1..])
  }

  /** Whether "in " is dropped, and what is left then. */
  lemma InOf(x: string, t: string)
    requires x != "" && PlainTail(t)
    ensures t[0] == ' ' ==> ("in " <= x + t <==> "in " <= x + " ")
    ensures "in " <= x + t ==>
      && x[0] == 'i'
      && if |x| >= 3 then (x + t)[3..] == x[3..] + t else t[0] == ' ' && (x + t)[3..] == t[1..]
  {
    var s, b := x + t, x + " ";
    assert forall i :: 0 <= i < |x| ==> s[i] == b[i] == x[i];
    assert s[|x|] == t[0];
  }

  /** A run of digits, and whether its last zero is taken for the start of an address. */
  lemma NumberText(digits: string, x: string)
    requires AllDigits(digits) && x != "" && !IsDigit(x[0])
    ensures var v := LeadingNumber(digits + x);
      Number(digits + x) ==
        if v > 0 && (x[0] == 'x' || x[0] == 'X') && v % 10 == 0 then (v / 10, "0" + x) else (v, x)
  {
    hide LeadingNumber, DigitRun;
    DigitRunIs(digits, x);
    assert (digits + x)[|digits|..] == x;
  }

  lemma DigitsOfName(n: nat, name: string, t: string) returns (digits: string, x: string)
    requires PlainTail(t)
    ensures x == name[DigitRun(name)..] + t && Decimal(n) + (name + t) == digits + x
    ensures AllDigits(digits) && x != "" && !IsDigit(x[0])
    ensures DigitRun(name) == 0 ==> x == name + t && x[0] == (if name != "" then name[0] else t[0])
    ensures DigitRun(name) == 0 ==> digits == Decimal(n) && LeadingNumber(digits + x) == n
  {
    hide LeadingNumber, Decimal, DigitRun;
    var d := DigitRun(name);
    digits, x := Decimal(n) + name[..d], name[d..] + t;
    assert name == name[..d] + name[d..];
    assert x[0] == if d < |name| then name[d] else t[0];
    if d == 0 {
      assert name[..0] == "" && name[0..] == name && digits == Decimal(n);
      DecimalRoundTrip(n, x);
    }
  }

  lemma AddressSeen(x: string)
    requires x != "" && (x[0] == 'x' || x[0] == 'X')
    ensures "0" + x != x && AddressLength(SkipBlanks("0" + x)) > 0
  {
    hide SkipBlanks;
    NoBlanks("0" + x);
  }

  lemma NumberOf(n: nat, name: string, t: string)
    requires PlainTail(t)
    ensures var d := DigitRun(name);
      var (num, r) := Number(Decimal(n) + (name + t));
      && (if r == name[d..] + t then d == 0 ==> num == n else AddressLength(SkipBlanks(r)) > 0)
      && (d == 0 ==> (r == name + t <==>
            !(n > 0 && n % 10 == 0 && name != "" && (name[0] == 'x' || name[0] == 'X'))))
  {
    hide LeadingNumber, Decimal, DigitRun, SkipBlanks, AddressLength, Number;
    var digits, x := DigitsOfName(n, name, t);
    NumberText(digits, x);
    if x[0] == 'x' || x[0] == 'X' {
      AddressSeen(x);
    }
  }

  /** A number directly followed by a name: what is left for the rest of the parser. */
  lemma FrontPlain(n: nat, name: string, t: string)
    requires PlainTail(t)
    ensures var front := ReadFront(Decimal(n) + (name + t));
      && (t[0] == ' ' && NameStartsItself(n, name) ==> front == Front(n, "", name + t))
      && (t[0] == ' ' && !NameStartsItself(n, name) && front.address == "" ==> LostStart(name, t, front.rest))
      && (front.address == "" ==> front.rest == name + t || LostStart(name, t, front.rest))
  {
    hide LeadingNumber, Decimal, Number, AddressLength, SkipBlanks, LostStart, DropIn;
    var d := DigitRun(name);
    var r := Number(Decimal(n) + (name + t)).1;
    NumberOf(n, name, t);
    var x := name[d..];
    if r == x + t {
      var u := SkipBlanks(x + t);
      assert u[0..] == u;
      FrontStages(x, t);
      if d == 0 {
        assert x == name;
        if name != "" {
          InOf(name, t);
        } else {
          NothingStartsItself(n, t);
        }
        if NameStartsItself(n, name) {
          NoBlanks(name + t);
          assert (name + t)[0] == name[0] != '0';
          NoAddress(name + t);
        }
      } else {
        assert IsDigit(name[0]) by { assert name[0] == name[..d][0]; }
        LostMore(name, d, t, DropIn(SkipBlanks(u)));
      }
    }
  }

  lemma NothingStartsItself(n: nat, t: string)
    ensures !NameStartsItself(n, "") && "" + t == t
  {
  }

  lemma NoAddress(u: string)
    requires u == "" || u[0] != '0'
    ensures AddressLength(u) == 0
  {
  }

  lemma LostMore(name: string, d: nat, t: string, rest: string)
    requires 0 < d <= |name| && Consumable(name) && PlainTail(t)
    requires rest == name[d..] + t || LostStart(name[d..], t, rest)
    ensures LostStart(name, t, rest)
  {
    var x := name[d..];
    if rest != x + t {
      if k :| 0 < k <= |x| && rest == x[k..] + t {
        assert x[k..] == name[d + k..];
      }
    }
  }

  lemma {:induction false} AllNewlines(name: string)
    requires name != "" && name == name[1..] + "\n"
    ensures name[0] == '\n'
  {
    if |name| > 1 {
      var x := name[1..];
      Shifted(name);
      AllNewlines(x);
    }
  }

  lemma Shifted(name: string)
    requires |name| > 1 && name == name[1..] + "\n"
    ensures name[1..] == name[1..][1..] + "\n" && name[0] == name[1]
  {
    var x := name[1..];
    var s := x + "\n";
    assert forall i :: 0 <= i < |x| - 1 ==> x[i] == s[i + 1];
    assert forall i :: 0 <= i < |x| - 1 ==> s[i] == x[i];
  }

  /** A name whose start the parser took away is not read back. */
  lemma LostStartFails(name: string, t: string, rest: string)
    requires LostStart(name, t, rest) && PlainTail(t) && (t == "\n" || IsStop(t))
    ensures rest[..NameEnd(rest)] != name
  {
    hide NameEnd;
    var n := NameEnd(rest);
    if k :| 0 < k <= |name| && rest == name[k..] + t {
      assert rest[|name| - k..] == t;
      if t == "\n" && n == |name| {
        assert k == 1 && rest[..n] == rest;
        if rest == name {
          AllNewlines(name);
        }
      }
    } else if t[0] == ' ' && rest == t[1..] {
      assert rest[0..] == rest && !IsStop(rest);
      assert n < |rest| ==> IsStop(rest[n..]);
      assert n > 0;
      assert rest[..n][0] == rest[0];
    } else {
      assert rest[0..] == "\n";
      assert n == 1;
    }
  }

  // ---------------------------------------------------------------------------
  // Round trip
  // ---------------------------------------------------------------------------

  lemma PlainFormat(f: Frame)
    requires f.number >= 0
    ensures Format(f, PLAIN) == "#" + (Decimal(f.number)
      + if f.address == "" then f.name + AfterName(f) else " " + f.address + " in " + (f.name + AfterName(f)))
  {
    hide Decimal, AfterName, FormatIndex, FormatAddress, FormatName;
    PlainPieces(f);
    hide FormatParams, FormatLocation;
    AfterNameIs(f);
  }

  lemma PlainPieces(f: Frame)
    requires f.number >= 0
    ensures FormatIndex(f, PLAIN) == "#" + Decimal(f.number) && FormatName(f, PLAIN) == f.name
    ensures FormatAddress(f) == if f.address == "" then "" else " " + f.address + " in "
  {
    hide Decimal;
  }

  lemma AfterNameIs(f: Frame)
    ensures AfterName(f) == FormatParams(f, PLAIN) + FormatLocation(f, PLAIN) + "\n"
  {
    hide FormatParams, FormatLocation;
  }

  lemma ParseHash(n: nat, t: string)
    ensures var text := "#" + (Decimal(n) + t);
      && SkipBlanks(text) == text && StartsFrame(text) && text[1..] == Decimal(n) + t
  {
    hide Decimal;
    var text := "#" + (Decimal(n) + t);
    assert text[1] == Decimal(n)[0];
    NoBlanks(text);
  }

  /** A frame printed without colours parses back to itself exactly when it is Readable. */
  lemma RoundTripIff(f: Frame)
    requires IsInt(f.number) && IsInt(f.line)
    ensures Parse(Format(f, PLAIN)) == Some(f) <==> Readable(f)
  {
    hide Decimal, ReadFront, ReadBody, AfterName, BodyOk, NameStartsItself, IsAddress, LostStart, Format;
    hide PlainTail, IsStop;
    if f.number < 0 {
      NegativeNumber(f);
      return;
    }
    var b := f.name + AfterName(f);
    PlainFormat(f);
    BodyIff(f);
    if f.address != "" {
      ParseHash(f.number, " " + f.address + " in " + b);
      FrontWithAddress(f.number, f.address, b);
    } else {
      ParseHash(f.number, b);
      PlainRoundTrip(f);
    }
  }

  lemma PlainRoundTrip(f: Frame)
    requires IsInt(f.line) && f.number >= 0 && f.address == ""
    ensures var front := ReadFront(Decimal(f.number) + (f.name + AfterName(f)));
      (front == Front(f.number, "", front.rest) && ReadBody(front.rest) == BodyOf(f))
      <==> (NameStartsItself(f.number, f.name) && BodyOk(f))
  {
    hide Decimal, ReadFront, AfterName, BodyOk, NameStartsItself, LostStart, PlainTail, IsStop, NameEnd;
    var t := AfterName(f);
    var front := ReadFront(Decimal(f.number) + (f.name + t));
    BodyIff(f);
    if Separated(f) {
      AfterNameText(f);
      TailIsPlain(t);
      FrontPlain(f.number, f.name, t);
      if LostStart(f.name, t, front.rest) {
        LostStartFails(f.name, t, front.rest);
      }
    } else {
      NotSeparated(f);
      if f.params == "" {
        TailIsPlain(t);
        FrontPlain(f.number, f.name, t);
        if LostStart(f.name, t, front.rest) {
          LostStartFails(f.name, t, front.rest);
        }
      } else {
        ParsedParams(SkipBlanks(front.rest[NameEnd(front.rest)..]));
      }
    }
  }

  lemma TailIsPlain(t: string)
    requires t == "\n" || (IsStop(t) && t[0] == ' ' && (t[1] == '(' || t[1] == 'a'))
    ensures PlainTail(t)
  {
  }

  lemma NotSeparated(f: Frame)
    requires !Separated(f)
    ensures !BodyOk(f)
    ensures f.params == "" ==> AfterName(f) == "\n"
  {
    hide Decimal, NameEndsItself, IsFile;
    if BodyOk(f) {
      SeparatedIf(f);
    }
  }

  lemma NegativeNumber(f: Frame)
    requires f.number < 0
    ensures Parse(Format(f, PLAIN)) == None
  {
    hide Decimal, FormatParams, FormatLocation;
    var text := Format(f, PLAIN);
    assert text[0] == '#' && text[1] == '-';
    NoBlanks(text);
  }

  /** With colours, every field of a frame stands between its own escape sequence and the reset. */
  lemma Coloured(f: Frame, s: Schema)
    requires f.number >= 0 && f.address != "" && f.name != "" && f.params != "" && f.file != "" && f.line > 0
    ensures Format(f, s) ==
      (s.frameIndex + "#" + Decimal(f.number) + s.reset) + (" " + f.address + " in ")
      + (s.symbol + f.name + s.reset) + (" " + s.params + f.params + s.reset)
      + (" at " + s.location + (f.file + ":" + Decimal(f.line)) + s.reset) + "\n"
  {
    hide Decimal, FormatIndex, FormatAddress, FormatName, FormatParams, FormatLocation;
    Flat(FormatIndex(f, s), FormatAddress(f), FormatName(f, s), FormatParams(f, s), FormatLocation(f, s));
    ColouredPieces(f, s);
  }

  lemma ColouredPieces(f: Frame, s: Schema)
    requires f.number >= 0 && f.address != "" && f.name != "" && f.params != "" && f.file != "" && f.line > 0
    ensures FormatIndex(f, s) == s.frameIndex + "#" + Decimal(f.number) + s.reset
    ensures FormatAddress(f) == " " + f.address + " in " && FormatName(f, s) == s.symbol + f.name + s.reset
    ensures FormatParams(f, s) == " " + s.params + f.params + s.reset
    ensures FormatLocation(f, s) == " at " + s.location + (f.file + ":" + Decimal(f.line)) + s.reset
  {
    hide Decimal;
  }

  lemma Flat(a: string, b: string, c: string, d: string, e: string)
    ensures a + (b + (c + (d + e + "\n"))) == a + b + c + d + e + "\n"
  {
  }
}
