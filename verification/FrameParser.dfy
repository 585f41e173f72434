/** The cursor code of gdb_output_stack_frame_parse and the piecewise output of stack_frame_format. */
module FrameParser {
  import opened CText
  import opened StackFrames

  class Output {
    var text: string

    constructor ()
      ensures text == ""
    {
      text := "";
    }

    method Puts(s: string)
      modifies this
      ensures text == old(text) + s
    {
      text := text + s;
    }
  }

  /** stack_frame_format */
  method FormatFrame(out: Output, f: Frame, s: Schema)
    modifies out
    ensures out.text == old(out.text) + Format(f, s)
  {
    hide FormatIndex, FormatAddress, FormatName, FormatParams, FormatLocation;
    ghost var was := out.text;
    PutIndex(out, f, s);
    PutAddress(out, f);
    PutName(out, f, s);
    PutParams(out, f, s);
    PutLocation(out, f, s);
    out.Puts("\n");
    AppendPieces(was, FormatIndex(f, s), FormatAddress(f), FormatName(f, s), FormatParams(f, s),
      FormatLocation(f, s) + "\n");
    assert FormatParams(f, s) + (FormatLocation(f, s) + "\n") == FormatParams(f, s) + FormatLocation(f, s) + "\n";
    ghost var head := was + FormatIndex(f, s) + FormatAddress(f) + FormatName(f, s) + FormatParams(f, s);
    assert head + (FormatLocation(f, s) + "\n") == head + FormatLocation(f, s) + "\n";
  }

  lemma AppendPieces(w: string, a: string, b: string, c: string, d: string, e: string)
    ensures w + a + b + c + d + e == w + (a + (b + (c + (d + e))))
  {
    assert w + a + b + c + d + e == w + a + b + c + (d + e);
    assert w + a + b + c + (d + e) == w + a + b + (c + (d + e));
    assert w + a + b + (c + (d + e)) == w + a + (b + (c + (d + e)));
  }

  method PutIndex(out: Output, f: Frame, s: Schema)
    modifies out
    ensures out.text == old(out.text) + FormatIndex(f, s)
  {
    hide Signed;
    out.Puts(s.frameIndex);
    out.Puts("#");
    out.Puts(Signed(f.number));
    out.Puts(s.reset);
  }

  method PutAddress(out: Output, f: Frame)
    modifies out
    ensures out.text == old(out.text) + FormatAddress(f)
  {
    if f.address != "" {
      out.Puts(" ");
      out.Puts(f.address);
      out.Puts(" in ");
    }
  }

  method PutName(out: Output, f: Frame, s: Schema)
    modifies out
    ensures out.text == old(out.text) + FormatName(f, s)
  {
    if f.name != "" {
      out.Puts(s.symbol);
      out.Puts(f.name);
      out.Puts(s.reset);
    }
  }

  method PutParams(out: Output, f: Frame, s: Schema)
    modifies out
    ensures out.text == old(out.text) + FormatParams(f, s)
  {
    if f.params != "" {
      out.Puts(" ");
      out.Puts(s.params);
      out.Puts(f.params);
      out.Puts(s.reset);
    }
  }

  method PutLocation(out: Output, f: Frame, s: Schema)
    modifies out
    ensures out.text == old(out.text) + FormatLocation(f, s)
  {
    hide Decimal;
    if f.file != "" {
      out.Puts(" at ");
      out.Puts(s.location);
      if f.line > 0 {
        out.Puts(f.file + ":" + Decimal(f.line));
      } else {
        out.Puts(f.file);
      }
      out.Puts(s.reset);
    }
  }

  method SkipBlanksFrom(text: string, start: nat) returns (p: nat)
    requires start <= |text|
    ensures start <= p <= |text| && text[p..] == SkipBlanks(text[start..])
  {
    p := start;
    while p < |text| && IsBlank(text[p])
      invariant start <= p <= |text| && SkipBlanks(text[p..]) == SkipBlanks(text[start..])
    {
      assert text[p..][1..] == text[p + 1..];
      p := p + 1;
    }
  }

  lemma ValueOfPush(s: string, c: char)
    requires AllDigits(s) && IsDigit(c)
    ensures AllDigits(s + [c]) && ValueOf(s + [c]) == 10 * ValueOf(s) + (c as int - '0' as int)
  {
    assert (s + [c])[..|s|] == s;
  }

  /** The digit loop: value and end of a run of digits. */
  method ReadDigits(text: string, start: nat) returns (num: nat, digEnd: nat)
    requires start <= |text|
    ensures num == LeadingNumber(text[start..]) && digEnd == start + DigitRun(text[start..])
  {
    hide ValueOf, DigitRun;
    num, digEnd := 0, start;
    assert text[start..start] == "";
    ValueOfNothing();
    while digEnd < |text| && IsDigit(text[digEnd])
      invariant start <= digEnd <= |text| && AllDigits(text[start..digEnd]) && num == ValueOf(text[start..digEnd])
    {
      ValueOfPush(text[start..digEnd], text[digEnd]);
      assert text[start..digEnd] + [text[digEnd]] == text[start..digEnd + 1];
      num := num * 10 + (text[digEnd] as int - '0' as int);
      digEnd := digEnd + 1;
    }
    DigitRunIs(text[start..digEnd], text[digEnd..]);
    assert text[start..] == text[start..digEnd] + text[digEnd..];
    assert text[start..][..digEnd - start] == text[start..digEnd];
  }

  lemma ValueOfNothing()
    ensures ValueOf("") == 0
  {
  }

  /** A number that ends in 0 ends in the digit 0. */
  lemma LastDigit(s: string)
    requires s != "" && AllDigits(s) && ValueOf(s) % 10 == 0
    ensures s[|s| - 1] == '0'
  {
    var d := s[|s| - 1] as int - '0' as int;
    assert ValueOf(s) == 10 * ValueOf(s[..|s| - 1]) + d;
    assert (10 * ValueOf(s[..|s| - 1]) + d) % 10 == d;
  }

  /** Frame number: lines 64 to 74. */
  method ReadNumber(text: string, start: nat) returns (number: nat, p: nat, overflow: bool)
    requires start < |text| && IsDigit(text[start])
    ensures start <= p <= |text| && (number, text[p..]) == Number(text[start..])
    ensures overflow <==> LeadingNumber(text[start..]) > INT_MAX
  {
    hide LeadingNumber, DigitRun;
    var num, digEnd := ReadDigits(text, start);
    overflow := num > INT_MAX;
    DigitRunPositive(text[start..]);
    assert text[start..][digEnd - start..] == text[digEnd..];
    if num > 0 && digEnd < |text| && (text[digEnd] == 'x' || text[digEnd] == 'X') && num % 10 == 0 {
      LeadingNumberEnds(text[start..]);
      assert text[digEnd - 1] == text[start..][digEnd - start - 1] == '0';
      assert text[digEnd - 1..] == "0" + text[digEnd..];
      return num / 10, digEnd - 1, overflow;
    }
    return num, digEnd, overflow;
  }

  lemma DigitRunPositive(s: string)
    requires s != "" && IsDigit(s[0])
    ensures DigitRun(s) > 0
  {
  }

  lemma LeadingNumberEnds(s: string)
    requires s != "" && IsDigit(s[0]) && LeadingNumber(s) % 10 == 0
    ensures DigitRun(s) > 0 && s[DigitRun(s) - 1] == '0'
  {
    hide ValueOf;
    DigitRunPositive(s);
    LastDigit(s[..DigitRun(s)]);
  }

  /** The address: lines 77 to 88. */
  method ReadAddress(text: string, start: nat) returns (p: nat)
    requires start <= |text|
    ensures start <= p <= |text| && p == start + AddressLength(text[start..])
  {
    p := start;
    if start + 1 < |text| && text[start] == '0' && (text[start + 1] == 'x' || text[start + 1] == 'X') {
      p := p + 2;
      assert text[start..][2..] == text[p..];
      while p < |text| && IsHexDigit(text[p])
        invariant start + 2 <= p <= |text|
        invariant start + 2 + HexRun(text[start + 2..]) == p + HexRun(text[p..])
      {
        assert text[p..][1..] == text[p + 1..];
        p := p + 1;
      }
    }
  }

  lemma NameEndStep(text: string, p: nat)
    requires p <= |text|
    ensures NameEnd(text[p..]) == if p == |text| || IsStop(text[p..]) then 0 else 1 + NameEnd(text[p + 1..])
  {
    hide IsStop;
    if p < |text| {
      assert text[p..][1..] == text[p + 1..];
    }
  }

  /** The symbol: lines 91 to 96. */
  method FindNameEnd(text: string, start: nat) returns (p: nat)
    requires start <= |text|
    ensures start <= p <= |text| && p == start + NameEnd(text[start..])
  {
    hide NameEnd, IsStop;
    p := start;
    while p < |text| && !IsStop(text[p..])
      invariant start <= p <= |text| && start + NameEnd(text[start..]) == p + NameEnd(text[p..])
    {
      NameEndStep(text, p);
      p := p + 1;
    }
    NameEndStep(text, p);
  }

  function NextDepth(depth: nat, c: char): int {
    if c == '(' then depth + 1 else if c == ')' then depth - 1 else depth
  }

  lemma GroupStep(text: string, p: nat, depth: nat)
    requires p <= |text| && depth > 0
    ensures GroupEnd(text[p..], depth) ==
      if p == |text| then None
      else if NextDepth(depth, text[p]) == 0 then Some(1)
      else Shift(GroupEnd(text[p + 1..], NextDepth(depth, text[p])), 1)
  {
    if p < |text| {
      assert text[p..][1..] == text[p + 1..];
    }
  }

  function Shift(r: Option<nat>, n: nat): Option<nat> {
    match r
    case None => None
    case Some(k) => Some(k + n)
  }

  /** The parameters: lines 107 to 125. */
  method ReadGroup(text: string, start: nat) returns (params: string, p: nat)
    requires start <= |text|
    ensures start <= p <= |text| && (params, text[p..]) == ReadParams(text[start..])
  {
    hide GroupEnd;
    p, params := start, "";
    if p < |text| && text[p] == '(' {
      var depth := 1;
      p := p + 1;
      ghost var target := GroupEnd(text[p..], 1);
      assert text[start..][1..] == text[p..];
      while p < |text| && depth > 0
        invariant start < p <= |text| && depth >= 0
        invariant target == if depth == 0 then Some(p - start - 1) else Shift(GroupEnd(text[p..], depth), p - start - 1)
      {
        GroupStep(text, p, depth);
        if text[p] == '(' {
          depth := depth + 1;
        } else if text[p] == ')' {
          depth := depth - 1;
        }
        p := p + 1;
      }
      if depth > 0 {
        GroupStep(text, p, depth);
      }
      assert text[start..][..p - start] == text[start..p] && text[start..][p - start..] == text[p..];
      if depth == 0 {
        params := text[start..p];
      }
    }
  }

  /** The location: lines 128 to 147. */
  method ReadFileLine(text: string, start: nat) returns (file: string, line: int)
    requires start <= |text|
    ensures (file, line) == ReadLocation(text[start..])
  {
    hide LeadingNumber, DigitRun, ColonAt, ToInt;
    file, line := "", 0;
    if "at " <= text[start..] {
      var fileStart := start + 3;
      assert text[start..][3..] == text[fileStart..];
      var colon := FindColon(text, fileStart);
      if fileStart < colon < |text| {
        file := text[fileStart..colon];
        assert text[fileStart..][..colon - fileStart] == file;
        assert text[fileStart..][colon - fileStart + 1..] == text[colon + 1..];
        var value, _ := ReadDigits(text, colon + 1);
        line := ToInt(value);
      }
    }
  }

  lemma ColonStep(text: string, p: nat)
    requires p <= |text|
    ensures ColonAt(text[p..]) ==
      if p == |text| || text[p] == '\n' || text[p] == '\r' then |text| - p
      else if text[p] == ':' && p + 1 < |text| && IsDigit(text[p + 1]) then 0
      else 1 + ColonAt(text[p + 1..])
  {
    if p < |text| {
      assert text[p..][1..] == text[p + 1..];
    }
  }

  /** The scan to the end of the line that notes the first ':' before a digit; |text| for NULL. */
  method FindColon(text: string, start: nat) returns (colon: nat)
    requires start <= |text|
    ensures colon == start + ColonAt(text[start..])
  {
    hide ColonAt;
    var p := start;
    colon := |text|;
    while p < |text| && text[p] != '\n' && text[p] != '\r'
      invariant start <= p <= |text|
      invariant start + ColonAt(text[start..]) == if colon == |text| then p + ColonAt(text[p..]) else colon
    {
      ColonStep(text, p);
      if text[p] == ':' && colon == |text| && p + 1 < |text| && IsDigit(text[p + 1]) {
        colon := p;
      }
      p := p + 1;
    }
    ColonStep(text, p);
  }

  /** The digits after the '#' are beyond an int. */
  predicate NumberOverflows(text: string) {
    var p := SkipBlanks(text);
    StartsFrame(p) && LeadingNumber(p[1..]) > INT_MAX
  }

  /** gdb_output_stack_frame_parse; `overflow` says that its digit loop overflows an int, which is undefined. */
  method ParseFrame(text: string) returns (f: Option<Frame>, overflow: bool)
    ensures overflow <==> NumberOverflows(text)
    ensures f == Parse(text)
  {
    hide LeadingNumber, Number, AddressLength, NameEnd, ReadParams, ReadLocation, SkipBlanks;
    var p := SkipBlanksFrom(text, 0);
    assert text[0..] == text;
    if !(p + 1 < |text| && text[p] == '#' && IsDigit(text[p + 1])) {
      return None, false;
    }
    p := p + 1;
    assert text[p - 1..][1..] == text[p..];
    var number;
    ghost var afterHash := text[p..];
    number, p, overflow := ReadNumber(text, p);
    p := SkipBlanksFrom(text, p);
    ghost var u := text[p..];
    var addrEnd := ReadAddress(text, p);
    var address := text[p..addrEnd];
    assert u[..addrEnd - p] == address && u[addrEnd - p..] == text[addrEnd..];
    p := SkipBlanksFrom(text, addrEnd);
    if "in " <= text[p..] {
      assert text[p..][3..] == text[p + 3..];
      p := p + 3;
    }
    assert ReadFront(afterHash) == Front(number, address, text[p..]);
    var name, params, file, line := ReadRest(text, p);
    return Some(Frame(number, address, name, params, file, line)), overflow;
  }

  method ReadRest(text: string, start: nat) returns (name: string, params: string, file: string, line: int)
    requires start <= |text|
    ensures Body(name, params, file, line) == ReadBody(text[start..])
  {
    hide NameEnd, ReadParams, ReadLocation, SkipBlanks;
    var symEnd := FindNameEnd(text, start);
    name := text[start..symEnd];
    assert text[start..][..symEnd - start] == name && text[start..][symEnd - start..] == text[symEnd..];
    var p := SkipBlanksFrom(text, symEnd);
    params, p := ReadGroup(text, p);
    p := SkipBlanksFrom(text, p);
    file, line := ReadFileLine(text, p);
  }
}
