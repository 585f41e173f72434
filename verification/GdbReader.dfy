/** str_getline and the loop of gdb_output_parse, reading a stream through a growing buffer. */
module GdbReader {
  import opened CText
  import opened StackFrames
  import opened GdbReport
  import opened Memory
  import FrameParser

  /** A FILE open for reading. */
  class Input {
    const data: string
    var pos: nat
    var eof: bool

    constructor (data: string)
      ensures this.data == data && pos == 0 && !eof
    {
      this.data, pos, eof := data, 0, false;
    }

    ghost predicate Valid()
      reads this
    {
      pos <= |data| && (eof ==> pos == |data|)
    }

    function Left(): string
      requires Valid()
      reads this
    {
      data[pos..]
    }

    /** fgetc; None for EOF, which also sets the end-of-file mark. */
    method Getc() returns (c: Option<char>)
      requires Valid()
      modifies this
      ensures Valid()
      ensures old(pos) < |data| ==> c == Some(data[old(pos)]) && pos == old(pos) + 1 && eof == old(eof)
      ensures old(pos) == |data| ==> c == None && pos == old(pos) && eof
    {
      if pos == |data| {
        eof := true;
        return None;
      }
      c := Some(data[pos]);
      pos := pos + 1;
    }
  }

  lemma LineGrows(s: string, n: nat)
    requires n < |s| && forall k :: 0 <= k < n ==> s[k] != '\n'
    ensures LineLength(s) > n
    ensures s[n] == '\n' || n + 1 == |s| ==> LineLength(s) == n + 1
  {
    hide LineLength;
    LineBounds(s);
  }

  lemma LineBounds(s: string)
    ensures var n := LineLength(s);
      && n <= |s| && (forall k :: 0 <= k < n - 1 ==> s[k] != '\n')
      && (0 < n < |s| ==> s[n - 1] == '\n') && (s != "" ==> n > 0)
  {
  }

  /**
    str_getline: the next line into a buffer that starts at 128 bytes and doubles, NUL-terminated
    within its size; 0 at the end of the stream.
   */
  method StrGetline(input: Input, line: array?<char>) returns (line': array?<char>, len: nat)
    requires input.Valid() && (line != null ==> line.Length > 0)
    modifies input, if line == null then {} else {line}
    ensures input.Valid()
    ensures line' != null ==> line'.Length > 0 && (line' == line || fresh(line'))
    ensures len == LineLength(old(input.Left()))
    ensures input.pos == old(input.pos) + len
    ensures len > 0 ==>
      line' != null && len < line'.Length && line'[..len] == old(input.Left())[..len] && line'[len] == '\0'
  {
    hide LineLength;
    line', len := line, 0;
    ghost var left := input.Left();
    LineBounds(left);
    if input.eof {
      return;
    }
    if line' == null {
      line' := new char[128](_ => '\0');
    }
    while true
      invariant input.Valid() && line' != null && (line' == line || fresh(line'))
      invariant input.pos == old(input.pos) + len && len <= |left|
      invariant len < line'.Length && line'[..len] == left[..len]
      invariant forall k :: 0 <= k < len ==> left[k] != '\n'
      decreases |input.data| - input.pos
    {
      var ch := input.Getc();
      if ch.None? {
        if len > 0 {
          LineGrows(left, len - 1);
        }
        break;
      }
      line' := PutChar(line', len, ch.value);
      LineGrows(left, len);
      assert left[..len + 1] == left[..len] + [left[len]];
      len := len + 1;
      if ch.value == '\n' {
        break;
      }
    }
    if len > 0 {
      line'[len] := '\0';
    }
  }

  lemma LinesStep(data: string)
    ensures Lines(data) == if data == "" then [] else [data[..LineLength(data)]] + Lines(data[LineLength(data)..])
  {
  }

  lemma MoveLine(read: seq<string>, line: string, rest: seq<string>)
    ensures read + ([line] + rest) == (read + [line]) + rest
  {
  }

  lemma FeedPush(st: State, lines: seq<string>, line: string)
    ensures FeedAll(st, lines + [line]) ==
      if IsNoise(line) then FeedAll(st, lines) else Feed(FeedAll(st, lines), line)
  {
    hide IsNoise, Feed;
    assert (lines + [line])[..|lines|] == lines;
  }

  lemma VisiblePush(lines: seq<string>, line: string)
    ensures VisibleAll(lines + [line]) == VisibleAll(lines) + [Visible(line)]
  {
    hide Visible;
  }

  /** gdb_output_parse */
  method GdbOutputParse(input: Input) returns (result: seq<Dump>)
    requires input.Valid()
    modifies input
    ensures result == Report(old(input.Left()))
  {
    hide Lines, LineLength, FeedAll, Feed, IsNoise, IsHeader, ParseHeader, Parse, VisibleAll, Visible;
    var line: array?<char> := null;
    var len: nat;
    result := [];
    var current := false;
    ghost var data, read: seq<string> := input.Left(), [];
    ghost var start := State([], false);
    StartState();
    assert [] + Lines(data) == Lines(data);
    while true
      invariant input.Valid() && (line != null ==> fresh(line) && line.Length > 0)
      invariant read + Lines(input.Left()) == Lines(data)
      invariant State(result, current) == FeedAll(start, VisibleAll(read))
      invariant current ==> result != []
      decreases |input.data| - input.pos
    {
      ghost var left := input.Left();
      LinesStep(left);
      LineBounds(left);
      line, len := StrGetline(input, line);
      if len == 0 {
        assert left == "";
        break;
      }
      assert input.Left() == left[len..];
      var text := Visible(line[..len]);
      MoveLine(read, left[..len], Lines(input.Left()));
      VisiblePush(read, left[..len]);
      FeedPush(start, VisibleAll(read), text);
      read := read + [left[..len]];
      result, current := FeedLine(result, current, text);
    }
    assert read == Lines(data);
  }

  /** The loop body of gdb_output_parse for one line. */
  method FeedLine(result: seq<Dump>, current: bool, text: string) returns (result': seq<Dump>, current': bool)
    requires current ==> result != []
    ensures var st := State(result, current);
      State(result', current') == if IsNoise(text) then st else Feed(st, text)
    ensures current' ==> result' != []
  {
    hide IsNoise, IsHeader, ParseHeader, Parse;
    result', current' := result, current;
    if IsNoise(text) {
      return;
    }
    if IsHeader(text) {
      var t := ParseHeader(text);
      current' := t.Some?;
      if current' {
        result' := result + [Dump(t.value, [])];
      }
      return;
    }
    if current && text != "" && text[0] == '#' {
      var f, _ := FrameParser.ParseFrame(text);
      if f.Some? {
        result' := AddFrame(result, f.value);
      }
    }
  }

  lemma StartState()
    ensures FeedAll(State([], false), VisibleAll([])) == State([], false)
  {
    assert VisibleAll([]) == [];
  }
}
