/** The code of cli_parser_parse_redirections, on the caller's buffer. */
module RedirectionParser {
  import opened CText
  import opened Redirections

  /** cli_redirection_t: offsets in the buffer for its pointers. */
  datatype Redirection = Redirection(output: Option<nat>, input: Option<nat>, pipe: Option<nat>, append: bool)

  /** The C string at the start of a buffer. */
  function CString(b: seq<char>): string {
    b[..IndexOf(b, NUL)]
  }

  /** From p on, the buffer is the text, and a NUL ends it. */
  predicate HoldsFrom(b: seq<char>, t: string, p: nat) {
    p <= |t| < |b| && b[|t|] == NUL && forall k :: p <= k < |t| ==> b[k] == t[k] && b[k] != NUL
  }

  lemma CStringIs(b: seq<char>, t: string)
    requires HoldsFrom(b, t, 0)
    ensures CString(b) == t
  {
    IndexOfUnique(b, NUL, |t|);
  }

  lemma CStringHeld(b: seq<char>)
    requires NUL in b
    ensures HoldsFrom(b, CString(b), 0)
  {
  }

  /** A part is in the buffer as it was in the text, with a NUL after it. */
  predicate Stored(b: seq<char>, t: string, r: Region) {
    && r.from <= r.to <= |t| && r.to < |b| && b[r.to] == NUL
    && forall k :: r.from <= k < r.to ==> b[k] == t[k] && b[k] != NUL
  }

  /** The buffer after NULs are written into a..b. */
  predicate Cleared(b0: seq<char>, b: seq<char>, from: nat, to: nat) {
    |b| == |b0| && forall k :: 0 <= k < |b| ==> b[k] == if from <= k < to then NUL else b0[k]
  }

  lemma SpacePrefixNext(t: string, p: nat)
    requires p < |t|
    ensures SpacePrefix(t[p..]) == if IsSpace(t[p]) then 1 + SpacePrefix(t[p + 1..]) else 0
  {
    assert t[p..][1..] == t[p + 1..];
  }

  lemma TrimmedEndNext(t: string, from: nat, e: nat)
    requires from <= e <= |t|
    ensures TrimmedEnd(t[..e], from) == if e > from && IsSpace(t[e - 1]) then TrimmedEnd(t[..e - 1], from) else e
  {
    if e > from {
      assert t[..e][..e - 1] == t[..e - 1];
    }
  }

  lemma ClearedNone(b: seq<char>, n: nat)
    ensures Cleared(b, b, n, n)
  {
  }

  lemma ClearedMore(b0: seq<char>, b: seq<char>, b': seq<char>, e: nat, n: nat)
    requires 0 < e <= n <= |b| && Cleared(b0, b, e, n) && b' == b[e - 1 := NUL]
    ensures Cleared(b0, b', e - 1, n)
  {
  }

  /** The loop that writes NULs over trailing white space. */
  method TrimEnd(buf: array<char>, start: nat, ghost t: string)
    requires start <= |t| && HoldsFrom(buf[..], t, start)
    modifies buf
    ensures Cleared(old(buf[..]), buf[..], TrimmedEnd(t, start), |t|)
  {
    hide TrimmedEnd, Cleared;
    ghost var b0, end := buf[..], TrimmedEnd(t, start);
    ClearedNone(b0, |t|);
    var e := StrLen(buf, start, t);
    assert t[..|t|] == t;
    while e > start && IsSpace(buf[e - 1])
      invariant start <= e <= |t| && TrimmedEnd(t[..e], start) == end
      invariant forall k :: start <= k < e ==> buf[k] == t[k]
      invariant Cleared(b0, buf[..], e, |t|)
    {
      TrimmedEndNext(t, start, e);
      ghost var before := buf[..];
      buf[e - 1] := NUL;
      ClearedMore(b0, before, buf[..], e, |t|);
      e := e - 1;
    }
    TrimmedEndNext(t, start, e);
  }

  /** strlen, as the position of the NUL. */
  method StrLen(buf: array<char>, start: nat, ghost t: string) returns (e: nat)
    requires start <= |t| && HoldsFrom(buf[..], t, start)
    ensures e == |t|
  {
    e := start;
    while buf[e] != NUL
      invariant start <= e <= |t|
      decreases |t| - e
    {
      e := e + 1;
    }
  }

  method SkipLeading(buf: array<char>, str: nat, ghost t: string) returns (start: nat)
    requires HoldsFrom(buf[..], t, str)
    ensures start == Trimmed(t, str).from
  {
    hide TrimmedEnd, SpacePrefix;
    start := str;
    while buf[start] != NUL && IsSpace(buf[start])
      invariant str <= start <= |t|
      invariant start + SpacePrefix(t[start..]) == str + SpacePrefix(t[str..])
      decreases |t| - start
    {
      SpacePrefixNext(t, start);
      start := start + 1;
    }
    if start < |t| {
      SpacePrefixNext(t, start);
    }
  }

  /** trim_whitespace */
  method TrimWhitespace(buf: array<char>, str: nat, ghost t: string) returns (start: nat)
    requires HoldsFrom(buf[..], t, str)
    modifies buf
    ensures start == Trimmed(t, str).from
    ensures Cleared(old(buf[..]), buf[..], Trimmed(t, str).to, |t|)
  {
    hide TrimmedEnd, Cleared;
    start := SkipLeading(buf, str, t);
    TrimEnd(buf, start, t);
  }

  /** The buffer after a cut. */
  predicate CutDone(b0: seq<char>, b: seq<char>, t: string, cut: Cut) {
    && cut.at < cut.at + cut.skip <= |t| < |b| && |b| == |b0|
    && (forall k :: 0 <= k < |b| && !(cut.at <= k < |t|) ==> b[k] == b0[k])
    && (forall k :: cut.at <= k < |t| ==> b[k] == NUL || b[k] == b0[k])
    && b[cut.at] == NUL && Stored(b, t, Trimmed(t, cut.at + cut.skip))
  }

  predicate SearchDone(b0: seq<char>, b: seq<char>, t: string, cut: Option<Cut>, at: Option<nat>)
    requires cut.Some? ==> cut.value.at + cut.value.skip <= |t|
  {
    match cut
    case None => b == b0 && at == None
    case Some(c) => CutDone(b0, b, t, c) && at == Some(Trimmed(t, c.at + c.skip).from)
  }

  method CutAt(buf: array<char>, at: nat, skip: nat, ghost t: string) returns (start: nat)
    requires HoldsFrom(buf[..], t, 0) && skip > 0 && at + skip <= |t|
    modifies buf
    ensures start == Trimmed(t, at + skip).from && CutDone(old(buf[..]), buf[..], t, Cut(at, skip))
  {
    ghost var b0 := buf[..];
    buf[at] := NUL;
    ghost var b1 := buf[..];
    start := TrimWhitespace(buf, at + skip, t);
    CutMade(b0, b1, buf[..], t, Cut(at, skip));
  }

  lemma CutMade(b0: seq<char>, b1: seq<char>, b: seq<char>, t: string, cut: Cut)
    requires HoldsFrom(b0, t, 0) && cut.skip > 0 && cut.at + cut.skip <= |t| && b1 == b0[cut.at := NUL]
    requires Cleared(b1, b, Trimmed(t, cut.at + cut.skip).to, |t|)
    ensures CutDone(b0, b, t, cut)
  {
    hide Trimmed;
    var r := Trimmed(t, cut.at + cut.skip);
  }

  /** The searches for an operator with blanks beside it. */
  method CutBlank(buf: array<char>, op: string, ghost t: string) returns (part: Option<nat>)
    requires op != "" && HoldsFrom(buf[..], t, 0)
    modifies buf
    ensures SearchDone(old(buf[..]), buf[..], t, BlankCut(t, op), part)
  {
    hide Find, IsCut, Trimmed, CutDone, HoldsFrom, CString, BlankCut;
    CStringIs(buf[..], t);
    BlankCutSteps(t, op);
    var pos := Find(CString(buf[..]), " " + op + " ");
    var skip := |op| + 2;
    if pos.None? {
      pos := Find(CString(buf[..]), op + " ");
      skip := |op| + 1;
    }
    if pos.None? {
      pos := Find(CString(buf[..]), " " + op);
    }
    part := None;
    if pos.Some? {
      var start := CutAt(buf, pos.value, skip, t);
      part := Some(start);
    }
  }

  lemma BlankCutSteps(t: string, op: string)
    requires op != ""
    ensures var both, after, before := Find(t, " " + op + " "), Find(t, op + " "), Find(t, " " + op);
      && BlankCut(t, op) == (
           if both.Some? then Some(Cut(both.value, |op| + 2))
           else if after.Some? then Some(Cut(after.value, |op| + 1))
           else if before.Some? then Some(Cut(before.value, |op| + 1)) else None)
      && (both.Some? ==> both.value + |op| + 2 <= |t|)
      && (after.Some? ==> after.value + |op| + 1 <= |t|)
      && (before.Some? ==> before.value + |op| + 1 <= |t|)
  {
    hide Find, IsCut;
  }

  /** The search for `>>` (lines 177-208). */
  method CutAppend(buf: array<char>, ghost t: string) returns (output: Option<nat>)
    requires HoldsFrom(buf[..], t, 0)
    modifies buf
    ensures SearchDone(old(buf[..]), buf[..], t, AppendCut(t), output)
  {
    hide Find, IsCut, Trimmed, CutDone, HoldsFrom, CString, BlankCut;
    output := CutBlank(buf, ">>", t);
    if output.None? {
      CStringIs(buf[..], t);
      var pos := Find(CString(buf[..]), ">>");
      if pos.Some? {
        var start := CutAt(buf, pos.value, 2, t);
        output := Some(start);
      }
    }
  }

  /** The search for `<` or `|` (lines 248-306). */
  method CutSingle(buf: array<char>, c: char, ghost t: string) returns (part: Option<nat>)
    requires HoldsFrom(buf[..], t, 0)
    modifies buf
    ensures SearchDone(old(buf[..]), buf[..], t, SingleCut(t, c), part)
  {
    hide IsCut, Trimmed, CutDone, HoldsFrom, CString, BlankCut;
    part := CutBlank(buf, [c], t);
    if part.None? {
      CStringIs(buf[..], t);
      var last := LastIndexOf(CString(buf[..]), c);
      if last.Some? {
        var start := CutAt(buf, last.value, 1, t);
        part := Some(start);
      }
    }
  }

  /** The search for `>` after that for `>>` (lines 211-246); the test for a `>` before it never fails. */
  method CutOutput(buf: array<char>, ghost t: string) returns (output: Option<nat>, append: bool)
    requires HoldsFrom(buf[..], t, 0)
    modifies buf
    ensures SearchDone(old(buf[..]), buf[..], t, OutputCut(t), output)
    ensures append <==> AppendCut(t).Some?
  {
    hide IsCut, Trimmed, CutDone, CString, BlankCut, Find;
    output := CutAppend(buf, t);
    append := output.Some?;
    if output.None? {
      output := CutBlank(buf, ">", t);
      if output.None? {
        CStringIs(buf[..], t);
        var last := LastIndexOf(CString(buf[..]), '>');
        if last.Some? {
          NoDouble(t, last.value);
          if last.value == 0 || buf[last.value - 1] != '>' {
            var start := CutAt(buf, last.value, 1, t);
            output := Some(start);
          }
        }
      }
    }
  }

  lemma NoDouble(t: string, i: nat)
    requires AppendCut(t).None? && i < |t| && t[i] == '>'
    ensures i > 0 ==> t[i - 1] != '>'
  {
    hide AppendCut;
    if i > 0 && t[i - 1] == '>' {
      DoubleIsFound(t, i);
    }
  }

  lemma DoubleIsFound(t: string, i: nat)
    requires 0 < i < |t| && t[i - 1] == '>' && t[i] == '>'
    ensures AppendCut(t).Some?
  {
    hide BlankCut;
    assert t[i - 1..][..2] == ">>";
  }

  /** What is left of the command is a text again. */
  lemma TextBefore(b0: seq<char>, b: seq<char>, t: string, cut: Option<Cut>, at: Option<nat>)
    requires HoldsFrom(b0, t, 0) && (cut.Some? ==> cut.value.at + cut.value.skip <= |t|)
    requires SearchDone(b0, b, t, cut, at)
    ensures HoldsFrom(b, Before(t, cut), 0) && Before(t, cut) <= t
    ensures OnlyNuls(b0, b, |t|) && Points(b, t, After(t, cut), at)
    ensures at.Some? ==> |Before(t, cut)| <= at.value
  {
    hide Trimmed, Stored;
  }

  /** The parts are in the buffer, and the offsets point at them. */
  predicate Points(b: seq<char>, t: string, r: Option<Region>, at: Option<nat>) {
    match r
    case None => at == None
    case Some(r) => at == Some(r.from) && Stored(b, t, r)
  }

  /** Later writes are below a part. */
  lemma StillPoints(b: seq<char>, b': seq<char>, t: string, t': string, n: nat, r: Option<Region>, at: Option<nat>)
    requires Points(b, t, r, at) && t <= t' && |b'| == |b| && (at.Some? ==> n <= at.value)
    requires forall k :: n <= k < |b| ==> b'[k] == b[k]
    ensures Points(b', t', r, at)
  {
  }

  /** Each byte is as before, or NUL. */
  predicate OnlyNuls(b0: seq<char>, b: seq<char>, n: nat) {
    && n <= |b0| == |b|
    && (forall k :: 0 <= k < n ==> b[k] == NUL || b[k] == b0[k])
    && (forall k :: n <= k < |b| ==> b[k] == b0[k])
  }

  /** The trailing white space of the command goes last. */
  lemma CommandEnds(b: seq<char>, b': seq<char>, t: string, t': string)
    requires HoldsFrom(b, t, 0) && t <= t' && Cleared(b, b', TrimmedEnd(t, 0), |t|)
    ensures Stored(b', t', Region(0, TrimmedEnd(t, 0)))
    ensures OnlyNuls(b, b', |t|)
  {
    hide TrimmedEnd;
  }

  /**
    cli_parser_parse_redirections: afterwards each part of the text is in the buffer where it was,
    ended by a NUL, and nothing else is written than NULs into the text.
   */
  method ParseRedirections(buf: array<char>) returns (redir: Redirection)
    requires NUL in buf[..]
    modifies buf
    ensures var t := CString(old(buf[..]));
      var p := Redirect(t);
      && Stored(buf[..], t, p.cmd) && redir.append == p.append
      && Points(buf[..], t, p.pipe, redir.pipe)
      && Points(buf[..], t, p.input, redir.input)
      && Points(buf[..], t, p.output, redir.output)
      && OnlyNuls(old(buf[..]), buf[..], |t|)
  {
    hide HoldsFrom, CString, Trimmed, TrimmedEnd, SingleCut, AppendCut, OutputCut, SearchDone;
    hide Stored, Points, After, Before, Cleared, OnlyNuls;
    ghost var b0, t := buf[..], CString(buf[..]);
    CStringHeld(b0);
    var output, append := CutOutput(buf, t);
    ghost var b1, t1 := buf[..], Before(t, OutputCut(t));
    TextBefore(b0, b1, t, OutputCut(t), output);
    var input := CutSingle(buf, '<', t1);
    ghost var b2, t2 := buf[..], Before(t1, SingleCut(t1, '<'));
    TextBefore(b1, b2, t1, SingleCut(t1, '<'), input);
    var pipe := CutSingle(buf, '|', t2);
    ghost var b3, t3 := buf[..], Before(t2, SingleCut(t2, '|'));
    TextBefore(b2, b3, t2, SingleCut(t2, '|'), pipe);
    TrimEnd(buf, 0, t3);
    CommandEnds(b3, buf[..], t3, t);
    OnlyNulsTrans(b2, b3, buf[..], |t3|, |t2|);
    OnlyNulsTrans(b1, b2, buf[..], |t2|, |t1|);
    OnlyNulsTrans(b0, b1, buf[..], |t1|, |t|);
    KeptAbove(b3, buf[..], |t3|);
    KeptAbove(b2, buf[..], |t2|);
    KeptAbove(b1, buf[..], |t1|);
    StillPoints(b3, buf[..], t2, t, |t3|, After(t2, SingleCut(t2, '|')), pipe);
    StillPoints(b2, buf[..], t1, t, |t2|, After(t1, SingleCut(t1, '<')), input);
    StillPoints(b1, buf[..], t, t, |t1|, After(t, OutputCut(t)), output);
    redir := Redirection(output, input, pipe, append);
  }

  lemma OnlyNulsTrans(b0: seq<char>, b1: seq<char>, b2: seq<char>, n: nat, m: nat)
    requires OnlyNuls(b0, b1, m) && OnlyNuls(b1, b2, n) && n <= m
    ensures OnlyNuls(b0, b2, m)
  {
  }

  lemma KeptAbove(b0: seq<char>, b: seq<char>, n: nat)
    requires OnlyNuls(b0, b, n)
    ensures |b| == |b0| && forall k :: n <= k < |b| ==> b[k] == b0[k]
  {
  }
}
