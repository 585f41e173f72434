/**
  Redirections in a command, src/bas/cli/cli_parser.c: cli_parser_parse_redirections cuts
  `cmd | pipe < input > output` in place, by writing NULs over the operators.
 */
module Redirections {
  import opened CText

  const NUL: char := '\0'

  /** Where an operator with the blanks around it starts, and its length. */
  datatype Cut = Cut(at: nat, skip: nat)

  /** Positions from..to of a text. */
  datatype Region = Region(from: nat, to: nat)

  datatype Parts = Parts(cmd: Region, pipe: Option<Region>, input: Option<Region>, output: Option<Region>, append: bool)

  // ---------------------------------------------------------------------------
  // Where the operators are found
  // ---------------------------------------------------------------------------

  /** strrchr: the last occurrence. */
  function LastIndexOf(t: string, c: char): (i: Option<nat>)
    ensures i.Some? ==> i.value < |t| && t[i.value] == c && forall k :: i.value < k < |t| ==> t[k] != c
    ensures i.None? <==> c !in t
  {
    if t == "" then None
    else if t[|t| - 1] == c then Some(|t| - 1)
    else LastIndexOf(t[..|t| - 1], c)
  }

  /** The searches for an operator with blanks on both sides, after it, and before it. */
  function BlankCut(t: string, op: string): (cut: Option<Cut>)
    requires op != ""
    ensures cut.Some? ==> cut.value.at + cut.value.skip <= |t| && IsCut(t, op, cut.value)
  {
    var both := Find(t, " " + op + " ");
    if both.Some? then BothBlank(t, op, both.value); Some(Cut(both.value, |op| + 2))
    else
      var after := Find(t, op + " ");
      if after.Some? then AfterBlank(t, op, after.value); Some(Cut(after.value, |op| + 1))
      else
        var before := Find(t, " " + op);
        if before.Some? then BeforeBlank(t, op, before.value); Some(Cut(before.value, |op| + 1)) else None
  }

  /** The cut covers the operator and at most one blank on either side. */
  ghost predicate IsCut(t: string, op: string, cut: Cut) {
    exists before: nat, after: nat ::
      IsCutAt(t, op, cut, before, after)
  }

  predicate IsCutAt(t: string, op: string, cut: Cut, before: nat, after: nat) {
    && before <= 1 && after <= 1 && cut.skip == before + |op| + after && cut.at + cut.skip <= |t|
    && Blank(t, cut.at, cut.at + before)
    && t[cut.at + before..cut.at + before + |op|] == op
    && Blank(t, cut.at + before + |op|, cut.at + cut.skip)
  }

  /** Only white space at positions a..b. */
  predicate Blank(t: string, a: nat, b: nat) {
    a <= b <= |t| && forall k :: a <= k < b ==> IsSpace(t[k])
  }

  lemma BothBlank(t: string, op: string, i: nat)
    requires i <= |t| && " " + op + " " <= t[i..]
    ensures IsCut(t, op, Cut(i, |op| + 2))
  {
    var pat := " " + op + " ";
    assert forall k :: 0 <= k < |pat| ==> t[i + k] == pat[k];
    assert forall k :: 0 <= k < |op| ==> pat[1 + k] == op[k];
    assert IsCutAt(t, op, Cut(i, |op| + 2), 1, 1);
  }

  lemma AfterBlank(t: string, op: string, i: nat)
    requires i <= |t| && op + " " <= t[i..]
    ensures IsCut(t, op, Cut(i, |op| + 1))
  {
    var pat := op + " ";
    assert forall k :: 0 <= k < |pat| ==> t[i + k] == pat[k];
    assert IsCutAt(t, op, Cut(i, |op| + 1), 0, 1);
  }

  lemma BeforeBlank(t: string, op: string, i: nat)
    requires i <= |t| && " " + op <= t[i..]
    ensures IsCut(t, op, Cut(i, |op| + 1))
  {
    var pat := " " + op;
    assert forall k :: 0 <= k < |pat| ==> t[i + k] == pat[k];
    assert forall k :: 0 <= k < |op| ==> pat[1 + k] == op[k];
    assert IsCutAt(t, op, Cut(i, |op| + 1), 1, 0);
  }

  lemma BareCut(t: string, op: string, i: nat)
    requires i <= |t| && op <= t[i..]
    ensures IsCut(t, op, Cut(i, |op|))
  {
    assert forall k :: 0 <= k < |op| ==> t[i + k] == op[k];
    assert IsCutAt(t, op, Cut(i, |op|), 0, 0);
  }

  /** The search for `>>`: last of all, its first occurrence without blanks. */
  function AppendCut(t: string): (cut: Option<Cut>)
    ensures cut.Some? ==> cut.value.at + cut.value.skip <= |t| && IsCut(t, ">>", cut.value)
  {
    var blank := BlankCut(t, ">>");
    if blank.Some? then blank
    else
      var bare := Find(t, ">>");
      if bare.Some? then BareCut(t, ">>", bare.value); Some(Cut(bare.value, 2)) else None
  }

  /** The search for a one-character operator: last of all, its last occurrence. */
  function SingleCut(t: string, c: char): (cut: Option<Cut>)
    ensures cut.Some? ==> cut.value.at + cut.value.skip <= |t| && IsCut(t, [c], cut.value)
  {
    var blank := BlankCut(t, [c]);
    if blank.Some? then blank
    else
      var last := LastIndexOf(t, c);
      if last.Some? then BareCut(t, [c], last.value); Some(Cut(last.value, 1)) else None
  }

  function OutputCut(t: string): (cut: Option<Cut>)
    ensures cut.Some? ==> cut.value.at + cut.value.skip <= |t|
  {
    if AppendCut(t).Some? then AppendCut(t) else SingleCut(t, '>')
  }

  // ---------------------------------------------------------------------------
  // The parts
  // ---------------------------------------------------------------------------

  /** End of a text without its trailing white space, not before `from`. */
  function TrimmedEnd(t: string, from: nat): (to: nat)
    requires from <= |t|
    ensures from <= to && Blank(t, to, |t|) && (to > from ==> !IsSpace(t[to - 1]))
  {
    if |t| > from && IsSpace(t[|t| - 1]) then TrimmedEnd(t[..|t| - 1], from) else |t|
  }

  /** trim_whitespace: where the trimmed rest of a text is. */
  function Trimmed(t: string, from: nat): (r: Region)
    requires from <= |t|
    ensures from <= r.from <= r.to <= |t|
  {
    var start := from + SpacePrefix(t[from..]);
    Region(start, TrimmedEnd(t, start))
  }

  function Before(t: string, cut: Option<Cut>): string
    requires cut.Some? ==> cut.value.at <= |t|
  {
    if cut.Some? then t[..cut.value.at] else t
  }

  function After(t: string, cut: Option<Cut>): Option<Region>
    requires cut.Some? ==> cut.value.at + cut.value.skip <= |t|
  {
    if cut.Some? then Some(Trimmed(t, cut.value.at + cut.value.skip)) else None
  }

  /** The parts of a command. */
  function Redirect(t: string): Parts {
    var output := OutputCut(t);
    var t1 := Before(t, output);
    var input := SingleCut(t1, '<');
    var t2 := Before(t1, input);
    var pipe := SingleCut(t2, '|');
    var t3 := Before(t2, pipe);
    Parts(Region(0, TrimmedEnd(t3, 0)), After(t2, pipe), After(t1, input), After(t, output), AppendCut(t).Some?)
  }

  function Text(t: string, r: Region): string
    requires r.from <= r.to <= |t|
  {
    t[r.from..r.to]
  }

  // ---------------------------------------------------------------------------
  // Every command is its parts, in order, with one operator between two of them
  // ---------------------------------------------------------------------------

  /** White space, an operator, white space. */
  ghost predicate IsGap(t: string, a: nat, b: nat, op: string) {
    exists i: nat :: IsGapAt(t, a, b, op, i)
  }

  predicate IsGapAt(t: string, a: nat, b: nat, op: string, i: nat) {
    && a <= i && i + |op| <= b <= |t|
    && Blank(t, a, i) && t[i..i + |op|] == op && Blank(t, i + |op|, b)
  }

  /** One part, if it is there, after one operator and white space. */
  ghost predicate FollowedBy(t: string, a: nat, r: Option<Region>, op: string) {
    r.Some? ==> a < r.value.from <= r.value.to <= |t| && IsGap(t, a, r.value.from, op)
  }

  function EndOf(r: Option<Region>, otherwise: nat): nat {
    if r.Some? then r.value.to else otherwise
  }

  lemma GapOfCut(t: string, op: string, c: Cut, a: nat, b: nat)
    requires op != "" && IsCut(t, op, c) && Blank(t, a, c.at) && Blank(t, c.at + c.skip, b)
    ensures a < b && IsGap(t, a, b, op)
  {
    var before: nat, after: nat :| IsCutAt(t, op, c, before, after);
    assert IsGapAt(t, a, b, op, c.at + before);
  }

  lemma TrimmedFrom(t: string, from: nat)
    requires from <= |t|
    ensures var r := Trimmed(t, from); Blank(t, from, r.from) && Blank(t, r.to, |t|)
  {
    var n := SpacePrefix(t[from..]);
    assert forall k :: 0 <= k < n ==> t[from..][k] == t[from + k];
  }

  /** One search: what is before the cut, the trimmed part after it, nothing else but white space. */
  lemma CutSplits(t: string, op: string, cut: Option<Cut>, a: nat)
    requires op != "" && (cut.Some? ==> cut.value.at + cut.value.skip <= |t| && IsCut(t, op, cut.value))
    requires var t' := Before(t, cut); Blank(t', a, |t'|)
    ensures Blank(t, EndOf(After(t, cut), a), |t|)
    ensures FollowedBy(t, a, After(t, cut), op)
  {
    hide Trimmed, IsCut, IsGap;
    if cut.Some? {
      var c := cut.value;
      var t' := t[..c.at];
      assert Blank(t, a, c.at) by { assert forall k :: 0 <= k < c.at ==> t[k] == t'[k]; }
      TrimmedFrom(t, c.at + c.skip);
      GapOfCut(t, op, c, a, Trimmed(t, c.at + c.skip).from);
    }
  }

  lemma InPrefix(t: string, n: nat, a: nat, r: Option<Region>, op: string)
    requires n <= |t| && FollowedBy(t[..n], a, r, op)
    ensures FollowedBy(t, a, r, op)
  {
    if r.Some? {
      var i: nat :| IsGapAt(t[..n], a, r.value.from, op, i);
      assert t[..n][i..i + |op|] == t[i..i + |op|];
      assert IsGapAt(t, a, r.value.from, op, i);
    }
  }

  lemma InBefore(t: string, cut: Option<Cut>, a: nat, r: Option<Region>, op: string)
    requires cut.Some? ==> cut.value.at <= |t|
    requires FollowedBy(Before(t, cut), a, r, op)
    ensures FollowedBy(t, a, r, op)
  {
    if cut.Some? {
      InPrefix(t, cut.value.at, a, r, op);
    }
  }

  /** A command is, in this order, its parts with one operator between two of them. */
  lemma {:induction false} PartsInOrder(t: string)
    ensures var p := Redirect(t);
      var cutIn := EndOf(p.pipe, p.cmd.to);
      var cutOut := EndOf(p.input, cutIn);
      && p.cmd.from == 0
      && FollowedBy(t, p.cmd.to, p.pipe, "|")
      && FollowedBy(t, cutIn, p.input, "<")
      && FollowedBy(t, cutOut, p.output, if p.append then ">>" else ">")
      && Blank(t, EndOf(p.output, cutOut), |t|)
  {
    hide TrimmedEnd, SingleCut, AppendCut, Trimmed, IsCut, After, Before, FollowedBy, Blank;
    var output := OutputCut(t);
    var t1 := Before(t, output);
    var input := SingleCut(t1, '<');
    var t2 := Before(t1, input);
    var pipe := SingleCut(t2, '|');
    var t3 := Before(t2, pipe);
    var end := TrimmedEnd(t3, 0);
    CutSplits(t2, "|", pipe, end);
    InBefore(t1, input, end, After(t2, pipe), "|");
    InBefore(t, output, end, After(t2, pipe), "|");
    CutSplits(t1, "<", input, EndOf(After(t2, pipe), end));
    InBefore(t, output, EndOf(After(t2, pipe), end), After(t1, input), "<");
    var cutOut := EndOf(After(t1, input), EndOf(After(t2, pipe), end));
    CutSplits(t, if AppendCut(t).Some? then ">>" else ">", output, cutOut);
  }

  // ---------------------------------------------------------------------------
  // Printing a command and parsing it
  // ---------------------------------------------------------------------------

  /** Blanks written before and after an operator. */
  datatype Spacing = Spacing(before: bool, after: bool)

  datatype Piece = Piece(spacing: Spacing, text: string)

  function Spaced(op: string, sp: Spacing): string {
    (if sp.before then " " else "") + op + if sp.after then " " else ""
  }

  function Printed(op: string, piece: Option<Piece>): string {
    if piece.Some? then Spaced(op, piece.value.spacing) + piece.value.text else ""
  }

  /** A trimmed text, not empty, without the characters of `ops`. */
  predicate IsWord(s: string, ops: string) {
    s != "" && !IsSpace(s[0]) && !IsSpace(s[|s| - 1]) && forall i :: 0 <= i < |s| ==> s[i] !in ops
  }

  predicate IsPiece(piece: Option<Piece>, ops: string) {
    piece.Some? ==> IsWord(piece.value.text, ops)
  }

  predicate OpAt(t: string, op: string, k: nat) {
    k <= |t| && op <= t[k..]
  }

  /** The operator is in the text, once, at i. */
  predicate Only(t: string, op: string, i: nat) {
    op != "" && OpAt(t, op, i) && forall k :: 0 <= k <= |t| && OpAt(t, op, k) ==> k == i
  }

  predicate BlankAt(t: string, i: int) {
    0 <= i < |t| && t[i] == ' '
  }

  /** An operator with the given blanks is at k. */
  lemma PatternAt(t: string, op: string, sp: Spacing, k: nat)
    ensures var b := if sp.before then 1 else 0;
      OpAt(t, Spaced(op, sp), k) <==>
        OpAt(t, op, k + b) && (sp.before ==> BlankAt(t, k)) && (sp.after ==> BlankAt(t, k + b + |op|))
  {
    var x, z := if sp.before then " " else "", if sp.after then " " else "";
    AtConcat(t, x + op, z, k);
    AtConcat(t, x, op, k);
    BlankIs(t, k);
    BlankIs(t, k + |x| + |op|);
    NothingAt(t, k);
    NothingAt(t, k + |x| + |op|);
    assert Spaced(op, sp) == (x + op) + z;
    hide OpAt;
  }

  lemma AtConcat(t: string, x: string, y: string, k: nat)
    ensures OpAt(t, x + y, k) <==> OpAt(t, x, k) && OpAt(t, y, k + |x|)
  {
    if k + |x + y| <= |t| {
      assert t[k..][..|x + y|] == t[k..][..|x|] + t[k + |x|..][..|y|];
    }
  }

  lemma BlankIs(t: string, k: nat)
    ensures OpAt(t, " ", k) <==> BlankAt(t, k)
  {
    if k < |t| {
      assert t[k..][..1] == [t[k]];
    }
  }

  lemma NothingAt(t: string, k: nat)
    ensures OpAt(t, "", k) <==> k <= |t|
  {
    if k <= |t| {
      assert t[k..][..0] == "";
    }
  }

  lemma CharsAt(t: string, pat: string, k: nat)
    requires k + |pat| <= |t|
    ensures OpAt(t, pat, k) <==> forall j :: 0 <= j < |pat| ==> t[k + j] == pat[j]
  {
    assert forall j :: 0 <= j < |pat| ==> t[k..][j] == t[k + j];
  }

  lemma OpChars(t: string, op: string, k: nat)
    ensures OpAt(t, op, k) ==> k + |op| <= |t| && forall j :: 0 <= j < |op| ==> t[k + j] == op[j]
  {
    if k + |op| <= |t| {
      CharsAt(t, op, k);
    }
  }

  /** strstr in terms of OpAt. */
  lemma FindIs(t: string, pat: string)
    ensures Find(t, pat).Some? ==> OpAt(t, pat, Find(t, pat).value)
    ensures forall k :: 0 <= k <= |t| && OpAt(t, pat, k) ==> Find(t, pat).Some? && Find(t, pat).value <= k
  {
    forall k: nat | k <= |t| && OpAt(t, pat, k)
      ensures Find(t, pat).Some? && Find(t, pat).value <= k
    {
    }
  }

  /** A pattern with the one operator in it is found there, or not at all. */
  lemma FindAround(t: string, op: string, i: nat, sp: Spacing)
    requires Only(t, op, i)
    ensures var fits := (sp.before ==> BlankAt(t, i - 1)) && (sp.after ==> BlankAt(t, i + |op|));
      Find(t, Spaced(op, sp)) == if fits then Some(if sp.before then i - 1 else i) else None
  {
    hide Spaced, Find;
    var b := if sp.before then 1 else 0;
    FindIs(t, Spaced(op, sp));
    var r := Find(t, Spaced(op, sp));
    if r.Some? {
      PatternAt(t, op, sp, r.value);
    }
    if (sp.before ==> BlankAt(t, i - 1)) && (sp.after ==> BlankAt(t, i + |op|)) {
      PatternAt(t, op, sp, i - b);
    }
  }

  /** The blanks around an operator that the cut takes. */
  function CutAround(t: string, op: string, i: nat): Cut
    requires BlankAt(t, i - 1) ==> i > 0
  {
    var b, a := if BlankAt(t, i - 1) then 1 else 0, if BlankAt(t, i + |op|) then 1 else 0;
    Cut(i - b, b + |op| + a)
  }

  lemma BlankCutIs(t: string, op: string)
    requires op != ""
    ensures var both := Find(t, Spaced(op, Spacing(true, true)));
      var after := Find(t, Spaced(op, Spacing(false, true)));
      var before := Find(t, Spaced(op, Spacing(true, false)));
      BlankCut(t, op) ==
        if both.Some? then Some(Cut(both.value, |op| + 2))
        else if after.Some? then Some(Cut(after.value, |op| + 1))
        else if before.Some? then Some(Cut(before.value, |op| + 1)) else None
  {
    hide Find, IsCut;
    assert "" + op + " " == op + " " && " " + op + "" == " " + op;
  }

  lemma BlankCutOfOnly(t: string, op: string, i: nat)
    requires Only(t, op, i)
    ensures BlankCut(t, op) == if BlankAt(t, i - 1) || BlankAt(t, i + |op|) then Some(CutAround(t, op, i)) else None
  {
    hide Find, IsCut, Spaced, BlankCut;
    BlankCutIs(t, op);
    FindAround(t, op, i, Spacing(true, true));
    FindAround(t, op, i, Spacing(false, true));
    FindAround(t, op, i, Spacing(true, false));
  }

  lemma AppendCutOfOnly(t: string, i: nat)
    requires Only(t, ">>", i)
    ensures AppendCut(t) == Some(CutAround(t, ">>", i))
  {
    hide BlankCut, Find;
    BlankCutOfOnly(t, ">>", i);
    FindAround(t, ">>", i, Spacing(false, false));
    assert "" + ">>" + "" == ">>";
  }

  lemma SingleCutOfOnly(t: string, c: char, i: nat)
    requires Only(t, [c], i)
    ensures SingleCut(t, c) == Some(CutAround(t, [c], i))
  {
    hide BlankCut;
    BlankCutOfOnly(t, [c], i);
    assert t[i] == t[i..][0];
    var last := LastIndexOf(t, c);
    assert c in t;
    assert OpAt(t, [c], last.value);
  }

  /** What is not in the text is not found, with blanks or without. */
  lemma NotFound(t: string, op: string, sp: Spacing)
    requires forall k :: 0 <= k <= |t| ==> !OpAt(t, op, k)
    ensures Find(t, Spaced(op, sp)).None?
  {
    hide Spaced, Find;
    FindIs(t, Spaced(op, sp));
    var r := Find(t, Spaced(op, sp));
    if r.Some? {
      PatternAt(t, op, sp, r.value);
    }
  }

  lemma BlankCutOfNone(t: string, op: string)
    requires op != "" && forall k :: 0 <= k <= |t| ==> !OpAt(t, op, k)
    ensures BlankCut(t, op).None?
  {
    hide Find, BlankCut, Spaced;
    BlankCutIs(t, op);
    NotFound(t, op, Spacing(true, true));
    NotFound(t, op, Spacing(false, true));
    NotFound(t, op, Spacing(true, false));
  }

  lemma SingleCutOfNone(t: string, c: char)
    requires c !in t
    ensures SingleCut(t, c).None?
  {
    hide BlankCut;
    forall k: nat | k <= |t|
      ensures !OpAt(t, [c], k)
    {
      OpChars(t, [c], k);
      assert [c][0] == c;
    }
    BlankCutOfNone(t, [c]);
  }

  /** With at most one `>` there is no `>>`. */
  lemma AppendCutOfNone(t: string, i: nat)
    requires forall k :: 0 <= k < |t| && t[k] == '>' ==> k == i
    ensures AppendCut(t).None?
  {
    hide BlankCut;
    forall k: nat | k <= |t|
      ensures !OpAt(t, ">>", k)
    {
      OpChars(t, ">>", k);
      assert ">>"[0] == '>' && ">>"[1] == '>';
    }
    BlankCutOfNone(t, ">>");
    NotFound(t, ">>", Spacing(false, false));
    assert "" + ">>" + "" == ">>";
  }

  predicate IsOp(op: string) {
    op == "|" || op == "<" || op == ">" || op == ">>"
  }

  /** A command so far, one that can be followed by an operator. */
  predicate IsHead(head: string, c: char) {
    head != "" && !IsSpace(head[|head| - 1]) && c !in head
  }

  /** The operator of a printed piece. */
  function OpIndex(head: string, piece: Piece): nat {
    |head| + if piece.spacing.before then 1 else 0
  }

  /** What is where in a head with a printed piece. */
  lemma PieceLayout(head: string, op: string, piece: Piece)
    requires IsOp(op) && piece.text != ""
    ensures var t := head + Printed(op, Some(piece));
      var i := OpIndex(head, piece);
      var j := i + |op| + if piece.spacing.after then 1 else 0;
      && j + |piece.text| == |t| && t[j..] == piece.text && OpAt(t, op, i) && t[..|head|] == head
      && (piece.spacing.before ==> t[|head|] == ' ') && (piece.spacing.after ==> t[j - 1] == ' ')
      && t[i + |op| - 1] == op[0]
  {
    var x, z := if piece.spacing.before then " " else "", if piece.spacing.after then " " else "";
    var t := head + Printed(op, Some(piece));
    hide OpAt, Printed;
    PrintedParts(head, op, piece);
    FiveParts(head, x, op, z, piece.text);
    BlankIs(t, |head|);
    BlankIs(t, |head| + |x| + |op|);
    OpChars(t, op, |head| + |x|);
    assert op[|op| - 1] == op[0];
  }

  lemma PrintedParts(head: string, op: string, piece: Piece)
    ensures var x, z := if piece.spacing.before then " " else "", if piece.spacing.after then " " else "";
      head + Printed(op, Some(piece)) == head + x + op + z + piece.text
  {
    var x, z := if piece.spacing.before then " " else "", if piece.spacing.after then " " else "";
    var s := Spaced(op, piece.spacing);
    assert s == x + op + z;
    hide Spaced;
    assert head + (s + piece.text) == head + s + piece.text;
    assert head + (x + op + z) == head + x + op + z;
  }

  lemma FiveParts(a: string, x: string, op: string, z: string, b: string)
    ensures var t := a + x + op + z + b;
      && t[..|a|] == a && OpAt(t, x, |a|) && OpAt(t, op, |a| + |x|) && OpAt(t, z, |a| + |x| + |op|)
      && t[|a| + |x| + |op| + |z|..] == b
  {
    var t := a + x + op + z + b;
    assert t[|a|..][..|x|] == x;
    assert t[|a| + |x|..][..|op|] == op;
    assert t[|a| + |x| + |op|..][..|z|] == z;
  }

  lemma OnlyInPiece(head: string, op: string, piece: Piece)
    requires IsOp(op) && IsHead(head, op[0]) && IsWord(piece.text, op)
    ensures var t := head + Printed(op, Some(piece));
      var i := OpIndex(head, piece);
      && Only(t, op, i) && (forall k :: 0 <= k < |t| && t[k] == op[0] ==> i <= k < i + |op|)
      && CutAround(t, op, i) == Cut(|head|, |Spaced(op, piece.spacing)|)
  {
    hide Printed;
    var t := head + Printed(op, Some(piece));
    var i := OpIndex(head, piece);
    var j := i + |op| + if piece.spacing.after then 1 else 0;
    PieceLayout(head, op, piece);
    assert forall k :: 0 <= k < |head| ==> t[k] == head[k];
    assert forall k :: j <= k < |t| ==> t[k] == t[j..][k - j];
    SpacedLength(op, piece.spacing);
    hide Spaced;
    assert !BlankAt(t, |head| - 1) && !BlankAt(t, j);
    OnlyThere(t, op, i);
  }

  lemma SpacedLength(op: string, sp: Spacing)
    ensures |Spaced(op, sp)| == |op| + (if sp.before then 1 else 0) + if sp.after then 1 else 0
  {
  }

  lemma OnlyThere(t: string, op: string, i: nat)
    requires IsOp(op) && OpAt(t, op, i) && forall k :: 0 <= k < |t| && t[k] == op[0] ==> i <= k < i + |op|
    ensures Only(t, op, i)
  {
    forall k: nat | k <= |t| && OpAt(t, op, k)
      ensures k == i
    {
      assert t[k] == t[k..][0] && t[k + |op| - 1] == t[k..][|op| - 1];
    }
  }

  /** One search on a printed command: what is before the operator, and the part after it. */
  ghost predicate Recovered(t: string, head: string, cut: Option<Cut>, piece: Option<Piece>) {
    && (cut.Some? ==> cut.value.at + cut.value.skip <= |t|)
    && Before(t, cut) == head && (After(t, cut).Some? <==> piece.Some?)
    && (piece.Some? ==> Text(t, After(t, cut).value) == piece.value.text)
  }

  lemma TrimmedWord(t: string, from: nat, ops: string)
    requires from <= |t| && IsWord(t[from..], ops)
    ensures Trimmed(t, from) == Region(from, |t|)
  {
  }

  lemma PieceRecovered(head: string, op: string, piece: Piece)
    requires IsOp(op) && IsHead(head, op[0]) && IsWord(piece.text, op)
    ensures var t := head + Printed(op, Some(piece));
      Recovered(t, head, Some(CutAround(t, op, OpIndex(head, piece))), Some(piece))
  {
    hide Trimmed;
    var t := head + Printed(op, Some(piece));
    OnlyInPiece(head, op, piece);
    PieceLayout(head, op, piece);
    SpacedLength(op, piece.spacing);
    var j := |head| + |Spaced(op, piece.spacing)|;
    hide Printed, Only, CutAround, Spaced;
    TrimmedWord(t, j, op);
    assert t[j..|t|] == piece.text;
  }

  lemma NothingPrinted(head: string, op: string)
    ensures head + Printed(op, None) == head
  {
  }

  lemma SingleRecovered(head: string, c: char, piece: Option<Piece>)
    requires IsOp([c]) && IsHead(head, c) && IsPiece(piece, [c])
    ensures var t := head + Printed([c], piece); Recovered(t, head, SingleCut(t, c), piece)
  {
    hide SingleCut, Trimmed, Printed, Only, CutAround;
    if piece.Some? {
      PieceRecovered(head, [c], piece.value);
      OnlyInPiece(head, [c], piece.value);
      SingleCutOfOnly(head + Printed([c], piece), c, OpIndex(head, piece.value));
    } else {
      NothingPrinted(head, [c]);
      SingleCutOfNone(head, c);
    }
  }

  function OutputOp(append: bool): string {
    if append then ">>" else ">"
  }

  lemma OutputRecovered(head: string, append: bool, piece: Option<Piece>)
    requires IsHead(head, '>') && IsPiece(piece, ">")
    ensures var t := head + Printed(OutputOp(append), piece);
      Recovered(t, head, OutputCut(t), piece) && (AppendCut(t).Some? <==> append && piece.Some?)
  {
    hide SingleCut, AppendCut, Trimmed, Printed, Only, CutAround, Recovered;
    var op := OutputOp(append);
    var t := head + Printed(op, piece);
    if piece.Some? && append {
      assert ">>"[0] == '>' && IsWord(piece.value.text, ">>");
      PieceRecovered(head, op, piece.value);
      OnlyInPiece(head, op, piece.value);
      AppendCutOfOnly(t, OpIndex(head, piece.value));
    } else if piece.Some? {
      SingleRecovered(head, '>', piece);
      OnlyInPiece(head, op, piece.value);
      AppendCutOfNone(t, OpIndex(head, piece.value));
    } else {
      NothingPrinted(head, op);
      SingleRecovered(head, '>', None);
      NothingPrinted(head, ">");
      AppendCutOfNone(t, 0);
    }
  }

  /** A command line, with each operator optional and any of four spacings around it. */
  function Line(cmd: string, pipe: Option<Piece>, input: Option<Piece>, append: bool, output: Option<Piece>): string {
    cmd + Printed("|", pipe) + Printed("<", input) + Printed(OutputOp(append), output)
  }

  /** The part is there if it was printed, with its text. */
  predicate Shows(t: string, r: Option<Region>, piece: Option<Piece>) {
    && (r.Some? <==> piece.Some?)
    && (r.Some? ==> r.value.from <= r.value.to <= |t| && Text(t, r.value) == piece.value.text)
  }

  predicate ParsesAs(t: string, cmd: string, pipe: Option<Piece>, input: Option<Piece>,
                     append: bool, output: Option<Piece>) {
    var p := Redirect(t);
    && p.cmd.from == 0 && p.cmd.to <= |t| && t[..p.cmd.to] == cmd
    && Shows(t, p.pipe, pipe) && Shows(t, p.input, input) && Shows(t, p.output, output)
    && (p.append <==> append && output.Some?)
  }

  /** Parsing a printed command gives back its parts and the append flag. */
  lemma {:induction false} LineRoundTrip(cmd: string, pipe: Option<Piece>, input: Option<Piece>,
                                         append: bool, output: Option<Piece>)
    requires IsWord(cmd, "|<>") && IsPiece(pipe, "|<>") && IsPiece(input, "<>") && IsPiece(output, ">")
    ensures ParsesAs(Line(cmd, pipe, input, append, output), cmd, pipe, input, append, output)
  {
    hide SingleCut, AppendCut, Trimmed, Printed, TrimmedEnd, OutputCut, Recovered, After, Before;
    hide IsHead, IsWord, IsPiece, Shows, Text;
    var t2 := cmd + Printed("|", pipe);
    var t1 := t2 + Printed("<", input);
    var t := t1 + Printed(OutputOp(append), output);
    Conditions(cmd, pipe, input, output);
    HeadNext(cmd, "|", pipe, '<');
    HeadNext(cmd, "|", pipe, '>');
    HeadNext(t2, "<", input, '>');
    SingleRecovered(cmd, '|', pipe);
    SingleRecovered(t2, '<', input);
    OutputRecovered(t1, append, output);
    WholeCommand(cmd);
    RecoveredShows(t2, cmd, SingleCut(t2, '|'), pipe, t);
    RecoveredShows(t1, t2, SingleCut(t1, '<'), input, t);
    RecoveredShows(t, t1, OutputCut(t), output, t);
  }

  lemma RecoveredShows(t: string, head: string, cut: Option<Cut>, piece: Option<Piece>, line: string)
    requires Recovered(t, head, cut, piece) && t <= line
    ensures (cut.Some? ==> cut.value.at + cut.value.skip <= |t|)
    ensures Before(t, cut) == head && Shows(line, After(t, cut), piece)
  {
    hide Trimmed;
  }

  lemma WholeCommand(cmd: string)
    requires IsWord(cmd, "|<>")
    ensures TrimmedEnd(cmd, 0) == |cmd|
  {
  }

  lemma Conditions(cmd: string, pipe: Option<Piece>, input: Option<Piece>, output: Option<Piece>)
    requires IsWord(cmd, "|<>") && IsPiece(pipe, "|<>") && IsPiece(input, "<>") && IsPiece(output, ">")
    ensures IsHead(cmd, '|') && IsHead(cmd, '<') && IsHead(cmd, '>')
    ensures IsPiece(pipe, "|") && IsPiece(pipe, "<") && IsPiece(pipe, ">")
    ensures IsPiece(input, "<") && IsPiece(input, ">")
  {
  }

  lemma NotInSpaced(op: string, sp: Spacing, c: char)
    requires IsOp(op) && op[0] != c && !IsSpace(c)
    ensures c !in Spaced(op, sp)
  {
    assert forall i :: 0 <= i < |op| ==> op[i] == op[0];
  }

  lemma HeadOfConcat(a: string, b: string, d: string, c: char)
    requires c !in a && c !in b && c !in d && d != "" && !IsSpace(d[|d| - 1])
    ensures IsHead(a + (b + d), c)
  {
    var t := a + (b + d);
    assert t[|t| - 1] == d[|d| - 1];
    assert c !in b + d;
  }

  /** A printed piece ends in a text that an operator can follow. */
  lemma HeadNext(head: string, op: string, piece: Option<Piece>, c: char)
    requires IsOp(op) && op[0] != c && !IsSpace(c) && IsHead(head, c) && IsPiece(piece, [c])
    ensures IsHead(head + Printed(op, piece), c)
  {
    if piece.Some? {
      NotInSpaced(op, piece.value.spacing, c);
      hide Spaced;
      assert [c][0] == c && c !in piece.value.text;
      HeadOfConcat(head, Spaced(op, piece.value.spacing), piece.value.text, c);
    } else {
      NothingPrinted(head, op);
    }
  }
}
