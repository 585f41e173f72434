/**
  Which operator counts when a command of src/bas/cli/cli_parser.c has several of the same kind: one
  with blanks on both sides before one with a blank after it before one with a blank before it, the
  first of each; among operators without blanks the last, but for `>>` the first.
 */
module RedirectionLaws {
  import opened CText
  import opened Redirections

  predicate Occurs(t: string, pat: string, i: nat) {
    i <= |t| && pat <= t[i..]
  }

  predicate FirstAt(t: string, pat: string, i: nat) {
    Occurs(t, pat, i) && forall k :: 0 <= k < i ==> !Occurs(t, pat, k)
  }

  predicate Absent(t: string, pat: string) {
    forall k :: 0 <= k <= |t| ==> !Occurs(t, pat, k)
  }

  lemma FindFirst(t: string, pat: string, i: nat)
    ensures FirstAt(t, pat, i) ==> Find(t, pat) == Some(i)
    ensures Absent(t, pat) ==> Find(t, pat) == None
  {
    hide FindFrom;
    if FirstAt(t, pat, i) {
      forall k | 0 <= k < i
        ensures !(pat <= t[k..])
      {
        assert !Occurs(t, pat, k);
      }
      FindUnique(t, pat, i);
    }
    assert Find(t, pat).Some? ==> Occurs(t, pat, Find(t, pat).value);
  }

  /** Among operators with blanks. */
  lemma BlankPriority(t: string, op: string, i: nat)
    requires op != ""
    ensures FirstAt(t, " " + op + " ", i) ==> BlankCut(t, op) == Some(Cut(i, |op| + 2))
    ensures Absent(t, " " + op + " ") && FirstAt(t, op + " ", i) ==> BlankCut(t, op) == Some(Cut(i, |op| + 1))
    ensures Absent(t, " " + op + " ") && Absent(t, op + " ") && FirstAt(t, " " + op, i) ==>
      BlankCut(t, op) == Some(Cut(i, |op| + 1))
    ensures Absent(t, " " + op + " ") && Absent(t, op + " ") && Absent(t, " " + op) ==> BlankCut(t, op) == None
  {
    hide FirstAt, Absent, Find, IsCut;
    FindFirst(t, " " + op + " ", i);
    FindFirst(t, op + " ", i);
    FindFirst(t, " " + op, i);
  }

  predicate NoBlanks(t: string, op: string) {
    Absent(t, " " + op + " ") && Absent(t, op + " ") && Absent(t, " " + op)
  }

  /** `<`, `>` and `|` without blanks: the last one. */
  lemma {:induction false} LastCounts(before: string, c: char, after: string)
    requires NoBlanks(before + ([c] + after), [c]) && c !in after
    ensures SingleCut(before + ([c] + after), c) == Some(Cut(|before|, 1))
    ensures (before + ([c] + after))[..|before|] == before && (before + ([c] + after))[|before| + 1..] == after
  {
    hide BlankCut, IsCut;
    var t := before + ([c] + after);
    BlankPriority(t, [c], 0);
    assert t[|before|] == c && t[|before| + 1..] == after;
    assert forall k :: |before| < k < |t| ==> t[k] == after[k - |before| - 1];
  }

  /** `>>` without blanks: the first one. */
  lemma {:induction false} FirstAppendCounts(t: string, i: nat)
    requires NoBlanks(t, ">>") && FirstAt(t, ">>", i)
    ensures AppendCut(t) == Some(Cut(i, 2)) && OutputCut(t) == Some(Cut(i, 2))
  {
    hide BlankCut, IsCut, Find, FirstAt;
    BlankPriority(t, ">>", 0);
    FindFirst(t, ">>", i);
  }

  /** With blanks, the first of the best spaced ones, whatever else is on the line. */
  lemma {:induction false} SpacedCounts(t: string, c: char, i: nat)
    requires FirstAt(t, " " + [c] + " ", i) || (Absent(t, " " + [c] + " ") &&
      (FirstAt(t, [c] + " ", i) || (Absent(t, [c] + " ") && FirstAt(t, " " + [c], i))))
    ensures SingleCut(t, c) == Some(Cut(i, if Absent(t, " " + [c] + " ") then 2 else 3))
  {
    hide BlankCut, IsCut, Absent;
    BlankPriority(t, [c], i);
    FirstIsThere(t, " " + [c] + " ", i);
  }

  lemma FirstIsThere(t: string, pat: string, i: nat)
    ensures FirstAt(t, pat, i) ==> !Absent(t, pat)
  {
  }

  /** A `>>` anywhere comes before every `>`. */
  lemma {:induction false} AppendBeforeOutput(t: string)
    ensures OutputCut(t) == if Absent(t, ">>") then SingleCut(t, '>') else AppendCut(t)
    ensures AppendCut(t).Some? <==> !Absent(t, ">>")
  {
    hide SingleCut, IsCut, Find, BlankCut, Absent;
    NeedsOperator(t);
  }

  lemma NeedsOperator(t: string)
    ensures Absent(t, ">>") ==> BlankCut(t, ">>") == None && Find(t, ">>") == None
    ensures !Absent(t, ">>") ==> Find(t, ">>").Some?
  {
    hide FindFrom, IsCut, FirstAt;
    FindFirst(t, ">>", 0);
    if Absent(t, ">>") {
      WithinPattern(t, "", ">>", " ");
      WithinPattern(t, " ", ">>", "");
      WithinPattern(t, " ", ">>", " ");
      assert "" + ">>" + " " == ">>" + " " && " " + ">>" + "" == " " + ">>";
      BlankPriority(t, ">>", 0);
    } else {
      var k :| 0 <= k <= |t| && Occurs(t, ">>", k);
    }
  }

  lemma WithinPattern(t: string, x: string, pat: string, y: string)
    requires Absent(t, pat)
    ensures Absent(t, x + pat + y)
  {
    forall k: nat | k <= |t|
      ensures Occurs(t, x + pat + y, k) ==> Occurs(t, pat, k + |x|)
    {
      PatternInside(t, x, pat, y, k);
    }
  }

  lemma PatternInside(t: string, x: string, pat: string, y: string, k: nat)
    ensures Occurs(t, x + pat + y, k) ==> Occurs(t, pat, k + |x|)
  {
    if Occurs(t, x + pat + y, k) {
      var u := t[k..];
      assert u[|x|..][..|pat|] == (x + pat + y)[|x|..][..|pat|];
      assert t[k + |x|..] == u[|x|..];
    }
  }
}
