/**
  The prefix hint of expand_wildcard in src/bas/cli/args.c: which patterns allow an enumerator to
  leave out the names that do not start with it.
 */
module Hints {
  import opened CText
  import opened Globs

  // ---------------------------------------------------------------------------
  // What every match of a pattern starts with
  // ---------------------------------------------------------------------------

  /** Names over all characters, or, as those of files, over all but '/'. */
  predicate IsName(s: string, slash: bool) {
    slash || '/' !in s
  }

  predicate Allowed(c: char, slash: bool) {
    slash || c != '/'
  }

  predicate Accepts(b: Bracket, c: char)
    requires b.Bracket?
  {
    InSet(b.items, c) != b.negated
  }

  ghost predicate AcceptsNone(b: Bracket, slash: bool)
    requires b.Bracket?
  {
    forall c: char :: Allowed(c, slash) ==> !Accepts(b, c)
  }

  ghost predicate AcceptsOnly(b: Bracket, x: char, slash: bool)
    requires b.Bracket?
  {
    forall c: char :: Allowed(c, slash) && Accepts(b, c) ==> c == x
  }

  predicate IsBracket(p: string) {
    p != "" && p[0] == '[' && ReadBracket(p[1..]).Bracket?
  }

  /** No name matches: a backslash at the end, a bracket without members, a '/' where there is none. */
  ghost predicate Unmatchable(p: string, slash: bool)
    decreases |p|
  {
    if p == "" then false
    else if p[0] == '*' || p[0] == '?' then Unmatchable(p[1..], slash)
    else if p[0] == '\\' then |p| == 1 || !Allowed(p[1], slash) || Unmatchable(p[2..], slash)
    else if IsBracket(p) then
      var b := ReadBracket(p[1..]);
      AcceptsNone(b, slash) || Unmatchable(b.rest, slash)
    else !Allowed(p[0], slash) || Unmatchable(p[1..], slash)
  }

  /** Every match starts with u, read off the pattern. */
  ghost predicate AllStart(p: string, u: string, slash: bool)
    decreases |p|
  {
    if u == "" || Unmatchable(p, slash) then true
    else if p == "" || p[0] == '*' || p[0] == '?' then false
    else if p[0] == '\\' then |p| > 1 && p[1] == u[0] && AllStart(p[2..], u[1..], slash)
    else if IsBracket(p) then
      var b := ReadBracket(p[1..]);
      AcceptsOnly(b, u[0], slash) && AllStart(b.rest, u[1..], slash)
    else p[0] == u[0] && AllStart(p[1..], u[1..], slash)
  }

  lemma {:induction false} UnmatchableHasNone(p: string, slash: bool, name: string)
    requires Unmatchable(p, slash) && IsName(name, slash)
    ensures !FnMatch(p, name)
    decreases |p| + |name|
  {
    hide ReadBracket, InSet;
    if p[0] == '*' {
      UnmatchableHasNone(p[1..], slash, name);
      if name != "" {
        UnmatchableHasNone(p, slash, name[1..]);
      }
    } else if name != "" {
      if p[0] == '\\' {
        if |p| > 1 && Allowed(p[1], slash) {
          UnmatchableHasNone(p[2..], slash, name[1..]);
        }
      } else if IsBracket(p) {
        var b := ReadBracket(p[1..]);
        if Accepts(b, name[0]) {
          UnmatchableHasNone(b.rest, slash, name[1..]);
        }
      } else if p[0] == '?' || Allowed(p[0], slash) {
        UnmatchableHasNone(p[1..], slash, name[1..]);
      }
    }
  }

  lemma MatchCons(p: string, c: char, name: string)
    ensures p != "" && p[0] == '*' && FnMatch(p[1..], name) ==> FnMatch(p, name) && FnMatch(p, [c] + name)
    ensures p != "" && p[0] == '?' && FnMatch(p[1..], name) ==> FnMatch(p, [c] + name)
    ensures |p| > 1 && p[0] == '\\' && FnMatch(p[2..], name) ==> FnMatch(p, [p[1]] + name)
    ensures IsBracket(p) && Accepts(ReadBracket(p[1..]), c) && FnMatch(ReadBracket(p[1..]).rest, name)
      ==> FnMatch(p, [c] + name)
    ensures p != "" && p[0] != '*' && p[0] != '?' && p[0] != '\\' && !IsBracket(p) && FnMatch(p[1..], name)
      ==> FnMatch(p, [p[0]] + name)
  {
    hide ReadBracket, InSet;
    assert ([c] + name)[1..] == name;
    assert p != "" ==> ([p[0]] + name)[1..] == name;
    assert |p| > 1 ==> ([p[1]] + name)[1..] == name;
  }

  /** A name that matches. */
  lemma {:induction false} SomeMatch(p: string, slash: bool) returns (name: string)
    requires !Unmatchable(p, slash)
    ensures FnMatch(p, name) && IsName(name, slash)
    decreases |p|
  {
    hide FnMatch, ReadBracket, InSet;
    if p == "" {
      name := "";
      EmptyMatches();
    } else if p[0] == '*' || p[0] == '?' {
      name := SomeMatch(p[1..], slash);
      MatchCons(p, 'a', name);
      name := ['a'] + name;
    } else if p[0] == '\\' {
      name := SomeMatch(p[2..], slash);
      MatchCons(p, 'a', name);
      name := [p[1]] + name;
    } else if IsBracket(p) {
      var b := ReadBracket(p[1..]);
      name := SomeMatch(b.rest, slash);
      var c :| Allowed(c, slash) && Accepts(b, c);
      MatchCons(p, c, name);
      name := [c] + name;
    } else {
      name := SomeMatch(p[1..], slash);
      MatchCons(p, 'a', name);
      name := [p[0]] + name;
    }
  }

  lemma EmptyMatches()
    ensures FnMatch("", "")
  {
  }

  lemma {:induction false} AllStartHolds(p: string, u: string, slash: bool, name: string)
    requires AllStart(p, u, slash) && FnMatch(p, name) && IsName(name, slash)
    ensures u <= name
    decreases |p|
  {
    hide ReadBracket, InSet, Unmatchable;
    if u != "" {
      if Unmatchable(p, slash) {
        UnmatchableHasNone(p, slash, name);
      } else if p[0] == '\\' {
        AllStartHolds(p[2..], u[1..], slash, name[1..]);
      } else if IsBracket(p) {
        assert Allowed(name[0], slash) && Accepts(ReadBracket(p[1..]), name[0]);
        AllStartHolds(ReadBracket(p[1..]).rest, u[1..], slash, name[1..]);
      } else {
        AllStartHolds(p[1..], u[1..], slash, name[1..]);
      }
    }
  }

  /** A match that does not start with u. */
  lemma {:induction false} Stray(p: string, u: string, slash: bool) returns (name: string)
    requires !AllStart(p, u, slash)
    ensures FnMatch(p, name) && IsName(name, slash) && !(u <= name)
    decreases |p|
  {
    hide FnMatch, ReadBracket, InSet;
    var other := if u[0] == 'a' then 'b' else 'a';
    if p == "" {
      name := "";
      EmptyMatches();
    } else if p[0] == '*' || p[0] == '?' {
      name := SomeMatch(p[1..], slash);
      MatchCons(p, other, name);
      name := [other] + name;
    } else if p[0] == '\\' {
      if p[1] == u[0] {
        name := Stray(p[2..], u[1..], slash);
      } else {
        name := SomeMatch(p[2..], slash);
      }
      MatchCons(p, other, name);
      name := [p[1]] + name;
      NotPrefix(u, name);
    } else if IsBracket(p) {
      var b := ReadBracket(p[1..]);
      var c :| Allowed(c, slash) && Accepts(b, c) && (AcceptsOnly(b, u[0], slash) || c != u[0]);
      if AcceptsOnly(b, u[0], slash) {
        name := Stray(b.rest, u[1..], slash);
      } else {
        name := SomeMatch(b.rest, slash);
      }
      MatchCons(p, c, name);
      name := [c] + name;
      NotPrefix(u, name);
    } else {
      if p[0] == u[0] {
        name := Stray(p[1..], u[1..], slash);
      } else {
        name := SomeMatch(p[1..], slash);
      }
      MatchCons(p, other, name);
      name := [p[0]] + name;
      NotPrefix(u, name);
    }
  }

  lemma NotPrefix(u: string, name: string)
    requires u != "" && name != ""
    ensures u <= name <==> u[0] == name[0] && u[1..] <= name[1..]
  {
    if u[0] == name[0] && u[1..] <= name[1..] {
      assert u == [u[0]] + u[1..] && name == [name[0]] + name[1..];
    }
  }

  /** Exact for every pattern and text, brackets included. */
  lemma {:induction false} AllStartIff(p: string, u: string, slash: bool)
    ensures AllStart(p, u, slash) <==> forall name :: IsName(name, slash) && FnMatch(p, name) ==> u <= name
  {
    hide AllStart, FnMatch;
    if AllStart(p, u, slash) {
      forall name | IsName(name, slash) && FnMatch(p, name)
        ensures u <= name
      {
        AllStartHolds(p, u, slash, name);
      }
    } else {
      var name := Stray(p, u, slash);
    }
  }

  // ---------------------------------------------------------------------------
  // When the hint is right
  // ---------------------------------------------------------------------------

  function Backslashes(n: nat): string {
    seq(n, _ => '\\')
  }

  predicate AllBackslashes(s: string) {
    forall i :: 0 <= i < |s| ==> s[i] == '\\'
  }

  /** From its first backslash on, the hint is escaped backslashes, and all that follows provides as many again. */
  ghost predicate BackslashesAgain(v: string, q: string, slash: bool) {
    var b := v[IndexOf(v, '\\')..];
    AllBackslashes(b) && |b| % 2 == 0 && AllStart(q, Backslashes(|b| / 2), slash)
  }

  /**
    The patterns whose hint is right: no backslash in the hint; or no match at all; or escaped
    backslashes at the end of the hint that the brackets after it make up for.
   */
  ghost predicate HintOk(p: string, slash: bool) {
    var v := FilenamePrefix(p);
    '\\' !in v || Unmatchable(p, slash) || BackslashesAgain(v, p[|v|..], slash)
  }

  /** One literal or escaped character of a pattern, against a text. */
  lemma StartStep(p: string, x: char, r: string, u: string, slash: bool)
    requires (p == [x] + r && !IsWild(x) && x != '\\') || p == ['\\', x] + r
    ensures Unmatchable(p, slash) <==> !Allowed(x, slash) || Unmatchable(r, slash)
    ensures u != "" ==> (AllStart(p, u, slash) <==> Unmatchable(p, slash) || (x == u[0] && AllStart(r, u[1..], slash)))
  {
    hide Allowed;
    if p == ['\\', x] + r {
      assert p[0] == '\\' && p[1] == x && p[2..] == r;
    } else {
      assert p[0] == x && p[1..] == r;
    }
  }

  lemma UnmatchableStarts(p: string, u: string, slash: bool)
    ensures u == "" || Unmatchable(p, slash) ==> AllStart(p, u, slash)
  {
  }

  predicate StartsWild(q: string) {
    q == "" || IsWild(q[0])
  }

  lemma MoreBackslashes(m: nat, v: string)
    ensures (Backslashes(m) + (['\\', '\\'] + v))[1..] == Backslashes(m + 1) + v
    ensures Backslashes(m + 1)[0] == '\\'
  {
  }

  /** A backslash at the end of the hint escapes the wildcard after it, or nothing. */
  lemma LastBackslash(q: string, u: string, slash: bool)
    requires StartsWild(q) && u != "" && u[0] == '\\'
    ensures AllStart("\\" + q, u, slash) <==> Unmatchable("\\" + q, slash)
  {
    if q != "" {
      assert "\\" + q == ['\\', q[0]] + q[1..];
      StartStep("\\" + q, q[0], q[1..], u, slash);
    } else {
      assert "\\" + q == "\\";
    }
  }

  /** The hint's rest, when m backslashes of the name are still owed. */
  lemma {:induction false} OwedIff(v: string, q: string, m: nat, slash: bool)
    requires m > 0 && StartsWild(q) && forall k :: 0 <= k < |v| ==> !IsWild(v[k])
    ensures AllStart(v + q, Backslashes(m) + v, slash) <==>
      || Unmatchable(v + q, slash)
      || (AllBackslashes(v) && |v| % 2 == 0 && AllStart(q, Backslashes(m + |v| / 2), slash))
    decreases |v|
  {
    hide AllStart, Unmatchable;
    var u := Backslashes(m) + v;
    UnmatchableStarts(v + q, u, slash);
    if v == "" {
      assert v + q == q && u == Backslashes(m);
    } else if v[0] != '\\' {
      assert v + q == [v[0]] + (v[1..] + q);
      StartStep(v + q, v[0], v[1..] + q, u, slash);
    } else if |v| == 1 {
      assert v == "\\";
      LastBackslash(q, u, slash);
    } else {
      assert v + q == ['\\', v[1]] + (v[2..] + q) && v == ['\\', v[1]] + v[2..];
      StartStep(v + q, v[1], v[2..] + q, u, slash);
      if v[1] == '\\' {
        MoreBackslashes(m, v[2..]);
        OwedIff(v[2..], q, m + 1, slash);
        assert AllBackslashes(v) <==> AllBackslashes(v[2..]);
      }
    }
  }

  lemma {:induction false} HintIff(v: string, q: string, slash: bool)
    requires StartsWild(q) && forall k :: 0 <= k < |v| ==> !IsWild(v[k])
    ensures AllStart(v + q, v, slash) <==>
      '\\' !in v || Unmatchable(v + q, slash) || BackslashesAgain(v, q, slash)
    decreases |v|
  {
    hide AllStart, Unmatchable, BackslashesAgain;
    UnmatchableStarts(v + q, v, slash);
    if v == "" {
    } else if v[0] != '\\' {
      assert v + q == [v[0]] + (v[1..] + q);
      StartStep(v + q, v[0], v[1..] + q, v, slash);
      HintIff(v[1..], q, slash);
      SameBackslashes(v, q, slash);
    } else if |v| == 1 {
      assert v == "\\";
      LastBackslash(q, v, slash);
      OneIsNotAgain(q, slash);
    } else {
      EscapeIff(v, q, slash);
    }
  }

  lemma OneIsNotAgain(q: string, slash: bool)
    ensures !BackslashesAgain("\\", q, slash)
  {
    assert "\\"[IndexOf("\\", '\\')..] == "\\";
  }

  /** What is left of a text from its first backslash on. */
  lemma FromFirst(v: string)
    requires v != ""
    ensures v[IndexOf(v, '\\')..] == if v[0] == '\\' then v else v[1..][IndexOf(v[1..], '\\')..]
  {
    var n := IndexOf(v, '\\');
    if v[0] != '\\' {
      assert n == 1 + IndexOf(v[1..], '\\');
    }
  }

  lemma SameBackslashes(v: string, q: string, slash: bool)
    requires v != "" && v[0] != '\\'
    ensures '\\' in v <==> '\\' in v[1..]
    ensures BackslashesAgain(v, q, slash) <==> BackslashesAgain(v[1..], q, slash)
  {
    hide AllStart, AllBackslashes, IndexOf;
    FromFirst(v);
  }

  /** A hint that begins with an escaped character. */
  lemma EscapeIff(v: string, q: string, slash: bool)
    requires StartsWild(q) && forall k :: 0 <= k < |v| ==> !IsWild(v[k])
    requires |v| > 1 && v[0] == '\\'
    ensures AllStart(v + q, v, slash) <==> Unmatchable(v + q, slash) || BackslashesAgain(v, q, slash)
  {
    hide AllStart, Unmatchable;
    assert v + q == ['\\', v[1]] + (v[2..] + q) && v[IndexOf(v, '\\')..] == v;
    StartStep(v + q, v[1], v[2..] + q, v, slash);
    if v[1] == '\\' {
      assert v[1..] == Backslashes(1) + v[2..];
      OwedIff(v[2..], q, 1, slash);
      assert AllBackslashes(v) <==> AllBackslashes(v[2..]);
    }
  }

  /** The hint is right exactly for the patterns that are HintOk, brackets included. */
  lemma {:induction false} HintSoundIff(p: string, slash: bool)
    ensures HintOk(p, slash) <==> forall name :: IsName(name, slash) && FnMatch(p, name) ==> FilenamePrefix(p) <= name
  {
    hide AllStart, Unmatchable, FnMatch;
    var v := FilenamePrefix(p);
    assert p == v + p[|v|..];
    HintIff(v, p[|v|..], slash);
    AllStartIff(p, v, slash);
  }

  /** A backslash at the end that escapes nothing. */
  predicate Dangling(p: string)
    decreases |p|
  {
    p != "" && if p[0] == '\\' then |p| == 1 || Dangling(p[2..]) else Dangling(p[1..])
  }

  lemma {:induction false} UnmatchableIff(p: string)
    requires '[' !in p
    ensures Unmatchable(p, true) <==> Dangling(p)
    decreases |p|
  {
    if p != "" {
      if p[0] == '\\' {
        if |p| > 1 {
          UnmatchableIff(p[2..]);
        }
      } else {
        UnmatchableIff(p[1..]);
      }
    }
  }

  /** From the first backslash on, an even number of them. */
  predicate EvenBackslashes(v: string) {
    var b := v[IndexOf(v, '\\')..];
    AllBackslashes(b) && |b| % 2 == 0
  }

  lemma EvenNext(v: string)
    requires EvenBackslashes(v) && v != ""
    ensures v[0] != '\\' ==> EvenBackslashes(v[1..])
    ensures v[0] == '\\' ==> |v| > 1 && v[1] == '\\' && EvenBackslashes(v[2..])
  {
    hide IndexOf;
    FromFirst(v);
    if v[0] == '\\' && |v| > 2 {
      FromFirst(v[2..]);
    }
  }

  lemma {:induction false} UnmatchableRest(v: string, q: string, slash: bool)
    requires Unmatchable(q, slash) && forall k :: 0 <= k < |v| ==> !IsWild(v[k])
    requires EvenBackslashes(v)
    ensures Unmatchable(v + q, slash)
    decreases |v|
  {
    hide Unmatchable, EvenBackslashes;
    if v == "" {
      assert v + q == q;
    } else if v[0] != '\\' {
      EvenNext(v);
      assert v + q == [v[0]] + (v[1..] + q);
      StartStep(v + q, v[0], v[1..] + q, "", slash);
      UnmatchableRest(v[1..], q, slash);
    } else {
      EvenNext(v);
      assert v + q == ['\\', '\\'] + (v[2..] + q);
      StartStep(v + q, '\\', v[2..] + q, "", slash);
      UnmatchableRest(v[2..], q, slash);
    }
  }

  /**
    Without brackets, over all names: the hint is right if and only if it has no backslash, or the
    pattern ends in a backslash that escapes nothing, and so matches nothing.
   */
  lemma {:induction false} HintWithoutBrackets(p: string)
    requires '[' !in p
    ensures (forall name :: FnMatch(p, name) ==> FilenamePrefix(p) <= name)
      <==> '\\' !in FilenamePrefix(p) || Dangling(p)
  {
    hide FnMatch, Unmatchable;
    var v := FilenamePrefix(p);
    var q := p[|v|..];
    assert p == v + q;
    HintSoundIff(p, true);
    UnmatchableIff(p);
    if '\\' in v && BackslashesAgain(v, q, true) {
      var b := v[IndexOf(v, '\\')..];
      StartsWithNothing(q, Backslashes(|b| / 2), true);
      UnmatchableRest(v, q, true);
    }
  }

  lemma StartsWithNothing(q: string, u: string, slash: bool)
    requires StartsWild(q) && '[' !in q && u != "" && AllStart(q, u, slash)
    ensures Unmatchable(q, slash)
  {
  }

  /** Soundness of the hint: without a backslash in it, every matching name starts with it. */
  lemma {:induction false} PrefixHintSound(p: string, name: string)
    requires '\\' !in FilenamePrefix(p)
    requires FnMatch(p, name)
    ensures FilenamePrefix(p) <= name
  {
    hide FnMatch, FilenamePrefix;
    HintSoundIff(p, true);
  }

  /**
    The escaping family, where the hint fails worst: if the first backslash in the hint escapes any
    character but a backslash, then no matching name starts with the hint, and an enumerator that
    filters by it loses every match.
   */
  lemma {:induction false} PrefixHintLosesAll(p: string, name: string)
    requires '\\' in FilenamePrefix(p)
    requires var k := IndexOf(p, '\\'); k + 1 == |p| || p[k + 1] != '\\'
    requires FnMatch(p, name)
    ensures !(FilenamePrefix(p) <= name)
  {
    var u := FilenamePrefix(p);
    var k := IndexOf(p, '\\');
    var j :| 0 <= j < |u| && u[j] == '\\';
    assert p[j] == '\\' && k <= j;
    assert u[k] == '\\';
    assert p == p[..k] + p[k..];
    LiteralPrefixMatches(p[..k], p[k..], name);
    assert name[k..][0] == p[k..][1];
  }

  lemma {:induction false} LiteralPrefixMatches(u: string, p: string, s: string)
    requires forall k :: 0 <= k < |u| ==> !IsWild(u[k]) && u[k] != '\\'
    requires FnMatch(u + p, s)
    ensures u <= s && FnMatch(p, s[|u|..])
  {
    if u == "" {
      assert u + p == p && s[0..] == s;
    } else {
      assert (u + p)[0] == u[0] && (u + p)[1..] == u[1..] + p;
      LiteralPrefixMatches(u[1..], p, s[1..]);
      assert s[1..][|u| - 1..] == s[|u|..];
      assert u == [u[0]] + u[1..];
    }
  }

  /** The smallest instance: the pattern \a* matches "ab", but the hint is \a. */
  lemma PrefixHintUnsoundExample()
    ensures FnMatch("\\a*", "ab") && FilenamePrefix("\\a*") == "\\a" && !("\\a" <= "ab")
  {
    assert FnMatch("*", "") by { assert FnMatch("", ""); }
    assert "b"[1..] == "" && "*"[1..] == "";
    assert FnMatch("*", "b");
    assert "\\a*"[2..] == "*" && "ab"[1..] == "b";
    assert "\\a*"[1..] == "a*" && "a*"[1..] == "*";
    assert FirstWild("*") == 0 && FirstWild("a*") == 1 && FirstWild("\\a*") == 2;
  }

  /** Brackets can make up for a backslash: in \\\\[\\\\] the hint is two backslashes, and right. */
  lemma {:induction false} BracketsMakeUp()
    ensures FilenamePrefix(BRACKETED) == "\\\\" && HintOk(BRACKETED, true)
  {
    hide AllStart, Unmatchable;
    BracketedHint();
    OneBackslash();
    TwoBackslashes();
  }

  const BRACKETED := "\\\\[\\\\]"

  lemma BracketedHint()
    ensures FilenamePrefix(BRACKETED) == "\\\\" && BRACKETED[2..] == "[\\\\]"
  {
    var p := BRACKETED;
    assert p[2..] == "[\\\\]";
    FirstWildIs(p, 2);
    assert p[..2] == "\\\\";
  }

  lemma FirstWildIs(p: string, n: nat)
    requires n < |p| && IsWild(p[n]) && forall k :: 0 <= k < n ==> !IsWild(p[k])
    ensures FirstWild(p) == n
  {
  }

  lemma TwoBackslashes()
    ensures "\\\\"[IndexOf("\\\\", '\\')..] == "\\\\" && AllBackslashes("\\\\")
  {
  }

  lemma OneBackslash()
    ensures AllStart("[\\\\]", Backslashes(1), true)
  {
    hide SetItems, Unmatchable;
    var q := "[\\\\]";
    BracketIs();
    assert q[1..] == "\\\\]";
    assert Backslashes(1)[0] == '\\' && Backslashes(1)[1..] == "";
  }

  lemma BracketIs()
    ensures ReadBracket("\\\\]") == Bracket(false, [Range('\\', '\\')], "")
  {
    hide RangeAt;
    RangeIs();
    assert "\\\\]"[2..] == "]" && "]"[1..] == "";
    assert [] + [Range('\\', '\\')] == [Range('\\', '\\')];
    assert SetItems("]", false, false, [Range('\\', '\\')]) == Bracket(false, [Range('\\', '\\')], "");
  }

  lemma RangeIs()
    ensures RangeAt("\\\\]") == (Range('\\', '\\'), 2)
  {
  }

  // ---------------------------------------------------------------------------
  // Filtering by the hint
  // ---------------------------------------------------------------------------

  /** An enumerator may filter by the hint of this word. */
  ghost predicate MayFilter(w: string) {
    !ContainsWildcard(w) || HintOk(FilePattern(w), false)
  }

  lemma BasenameIsName(path: string)
    ensures IsName(Basename(path), false)
  {
  }

  lemma {:induction false} FilterKeepsMatches(pattern: string, paths: seq<string>)
    requires HintOk(FilePattern(pattern), false)
    ensures Matches(pattern, Filter(paths, PrefixArg(pattern))) == Matches(pattern, paths)
  {
    hide FnMatch, FilePattern, FilenamePrefix, PatternDir, ResultPath, HintOk, Basename;
    if paths != [] {
      var init, last := paths[..|paths| - 1], paths[|paths| - 1];
      FilterKeepsMatches(pattern, init);
      MatchesPush(pattern, Filter(init, PrefixArg(pattern)), last);
      BasenameIsName(last);
      HintSoundIff(FilePattern(pattern), false);
    }
  }

  /** Same matches in the same order, whether or not the enumerator uses the hint. */
  lemma {:induction false} PruningIsInvisible(w: string, tree: Tree, context: Option<string>)
    requires MayFilter(w)
    ensures ExpandWildcards(w, Env(Some(Pruned(tree)), context)) == ExpandWildcards(w, Env(Some(Plain(tree)), context))
  {
    hide Matches, Filter, ContainsWildcard, HintOk;
    if ContainsWildcard(w) {
      FilterKeepsMatches(w, tree(EnumDir(w, context)));
    }
  }

  /** No directory lists two files of one name. */
  ghost predicate IsDirectoryTree(tree: Tree) {
    forall dir, i, j :: 0 <= i < j < |tree(dir)| ==> Basename(tree(dir)[i]) != Basename(tree(dir)[j])
  }

  /** One file, in every directory. */
  function Single(name: string): Tree {
    dir => [name]
  }

  /** A match that comes out as the word itself starts with its hint. */
  lemma ResultHasHint(w: string, name: string)
    requires IsName(name, false)
    ensures ResultPath(PatternDir(w), name) == w ==> FilenamePrefix(FilePattern(w)) <= name
  {
    hide FirstWild, FilenamePrefix, FilePattern;
    var n := AfterLast(w, '/');
    var dir := PatternDir(w);
    var full := if dir == "" then name else dir + "/" + name;
    if ResultPath(dir, name) == w {
      assert w <= full;
      HintIsPrefix(w);
      if dir == "" {
        assert n == 0 && w[n..] == w;
      } else {
        assert n == |dir| + 1 && full[n..] == name;
        assert w[n..] <= full[n..];
      }
    }
  }

  lemma HintIsPrefix(w: string)
    ensures FilenamePrefix(FilePattern(w)) <= w[AfterLast(w, '/')..]
  {
  }

  lemma SingleLost(w: string, name: string, context: Option<string>)
    requires ContainsWildcard(w) && FnMatch(FilePattern(w), name) && IsName(name, false)
    requires !(FilenamePrefix(FilePattern(w)) <= name)
    ensures ExpandWildcards(w, Env(Some(Pruned(Single(name))), context)) !=
      ExpandWildcards(w, Env(Some(Plain(Single(name))), context))
  {
    hide FnMatch, FilePattern, FilenamePrefix, ResultPath, ContainsWildcard, EnumDir, PatternDir;
    hide Matches, Filter, Basename;
    OwnBasename(name);
    SingleFiltered(name, FilenamePrefix(FilePattern(w)));
    NothingMatches(w);
    MatchesPush(w, [], name);
    ResultHasHint(w, name);
    assert [] + [name] == [name];
    assert Matches(w, [name]) == [ResultPath(PatternDir(w), name)];
    assert [ResultPath(PatternDir(w), name)][0] != w;
  }

  lemma NothingMatches(w: string)
    ensures Matches(w, []) == []
  {
  }

  lemma SingleFiltered(name: string, prefix: string)
    requires !(prefix <= Basename(name))
    ensures Filter([name], Some(prefix)) == []
  {
    hide Basename;
    assert [name][..0] == [];
  }

  lemma OwnBasename(name: string)
    requires IsName(name, false)
    ensures Basename(name) == name
  {
    assert AfterLast(name, '/') == 0;
  }

  /**
    When pruning is invisible, exactly: an enumerator that filters by the hint gives the same words in
    every directory tree if and only if the word has no wildcard or the hint of its file part is
    right.
   */
  lemma {:induction false} PruningIff(w: string, context: Option<string>)
    ensures MayFilter(w) <==> forall tree: Tree :: IsDirectoryTree(tree) ==>
      ExpandWildcards(w, Env(Some(Pruned(tree)), context)) == ExpandWildcards(w, Env(Some(Plain(tree)), context))
  {
    hide ExpandWildcards, HintOk, FnMatch, ContainsWildcard, FilenamePrefix, FilePattern;
    if MayFilter(w) {
      forall tree: Tree | IsDirectoryTree(tree)
        ensures ExpandWildcards(w, Env(Some(Pruned(tree)), context))
          == ExpandWildcards(w, Env(Some(Plain(tree)), context))
      {
        PruningIsInvisible(w, tree, context);
      }
    } else {
      HintSoundIff(FilePattern(w), false);
      var name :| IsName(name, false) && FnMatch(FilePattern(w), name) && !(FilenamePrefix(FilePattern(w)) <= name);
      SingleLost(w, name, context);
      assert IsDirectoryTree(Single(name));
    }
  }
}
