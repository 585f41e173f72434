/**
  What wildcard words mean: the pattern notation, which directory expand_wildcard of src/bas/cli/args.c
  looks in, and what it makes of the names it finds there.
 */
module WildcardLaws {
  import opened CText
  import opened Globs

  /** The names in each directory; None is the directory that a NULL context stands for. */
  type Directories = Option<string> -> seq<string>

  function PathOf(dir: Option<string>, name: string): string {
    (if dir.Some? then dir.value else ".") + "/" + name
  }

  function PathsOf(dir: Option<string>, names: seq<string>): seq<string> {
    if names == [] then [] else PathsOf(dir, names[..|names| - 1]) + [PathOf(dir, names[|names| - 1])]
  }

  /** An enumerator that reports every file of the directory by its path. */
  function Lister(files: Directories): Enumerator {
    (dir, prefix, pattern) => Listing(PathsOf(dir, files(dir)), true)
  }

  ghost predicate AreNames(names: seq<string>) {
    forall i :: 0 <= i < |names| ==> '/' !in names[i]
  }

  /** The matching names, in order, after `before`. */
  function Select(names: seq<string>, pattern: string, before: string): seq<string> {
    if names == [] then []
    else
      var init, last := Select(names[..|names| - 1], pattern, before), names[|names| - 1];
      if FnMatch(pattern, last) then init + [Truncate(before + last, 1024)] else init
  }

  /** The matches, or else the word itself. */
  function OrItself(found: seq<string>, w: string): seq<string> {
    if found == [] then [w] else found
  }

  /** `*` stands for any text. */
  lemma {:induction false} StarIff(p: string, s: string)
    ensures FnMatch("*" + p, s) <==> exists k :: 0 <= k <= |s| && FnMatch(p, s[k..])
    decreases |s|
  {
    assert ("*" + p)[1..] == p && s[0..] == s;
    if s != "" {
      StarIff(p, s[1..]);
      assert forall k :: 1 <= k <= |s| ==> s[k..] == s[1..][k - 1..];
      if FnMatch("*" + p, s[1..]) {
        var k :| 0 <= k <= |s[1..]| && FnMatch(p, s[1..][k..]);
        assert s[k + 1..] == s[1..][k..];
      }
    }
  }

  /** The character classes, as section 7.3.1 of POSIX.1-2017 XBD relates them in the C locale. */
  lemma ClassLaws(c: char)
    ensures InClass("upper", c) <==> 'A' <= c <= 'Z'
    ensures InClass("lower", c) <==> 'a' <= c <= 'z'
    ensures InClass("digit", c) <==> '0' <= c <= '9'
    ensures InClass("alpha", c) <==> InClass("upper", c) || InClass("lower", c)
    ensures InClass("alnum", c) <==> InClass("alpha", c) || InClass("digit", c)
    ensures InClass("graph", c) <==> InClass("alnum", c) || InClass("punct", c)
    ensures InClass("punct", c) ==> !InClass("alnum", c)
    ensures InClass("print", c) <==> InClass("graph", c) || c == ' '
    ensures c as int < 128 ==> (InClass("cntrl", c) <==> !InClass("print", c))
    ensures c as int >= 128 ==> !InClass("cntrl", c) && !InClass("print", c)
    ensures InClass("xdigit", c) <==> InClass("digit", c) || 'A' <= c <= 'F' || 'a' <= c <= 'f'
    ensures InClass("blank", c) <==> c == ' ' || c == '\t'
    ensures InClass("space", c) <==> InClass("blank", c) || c in "\n\r\U{000B}\U{000C}"
  {
  }

  /** An item of a bracket as it is written: a character, a range or a class. */
  function Written(item: SetItem): string {
    match item
    case Range(lo, hi) => if lo == hi then [lo] else [lo, '-', hi]
    case Class(name) => "[:" + (name + ":]")
  }

  function WrittenAll(items: seq<SetItem>): string {
    if items == [] then "" else Written(items[0]) + WrittenAll(items[1..])
  }

  predicate Ordinary(c: char) {
    c !in "[]-\\!^"
  }

  predicate IsItem(item: SetItem) {
    match item
    case Range(lo, hi) => Ordinary(lo) && Ordinary(hi)
    case Class(name) => ':' !in name
  }

  lemma {:induction false} ItemsAreRead(items: seq<SetItem>, rest: string, first: bool, negated: bool,
                                        before: seq<SetItem>)
    requires (forall i :: 0 <= i < |items| ==> IsItem(items[i])) && (first ==> items != [])
    ensures SetItems(WrittenAll(items) + ("]" + rest), first, negated, before)
      == Bracket(negated, before + items, rest)
    decreases |items|
  {
    hide SetItems, IsItem, Written;
    var after := "]" + rest;
    if items == [] {
      assert "" + after == after && before + items == before;
      BracketEnds(rest, negated, before);
    } else {
      var more := WrittenAll(items[1..]) + after;
      MoreStarts(items[1..], rest);
      assert WrittenAll(items) + after == Written(items[0]) + more;
      ItemIsRead(items[0], more, first, negated, before);
      ItemsAreRead(items[1..], rest, false, negated, before + [items[0]]);
      assert before + items == before + [items[0]] + items[1..];
    }
  }

  lemma BracketEnds(rest: string, negated: bool, before: seq<SetItem>)
    ensures SetItems("]" + rest, false, negated, before) == Bracket(negated, before, rest)
  {
    assert ("]" + rest)[1..] == rest;
  }

  lemma MoreStarts(items: seq<SetItem>, rest: string)
    requires forall i :: 0 <= i < |items| ==> IsItem(items[i])
    ensures var more := WrittenAll(items) + ("]" + rest); more != "" && more[0] != '-'
  {
    hide Written, IsItem;
    if items != [] {
      WrittenStarts(items[0]);
    }
  }

  lemma WrittenStarts(item: SetItem)
    requires IsItem(item)
    ensures Written(item) != "" && Written(item)[0] !in "-]!^"
  {
  }

  lemma ItemIsRead(item: SetItem, more: string, first: bool, negated: bool, before: seq<SetItem>)
    requires IsItem(item) && more != "" && more[0] != '-'
    ensures SetItems(Written(item) + more, first, negated, before) == SetItems(more, false, negated, before + [item])
  {
    hide SetItems;
    match item
    case Range(lo, hi) => RangeItemIsRead(lo, hi, more, first, negated, before);
    case Class(name) => ClassIsRead(name, more, first, negated, before);
  }

  lemma RangeItemIsRead(lo: char, hi: char, more: string, first: bool, negated: bool, before: seq<SetItem>)
    requires Ordinary(lo) && Ordinary(hi) && more != "" && more[0] != '-'
    ensures var item := Range(lo, hi);
      SetItems(Written(item) + more, first, negated, before) == SetItems(more, false, negated, before + [item])
  {
    hide RangeAt;
    var p := Written(Range(lo, hi)) + more;
    assert p[0] == lo && lo != '[' && lo != ']';
    RangeIsRead(lo, hi, more);
    assert p[|Written(Range(lo, hi))|..] == more;
  }

  lemma ClassIsRead(name: string, more: string, first: bool, negated: bool, before: seq<SetItem>)
    requires ':' !in name
    ensures SetItems("[:" + (name + ":]") + more, first, negated, before)
      == SetItems(more, false, negated, before + [Class(name)])
  {
    hide RangeAt;
    var p := "[:" + (name + ":]") + more;
    ClassEnds(name, more);
    assert p[2..] == name + (":]" + more);
    assert p[|name| + 3] == p[2..][|name| + 1] == ']';
    assert p[2..|name| + 2] == name && p[|name| + 4..] == more;
  }

  lemma ClassEnds(name: string, more: string)
    requires ':' !in name
    ensures IndexOf(name + (":]" + more), ':') == |name|
  {
    var t := name + (":]" + more);
    assert forall k :: 0 <= k < |name| ==> t[k] == name[k];
    IndexOfUnique(t, ':', |name|);
  }

  lemma RangeIsRead(lo: char, hi: char, more: string)
    requires Ordinary(lo) && Ordinary(hi) && more != "" && more[0] != '-'
    ensures RangeAt(Written(Range(lo, hi)) + more) == (Range(lo, hi), |Written(Range(lo, hi))|)
  {
    var p := Written(Range(lo, hi)) + more;
    assert p[0] == lo;
    if lo != hi {
      assert p[1] == '-' && p[2] == hi;
    } else {
      assert p[1] == more[0];
    }
  }

  /** Both ends of a range belong to it. */
  predicate Covers(item: SetItem, c: char) {
    match item
    case Range(lo, hi) => lo <= c && c <= hi
    case Class(name) => InClass(name, c)
  }

  lemma InSetIff(items: seq<SetItem>, c: char)
    ensures InSet(items, c) <==> exists i :: 0 <= i < |items| && Covers(items[i], c)
  {
    hide InClass;
    forall i | 0 <= i < |items|
      ensures Covers(items[i], c) ==> InSet(items, c)
    {
    }
  }

  /** A bracket stands for one character, in the written set or, after a '!', not in it. */
  lemma {:induction false} BracketIff(negated: bool, items: seq<SetItem>, p: string, s: string)
    requires items != [] && forall i :: 0 <= i < |items| ==> IsItem(items[i])
    ensures FnMatch("[" + ((if negated then "!" else "") + (WrittenAll(items) + ("]" + p))), s)
      <==> s != "" && (exists i :: 0 <= i < |items| && Covers(items[i], s[0])) != negated && FnMatch(p, s[1..])
  {
    if s != "" {
      InSetIff(items, s[0]);
    }
    WrittenBracketIff(negated, items, p, s);
  }

  lemma WrittenBracketIff(negated: bool, items: seq<SetItem>, p: string, s: string)
    requires items != [] && forall i :: 0 <= i < |items| ==> IsItem(items[i])
    ensures FnMatch("[" + ((if negated then "!" else "") + (WrittenAll(items) + ("]" + p))), s)
      <==> s != "" && InSet(items, s[0]) != negated && FnMatch(p, s[1..])
  {
    hide SetItems, InSet, WrittenAll;
    var body := WrittenAll(items) + ("]" + p);
    var inner := (if negated then "!" else "") + body;
    ItemsAreRead(items, p, true, negated, []);
    assert [] + items == items;
    assert ("[" + inner)[1..] == inner;
    if negated {
      assert inner[1..] == body;
    } else {
      FirstIsOrdinary(items, p);
      assert inner == body;
    }
  }

  lemma FirstIsOrdinary(items: seq<SetItem>, p: string)
    requires items != [] && forall i :: 0 <= i < |items| ==> IsItem(items[i])
    ensures var body := WrittenAll(items) + ("]" + p); body != "" && body[0] != '!' && body[0] != '^'
  {
    hide Written, IsItem;
    WrittenStarts(items[0]);
  }

  lemma SlashIsLast(s: string, n: nat)
    requires n < |s| && s[n] == '/' && '/' !in s[n + 1..]
    ensures AfterLast(s, '/') == n + 1
  {
    hide AfterLast;
    assert forall k :: n < k < |s| ==> s[k] == s[n + 1..][k - n - 1];
  }

  lemma LastSlash(before: string, name: string)
    requires '/' !in name
    ensures AfterLast(before + "/" + name, '/') == |before| + 1
    ensures (before + "/" + name)[|before| + 1..] == name && (before + "/" + name)[..|before|] == before
  {
    hide AfterLast;
    assert (before + "/" + name)[|before| + 1..] == name;
    SlashIsLast(before + "/" + name, |before|);
  }

  lemma NoSlash(name: string)
    requires '/' !in name
    ensures AfterLast(name, '/') == 0 && name[0..] == name
  {
  }

  lemma {:induction false} MatchesAre(w: string, dir: Option<string>, names: seq<string>, before: string)
    requires AreNames(names)
    requires before == if PatternDir(w) == "" then "" else PatternDir(w) + "/"
    ensures Matches(w, PathsOf(dir, names)) == Select(names, FilePattern(w), before)
  {
    hide FnMatch, FilePattern, PatternDir, Matches, Truncate;
    if names == [] {
      NoMatches(w);
    } else {
      var init, last := names[..|names| - 1], names[|names| - 1];
      MatchesAre(w, dir, init, before);
      MatchesPush(w, PathsOf(dir, init), PathOf(dir, last));
      LastSlash(if dir.Some? then dir.value else ".", last);
      assert "" + last == last && PatternDir(w) + "/" + last == (PatternDir(w) + "/") + last;
    }
  }

  lemma NoMatches(w: string)
    ensures Matches(w, []) == []
  {
  }

  predicate HasWildcard(w: string) {
    '*' in w || '?' in w || '[' in w
  }

  lemma ContainsIff(w: string)
    ensures ContainsWildcard(w) <==> HasWildcard(w)
  {
    assert forall i :: 0 <= i < |w| && IsWild(w[i]) ==> w[i] in w;
  }

  /** A word stays as it is without a wildcard, without an enumerator, and when the enumerator fails. */
  lemma {:induction false} WordStays(w: string, env: Env)
    requires !HasWildcard(w) || env.enumerator == None || (forall d, p, f :: !env.enumerator.value(d, p, f).ok)
    ensures ExpandWildcards(w, env) == [w]
  {
    hide ContainsWildcard, HasWildcard, EnumDir, PrefixArg, FilePattern;
    ContainsIff(w);
    if env.enumerator == None {
      NoMatches(w);
    }
  }

  /** With the directory that the enumerator is asked for, and what goes before the names. */
  lemma ExpandsFrom(w: string, files: Directories, current: Option<string>, place: Option<string>,
                    pattern: string, before: string)
    requires ContainsWildcard(w) && EnumDir(w, current) == place && FilePattern(w) == pattern
    requires before == if PatternDir(w) == "" then "" else PatternDir(w) + "/"
    requires AreNames(files(place))
    ensures ExpandWildcards(w, Env(Some(Lister(files)), current)) == OrItself(Select(files(place), pattern, before), w)
  {
    hide FilePattern, PatternDir, EnumDir, Matches, Select, ContainsWildcard;
    MatchesAre(w, place, files(place), before);
  }

  /** A pattern without a directory: the names in the current directory. */
  lemma {:induction false} InCurrentDirectory(pattern: string, files: Directories, current: Option<string>)
    requires HasWildcard(pattern) && '/' !in pattern && AreNames(files(current))
    ensures ExpandWildcards(pattern, Env(Some(Lister(files)), current))
      == OrItself(Select(files(current), Truncate(pattern, 256), ""), pattern)
  {
    hide ContainsWildcard, ExpandWildcards, Select;
    ContainsIff(pattern);
    NoSlash(pattern);
    ExpandsFrom(pattern, files, current, current, Truncate(pattern, 256), "");
  }

  lemma PatternParts(dir: string, pattern: string)
    requires '/' !in pattern && 0 < |dir| < 256
    ensures PatternDir(dir + "/" + pattern) == dir && FilePattern(dir + "/" + pattern) == Truncate(pattern, 256)
  {
    hide AfterLast;
    LastSlash(dir, pattern);
  }

  /**
    A pattern with a directory, from a current directory other than the root: what is below the
    current directory, even if the pattern starts with a slash.
   */
  lemma {:induction false} BelowCurrentDirectory(dir: string, pattern: string, files: Directories, current: string)
    requires HasWildcard(dir + "/" + pattern) && '/' !in pattern && 0 < |dir| < 256
    requires current != "" && current != "/" && AreNames(files(Some(Truncate(current + "/" + dir, 1024))))
    ensures ExpandWildcards(dir + "/" + pattern, Env(Some(Lister(files)), Some(current)))
      == OrItself(Select(files(Some(Truncate(current + "/" + dir, 1024))), Truncate(pattern, 256), dir + "/"),
                  dir + "/" + pattern)
  {
    hide ContainsWildcard, ExpandWildcards, Select, PatternDir, FilePattern;
    ContainsIff(dir + "/" + pattern);
    PatternParts(dir, pattern);
    ExpandsFrom(dir + "/" + pattern, files, Some(current), Some(Truncate(current + "/" + dir, 1024)),
                Truncate(pattern, 256), dir + "/");
  }

  /** From the root, or without a current directory: what is below the root. */
  lemma {:induction false} BelowRoot(dir: string, pattern: string, files: Directories, current: Option<string>)
    requires HasWildcard(dir + "/" + pattern) && '/' !in pattern && 0 < |dir| < 256
    requires current == None || current == Some("") || current == Some("/")
    requires dir[0] != '/' && AreNames(files(Some("/" + dir)))
    ensures ExpandWildcards(dir + "/" + pattern, Env(Some(Lister(files)), current))
      == OrItself(Select(files(Some("/" + dir)), Truncate(pattern, 256), dir + "/"), dir + "/" + pattern)
  {
    hide ContainsWildcard, ExpandWildcards, Select, PatternDir, FilePattern;
    ContainsIff(dir + "/" + pattern);
    PatternParts(dir, pattern);
    assert "" + "/" + dir == "/" + dir;
    ExpandsFrom(dir + "/" + pattern, files, current, Some("/" + dir), Truncate(pattern, 256), dir + "/");
  }

  /** A directory that is empty, as in `/x*`, or too long for its buffer is ignored. */
  lemma {:induction false} DirectoryIsDropped(dir: string, pattern: string, files: Directories, current: Option<string>)
    requires HasWildcard(dir + "/" + pattern) && '/' !in pattern
    requires (dir == "" || |dir| >= 256) && AreNames(files(current))
    ensures ExpandWildcards(dir + "/" + pattern, Env(Some(Lister(files)), current))
      == OrItself(Select(files(current), Truncate(pattern, 256), ""), dir + "/" + pattern)
  {
    hide ContainsWildcard, ExpandWildcards, Select, AfterLast;
    ContainsIff(dir + "/" + pattern);
    LastSlash(dir, pattern);
    ExpandsFrom(dir + "/" + pattern, files, current, current, Truncate(pattern, 256), "");
  }

  /** An absolute directory is taken as it is only without a current directory. */
  lemma {:induction false} AbsoluteDirectory(dir: string, pattern: string, files: Directories, current: Option<string>)
    requires HasWildcard(dir + "/" + pattern) && '/' !in pattern && 0 < |dir| < 256
    requires (current == None || current == Some("")) && dir[0] == '/' && AreNames(files(Some(dir)))
    ensures ExpandWildcards(dir + "/" + pattern, Env(Some(Lister(files)), current))
      == OrItself(Select(files(Some(dir)), Truncate(pattern, 256), dir + "/"), dir + "/" + pattern)
  {
    hide ContainsWildcard, ExpandWildcards, Select, PatternDir, FilePattern;
    ContainsIff(dir + "/" + pattern);
    PatternParts(dir, pattern);
    ExpandsFrom(dir + "/" + pattern, files, current, Some(dir), Truncate(pattern, 256), dir + "/");
  }
}
