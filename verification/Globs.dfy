/**
  Wildcard expansion: fnmatch's pattern language (section 2.13 of POSIX.1-2017 XCU), and
  expand_wildcard and wildcard_callback in src/bas/cli/args.c.
 */
module Globs {
  import opened CText
  import opened Memory

  // ---------------------------------------------------------------------------
  // The pattern language, with flags 0
  // ---------------------------------------------------------------------------

  datatype SetItem = Range(lo: char, hi: char) | Class(name: string)

  datatype Bracket = Literal | Bracket(negated: bool, items: seq<SetItem>, rest: string)

  predicate InClass(name: string, c: char) {
    var lower, upper, digit := 'a' <= c <= 'z', 'A' <= c <= 'Z', IsDigit(c);
    match name
    case "alpha" => lower || upper
    case "digit" => digit
    case "alnum" => lower || upper || digit
    case "lower" => lower
    case "upper" => upper
    case "xdigit" => IsHexDigit(c)
    case "space" => IsSpace(c)
    case "blank" => c == ' ' || c == '\t'
    case "punct" => '!' <= c <= '~' && !(lower || upper || digit)
    case "cntrl" => c < ' ' || c == '\U{007F}'
    case "graph" => '!' <= c <= '~'
    case "print" => ' ' <= c <= '~'
    case _ => false
  }

  predicate InSet(items: seq<SetItem>, c: char) {
    exists i :: 0 <= i < |items| &&
      match items[i]
      case Range(lo, hi) => lo <= c <= hi
      case Class(name) => InClass(name, c)
  }

  /** A character of a bracket, perhaps escaped, and its length in the pattern; 0 if there is none. */
  function SetChar(p: string): (r: (char, nat))
    ensures r.1 <= |p|
  {
    if p == "" || p == "\\" then ('\0', 0)
    else if p[0] == '\\' then (p[1], 2)
    else (p[0], 1)
  }

  /** A character or a range of two, and its length in the pattern; 0 if there is none. */
  function RangeAt(p: string): (r: (SetItem, nat))
    ensures r.1 <= |p|
  {
    var (lo, n) := SetChar(p);
    if 0 < n && n + 1 < |p| && p[n] == '-' && p[n + 1] != ']' then
      var (hi, m) := SetChar(p[n + 1..]);
      (Range(lo, hi), if m == 0 then 0 else n + 1 + m)
    else (Range(lo, lo), n)
  }

  /** The items up to the closing ']'; a ']' in first place stands for itself. */
  function SetItems(p: string, first: bool, negated: bool, items: seq<SetItem>): (b: Bracket)
    ensures b.Bracket? ==> |b.rest| < |p|
    decreases |p|
  {
    if p == "" then Literal
    else if p[0] == ']' && !first then Bracket(negated, items, p[1..])
    else if |p| > 1 && p[0] == '[' && p[1] == ':' then
      var n := IndexOf(p[2..], ':');
      if n + 3 < |p| && p[n + 3] == ']' then
        SetItems(p[n + 4..], false, negated, items + [Class(p[2..n + 2])])
      else
        SetItems(p[1..], false, negated, items + [Range('[', '[')])
    else
      var (range, n) := RangeAt(p);
      if n == 0 then Literal else SetItems(p[n..], false, negated, items + [range])
  }

  /** What follows a '['. Without a closing ']' the '[' is an ordinary character. */
  function ReadBracket(p: string): (b: Bracket)
    ensures b.Bracket? ==> |b.rest| < |p|
  {
    if p != "" && (p[0] == '!' || p[0] == '^') then SetItems(p[1..], true, true, [])
    else SetItems(p, true, false, [])
  }

  /** fnmatch(p, s, 0) == 0. */
  predicate FnMatch(p: string, s: string)
    decreases |p| + |s|
  {
    if p == "" then s == ""
    else if p[0] == '*' then FnMatch(p[1..], s) || (s != "" && FnMatch(p, s[1..]))
    else if s == "" then false
    else if p[0] == '?' then FnMatch(p[1..], s[1..])
    else if p[0] == '\\' then |p| > 1 && s[0] == p[1] && FnMatch(p[2..], s[1..])
    else if p[0] == '[' && ReadBracket(p[1..]).Bracket? then
      var b := ReadBracket(p[1..]);
      InSet(b.items, s[0]) != b.negated && FnMatch(b.rest, s[1..])
    else s[0] == p[0] && FnMatch(p[1..], s[1..])
  }

  predicate IsWild(c: char) {
    c == '*' || c == '?' || c == '['
  }

  /** contains_wildcard */
  predicate ContainsWildcard(w: string) {
    exists i :: 0 <= i < |w| && IsWild(w[i])
  }

  // ---------------------------------------------------------------------------
  // The prefix hint
  // ---------------------------------------------------------------------------

  /** strpbrk(p, "*?["), with |p| for NULL. */
  function FirstWild(p: string): (n: nat)
    ensures n <= |p|
    ensures n < |p| ==> IsWild(p[n])
    ensures forall k :: 0 <= k < n ==> !IsWild(p[k])
  {
    if p == "" || IsWild(p[0]) then 0 else 1 + FirstWild(p[1..])
  }

  /** The hint given to the enumerator: everything before the first wildcard. */
  function FilenamePrefix(p: string): string {
    p[..FirstWild(p)]
  }

  // ---------------------------------------------------------------------------
  // Expanding one pattern
  // ---------------------------------------------------------------------------

  /** What an enumeration reports: full paths in order, and whether it succeeded. */
  datatype Listing = Listing(paths: seq<string>, ok: bool)

  /** Directory, name prefix (None for NULL), pattern. */
  type Enumerator = (Option<string>, Option<string>, string) -> Listing

  /** Index just after the last `c`, or 0 if there is none: strrchr. */
  function AfterLast(s: string, c: char): (n: nat)
    ensures n <= |s|
    ensures n > 0 ==> s[n - 1] == c
    ensures forall k :: n <= k < |s| ==> s[k] != c
  {
    if s == "" then 0 else if s[|s| - 1] == c then |s| else AfterLast(s[..|s| - 1], c)
  }

  function Basename(path: string): string {
    path[AfterLast(path, '/')..]
  }

  /** pattern_dir: what precedes the last '/', unless it is empty or does not fit 256 bytes. */
  function PatternDir(pattern: string): string {
    var n := AfterLast(pattern, '/');
    if 0 < n && 0 < n - 1 < 256 then pattern[..n - 1] else ""
  }

  function FilePattern(pattern: string): string {
    Truncate(pattern[AfterLast(pattern, '/')..], 256)
  }

  /** The directory handed to the enumerator. */
  function EnumDir(pattern: string, context: Option<string>): Option<string> {
    var dir := PatternDir(pattern);
    if dir == "" then context
    else if context.Some? && context.value != "" then
      Some(Truncate((if context.value == "/" then "" else context.value) + "/" + dir, 1024))
    else
      Some(Truncate(if dir[0] == '/' then dir else "/" + dir, 1024))
  }

  function PrefixArg(pattern: string): Option<string> {
    var prefix := FilenamePrefix(FilePattern(pattern));
    if prefix == "" then None else Some(prefix)
  }

  /** wildcard_callback's result path for a matching name. */
  function ResultPath(dir: string, name: string): string {
    Truncate(if dir == "" then name else dir + "/" + name, 1024)
  }

  /** The match list after the callback has seen every path. */
  function Matches(pattern: string, paths: seq<string>): seq<string> {
    if paths == [] then []
    else
      var init, name := Matches(pattern, paths[..|paths| - 1]), Basename(paths[|paths| - 1]);
      if FnMatch(FilePattern(pattern), name) then init + [ResultPath(PatternDir(pattern), name)] else init
  }

  datatype Env = Env(enumerator: Option<Enumerator>, context: Option<string>)

  function List(pattern: string, env: Env): Listing {
    match env.enumerator
    case None => Listing([], true)
    case Some(f) => f(EnumDir(pattern, env.context), PrefixArg(pattern), FilePattern(pattern))
  }

  /** The words that replace a word: its matches, or the word itself. */
  function ExpandWildcards(w: string, env: Env): seq<string> {
    var matches := Matches(w, List(w, env).paths);
    if ContainsWildcard(w) && List(w, env).ok && matches != [] then matches else [w]
  }

  // ---------------------------------------------------------------------------
  // Filtering by the hint is invisible
  // ---------------------------------------------------------------------------

  /** A directory tree: the full paths in a directory, in order. */
  type Tree = Option<string> -> seq<string>

  function Plain(tree: Tree): Enumerator {
    (dir, prefix, pattern) => Listing(tree(dir), true)
  }

  function Filter(paths: seq<string>, prefix: Option<string>): seq<string> {
    if paths == [] then []
    else
      var init, last := Filter(paths[..|paths| - 1], prefix), paths[|paths| - 1];
      if prefix.None? || prefix.value <= Basename(last) then init + [last] else init
  }

  /** An enumerator that honours the hint. */
  function Pruned(tree: Tree): Enumerator {
    (dir, prefix, pattern) => Listing(Filter(tree(dir), prefix), true)
  }

  lemma MatchesPush(pattern: string, paths: seq<string>, path: string)
    ensures Matches(pattern, paths + [path]) ==
      if FnMatch(FilePattern(pattern), Basename(path))
      then Matches(pattern, paths) + [ResultPath(PatternDir(pattern), Basename(path))]
      else Matches(pattern, paths)
  {
    assert (paths + [path])[..|paths|] == paths;
  }

  // ---------------------------------------------------------------------------
  // The code
  // ---------------------------------------------------------------------------

  /**
    expand_wildcard: the callback appends a copy of each match to a list; the list is then
    copied into the caller's array and freed.
   */
  method ExpandWildcard(heap: Heap, pattern: string, env: Env)
    returns (ok: bool, matches: array<Block?>, count: nat, ghost blocks: seq<Block>)
    modifies heap`live
    ensures fresh(matches) && count == |blocks| && Holds(matches, blocks)
    ensures OwnedBeyond(old(heap.live), blocks, heap.live)
    ensures ok == List(pattern, env).ok
    ensures Texts(blocks) == if ok then Matches(pattern, List(pattern, env).paths) else []
  {
    hide OwnedBeyond, Texts, Matches, FnMatch, FilePattern, PatternDir, ResultPath, Truncate, FilenamePrefix;
    matches, count, blocks := new Block?[0], 0, [];
    OwnNothing(heap.live);
    var listing := List(pattern, env);
    var filePattern, dir := FilePattern(pattern), PatternDir(pattern);
    var list, size := new Block?[8](_ => null), 0;
    ghost var copied: seq<Block> := [];
    MatchesOfNothing(pattern);
    for i := 0 to |listing.paths|
      invariant fresh(list) && size == |copied| && Holds(list, copied)
      invariant OwnedBeyond(old(heap.live), copied, heap.live)
      invariant Texts(copied) == Matches(pattern, listing.paths[..i])
    {
      var name := Basename(listing.paths[i]);
      MatchesPush(pattern, listing.paths[..i], listing.paths[i]);
      assert listing.paths[..i] + [listing.paths[i]] == listing.paths[..i + 1];
      if FnMatch(filePattern, name) {
        list, size, copied := PushCopy(heap, list, size, ResultPath(dir, name), 8, old(heap.live), copied);
      }
    }
    assert listing.paths[..|listing.paths|] == listing.paths;
    ok := listing.ok;
    OwnMore(old(heap.live), copied, heap.live);
    if ok {
      matches, blocks := DupAll(heap, list, size, old(heap.live), copied);
      count := size;
    }
    FreeList(heap, list, size, old(heap.live), copied, blocks);
  }

  lemma MatchesOfNothing(pattern: string)
    ensures Matches(pattern, []) == []
  {
  }

  /** Copy every string of the list into an array of the caller's. */
  method DupAll(heap: Heap, list: array<Block?>, size: nat, ghost base: set<Block>, ghost copied: seq<Block>)
    returns (matches: array<Block?>, ghost blocks: seq<Block>)
    requires size == |copied| && Holds(list, copied) && OwnedBeyond(base, copied, heap.live)
    modifies heap`live
    ensures fresh(matches) && Holds(matches, blocks) && |blocks| == size && Texts(blocks) == Texts(copied)
    ensures OwnedBeyond(base + BlockSet(copied), blocks, heap.live)
  {
    hide OwnedBeyond, Texts;
    matches, blocks := new Block?[size](_ => null), [];
    OwnMore(base, copied, heap.live);
    var count := 0;
    for i := 0 to size
      invariant fresh(matches) && count == i == |blocks| && Holds(matches, blocks)
      invariant OwnedBeyond(base + BlockSet(copied), blocks, heap.live)
      invariant Texts(blocks) == Texts(copied)[..i]
    {
      matches, count, blocks :=
        PushCopy(heap, matches, count, list[i].text, size, base + BlockSet(copied), blocks);
    }
  }

  /** string_list_free. */
  method FreeList(heap: Heap, list: array<Block?>, size: nat,
                  ghost base: set<Block>, ghost copied: seq<Block>, ghost kept: seq<Block>)
    requires size == |copied| && Holds(list, copied) && Distinct(copied) && base !! BlockSet(copied)
    requires OwnedBeyond(base + BlockSet(copied), kept, heap.live)
    modifies heap`live
    ensures OwnedBeyond(base, kept, heap.live)
  {
    for i := 0 to size
      invariant Holds(list, copied)
      invariant heap.live == base + BlockSet(copied[i..]) + BlockSet(kept)
    {
      heap.Free(list[i]);
    }
  }
}
