/**
  Text as the C sources see it: a `string` here is the content of a C string, that is,
  everything before its terminating NUL. Reading `*p` at the end of the text therefore
  corresponds to `p == |s|`.
 */
module CText {

  /** A pointer that may be NULL. */
  datatype Option<+T> = None | Some(value: T)

  /** isspace() in the "C" locale. */
  predicate IsSpace(c: char) {
    c == ' ' || c == '\t' || c == '\n' || c == '\U{000B}' || c == '\U{000C}' || c == '\r'
  }

  /** A char as the int it is promoted to; plain char is signed. */
  function CharInt(c: char): int {
    if c as int < 128 then c as int else c as int - 256
  }

  predicate IsDigit(c: char) {
    '0' <= c <= '9'
  }

  predicate IsHexDigit(c: char) {
    IsDigit(c) || 'a' <= c <= 'f' || 'A' <= c <= 'F'
  }

  /** The value of a `quote_char` variable outside quotes. */
  const NO_QUOTE: char := '\0'

  predicate IsQuote(c: char) {
    c == '\'' || c == '"'
  }

  predicate AllSpace(s: string) {
    forall i :: 0 <= i < |s| ==> IsSpace(s[i])
  }

  /** Index of the first `c` in `s`, or |s|: strchr(), with the end of the text for NULL. */
  function IndexOf(s: string, c: char): (i: nat)
    ensures i <= |s|
    ensures i < |s| ==> s[i] == c
    ensures forall k :: 0 <= k < i ==> s[k] != c
  {
    if s == "" then 0 else if s[0] == c then 0 else 1 + IndexOf(s[1..], c)
  }

  /** Index of the first character that is not white space, or |s|. */
  function SpacePrefix(s: string): (n: nat)
    ensures n <= |s| && forall k :: 0 <= k < n ==> IsSpace(s[k])
    ensures n < |s| ==> !IsSpace(s[n])
  {
    if s == "" || !IsSpace(s[0]) then 0 else 1 + SpacePrefix(s[1..])
  }

  /** The text after its leading white space. */
  function SkipSpace(s: string): (r: string)
    ensures |r| <= |s|
    ensures r != "" ==> !IsSpace(r[0])
    ensures r == s[|s| - |r|..] && AllSpace(s[..|s| - |r|])
  {
    s[SpacePrefix(s)..]
  }

  lemma SkipSpaceIsUnique(blank: string, s: string)
    requires AllSpace(blank)
    requires s == "" || !IsSpace(s[0])
    ensures SkipSpace(blank + s) == s
  {
    var t := blank + s;
    assert forall k :: 0 <= k < |blank| ==> t[k] == blank[k];
    assert s != "" ==> t[|blank|] == s[0];
    assert SpacePrefix(t) == |blank|;
  }

  predicate IsBlank(c: char) {
    c == ' ' || c == '\t'
  }

  /** The text after its leading blanks and tabs. */
  function SkipBlanks(s: string): (r: string)
    ensures r == "" || !IsBlank(r[0])
    ensures |r| <= |s|
  {
    if s == "" || !IsBlank(s[0]) then s else SkipBlanks(s[1..])
  }

  lemma {:induction false} SkipBlanksOf(blanks: string, t: string)
    requires forall i :: 0 <= i < |blanks| ==> IsBlank(blanks[i])
    requires t == "" || !IsBlank(t[0])
    ensures SkipBlanks(blanks + t) == t
  {
    if blanks == "" {
      assert blanks + t == t;
    } else {
      assert (blanks + t)[1..] == blanks[1..] + t;
      SkipBlanksOf(blanks[1..], t);
    }
  }

  lemma IndexOfUnique(s: string, c: char, i: nat)
    requires i < |s| && s[i] == c
    requires forall k :: 0 <= k < i ==> s[k] != c
    ensures IndexOf(s, c) == i
  {
  }

  lemma IndexOfAbsent(s: string, c: char)
    requires c !in s
    ensures IndexOf(s, c) == |s|
  {
  }

  /** The first occurrence of `pat` at or after position i. */
  function FindFrom(s: string, pat: string, i: nat): (r: Option<nat>)
    requires i <= |s|
    ensures r.Some? ==> i <= r.value && r.value + |pat| <= |s| && pat <= s[r.value..]
    ensures r.Some? ==> forall k :: i <= k < r.value ==> !(pat <= s[k..])
    ensures r.None? ==> forall k :: i <= k <= |s| ==> !(pat <= s[k..])
    decreases |s| - i
  {
    if pat <= s[i..] then Some(i) else if i == |s| then None else FindFrom(s, pat, i + 1)
  }

  /** strstr: index of the first occurrence. */
  function Find(s: string, pat: string): (r: Option<nat>)
    ensures r.Some? ==> r.value + |pat| <= |s| && pat <= s[r.value..]
    ensures r.Some? ==> forall k :: 0 <= k < r.value ==> !(pat <= s[k..])
    ensures r.None? ==> forall k :: 0 <= k <= |s| ==> !(pat <= s[k..])
  {
    FindFrom(s, pat, 0)
  }

  lemma FindUnique(s: string, pat: string, i: nat)
    requires i <= |s| && pat <= s[i..]
    requires forall k :: 0 <= k < i ==> !(pat <= s[k..])
    ensures Find(s, pat) == Some(i)
  {
  }

  /** Copying into a char[size] buffer. */
  function Truncate(s: string, size: nat): string
    requires size > 0
  {
    if |s| < size then s else s[..size - 1]
  }

  /** Concatenation of all parts. */
  function Concat<T>(parts: seq<seq<T>>): seq<T> {
    if parts == [] then [] else parts[0] + Concat(parts[1..])
  }

  lemma {:induction false} ConcatAppend<T>(a: seq<seq<T>>, b: seq<seq<T>>)
    ensures Concat(a + b) == Concat(a) + Concat(b)
  {
    if a == [] {
      assert a + b == b;
    } else {
      assert (a + b)[0] == a[0] && (a + b)[1..] == a[1..] + b;
      ConcatAppend(a[1..], b);
    }
  }

  lemma ElementAt<T>(s: seq<T>, i: nat)
    requires i < |s|
    ensures s[i..] == [s[i]] + s[i + 1..] && s[..i] + [s[i]] == s[..i + 1]
  {
  }

  /** Equal elements at two places count twice. */
  lemma TwiceIn<T>(s: seq<T>, i: nat, j: nat)
    requires i < j < |s| && s[i] == s[j]
    ensures multiset(s)[s[i]] >= 2
  {
    assert s == s[..i] + [s[i]] + s[i + 1..j] + [s[j]] + s[j + 1..];
  }

  // ---------------------------------------------------------------------------
  // Decimal numbers: %d and the digit loops of strtol and its like
  // ---------------------------------------------------------------------------

  function DigitChar(d: nat): (c: char)
    requires d < 10
    ensures IsDigit(c) && c as int - '0' as int == d
  {
    ('0' as int + d) as char
  }

  /** n in decimal, without leading zeros. */
  function Decimal(n: nat): (s: string)
    ensures s != "" && forall i :: 0 <= i < |s| ==> IsDigit(s[i])
  {
    if n < 10 then [DigitChar(n)] else Decimal(n / 10) + [DigitChar(n % 10)]
  }

  predicate AllDigits(s: string) {
    forall i :: 0 <= i < |s| ==> IsDigit(s[i])
  }

  /** Value of a digit string, read left to right. */
  function ValueOf(s: string): nat
    requires AllDigits(s)
  {
    if s == "" then 0 else 10 * ValueOf(s[..|s| - 1]) + (s[|s| - 1] as int - '0' as int)
  }

  /** Number of leading digits. */
  function DigitRun(s: string): (n: nat)
    ensures n <= |s| && AllDigits(s[..n])
    ensures n < |s| ==> !IsDigit(s[n])
  {
    if s == "" || !IsDigit(s[0]) then 0
    else
      assert forall i :: 1 <= i <= |s[1..]| ==> s[1..][i - 1] == s[i];
      1 + DigitRun(s[1..])
  }

  /** The number that a text starts with. */
  function LeadingNumber(s: string): nat {
    ValueOf(s[..DigitRun(s)])
  }

  lemma {:induction false} ValueOfDecimal(n: nat)
    ensures ValueOf(Decimal(n)) == n
  {
    if n >= 10 {
      var s := Decimal(n / 10);
      assert (s + [DigitChar(n % 10)])[..|s|] == s;
      ValueOfDecimal(n / 10);
    } else {
      assert [DigitChar(n)][..0] == "";
    }
  }

  lemma DigitRunIs(d: string, t: string)
    requires AllDigits(d) && (t == "" || !IsDigit(t[0]))
    ensures DigitRun(d + t) == |d|
  {
    var s := d + t;
    var n := DigitRun(s);
    assert forall i :: 0 <= i < |d| ==> s[i] == d[i];
    assert t != "" ==> s[|d|] == t[0];
    assert forall i :: 0 <= i < n ==> s[..n][i] == s[i];
  }

  /** Printing a number and reading it back, whatever follows that is not a digit. */
  lemma DecimalRoundTrip(n: nat, t: string)
    requires t == "" || !IsDigit(t[0])
    ensures DigitRun(Decimal(n) + t) == |Decimal(n)|
    ensures LeadingNumber(Decimal(n) + t) == n
  {
    DigitRunIs(Decimal(n), t);
    assert (Decimal(n) + t)[..|Decimal(n)|] == Decimal(n);
    ValueOfDecimal(n);
  }
}
