/** What appending costs a list, and what join makes of it (src/bas/base/wstring_list.c). */
module ListGrowth {
  import opened CText
  import opened WString
  import opened SortedTexts
  import opened WStringList

  // ---------------------------------------------------------------------------
  // Growth
  // ---------------------------------------------------------------------------

  /** Capacity of an empty list after n appends. */
  function CapacityAfter(n: nat): nat {
    if n == 0 then 0 else Grown(CapacityAfter(n - 1), n)
  }

  /** Slots that these appends take through realloc, in total. */
  function CarriedAfter(n: nat): nat {
    if n == 0 then 0 else CarriedAfter(n - 1) + Carried(CapacityAfter(n - 1), n)
  }

  function Power(k: nat): nat {
    if k == 0 then 1 else 2 * Power(k - 1)
  }

  /** The capacity is 16 doubled some times; half of it would not have been enough. */
  lemma {:induction false} CapacityIs(n: nat) returns (k: nat)
    requires n > 0
    ensures CapacityAfter(n) == 16 * Power(k) && n <= CapacityAfter(n)
    ensures k > 0 ==> CapacityAfter(n) < 2 * n
    ensures CarriedAfter(n) == CapacityAfter(n) - 16
  {
    if n == 1 {
      k := 0;
      assert CapacityAfter(0) == 0 && CarriedAfter(0) == 0;
    } else {
      k := CapacityIs(n - 1);
      if n > CapacityAfter(n - 1) {
        k := k + 1;
        assert Doubled(CapacityAfter(n - 1), n) == CapacityAfter(n - 1) * 2;
      }
    }
  }

  /** Amortised growth: capacity at most 16 or twice the number of strings, fewer than 2n slots moved. */
  lemma GrowthBound(n: nat)
    ensures CapacityAfter(n) == 0 || exists k :: CapacityAfter(n) == 16 * Power(k)
    ensures n <= CapacityAfter(n) <= if n > 8 then 2 * n else 16
    ensures n > 0 ==> CarriedAfter(n) < 2 * n
  {
    hide CapacityAfter, CarriedAfter;
    if n > 0 {
      var k := CapacityIs(n);
      assert Power(0) == 1;
    } else {
      NoAppends();
    }
  }

  lemma NoAppends()
    ensures CapacityAfter(0) == 0 && CarriedAfter(0) == 0
  {
  }

  /** n appends to an empty list. */
  method AppendAll(texts: seq<Wide>) returns (list: WStringList)
    ensures fresh(list) && fresh(list.items) && list.Valid() && TextsOf(list.view) == texts && list.freed == []
    ensures list.capacity == CapacityAfter(|texts|) && list.carried == CarriedAfter(|texts|)
  {
    hide CapacityAfter, CarriedAfter, TextsOf;
    list := new WStringList(0);
    NoAppends();
    NoTexts();
    for i := 0 to |texts|
      invariant fresh(list) && fresh(list.items) && list.Valid() && TextsOf(list.view) == texts[..i] && list.freed == []
      invariant list.capacity == CapacityAfter(i) && list.carried == CarriedAfter(i)
    {
      ghost var before := list.view;
      var ok := list.Append(Some(texts[i]));
      assert list.view == before + [list.view[i]];
      TextsPush(before, list.view[i]);
      OneAppend(i);
    }
    assert texts[..|texts|] == texts;
  }

  lemma OneAppend(i: nat)
    ensures CapacityAfter(i + 1) == Grown(CapacityAfter(i), i + 1)
    ensures CarriedAfter(i + 1) == CarriedAfter(i) + Carried(CapacityAfter(i), i + 1)
  {
  }

  lemma NoTexts()
    ensures TextsOf([]) == []
  {
  }

  lemma TextsPush(s: seq<Buffer>, b: Buffer)
    ensures TextsOf(s + [b]) == TextsOf(s) + [b.text]
  {
  }

  // ---------------------------------------------------------------------------
  // Join
  // ---------------------------------------------------------------------------

  /** A uint16_t in a buffer. */
  type Word = u: int | 0 <= u < 0x1_0000

  function Joined(texts: seq<Wide>, separator: Wide): Wide {
    if texts == [] then []
    else if |texts| == 1 then texts[0]
    else Joined(texts[..|texts| - 1], separator) + separator + texts[|texts| - 1]
  }

  function TotalLength(texts: seq<Wide>): nat {
    if texts == [] then 0 else TotalLength(texts[..|texts| - 1]) + |texts[|texts| - 1]|
  }

  lemma {:induction false} JoinedLength(texts: seq<Wide>, separator: Wide)
    requires texts != []
    ensures |Joined(texts, separator)| == TotalLength(texts) + |separator| * (|texts| - 1)
  {
    if |texts| == 1 {
      assert texts[..0] == [];
    } else {
      JoinedLength(texts[..|texts| - 1], separator);
    }
  }

  lemma JoinedPush(texts: seq<Wide>, i: nat, separator: Wide)
    requires i < |texts|
    ensures Joined(texts[..i + 1], separator) ==
      Joined(texts[..i], separator) + (if i > 0 then separator else []) + texts[i]
    ensures TotalLength(texts[..i + 1]) == TotalLength(texts[..i]) + |texts[i]|
  {
    assert texts[..i + 1][..i] == texts[..i];
    if i == 0 {
      assert [] + [] + texts[0] == texts[0];
    }
  }

  /** A copy loop: the text goes to the buffer from pos on. */
  method CopyInto(result: array<Word>, pos: nat, text: Wide) returns (end: nat)
    requires pos + |text| <= result.Length
    modifies result
    ensures end == pos + |text| && result[..end] == old(result[..pos]) + text
  {
    end := pos;
    for j := 0 to |text|
      invariant end == pos + j && end <= result.Length
      invariant result[..end] == old(result[..pos]) + text[..j]
    {
      result[end] := text[j];
      end := end + 1;
    }
    assert text[..|text|] == text;
  }

  /** Lines 253-262: the units that the result needs. */
  method NeededLength(list: WStringList, separatorLength: nat) returns (total: nat)
    requires list.Valid() && list.count > 0
    ensures total == TotalLength(TextsOf(list.view)) + separatorLength * (list.count - 1) + 1
  {
    hide Distinct, SetOf, TextsOf, TotalLength;
    ghost var texts := TextsOf(list.view);
    total := 0;
    NoLength();
    assert texts[..0] == [];
    for i := 0 to list.count
      invariant total == TotalLength(texts[..i])
    {
      if list.items[i] != null {
        total := total + |list.items[i].text|;
      }
      JoinedPush(texts, i, []);
    }
    assert texts[..list.count] == texts;
    total := total + separatorLength * (list.count - 1);
    total := total + 1;
  }

  lemma NoLength()
    ensures TotalLength([]) == 0 && forall s :: Joined([], s) == []
  {
  }

  /** wstring_list_join: the buffer is filled to its last unit, and no further. */
  method Join(list: WStringList, separator: Option<Wide>) returns (result: array<Word>)
    requires list.Valid()
    ensures fresh(result)
    ensures var text := Joined(TextsOf(list.view), if separator.Some? then separator.value else []);
      result.Length == |text| + 1 && result[..|text|] == text && result[|text|] == 0
  {
    hide Joined, TotalLength, Distinct, SetOf, TextsOf;
    NoLength();
    NoTexts();
    if list.count == 0 {
      result := new Word[1](_ => 0);
      assert list.view == [];
      return;
    }
    var sep := if separator.Some? then separator.value else [];
    var total := NeededLength(list, |sep|);
    ghost var texts := TextsOf(list.view);
    JoinedLength(texts, sep);
    result := new Word[total](_ => 0);
    var pos := 0;
    assert texts[..0] == [];
    for i := 0 to list.count
      invariant pos == |Joined(texts[..i], sep)| && pos < result.Length && result[..pos] == Joined(texts[..i], sep)
    {
      JoinedPush(texts, i, sep);
      JoinedFits(texts, i + 1, sep);
      if list.items[i] != null {
        if i > 0 && |sep| > 0 {
          pos := CopyInto(result, pos, sep);
        }
        pos := CopyInto(result, pos, list.items[i].text);
      }
    }
    assert texts[..list.count] == texts;
    result[pos] := 0;
  }

  lemma {:induction false} JoinedFits(texts: seq<Wide>, i: nat, separator: Wide)
    requires i <= |texts|
    ensures |Joined(texts[..i], separator)| <= |Joined(texts, separator)|
    decreases |texts| - i
  {
    hide Joined;
    if i < |texts| {
      JoinedPush(texts, i, separator);
      JoinedFits(texts, i + 1, separator);
    } else {
      assert texts[..i] == texts;
    }
  }

  /** Number of units after the last c. */
  function AfterLast(s: Wide, c: Unit): (n: nat)
    ensures n <= |s| && (forall k :: |s| - n <= k < |s| ==> s[k] != c)
    ensures n < |s| ==> s[|s| - n - 1] == c
  {
    if s == [] || s[|s| - 1] == c then 0 else 1 + AfterLast(s[..|s| - 1], c)
  }

  /** A text cut at every c. */
  function Pieces(s: Wide, c: Unit): seq<Wide>
    decreases |s|
  {
    var n := AfterLast(s, c);
    if n == |s| then [s] else Pieces(s[..|s| - n - 1], c) + [s[|s| - n..]]
  }

  /** Joining by a unit that no text has, and cutting again. */
  lemma {:induction false} JoinRoundTrip(texts: seq<Wide>, c: Unit)
    requires texts != [] && forall i :: 0 <= i < |texts| ==> c !in texts[i]
    ensures Pieces(Joined(texts, [c]), c) == texts
  {
    hide Pieces;
    var n := |texts| - 1;
    if n == 0 {
      OnePiece(texts[0], c);
    } else {
      assert forall i :: 0 <= i < n ==> texts[..n][i] == texts[i];
      JoinRoundTrip(texts[..n], c);
      LastPiece(Joined(texts[..n], [c]), c, texts[n]);
      assert texts == texts[..n] + [texts[n]];
    }
  }

  lemma OnePiece(s: Wide, c: Unit)
    requires c !in s
    ensures Pieces(s, c) == [s]
  {
    AfterLastIs([], c, s);
    assert [] + s == s;
  }

  lemma LastPiece(head: Wide, c: Unit, last: Wide)
    requires c !in last
    ensures Pieces(head + [c] + last, c) == Pieces(head, c) + [last]
  {
    hide AfterLast;
    AfterLastIs(head + [c], c, last);
    var s := head + [c] + last;
    assert s[..|s| - |last| - 1] == head && s[|s| - |last|..] == last;
  }

  lemma {:induction false} AfterLastIs(head: Wide, c: Unit, last: Wide)
    requires c !in last && (head == [] || head[|head| - 1] == c)
    ensures AfterLast(head + last, c) == |last|
  {
    var s := head + last;
    var n := AfterLast(s, c);
    assert forall k :: 0 <= k < |last| ==> s[|head| + k] == last[k];
    assert head != [] ==> s[|head| - 1] == c;
  }
}
