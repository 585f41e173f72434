/** Sorting and removing duplicates from wide strings, on values: what wstring_list.c needs of qsort. */
module SortedTexts {
  import opened WString

  predicate Ascending(s: seq<Buffer>) {
    forall i, j :: 0 <= i < j < |s| ==> Compare(s[i].text, s[j].text) <= 0
  }

  predicate StrictlyAscending(s: seq<Buffer>) {
    forall i, j :: 0 <= i < j < |s| ==> Compare(s[i].text, s[j].text) < 0
  }

  /** What qsort may leave: the same strings in order. Equal texts may come in any order. */
  predicate IsSortOf(order: seq<Buffer>, s: seq<Buffer>) {
    multiset(order) == multiset(s) && Ascending(order)
  }

  function TextSet(s: seq<Buffer>): set<Wide> {
    set b | b in s :: b.text
  }

  // ---------------------------------------------------------------------------
  // There is always an order
  // ---------------------------------------------------------------------------

  function Place(s: seq<Buffer>, b: Buffer): seq<Buffer> {
    if s == [] then [b]
    else if Compare(b.text, s[0].text) <= 0 then [b] + s
    else [s[0]] + Place(s[1..], b)
  }

  function SortOf(s: seq<Buffer>): seq<Buffer> {
    if s == [] then [] else Place(SortOf(s[1..]), s[0])
  }

  lemma {:induction false} PlaceKeeps(s: seq<Buffer>, b: Buffer)
    requires Ascending(s)
    ensures multiset(Place(s, b)) == multiset(s) + multiset{b}
    ensures Ascending(Place(s, b))
  {
    hide Compare;
    if s == [] {
      NothingAscends();
    } else {
      TotalOrder(b.text, s[0].text, s[0].text);
      if Compare(b.text, s[0].text) <= 0 {
        AscendingFront(b, s);
      } else {
        PlaceKeeps(s[1..], b);
        assert s == [s[0]] + s[1..];
        PlacedAbove(s[0], Place(s[1..], b), s[1..], b);
      }
    }
  }

  lemma AllAbove(b: Buffer, s: seq<Buffer>)
    requires Ascending(s) && forall i :: 0 <= i < |s| ==> Compare(b.text, s[i].text) <= 0
    ensures Ascending([b] + s)
  {
    hide Compare;
  }

  lemma PlacedAbove(first: Buffer, rest: seq<Buffer>, s: seq<Buffer>, b: Buffer)
    requires Ascending(rest) && multiset(rest) == multiset(s) + multiset{b}
    requires Ascending([first] + s) && Compare(first.text, b.text) <= 0
    ensures Ascending([first] + rest)
  {
    hide Compare;
    forall i | 0 <= i < |rest|
      ensures Compare(first.text, rest[i].text) <= 0
    {
      assert rest[i] in multiset(rest);
      if rest[i] != b {
        assert rest[i] in multiset(s);
        var k :| 0 <= k < |s| && s[k] == rest[i];
        assert ([first] + s)[k + 1] == s[k] && ([first] + s)[0] == first;
      }
    }
    AllAbove(first, rest);
  }

  lemma AscendingFront(b: Buffer, s: seq<Buffer>)
    requires Ascending(s) && s != [] && Compare(b.text, s[0].text) <= 0
    ensures Ascending([b] + s)
  {
    hide Compare;
    forall i | 0 <= i < |s|
      ensures Compare(b.text, s[i].text) <= 0
    {
      if i > 0 {
        TotalOrder(b.text, s[0].text, s[i].text);
      }
    }
    AllAbove(b, s);
  }

  /** Any list can be sorted by wstring_cmp. */
  lemma {:induction false} SortExists(s: seq<Buffer>)
    ensures IsSortOf(SortOf(s), s)
  {
    hide Place, Ascending;
    if s == [] {
      NothingAscends();
    } else {
      SortExists(s[1..]);
      PlaceKeeps(SortOf(s[1..]), s[0]);
      assert s == [s[0]] + s[1..];
    }
  }

  lemma NothingAscends()
    ensures Ascending([])
  {
  }

  // ---------------------------------------------------------------------------
  // Without duplicates
  // ---------------------------------------------------------------------------

  lemma StrictPush(s: seq<Buffer>, b: Buffer)
    requires StrictlyAscending(s) && (s != [] ==> Compare(s[|s| - 1].text, b.text) < 0)
    ensures StrictlyAscending(s + [b])
  {
    hide Compare;
    forall i | 0 <= i < |s|
      ensures Compare(s[i].text, b.text) < 0
    {
      if i < |s| - 1 {
        CompareTransitive(s[i].text, s[|s| - 1].text, b.text);
      }
    }
  }

  lemma TextSetPush(s: seq<Buffer>, b: Buffer)
    ensures TextSet(s + [b]) == TextSet(s) + {b.text}
  {
    assert forall x :: x in s + [b] <==> x in s || x == b;
    forall t | t in TextSet(s) + {b.text}
      ensures t in TextSet(s + [b])
    {
      if t == b.text {
        assert b in s + [b];
      } else {
        var x :| x in s && x.text == t;
        assert x in s + [b];
      }
    }
  }

  function TextsOf(s: seq<Buffer>): (r: seq<Wide>)
    ensures |r| == |s| && forall i :: 0 <= i < |s| ==> r[i] == s[i].text
  {
    if s == [] then [] else TextsOf(s[..|s| - 1]) + [s[|s| - 1].text]
  }

  lemma InTextSet(s: seq<Buffer>, i: nat)
    requires i < |s|
    ensures s[i].text in TextSet(s)
  {
  }

  lemma FromTextSet(s: seq<Buffer>, t: Wide) returns (i: nat)
    requires t in TextSet(s)
    ensures i < |s| && s[i].text == t
  {
    var b :| b in s && b.text == t;
    i :| 0 <= i < |s| && s[i] == b;
  }

  lemma LastIsGreatest(a: seq<Buffer>, b: seq<Buffer>)
    requires StrictlyAscending(a) && StrictlyAscending(b) && TextSet(a) == TextSet(b) && a != []
    ensures b != [] && a[|a| - 1].text == b[|b| - 1].text
  {
    hide Compare;
    var x := a[|a| - 1].text;
    InTextSet(a, |a| - 1);
    var j := FromTextSet(b, x);
    var y := b[|b| - 1].text;
    InTextSet(b, |b| - 1);
    var i := FromTextSet(a, y);
    if x != y {
      assert Compare(y, x) < 0 && Compare(x, y) < 0;
      CompareSwapped(x, y);
      assert false;
    }
  }

  lemma WithoutLast(s: seq<Buffer>)
    requires StrictlyAscending(s) && s != []
    ensures StrictlyAscending(s[..|s| - 1]) && TextSet(s[..|s| - 1]) == TextSet(s) - {s[|s| - 1].text}
  {
    hide Compare;
    var init, last := s[..|s| - 1], s[|s| - 1];
    assert s == init + [last];
    TextSetPush(init, last);
    if last.text in TextSet(init) {
      var i := FromTextSet(init, last.text);
      CompareEqual(init[i].text, last.text);
      assert false;
    }
  }

  /** The set of texts decides the result: strictly ascending lists of the same texts are the same. */
  lemma {:induction false} StrictIsUnique(a: seq<Buffer>, b: seq<Buffer>)
    requires StrictlyAscending(a) && StrictlyAscending(b) && TextSet(a) == TextSet(b)
    ensures TextsOf(a) == TextsOf(b)
    decreases |a|
  {
    hide StrictlyAscending, TextSet;
    if a == [] {
      if b != [] {
        InTextSet(b, |b| - 1);
        var i := FromTextSet(a, b[|b| - 1].text);
        assert false;
      }
    } else {
      LastIsGreatest(a, b);
      WithoutLast(a);
      WithoutLast(b);
      StrictIsUnique(a[..|a| - 1], b[..|b| - 1]);
    }
  }

  // ---------------------------------------------------------------------------
  // The loop that removes duplicates from a sorted list
  // ---------------------------------------------------------------------------

  /** After i strings: those kept are one of each text, the others are dropped. */
  ghost predicate Halfway(order: seq<Buffer>, i: nat, kept: seq<Buffer>, dropped: seq<Buffer>) {
    && i <= |order| && multiset(order[..i]) == multiset(kept) + multiset(dropped)
    && StrictlyAscending(kept) && TextSet(kept) == TextSet(order[..i])
    && (i > 0 ==> kept != [] && kept[|kept| - 1].text == order[i - 1].text)
  }

  lemma HalfwayStart(order: seq<Buffer>)
    ensures Halfway(order, 0, [], [])
  {
    assert order[..0] == [];
  }

  lemma KeepStep(order: seq<Buffer>, i: nat, kept: seq<Buffer>, dropped: seq<Buffer>)
    requires Ascending(order) && i < |order| && Halfway(order, i, kept, dropped)
    requires i == 0 || Compare(order[i].text, kept[|kept| - 1].text) != 0
    ensures Halfway(order, i + 1, kept + [order[i]], dropped)
  {
    hide Compare, TextSet, StrictlyAscending;
    assert order[..i + 1] == order[..i] + [order[i]];
    TextSetPush(order[..i], order[i]);
    TextSetPush(kept, order[i]);
    if i > 0 {
      CompareSwapped(order[i - 1].text, order[i].text);
    } else {
      NothingKept(order, kept, dropped);
    }
    StrictPush(kept, order[i]);
  }

  lemma NothingKept(order: seq<Buffer>, kept: seq<Buffer>, dropped: seq<Buffer>)
    requires Halfway(order, 0, kept, dropped)
    ensures kept == []
  {
    assert order[..0] == [];
    assert |multiset(kept) + multiset(dropped)| == |kept| + |dropped|;
  }

  lemma DropStep(order: seq<Buffer>, i: nat, kept: seq<Buffer>, dropped: seq<Buffer>)
    requires 0 < i < |order| && Halfway(order, i, kept, dropped)
    requires Compare(order[i].text, kept[|kept| - 1].text) == 0
    ensures Halfway(order, i + 1, kept, dropped + [order[i]])
  {
    hide Compare, TextSet, StrictlyAscending;
    assert order[..i + 1] == order[..i] + [order[i]];
    CompareEqual(order[i].text, kept[|kept| - 1].text);
    TextSetPush(order[..i], order[i]);
    InTextSet(kept, |kept| - 1);
    assert TextSet(order[..i]) + {order[i].text} == TextSet(order[..i]);
    assert multiset(kept) + multiset(dropped + [order[i]]) == multiset(kept) + multiset(dropped) + multiset{order[i]};
  }
}
