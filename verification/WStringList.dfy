/**
  The list of wide strings of src/bas/base/wstring_list.c. It owns its strings: `owned` is what it
  has allocated and not yet freed, `freed` what it has freed, in order.
 */
module WStringList {
  import opened CText
  import opened WString
  import opened SortedTexts

  const DEFAULT_CAPACITY: nat := 16

  /** Doubling until there is room. */
  function Doubled(capacity: nat, needed: nat): (r: nat)
    requires capacity > 0
    ensures capacity <= r && needed <= r
    decreases needed - capacity
  {
    if needed <= capacity then capacity else Doubled(capacity * 2, needed)
  }

  /** The capacity ensure_capacity leaves. */
  function Grown(capacity: nat, needed: nat): (r: nat)
    ensures needed <= r && capacity <= r
  {
    if needed <= capacity then capacity
    else Doubled(if capacity == 0 then DEFAULT_CAPACITY else capacity, needed)
  }

  /** The slots that growing takes through realloc. */
  function Carried(capacity: nat, needed: nat): nat {
    if needed <= capacity then 0 else capacity
  }

  function SetOf(s: seq<Buffer>): set<Buffer> {
    set b | b in s
  }

  predicate Distinct(s: seq<Buffer>) {
    forall i, j :: 0 <= i < j < |s| ==> s[i] != s[j]
  }

  /** The first slots hold these strings, the others NULL. */
  predicate Slots(a: seq<Buffer?>, s: seq<Buffer>) {
    && |s| <= |a|
    && (forall k :: 0 <= k < |s| ==> a[k] == s[k])
    && (forall k :: |s| <= k < |a| ==> a[k] == null)
  }

  lemma DistinctPush(s: seq<Buffer>, i: nat, b: Buffer)
    requires i <= |s| && Distinct(s) && b !in s
    ensures Distinct(s[..i] + [b] + s[i..]) && SetOf(s[..i] + [b] + s[i..]) == SetOf(s) + {b}
  {
    var t := s[..i] + [b] + s[i..];
    assert forall k :: 0 <= k < |t| ==> t[k] == if k < i then s[k] else if k == i then b else s[k - 1];
    assert forall k :: 0 <= k < |s| ==> s[k] == t[if k < i then k else k + 1];
    assert t[i] == b;
  }

  lemma DistinctDrop(s: seq<Buffer>, i: nat)
    requires i < |s| && Distinct(s)
    ensures Distinct(s[..i] + s[i + 1..]) && SetOf(s[..i] + s[i + 1..]) == SetOf(s) - {s[i]}
  {
    hide SetOf;
    var t := s[..i] + s[i + 1..];
    assert forall k :: 0 <= k < |t| ==> t[k] == s[if k < i then k else k + 1];
    SetDrop(s, i);
  }

  lemma SetDrop(s: seq<Buffer>, i: nat)
    requires i < |s| && Distinct(s)
    ensures SetOf(s[..i] + s[i + 1..]) == SetOf(s) - {s[i]}
  {
    assert s == s[..i] + [s[i]] + s[i + 1..];
    assert s[i] !in s[..i] && s[i] !in s[i + 1..];
  }

  // ---------------------------------------------------------------------------
  // Loops over the slots
  // ---------------------------------------------------------------------------

  /** realloc: the leading slots are kept, new ones are NULL. */
  method Realloc(a: array<Buffer?>, capacity: nat) returns (b: array<Buffer?>)
    ensures fresh(b) && b.Length == capacity
    ensures forall k :: 0 <= k < capacity ==> b[k] == if k < a.Length then a[k] else null
  {
    b := new Buffer?[capacity](_ => null);
    var n := if a.Length < capacity then a.Length else capacity;
    for i := 0 to n
      invariant forall k :: 0 <= k < capacity ==> b[k] == if k < i then a[k] else null
    {
      b[i] := a[i];
    }
  }

  /** The loop of wstring_list_insert. */
  method ShiftRight(a: array<Buffer?>, index: nat, count: nat, copy: Buffer, ghost s: seq<Buffer>)
    requires count == |s| && index <= count < a.Length && Slots(a[..], s)
    modifies a
    ensures Slots(a[..], s[..index] + [copy] + s[index..])
  {
    var i := count;
    while i > index
      invariant index <= i <= count
      invariant forall k :: 0 <= k < i ==> a[k] == s[k]
      invariant forall k :: i < k <= count ==> a[k] == s[k - 1]
      invariant forall k :: count < k < a.Length ==> a[k] == null
    {
      a[i] := a[i - 1];
      i := i - 1;
    }
    a[index] := copy;
  }

  /** The loop of wstring_list_remove. */
  method ShiftLeft(a: array<Buffer?>, index: nat, count: nat, ghost s: seq<Buffer>)
    requires count == |s| && index < count <= a.Length
    requires forall k :: 0 <= k < |s| && k != index ==> a[k] == s[k]
    requires forall k :: |s| <= k < a.Length ==> a[k] == null
    modifies a
    ensures Slots(a[..], s[..index] + s[index + 1..])
  {
    var i := index;
    while i < count - 1
      invariant index <= i <= count - 1
      invariant forall k :: 0 <= k < index ==> a[k] == s[k]
      invariant forall k :: index <= k < i ==> a[k] == s[k + 1]
      invariant forall k :: i < k < count ==> a[k] == s[k]
      invariant forall k :: count <= k < a.Length ==> a[k] == null
    {
      a[i] := a[i + 1];
      i := i + 1;
    }
    a[count - 1] := null;
  }

  class WStringList {
    var items: array<Buffer?>
    var count: nat
    var capacity: nat
    ghost var view: seq<Buffer>
    ghost var owned: set<Buffer>
    ghost var freed: seq<Buffer>
    ghost var carried: nat

    /** The strings in use are the list's, all different, and it owns no others. */
    ghost predicate Valid()
      reads this, items
    {
      && capacity == items.Length && count == |view| && Slots(items[..], view)
      && Distinct(view) && owned == SetOf(view)
    }

    /** wstring_list_create */
    constructor (initialCapacity: nat)
      ensures Valid() && fresh(items) && view == [] && freed == [] && carried == 0
      ensures capacity == Grown(0, initialCapacity)
    {
      var n := Grown(0, initialCapacity);
      items := new Buffer?[n](_ => null);
      count, capacity := 0, n;
      view, owned, freed, carried := [], {}, [], 0;
    }

    /** free: only of a string that is owned, which it then is not any more. */
    method Free(b: Buffer)
      requires b in owned
      modifies this`owned, this`freed
      ensures owned == old(owned) - {b} && freed == old(freed) + [b]
    {
      owned, freed := owned - {b}, freed + [b];
    }

    /** ensure_capacity */
    method EnsureCapacity(needed: nat)
      requires Valid()
      modifies this`items, this`capacity, this`carried
      ensures Valid() && (items == old(items) || fresh(items))
      ensures capacity == Grown(old(capacity), needed)
      ensures carried == old(carried) + Carried(old(capacity), needed)
    {
      if needed <= capacity {
        return;
      }
      var newCapacity := if capacity == 0 then DEFAULT_CAPACITY else capacity;
      while newCapacity < needed
        invariant capacity <= newCapacity && newCapacity > 0
        invariant Doubled(newCapacity, needed) == Grown(capacity, needed)
        decreases needed - newCapacity
      {
        newCapacity := newCapacity * 2;
      }
      items := Realloc(items, newCapacity);
      carried := carried + capacity;
      capacity := newCapacity;
    }

    /** wstring_list_insert; NULL is refused, and an index beyond the end. */
    method Insert(index: nat, str: Option<Wide>) returns (ok: bool)
      requires Valid()
      modifies this, items
      ensures Valid() && (items == old(items) || fresh(items)) && freed == old(freed)
      ensures ok <==> str.Some? && index <= old(count)
      ensures !ok ==> view == old(view) && capacity == old(capacity) && carried == old(carried)
      ensures ok ==> |view| == |old(view)| + 1 && fresh(view[index]) && view[index].text == str.value
      ensures ok ==> view == old(view)[..index] + [view[index]] + old(view)[index..]
      ensures ok ==> capacity == Grown(old(capacity), old(count) + 1)
      ensures ok ==> carried == old(carried) + Carried(old(capacity), old(count) + 1)
    {
      hide Grown, Carried, Slots, SetOf, Distinct;
      if str.None? || index > count {
        return false;
      }
      EnsureCapacity(count + 1);
      var copy := new Buffer(str.value);
      ghost var s := view;
      ShiftRight(items, index, count, copy, s);
      NotYetThere(s, copy);
      DistinctPush(s, index, copy);
      count := count + 1;
      view, owned := s[..index] + [copy] + s[index..], owned + {copy};
      ok := true;
    }

    /** wstring_list_append */
    method Append(str: Option<Wide>) returns (ok: bool)
      requires Valid()
      modifies this, items
      ensures Valid() && (items == old(items) || fresh(items)) && freed == old(freed)
      ensures ok <==> str.Some?
      ensures !ok ==> view == old(view) && capacity == old(capacity) && carried == old(carried)
      ensures ok ==> |view| == |old(view)| + 1 && old(view) <= view
      ensures ok ==> fresh(view[|old(view)|]) && view[|old(view)|].text == str.value
      ensures ok ==> capacity == Grown(old(capacity), old(count) + 1)
      ensures ok ==> carried == old(carried) + Carried(old(capacity), old(count) + 1)
    {
      hide Grown, Carried, SetOf, Distinct;
      if str.None? {
        return false;
      }
      EnsureCapacity(count + 1);
      var copy := new Buffer(str.value);
      ghost var s := view;
      NotYetThere(s, copy);
      DistinctPush(s, |s|, copy);
      assert s[..|s|] + [copy] + s[|s|..] == s + [copy];
      items[count] := copy;
      count := count + 1;
      view, owned := s + [copy], owned + {copy};
      ok := true;
    }

    /** wstring_list_remove */
    method Remove(index: nat) returns (ok: bool)
      requires Valid()
      modifies this, items
      ensures Valid() && items == old(items) && capacity == old(capacity) && carried == old(carried)
      ensures ok <==> index < old(count)
      ensures !ok ==> view == old(view) && freed == old(freed)
      ensures ok ==> view == old(view)[..index] + old(view)[index + 1..] && freed == old(freed) + [old(view)[index]]
    {
      hide Distinct, SetOf;
      if index >= count {
        return false;
      }
      ghost var s := view;
      Owns(s, index);
      if items[index] != null {
        Free(items[index]);
      }
      ShiftLeft(items, index, count, s);
      count := count - 1;
      items[count] := null;
      DistinctDrop(s, index);
      view := s[..index] + s[index + 1..];
      ok := true;
    }

    /** Free the strings from some index on. */
    method FreeFrom(from: nat)
      requires Valid() && from <= count
      modifies this`owned, this`freed
      ensures owned == SetOf(view[..from]) && freed == old(freed) + view[from..]
    {
      hide Distinct, SetOf;
      var i := from;
      assert view[..from] + view[from..] == view;
      while i < count
        invariant from <= i <= count && freed == old(freed) + view[from..i]
        invariant owned == SetOf(view[..from] + view[i..])
      {
        ghost var rest := view[..from] + view[i..];
        DistinctCut(view, from, i);
        Owns(rest, from);
        if items[i] != null {
          Free(items[i]);
        }
        DistinctDrop(rest, from);
        assert rest[..from] + rest[from + 1..] == view[..from] + view[i + 1..];
        i := i + 1;
      }
      assert view[..from] + view[count..] == view[..from];
    }

    /** wstring_list_clear */
    method Clear()
      requires Valid()
      modifies this, items
      ensures Valid() && items == old(items) && capacity == old(capacity) && carried == old(carried)
      ensures view == [] && freed == old(freed) + old(view)
    {
      FreeFrom(0);
      assert view[..0] == [] && view[0..] == view;
      forall i | 0 <= i < count {
        items[i] := null;
      }
      view, count := [], 0;
    }

    /** wstring_list_resize: what does not fit any more is freed. */
    method Resize(newCapacity: nat)
      requires Valid()
      modifies this
      ensures Valid() && fresh(items) && capacity == newCapacity
      ensures var n := if newCapacity < |old(view)| then newCapacity else |old(view)|;
        view == old(view)[..n] && freed == old(freed) + old(view)[n..]
    {
      hide SetOf;
      ghost var s := view;
      if newCapacity < count {
        FreeFrom(newCapacity);
        count := newCapacity;
      } else {
        assert s[..|s|] == s && s[|s|..] == [];
      }
      view := s[..count];
      carried := carried + if capacity < newCapacity then capacity else newCapacity;
      items := Realloc(items, newCapacity);
      capacity := newCapacity;
    }

    /** wstring_list_sort: qsort leaves `order`. */
    method Sort(order: seq<Buffer>)
      requires Valid() && IsSortOf(order, view)
      modifies this`view, items
      ensures Valid() && view == order
    {
      SameStrings(order, view);
      forall i | 0 <= i < count {
        items[i] := order[i];
      }
      view := order;
    }

    /**
      A string of the loop of wstring_list_unique that stays. The slot it moves to is always empty by
      then, so the free at line 322 is never reached.
     */
    method KeepString(writeIdx: nat, i: nat, ghost kept: seq<Buffer>, ghost order: seq<Buffer>)
      requires Middle(items[..], kept, i, order) && i < |order| && writeIdx == |kept|
      modifies items
      ensures Middle(items[..], kept + [order[i]], i + 1, order)
    {
      if writeIdx != i {
        if items[writeIdx] != null {
          assert false;
        }
        items[writeIdx] := items[i];
        items[i] := null;
      }
    }

    /** A string that is freed. */
    method DropString(i: nat, ghost kept: seq<Buffer>, ghost order: seq<Buffer>)
      requires Middle(items[..], kept, i, order) && i < |order|
      requires Remaining(owned, kept, i, order)
      modifies this`owned, this`freed, items
      ensures Middle(items[..], kept, i + 1, order) && freed == old(freed) + [order[i]]
      ensures Remaining(owned, kept, i + 1, order)
    {
      hide Distinct, SetOf;
      ghost var all := kept + order[i..];
      Owns(all, |kept|);
      if items[i] != null {
        Free(items[i]);
        items[i] := null;
      }
      DistinctDrop(all, |kept|);
      assert all[..|kept|] == kept && all[|kept| + 1..] == order[i + 1..];
    }

    /** The test at lines 317-318. */
    method Differs(writeIdx: nat, i: nat, ghost kept: seq<Buffer>, ghost order: seq<Buffer>) returns (differs: bool)
      requires Middle(items[..], kept, i, order) && i < |order| && writeIdx == |kept| && (i > 0 ==> kept != [])
      ensures differs <==> i == 0 || Compare(order[i].text, kept[|kept| - 1].text) != 0
    {
      if i == 0 {
        return true;
      }
      if items[i] != null && items[writeIdx - 1] != null {
        var c := WStringCmp(items[i], items[writeIdx - 1]);
        return c != 0;
      }
      return false;
    }

    /** The loop of wstring_list_unique. */
    method Compact(ghost order: seq<Buffer>)
      returns (writeIdx: nat, ghost kept: seq<Buffer>, ghost dropped: seq<Buffer>)
      requires count == |order| && Slots(items[..], order)
      requires Distinct(order) && owned == SetOf(order) && Ascending(order)
      modifies this`owned, this`freed, items
      ensures writeIdx == |kept| && Slots(items[..], kept) && Distinct(kept) && owned == SetOf(kept)
      ensures Halfway(order, |order|, kept, dropped) && freed == old(freed) + dropped
    {
      hide Halfway, Ascending, SetOf, Distinct, Middle, Slots, Remaining;
      kept, dropped, writeIdx := [], [], 0;
      HalfwayStart(order);
      MiddleStart(items[..], order);
      RemainingEnds(owned, [], order);
      for i := 0 to count
        invariant Halfway(order, i, kept, dropped) && Middle(items[..], kept, i, order)
        invariant writeIdx == |kept| && (i > 0 ==> writeIdx > 0)
        invariant Remaining(owned, kept, i, order)
        invariant freed == old(freed) + dropped
      {
        var differs := Differs(writeIdx, i, kept, order);
        if differs {
          KeepStep(order, i, kept, dropped);
          KeepString(writeIdx, i, kept, order);
          RemainingKept(owned, kept, i, order);
          kept, writeIdx := kept + [order[i]], writeIdx + 1;
        } else {
          DropStep(order, i, kept, dropped);
          DropString(i, kept, order);
          dropped := dropped + [order[i]];
        }
      }
      RemainingEnds(owned, kept, order);
      MiddleEnd(items[..], kept, order);
    }

    /** wstring_list_unique: one string of each text is left, in order; the others are freed, once each. */
    method Unique(order: seq<Buffer>)
      requires Valid() && IsSortOf(order, view)
      modifies this`view, this`count, this`owned, this`freed, items
      ensures Valid() && StrictlyAscending(view) && TextSet(view) == TextSet(old(view))
      ensures old(freed) <= freed
      ensures multiset(old(view)) == multiset(view) + multiset(freed[|old(freed)|..])
    {
      hide Ascending, TextSet, SetOf, Halfway, Slots, Distinct;
      if count <= 1 {
        return;
      }
      ghost var was := freed;
      SameTexts(order, view);
      Sort(order);
      var writeIdx, kept, dropped := Compact(order);
      HalfwayEnd(order, kept, dropped);
      assert freed[|was|..] == dropped;
      count, view := writeIdx, kept;
    }
  }

  /** In the middle of the loop: the kept strings, empty slots, and the strings still to come. */
  predicate Middle(a: seq<Buffer?>, kept: seq<Buffer>, i: nat, order: seq<Buffer>) {
    && |kept| <= i <= |order| <= |a|
    && (forall k :: 0 <= k < |kept| ==> a[k] == kept[k])
    && (forall k :: |kept| <= k < i ==> a[k] == null)
    && (forall k :: i <= k < |order| ==> a[k] == order[k])
    && (forall k :: |order| <= k < |a| ==> a[k] == null)
  }

  /** What is owned then: the kept strings and those still to come. */
  ghost predicate Remaining(owned: set<Buffer>, kept: seq<Buffer>, i: nat, order: seq<Buffer>) {
    i <= |order| && Distinct(kept + order[i..]) && owned == SetOf(kept + order[i..])
  }

  lemma RemainingKept(owned: set<Buffer>, kept: seq<Buffer>, i: nat, order: seq<Buffer>)
    requires i < |order| && Remaining(owned, kept, i, order)
    ensures Remaining(owned, kept + [order[i]], i + 1, order)
  {
    assert kept + order[i..] == kept + [order[i]] + order[i + 1..];
  }

  lemma RemainingEnds(owned: set<Buffer>, kept: seq<Buffer>, order: seq<Buffer>)
    ensures Distinct(order) && owned == SetOf(order) ==> Remaining(owned, [], 0, order)
    ensures Remaining(owned, kept, |order|, order) ==> Distinct(kept) && owned == SetOf(kept)
  {
    assert [] + order[0..] == order && kept + order[|order|..] == kept;
  }

  lemma MiddleStart(a: seq<Buffer?>, order: seq<Buffer>)
    requires Slots(a, order)
    ensures Middle(a, [], 0, order)
  {
  }

  lemma MiddleEnd(a: seq<Buffer?>, kept: seq<Buffer>, order: seq<Buffer>)
    requires Middle(a, kept, |order|, order)
    ensures Slots(a, kept)
  {
  }

  lemma HalfwayEnd(order: seq<Buffer>, kept: seq<Buffer>, dropped: seq<Buffer>)
    requires Halfway(order, |order|, kept, dropped)
    ensures StrictlyAscending(kept) && TextSet(kept) == TextSet(order)
    ensures multiset(order) == multiset(kept) + multiset(dropped)
  {
    assert order[..|order|] == order;
  }

  lemma SameTexts(order: seq<Buffer>, s: seq<Buffer>)
    requires multiset(order) == multiset(s)
    ensures TextSet(order) == TextSet(s)
  {
    forall b: Buffer
      ensures b in order <==> b in s
    {
      assert b in order <==> b in multiset(order);
      assert b in s <==> b in multiset(s);
    }
  }

  /** Sorting keeps the strings, and how many there are. */
  lemma SameStrings(order: seq<Buffer>, s: seq<Buffer>)
    requires multiset(order) == multiset(s) && Distinct(s)
    ensures |order| == |s| && SetOf(order) == SetOf(s) && Distinct(order)
  {
    assert |multiset(order)| == |order| && |multiset(s)| == |s|;
    forall b: Buffer
      ensures b in order <==> b in s
    {
      assert b in order <==> b in multiset(order);
      assert b in s <==> b in multiset(s);
    }
    forall i, j | 0 <= i < j < |order|
      ensures order[i] != order[j]
    {
      if order[i] == order[j] {
        TwiceIn(order, i, j);
        Once(s, order[i]);
      }
    }
  }

  lemma {:induction false} Once(s: seq<Buffer>, b: Buffer)
    requires Distinct(s)
    ensures multiset(s)[b] <= 1
  {
    if s != [] {
      var n := |s| - 1;
      assert s == s[..n] + [s[n]];
      Once(s[..n], b);
      assert b == s[n] ==> b !in s[..n];
    }
  }

  lemma Owns(s: seq<Buffer>, i: nat)
    requires i < |s|
    ensures s[i] in SetOf(s)
  {
  }

  lemma DistinctCut(s: seq<Buffer>, from: nat, i: nat)
    requires from <= i <= |s| && Distinct(s)
    ensures Distinct(s[..from] + s[i..])
  {
    var t := s[..from] + s[i..];
    assert forall k :: 0 <= k < |t| ==> t[k] == s[if k < from then k else k - from + i];
  }

  lemma NotYetThere(s: seq<Buffer>, b: Buffer)
    requires b !in SetOf(s)
    ensures b !in s
  {
  }
}
