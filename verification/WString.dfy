/**
  Wide strings, src/bas/base/wstring.c. A text is the units before the terminating zero, so a unit
  is any uint16_t but zero.
 */
module WString {
  import opened CText

  type Unit = u: int | 1 <= u < 0x1_0000 witness 1
  type Wide = seq<Unit>

  /** A malloc'ed wide string. */
  class Buffer {
    const text: Wide

    constructor (text: Wide)
      ensures this.text == text
    {
      this.text := text;
    }
  }

  /** -1, 0 or 1, by the first unit that differs; a text is below its extensions. */
  function Compare(a: Wide, b: Wide): (r: int)
    ensures -1 <= r <= 1
    decreases |a|
  {
    if a == [] then (if b == [] then 0 else -1)
    else if b == [] then 1
    else if a[0] < b[0] then -1
    else if a[0] > b[0] then 1
    else Compare(a[1..], b[1..])
  }

  lemma CompareNext(a: Wide, b: Wide, i: nat)
    requires i <= |a| && i <= |b|
    ensures Compare(a[i..], b[i..]) ==
      if i == |a| then (if i == |b| then 0 else -1)
      else if i == |b| then 1
      else if a[i] < b[i] then -1 else if a[i] > b[i] then 1 else Compare(a[i + 1..], b[i + 1..])
  {
    if i < |a| && i < |b| {
      assert a[i..][1..] == a[i + 1..] && b[i..][1..] == b[i + 1..];
    }
  }

  /** wstring_cmp: NULL is above every text. */
  method WStringCmp(a: Buffer?, b: Buffer?) returns (r: int)
    ensures a != null && b != null ==> r == Compare(a.text, b.text)
    ensures a == null || b == null ==> r == (if a == null then 1 else 0) - (if b == null then 1 else 0)
  {
    if a == null && b == null {
      return 0;
    }
    if a == null {
      return 1;
    }
    if b == null {
      return -1;
    }
    hide Compare;
    var i := 0;
    assert a.text[0..] == a.text && b.text[0..] == b.text;
    CompareNext(a.text, b.text, 0);
    while i < |a.text| && i < |b.text|
      invariant i <= |a.text| && i <= |b.text|
      invariant Compare(a.text[i..], b.text[i..]) == Compare(a.text, b.text)
    {
      CompareNext(a.text, b.text, i);
      if a.text[i] < b.text[i] {
        return -1;
      }
      if a.text[i] > b.text[i] {
        return 1;
      }
      i := i + 1;
    }
    CompareNext(a.text, b.text, i);
    if i == |a.text| && i == |b.text| {
      return 0;
    }
    if i == |a.text| {
      return -1;
    }
    return 1;
  }

  // ---------------------------------------------------------------------------
  // A total order
  // ---------------------------------------------------------------------------

  lemma {:induction false} CompareEqual(a: Wide, b: Wide)
    ensures Compare(a, b) == 0 <==> a == b
    decreases |a|
  {
    if a != [] && b != [] {
      CompareEqual(a[1..], b[1..]);
      assert a == [a[0]] + a[1..] && b == [b[0]] + b[1..];
    }
  }

  lemma {:induction false} CompareSwapped(a: Wide, b: Wide)
    ensures Compare(b, a) == -Compare(a, b)
    decreases |a|
  {
    if a != [] && b != [] {
      CompareSwapped(a[1..], b[1..]);
    }
  }

  lemma {:induction false} CompareTransitive(a: Wide, b: Wide, c: Wide)
    requires Compare(a, b) <= 0 && Compare(b, c) <= 0
    ensures Compare(a, c) <= 0 && (Compare(a, b) < 0 || Compare(b, c) < 0 ==> Compare(a, c) < 0)
    decreases |a|
  {
    if a != [] && b != [] && c != [] && a[0] == b[0] == c[0] {
      CompareTransitive(a[1..], b[1..], c[1..]);
    }
  }

  /** wstring_cmp is a total order on texts: exactly one of less, equal and greater, and transitive. */
  lemma TotalOrder(a: Wide, b: Wide, c: Wide)
    ensures Compare(a, b) == 0 <==> a == b
    ensures Compare(b, a) == -Compare(a, b)
    ensures Compare(a, b) <= 0 && Compare(b, c) <= 0 ==> Compare(a, c) <= 0
  {
    CompareEqual(a, b);
    CompareSwapped(a, b);
    if Compare(a, b) <= 0 && Compare(b, c) <= 0 {
      CompareTransitive(a, b, c);
    }
  }

  // ---------------------------------------------------------------------------
  // Searching
  // ---------------------------------------------------------------------------

  predicate OccursAt(hay: Wide, needle: Wide, i: nat) {
    i + |needle| <= |hay| && forall j :: 0 <= j < |needle| ==> hay[i + j] == needle[j]
  }

  /** wstring_strstr on two texts: the first occurrence, for an empty needle the start. */
  method WStringStrStr(hay: Wide, needle: Wide) returns (at: Option<nat>)
    ensures at.Some? ==> OccursAt(hay, needle, at.value) && forall k :: 0 <= k < at.value ==> !OccursAt(hay, needle, k)
    ensures at.None? ==> forall k: nat :: !OccursAt(hay, needle, k)
  {
    if |needle| == 0 {
      return Some(0);
    }
    if |needle| > |hay| {
      return None;
    }
    for i := 0 to |hay| - |needle| + 1
      invariant forall k :: 0 <= k < i ==> !OccursAt(hay, needle, k)
    {
      var matches, j := true, 0;
      while j < |needle|
        invariant j <= |needle| && matches && forall k :: 0 <= k < j ==> hay[i + k] == needle[k]
      {
        if hay[i + j] != needle[j] {
          matches := false;
          break;
        }
        j := j + 1;
      }
      if matches {
        return Some(i);
      }
    }
    return None;
  }
}
